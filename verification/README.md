# Verified model of PhysHarness's research commons

A Dafny 4.11 model of the parts of PhysHarness whose correctness lasts over whole runs: the lemma store,
the dependency graph, the inbox, referee assignment, task leases and continuation chains. Each module names
in its first comment the component it models; `dafny verify dfyconfig.toml` checks the project.

- **Basics, Graphs, Commons**: shared definitions, walks and reachability over possibly infinite graphs, and the records of the commons.
- **Closures**: whether a published source still stands, by a memoised depth-first search on an explicit
  stack, proved equal to a least fixpoint; verdicts therefore cannot depend on the order of queries.
- **Publication**: the bounded import search, which source keeps its place, and acyclic stored imports over
  every run of publications.
- **Traversal, LongPole, CommonsGraph**: the bounded breadth-first walker, the goal's long pole, and the
  store with its acyclicity guard and the memo of the pole keyed by the last event that can move it.
- **Inbox, Delivery, Excerpts**: writers that lock, allocate and later commit; readers that subscribe, poll
  and acknowledge; the peek that wakes a waiting reader; bounded excerpts.
- **Inliner, Flattener**: flattening an import closure into one file, with its size, line map and scopes.
- **Referees, NodeData, Objective**: one holder of a statement's reviews, bounded panels, the lossless
  fenced encoding and the clipped objective.
- **Leases**: fencing tokens, completion and joined children.
- **Chains, Lineage**: the hand-over of one task from session to session, and its independent validator.
- **Masking**: blanking Lean comments and strings in place.

Where the source updates records in place the model is a class whose methods are proved against a
specification on values; the run theorems are about that specification. What an operation accepts and what it
leaves is also stated over the stored fields alone, apart from the functions that compute it. Some invariants are kept behind a
quantifier that is unfolded only where `Unfolded(0)` is mentioned; this changes no meaning, only what the
solver looks at.

What the source's own words do not say and the proofs found:

- The long-pole memo and a fresh computation differ in one case: past 5000 nodes or 50,000 edges a fresh
  reader is refused while the memo still answers (`CommonsGraph.PoleOutlivesItsBound`).
- The peek of an event wait can be false although a poll delivers: a post out of scope, or one push would
  skip that may no longer be read, comes as a withdrawal notice (`Delivery.PeekAgrees`).
- A worker's own submission is checked against its live lease before and after it (src/physharness/service.py:833-847, 878,
  891); one made outside a worker is not, and none asks whether the panel has room. Nor does a continuation ask
  whether the referee it queues again still has a seat. The bound on a panel holds exactly as long as every late
  verdict finds room and every referee back without one a seat (`Referees.PanelsBoundedExactly`).
- Neither restoring an unstarted continuation nor issuing one from an expired lease looks at the task's
  status, so either can queue a task again that had ended; nothing else can
  (`Chains.OutcomeIsFinalExactly`, `Chains.RevivableExactly`). So a completed task's joined children stay
  settled, and a running task's prerequisites completed, exactly as long as none of them is queued again
  (`Leases.JoinedWorkIsSettled`, `Leases.PrerequisitesStayCompleted`).
- An environment import is hoisted as often as the first source that has it repeats it, so none is repeated
  exactly when the caller repeats none and each module repeats only what was hoisted before it
  (`Flattener.HoistedAsOften`, `Flattener.HoistedOnce`).
- The bounded import search can miss a cycle only past 200 modules; a publication let through closes one
  exactly when something it imports reaches the node (`Publication.PublishedAcyclicExactly`).

## Model

| member | source | states |
|---|---|---|
| `Closures.Judge.SourceStands` | src/physharness/commons_sources.py:329-353 | For any queries already asked on the instance, the answer is the least-fixpoint verdict of the node; no verdict held is ever changed; the loop ends by a lexicographic measure and the verdict is always found without a default |
| `Closures.Judge.ReadChildren` | src/physharness/commons_sources.py:316-327 | The children are the nodes of the recorded closure, else of the imports, in order, when each entry has the digest of its node's source now; None as soon as one has not |
| `Closures.StandsIsLeastFixpoint` | src/physharness/commons_sources.py:280-290 | "Stands" satisfies the rule, stated over the stored sources: a recorded closure matches entry by entry, or without one every import matches by digest and itself stands; and it lies inside every set the rule closes |
| `Closures.CycleNeverStands` | src/physharness/commons_sources.py:280-290 | A node on an unrecorded import cycle does not stand |
| `Closures.AboveCycleNeverStands` | src/physharness/commons_sources.py:280-290 | Neither does any node that reaches such a cycle |
| `Closures.CycleFound` | src/physharness/commons_sources.py:336-351 | When the search meets an unfinished child, that child is on the current search path, so the false verdict given is the right one |
| `Closures.UnfinishedArePath` | src/physharness/commons_sources.py:336-353 | Whatever the search has done, the nodes expanded and not yet judged are exactly those on the search path |
| `Closures.Expand` | src/physharness/commons_sources.py:345-352 | Expanding the top of the stack puts it on that path and its unjudged children above it |
| `Publication.ImportsReach` | src/physharness/commons_sources.py:676-693 | The queue loop computes the bounded search |
| `Publication.BoundedReachSound` | src/physharness/commons_sources.py:676-693 | A positive answer is real reachability, whatever the size of the closure |
| `Publication.ImportsReachExact` | src/physharness/commons_sources.py:676-693 | With at most 200 nodes besides the target in the closure, the answer is exactly reachability |
| `Publication.ChainOfImportsSearched` | src/physharness/commons_sources.py:680-688 | On a chain of imports of any length the target is reachable, and the search finds it if and only if the length is at most 200: the bound is tight |
| `Publication.Judgement` | src/physharness/commons_sources.py:862-901 | The outcome of a publication, check by check, in the order the command decides; what the stored artifact, its text and the branches' state say enters as facts about it |
| `Publication.PublishedExactly` | src/physharness/commons_sources.py:862-901 | Each answer exactly by the stored fields: a source is published when every check passes; it is answered by the held rank if and only if the held source is of the current statement and stands, and the new rank is lower, or equal and complete or verified, from neither publisher nor author, with the held source verified, of an elaborated statement or of a live holder |
| `Publication.SourceStateIs` | src/physharness/commons_sources.py:356-364 | What a node's source proves: its rank when it is of the current statement and stands, else stale; without a source a stub of an elaborated statement, or nothing |
| `Publication.PublishedAcyclicExactly` | src/physharness/commons_sources.py:899-928 | For a closure of any size, a publication let through keeps the imports acyclic if and only if nothing it imports reaches the node |
| `Publication.PublishKeepsAcyclic` | src/physharness/commons_sources.py:899-928 | A publication or replacement whose closure fits the bound closes no import cycle |
| `Publication.StoredImportsStayAcyclic` | src/physharness/commons_sources.py:844-928 | The stored import graph stays acyclic along every run of node creations, statement and status changes, publications and replacements whose closures fit the bound |
| `Publication.StandingRankNeverFalls` | src/physharness/commons_sources.py:230-258 | Along every run of those commands, while a node's source stands its rank never falls |
| `Publication.OutsidersNeverReplace` | src/physharness/commons_sources.py:230-258 | A standing verified source, or a complete one of an elaborated statement or with a live holder, is the same after any run in which only others than its publisher and the author publish on the node, a verified source over a complete one aside |
| `Publication.ReplacementStalesImporters` | src/physharness/commons_sources.py:316-353 | Replacing a source by another file leaves none standing that recorded the old one in its closure, or imports it and recorded none |
| `Traversal.DependsClosure` | src/physharness/commons.py:127-139 | Not cut short: exactly the nodes reachable from the start, itself aside, without repeats, nearest first; cut short: exactly `limit` of them, nearest first, and at least one more exists |
| `Traversal.OrderIsNearestFirst` | src/physharness/commons.py:127-139 | Queue order is non-decreasing in distance |
| `LongPole.DependencyChildren` | src/physharness/commons.py:106-111 | The children lists hold exactly the rows of each source |
| `LongPole.JudgeOpen` | src/physharness/commons.py:114-124 | The open set is exactly the open nodes whose source does not prove them, by least-fixpoint verdicts |
| `LongPole.GoalParts` | src/physharness/commons.py:776-782 | Within the node bound the bounded walk finds exactly what the goal reaches through open nodes |
| `LongPole.ComputePole` | src/physharness/commons.py:755-788 | The computed pole is the three oldest of the goal's open parts that wait on no open node, else of the open nodes most open nodes depend on |
| `LongPole.OpenIdsAre` | src/physharness/commons.py:114-124 | Open work, by the fields: an open status, and no complete or verified source of the current statement that stands, unless the node has no elaborated statement and is no definition |
| `LongPole.ChosenAre` | src/physharness/commons.py:770-784 | The nodes chosen: those the goal reaches by rows through open nodes that depend on no open one; and when there are none, those with the most rows from open nodes, ties kept |
| `LongPole.PoleAre` | src/physharness/commons.py:784-788 | The pole is the three of the chosen nodes created first, identifiers breaking ties, in that order, or all when they are fewer |
| `LongPole.SinkExists` | src/physharness/commons.py:755-782 | In an acyclic graph, every open part of the goal reaches an open part that waits on nothing open |
| `LongPole.LongPoleWaitsOnNothing` | src/physharness/commons.py:755-788 | Whenever the goal depends directly on an open node, the pole is not empty and nothing in it waits on an open node |
| `CommonsGraph.CheckLink` | src/physharness/commons.py:416-439 | A link is let through only when its target does not reach its source; "cycle" is answered only for a real one; the search fails closed |
| `CommonsGraph.NewSourceLinks` | src/physharness/commons.py:426-427 | An edge from a node nothing depends on closes no cycle, so it needs no search |
| `CommonsGraph.LinkedAcyclic` | src/physharness/commons.py:416-447 | Adding an edge let through keeps the graph acyclic |
| `CommonsGraph.Graphstore.AddEdge` | src/physharness/commons.py:416-467 | The outcome in every case: within 5000 nodes and 50,000 edges a new depends_on edge is added if and only if its target does not reach its source; the graph stays acyclic; the event that can move the pole is recorded |
| `CommonsGraph.Graphstore.LinkNodes` | src/physharness/commons.py:469-492 | The same outcome for two named nodes; a refused link changes nothing |
| `CommonsGraph.Graphstore.CreateNode` | src/physharness/commons.py:347-414 | All edges, of every relation and one a link, or none; the memo stays right although creating an unlinked node is no event that moves the pole |
| `CommonsGraph.Graphstore.EnsureGoal` | src/physharness/commons.py:229-281 | One goal; creating it leaves every memoised pole right |
| `CommonsGraph.Graphstore.SetStatement` | src/physharness/commons_review.py:833-900 | A Lean statement set on an open node, with the event that can move the pole |
| `CommonsGraph.Graphstore.SetStatus` | src/physharness/commons.py:954-992 | Only an open node moves, and only to a closed status |
| `CommonsGraph.Graphstore.PublishSource` | src/physharness/commons_sources.py:862-937 | A published source's imports become depends_on edges except those that would close a cycle; another edge error, which only an unknown import or a graph at its bounds gives, undoes the publication |
| `CommonsGraph.Graphstore.LongPoleIdsAt` | src/physharness/continuation.py:1564-1573 | Over every history the memo's answer is the pole of the present state; it equals what a fresh reader gets if and only if nothing was held or the graph is within 5000 nodes and 50,000 edges |
| `CommonsGraph.IsolatedNodeKeepsPole` | src/physharness/continuation.py:44-54 | Creating a node no edge touches, the goal included, moves no long pole |
| `CommonsGraph.Remembered` | src/physharness/continuation.py:1570-1572 | Keeping a pole at a new head, and dropping the oldest past 256, leaves each held head right |
| `CommonsGraph.PoleOutlivesItsBound` | src/physharness/continuation.py:1564-1573 | A concrete history in which the memo still answers and a fresh computation refuses: 5000 unlinked nodes, a pole kept, one node more |
| `Inbox.StepKeepsInv` | src/physharness/discussion.py:32-37 | Every step of every writer and reader keeps the invariant: inbox rows in flight belong to the lock's holder and follow every committed one; batches tile the line up to each cursor; caps and starts hold |
| `Inbox.NothingCommitsBehindTheCursor` | src/physharness/discussion.py:32-37 | On every run, no inbox event at or below a reader's cursor commits later |
| `Inbox.ExactlyOnce` | src/physharness/discussion.py:778-905 | Under every interleaving, an event of a channel the reader follows from before its commit until the cursor passes it is in exactly one delivery, once, or was skipped once |
| `Inbox.HandledOnceForGood` | src/physharness/discussion.py:778-905 | It stays so on every longer run, whatever is unsubscribed, redelivered or withdrawn afterwards |
| `Inbox.DeliveriesInOrder` | src/physharness/discussion.py:778-991 | Delivery ranges are disjoint and increasing, and only the last one can be pending |
| `Inbox.CursorsOnlyAdvance` | src/physharness/discussion.py:907-991 | No reader's cursor ever moves back |
| `Inbox.CommitsPastCursors` | src/physharness/discussion.py:412-458 | A row commits only past every cursor and past every subscription start |
| `Inbox.EligibleByFields` | src/physharness/discussion.py:691-729 | What a reader may be sent after a cursor: its own branch's mail, and posts of a topic it follows past where it started there |
| `Inbox.SubscribedByFields` | src/physharness/discussion.py:634-685 | A subscription that is set already, or would be the 101st, changes nothing; else it is stored, starting at the newest sequence its transaction sees, or keeping its start when it ends |
| `Inbox.CommittedByFields` | src/physharness/discussion.py:32-37 | A commit makes exactly the transaction's own rows and subscriptions visible, frees its locks, and leaves all else |
| `Inbox.NextBatchHandles` | src/physharness/discussion.py:818-905 | A batch handles each eligible event up to its end once, inside its own range |
| `Inbox.SubscribeStart` | src/physharness/discussion.py:595-689 | A new subscription starts at or past its reader's cursor and before any sequence still to come |
| `Inbox.SubscribeCap` | src/physharness/discussion.py:634-652 | No reader follows more than 100 topics, whatever is still in flight |
| `Inbox.LastSanitized` | src/physharness/discussion.py:271-286 | Withdrawing sources from a pending delivery changes no cursor and nothing that was handled |
| `Inbox.UrgentFirstStable` | src/physharness/discussion.py:882 | Urgent items come first, and within each group the order stays; with the postcondition of `Inbox.UrgentFirst`, no item is lost |
| `Delivery.Scan` | src/physharness/discussion.py:830-865 | The scan loop handles events until the batch is full, never over its count or its 12,000 bytes, and stops early only when the next item would not fit |
| `Delivery.SameBytes` | src/physharness/discussion.py:861-882 | Sorting the items leaves the measured bytes what they were |
| `Delivery.PendingUpdate` | src/physharness/discussion.py:737-776 | The paged scan answers true exactly when one of the first 1000 eligible events is a message or a readable post push would send |
| `Delivery.EligibleAfter` | src/physharness/discussion.py:748-775 | A later page is the rest of one ordered list |
| `Delivery.PollProgresses` | src/physharness/discussion.py:830-905 | A poll with an eligible event always gets further: it stores a batch with items, or its cursor comes to the end of a whole page of skips |
| `Delivery.BatchTells` | src/physharness/discussion.py:835-860 | Each item of a batch is its event's: a withdrawal notice when the source may no longer be read, else as urgent as the source; and only readable posts that push keeps back are passed over |
| `Delivery.BatchIsFull` | src/physharness/discussion.py:818-865 | A batch leaves an eligible event for later only when it handled a hundred, holds as many items as asked, or has no room for the next in 12,000 bytes |
| `Delivery.RoundsPassEverything` | src/physharness/discussion.py:778-991 | Polls and acknowledgements in turn pass every eligible event: one at least a round, and one round more for a batch still pending |
| `Delivery.PollingDelivers` | src/physharness/discussion.py:778-905 | An eligible event that is not a skip is reached in at most one poll for each hundred events up to it |
| `Delivery.PollingOnlyAdvances` | src/physharness/discussion.py:866-874 | With only skips to come polling delivers nothing, and passes a hundred events a poll |
| `Delivery.PendingIsDelivered` | src/physharness/discussion.py:737-776 | If the peek says there is an update, at most ten polls from that cursor deliver items |
| `Delivery.PollingDeliversExactly` | src/physharness/discussion.py:778-905 | However many events are eligible, polling comes to deliver items if and only if one of them is not a skip |
| `Delivery.PeekAgrees` | src/physharness/discussion.py:737-776 | Up to 1000 eligible events: a true peek is delivered within ten polls, and after a false one polling delivers nothing if and only if no event comes as a silent withdrawal notice |
| `Delivery.QuietInboxOnlyAdvances` | src/physharness/discussion.py:737-776 | After a false peek without such notices, polling only advances, and ten polls pass everything |
| `Delivery.WithdrawnPostIsMissed` | src/physharness/discussion.py:764-766 | The exception is real: an agent's post put out of scope leaves the peek false and is still delivered as a notice |
| `Delivery.PollReader` | src/physharness/discussion.py:795-905 | A poll redelivers the pending batch sanitized, else makes the next one; within count and byte bounds |
| `Delivery.AcknowledgeReader` | src/physharness/discussion.py:907-991 | A batch is acknowledged if and only if it is the pending one and each item is of a source still readable or a notice already; then the cursor is its end and nothing is pending. Refused, only items of sources no longer readable become notices |
| `Delivery.InboxTables.constructor` | src/physharness/discussion.py:778-790 | Empty tables satisfy the invariant |
| `Delivery.InboxTables.TakeLock` | src/physharness/discussion.py:32-37 | The inbox lock is held until its transaction ends |
| `Delivery.InboxTables.InsertEvent` | src/physharness/discussion.py:412-458 | The lock first, then the next sequence |
| `Delivery.InboxTables.InsertOther` | src/physharness/discussion.py:412-458 | An event no inbox reads takes the next sequence without the lock |
| `Delivery.InboxTables.Abort` | src/physharness/discussion.py:32-37 | What a transaction that fails had in flight is gone, its locks are free, and all else is as it was |
| `Delivery.InboxTables.SetSubscription` | src/physharness/discussion.py:595-685 | Reader lock, inbox lock, then the row; the whole new state |
| `Delivery.InboxTables.Commit` | src/physharness/discussion.py:32-37 | A commit publishes the transaction's rows and subscriptions and frees its locks |
| `Delivery.InboxTables.Updates` | src/physharness/discussion.py:778-905 | The stored effect of one poll |
| `Delivery.InboxTables.Acknowledge` | src/physharness/discussion.py:907-991 | The same over the stored readers |
| `Excerpts.BoundedExcerpt` | src/physharness/discussion.py:113-139 | The excerpt is all of the first kilobyte if that fits, else the longest shorter prefix that keeps the item within 2048 bytes; it fails only when no excerpt at all would fit |
| `Excerpts.BytesGrow` | src/physharness/discussion.py:118-135 | A longer excerpt never serializes shorter, which the binary search relies on |
| `Excerpts.ItemIsItsJson` | src/physharness/discussion.py:113-139 | An item counts its excerpt and its flag as their JSON in UTF-8 counts them |
| `Inliner.Utf8Reads` | src/physharness/commons_sources.py:581-617 | A character counts as many bytes as its UTF-8 has (RFC 3629, section 3), from which it is read back |
| `Inliner.SplitImports` | src/physharness/commons_sources.py:371-390 | The loop takes a source apart at its first line that is neither blank nor an import |
| `Inliner.SplitIs` | src/physharness/commons_sources.py:371-390 | By the lines: the modules and environment imports are those of the import lines before the first code, one environment line for each with the words in their order; the rest starts at that code, or behind the last import |
| `Inliner.ScopeClosers` | src/physharness/commons_sources.py:393-410 | The `end` lines for exactly the scopes left open, innermost first; refused when an `end` closes what was not opened |
| `Inliner.RunIsMatching` | src/physharness/commons_sources.py:393-410 | The scopes left open are exactly those no later `end` matches, outermost first; none is answered if and only if at some point more scopes were closed than opened |
| `Inliner.RefusedExactly` | src/physharness/commons_sources.py:595-612 | A module is refused exactly when `#exit` is in its text or it closes a scope it never opened |
| `Inliner.Visitor.Visit` | src/physharness/commons_sources.py:583-622 | Success: the module and all below it are done, in order. Every error is justified by a real cycle, 201 distinct needed modules, a missing or refused module, or a part that alone is too large. It ends for any resolver, also one that describes an infinite graph |
| `Inliner.Visitor.VisitAll` | src/physharness/commons_sources.py:618-625 | The same for a list of imports |
| `Inliner.Visitor.Open` | src/physharness/commons_sources.py:587-617 | The checks on entering a module, in order, and the running floor |
| `Inliner.NeededClosed` | src/physharness/commons_sources.py:618-625 | What is needed is closed under imports |
| `Flattener.InlineCommons` | src/physharness/commons_sources.py:569-649 | A source without commons imports is unchanged; success gives exactly the needed modules, each once, after all it imports, at most 200, none refused, and the file within its limit; failure says why |
| `Flattener.FileIs` | src/physharness/commons_sources.py:626-637 | The file is the hoisted imports, each module's section in the order, and the caller's lines from the first after its imports; each segment says where its part is and whose |
| `Flattener.SectionIs` | src/physharness/commons_sources.py:630-636 | A section is its command, its title, the module's own lines, an `end` for each scope left open by its name, innermost first, and its own `end` |
| `Flattener.EnvironmentHoisted` | src/physharness/commons_sources.py:386-388 | Every environment import of the caller and of each module inlined is on a hoisted line, word for word |
| `Flattener.OnlyImportsHoisted` | src/physharness/commons_sources.py:626-628 | Every hoisted line is such an import |
| `Flattener.VisitedAll` | src/physharness/commons_sources.py:618-625 | The order visited is all of what the caller needs |
| `Flattener.OrderMeansAcyclic` | src/physharness/commons_sources.py:586-593 | A flattened closure has no import cycle |
| `Flattener.GoodClosureInlines` | src/physharness/commons_sources.py:569-649 | An acyclic, resolvable, unrefused closure of at most 200 modules is flattened, or is too large |
| `Flattener.InlinedIsGood` | src/physharness/commons_sources.py:569-649 | And only such a closure is flattened |
| `Flattener.FlatSize` | src/physharness/commons_sources.py:581-617 | Any flattened file is at least as long as the caller's lines and the modules' own together |
| `Flattener.EarlyRefusalSound` | src/physharness/commons_sources.py:615-617 | Refusing early by the running floor is sound: every flattening of the closure would be at least that long |
| `Flattener.SegmentsTile` | src/physharness/commons_sources.py:629-637 | Segments are disjoint and cover every line after the hoisted imports |
| `Flattener.CallerLines` | src/physharness/commons_sources.py:652-673 | A line past the sections is remapped to the line of the caller's source it is, character for character, and none of them is lost |
| `Flattener.SectionLines` | src/physharness/commons_sources.py:652-673 | A line of a module's section is reported in that module |
| `Flattener.HoistedElsewhere` | src/physharness/commons_sources.py:652-673 | A hoisted import is reported on no line of anyone's source |
| `Flattener.SectionScopes` | src/physharness/commons_sources.py:393-410 | A section leaves the scopes as it found them, whatever is open around it |
| `Flattener.ClosersNamed` | src/physharness/commons_sources.py:393-410 | Each closer ends the innermost open scope by its own name |
| `Flattener.CallerAtTopLevel` | src/physharness/commons_sources.py:629-637 | The caller's first line is at the top level, and no line before it closes what is not open |
| `Flattener.HoistedAll` | src/physharness/commons_sources.py:626-628 | Exactly the caller's and the modules' environment imports are hoisted |
| `Flattener.HoistedOnce` | src/physharness/commons_sources.py:626-628 | No line is hoisted twice if and only if the caller repeats none and each module only repeats lines a source before it imports |
| `Flattener.HoistedAsOften` | src/physharness/commons_sources.py:626-628 | A line is hoisted exactly as often as the first source that imports it repeats it |
| `Flattener.CallerRepeatsKept` | src/physharness/commons_sources.py:626-628 | The caller's own import lines come first as they stand, repeats included |
| `Referees.StatementOwner` | src/physharness/commons_review.py:387-446 | No owner is answered exactly when fewer than 20 earlier copies exist and each is closed and unrefereed; else the earliest of the first 20 that is open or refereed is named, and when none is, the earliest copy |
| `Referees.RequestAnswered` | src/physharness/commons_review.py:526-602 | Each answer by the stored fields: not reviewable, a copy's owner, the earliest live referee without a verdict, a full panel, not admitted, or one more assigned |
| `Referees.RequestKeepsOwned` | src/physharness/commons_review.py:526-602 | Assigning a referee keeps: every earlier copy of a refereed node is closed and drew no referee |
| `Referees.RunKeepsOwned` | src/physharness/commons_review.py:387-446 | That invariant along every run of creations, closings, requests, verdicts and endings |
| `Referees.OneNodeDrawsReferees` | src/physharness/commons_review.py:387-446 | At most one node of each normalized statement ever draws referees |
| `Referees.LateVerdictBounded` | src/physharness/commons_review.py:716-790 | A verdict of an ended task keeps its panel bounded if and only if the panel had room for it: fewer than the limit of gap reports and waiting referees for a gap report, of other referees for any other verdict |
| `Referees.RevivedBounded` | src/physharness/continuation.py:851-925 | A referee that ended without a verdict and is queued again by its continuation keeps its panel bounded if and only if a request could have drawn one more: none is waiting and neither count is full; one that had submitted changes no count |
| `Referees.PanelsBoundedExactly` | src/physharness/commons_review.py:343-378 | On every run of creations, closings, requests, verdicts, endings and returns, all panels stay bounded if and only if each late verdict had room, and each referee back without a verdict a seat, at that moment |
| `Referees.PanelsStayBounded` | src/physharness/commons_review.py:343-378 | With verdicts submitted only by live tasks, and ended ones back only while there is a seat, each version always has at most one live referee without a verdict, and at most quorum + 2 of each count |
| `Referees.WholePanelRead` | src/physharness/commons_review.py:368-378 | A page of twice the limit is then the whole panel |
| `Referees.EveryRequestSeesThePanel` | src/physharness/commons_review.py:343-378 | While late verdicts find room and returning referees a seat, every request along a run saw its whole panel, and a version's verdicts are at most twice the limit |
| `Referees.LateVerdictsPassEveryBound` | src/physharness/commons_review.py:716-790 | No bound holds without room: for every number there is a run whose version has that many verdicts |
| `Referees.RevivalsPassEveryBound` | src/physharness/continuation.py:851-925 | Nor without seats: for every number there is a run with no verdict at all whose version has that many live referees |
| `Referees.ReviewTables.RequestReview` | src/physharness/commons_review.py:526-602 | The answer and the stored effect of a request, check by check |
| `Referees.ReviewTables.SubmitReview` | src/physharness/commons_review.py:716-790 | One verdict a task; a second one is refused |
| `NodeData.EncodingIsLossless` | src/physharness/commons_review.py:124-128 | Reading the encoding as JSON (RFC 8259, section 7 for strings, section 6 for numbers) gives back the very value, for null, booleans, numbers, strings, lists and objects of any author text |
| `NodeData.WholeNumbersKept` | src/physharness/commons_review.py:127 | The decimal text of every whole number is a JSON number and stands for that number |
| `NodeData.EscapesAreShort` | src/physharness/commons_review.py:127 | The writer uses the shortest escape of each character, and none where none is needed |
| `NodeData.EncodingHasNoMarker` | src/physharness/commons_review.py:124-128 | The encoding never holds three consecutive `<` or `>` |
| `NodeData.TwoPasses` | src/physharness/commons_review.py:127-128 | The two replacements one after the other are one pass over the text |
| `NodeData.StringReads` | src/physharness/commons_review.py:127-128 | A string reads back however its brackets are spelled |
| `NodeData.ValueReads` | src/physharness/commons_review.py:127-128 | So does any value, at any depth of indentation and before any text (a number, before any that does not continue it) |
| `NodeData.FencedHasNoRun` | src/physharness/commons_review.py:128 | No run of three brackets survives the replacements |
| `Objective.Fit` | src/physharness/commons_review.py:131-142 | The longest prefix whose encoding fits, for every budget of at least 2; the empty text below it |
| `Objective.EncodedGrows` | src/physharness/commons_review.py:131-142 | A longer prefix never encodes shorter, bracket runs included |
| `Objective.RefereeObjective` | src/physharness/commons_review.py:145-179 | The platform's text around the node's id and the data as they are when that fits; else with each field over its budget cut to its longest fitting prefix, and a note that names just those fields; within the input bounds the bound error is unreachable |
| `Objective.DataReadsBack` | src/physharness/commons_review.py:148-155 | Read as JSON, the data are the title, statement and assumptions as given, and the interface if and only if it lists something |
| `Objective.ClippedDataFits` | src/physharness/commons_review.py:60-65 | The clipped data block is at most 17,576 characters for 32 assumptions and 20 interface lines |
| `Objective.DataWidth` | src/physharness/commons_review.py:148-155 | The exact width of the data block from the widths of its fields |
| `Leases.StepKeepsInv` | src/physharness/collaboration.py:380-657 | Every command, also those that queue or block a task, keeps: a live lease is a running task's, and no joined task depends directly on one that waits for it |
| `Leases.FencesNeverFall` | src/physharness/collaboration.py:463-515 | Fences never fall along a run, and each belongs to one holder |
| `Leases.AcquireIssuesNewFence` | src/physharness/collaboration.py:488-500 | An acquisition issues a fence higher than every one the task had |
| `Leases.AcceptedIsNewest` | src/physharness/collaboration.py:519-533 | Every accepted step that shows a token shows the newest fence and its holder, live if it is fenced and over if it is a continuation from an expired lease |
| `Leases.StaleTokenRefused` | src/physharness/collaboration.py:519-533 | Once a newer fence is issued nothing its old holder sends is accepted |
| `Leases.ChangesHandsOnlyExpired` | src/physharness/collaboration.py:488-491 | A lease changes hands only at an acquisition that found it expired |
| `Leases.OneLiveHolder` | src/physharness/collaboration.py:463-533 | Two workers never hold one task at once |
| `Leases.OutcomesAreFinal` | src/physharness/collaboration.py:628-657 | On every run, a finished outcome stays if and only if no later command queues the task again |
| `Leases.JoinedWorkIsSettled` | src/physharness/collaboration.py:643-657 | A task completes only with its joined children settled; and while it stays completed they stay settled if and only if none of them is queued again |
| `Leases.PrerequisitesStayCompleted` | src/physharness/collaboration.py:480-487 | A task is acquired only with its prerequisites completed, and they stay completed if and only if none of them is queued again |
| `Leases.JoinedDependsOnNoAncestor` | src/physharness/collaboration.py:402-419 | On every run, no joined task depends directly on a task that waits for it |
| `Leases.RequeuedChildUnsettles` | src/physharness/continuation.py:851-925 | It happens: a run in which a child ends, its parent completes and the child is queued again |
| `Leases.QueuedAsChained` | src/physharness/continuation.py:1872-1910 | Every continuation step that queues a task is an accepted command on these rows, with the token the step itself shows and the same status and lease |
| `Leases.CommandsFollowChain` | src/physharness/collaboration.py:463-657 | Every other accepted command on a task's status or lease is a step of its chain, with the same result |
| `Leases.RequeueGuard` | src/physharness/continuation.py:851-925 | An ended task is queued again by a continuation if and only if its chain is revivable, and then the command here is accepted |
| `Leases.DependsOnAncestor` | src/physharness/collaboration.py:402-419 | The walk up the waiting tasks finds a prerequisite among them exactly when there is one |
| `Leases.LineageIsAbove` | src/physharness/collaboration.py:402-419 | The ancestors it walks are the whole line of tasks that wait, each for the one before |
| `Leases.TaskTables.CreateTask` | src/physharness/collaboration.py:380-449 | The one new row, and exactly when it is refused |
| `Leases.TaskTables.AcquireTask` | src/physharness/collaboration.py:463-517 | Accepted exactly when the task is runnable, its prerequisites completed and no lease live; then it runs under the next fence for the seconds asked |
| `Leases.TaskTables.RenewTask` | src/physharness/collaboration.py:536-554 | Accepted exactly for the live current token, which is then live for the seconds asked |
| `Leases.TaskTables.RenewForCleanup` | src/physharness/collaboration.py:556-626 | The same with an open workspace; the lease ends at the later of its end and the one asked |
| `Leases.TaskTables.FinishTask` | src/physharness/collaboration.py:628-657 | Accepted exactly for the live current token, and for completion only with joined children settled; the lease ends |
| `Leases.TaskTables.HandBackTask` | src/physharness/continuation.py:1639-1640 | The live holder's continuation, or its second try at a settled boundary, queues the task and ends the lease |
| `Leases.TaskTables.RequeueTask` | src/physharness/continuation.py:1629-1638 | A restored continuation, or one issued from a lease that is over, queues the task whatever its status, for that lease's own token only |
| `Leases.TaskTables.BlockTask` | src/physharness/collaboration.py:43-71 | Only a queued, unleased task is retired or blocked |
| `Chains.StepKeepsInv` | src/physharness/continuation.py:1609-2023 | Every issue, consumption, start, restoration, retirement, requeue and block keeps the one chain, its times and its tickets |
| `Chains.ChainsNeverFork` | src/physharness/continuation.py:1787-1816 | On every run ordinals are 1 to n, all links but the last are started, each starts from the last one's successor, no session is the source of two, and every session of the task is on the one path once |
| `Chains.IssueSource` | src/physharness/continuation.py:1800-1816 | A ticket can be issued only from the task's one session or the newest successor, with none outstanding |
| `Chains.IssuedExactly` | src/physharness/continuation.py:1629-1640 | A ticket is issued if and only if the holder and fence are the lease's, live or for a recovery over, and its session handed off and is the newest, with no ticket outstanding |
| `Chains.ConsumedExactly` | src/physharness/continuation.py:1948-2023 | A ticket is consumed if and only if it is the ready one, under the live lease shown |
| `Chains.RestoredExactly` | src/physharness/continuation.py:857-900 | A ticket is restored if and only if it is the last, consumed and never started, its own lease is over, and its source has handed off |
| `Chains.SavedExactly` | src/physharness/orchestration/research_worker.py:290-385 | A session is saved if and only if the lease shown is live, and it is known, the first, or the successor of the last ticket, consumed under that lease |
| `Chains.SavedSession` | src/physharness/orchestration/research_worker.py:290-385 | A known session keeps when it was created, a new one is created now, and no other changes |
| `Chains.RetiredExactly` | src/physharness/collaboration.py:43-60 | Exactly a queued task whose lease is not live can be retired |
| `Chains.RequeuedExactly` | src/physharness/continuation.py:496-563 | A settled boundary is queued for another decision exactly by the live holder, while the newest session has neither handed off nor completed |
| `Chains.CommandsCarryTheNewestFence` | src/physharness/collaboration.py:519-533 | On every run, what a worker's command does it does under its own holder and fence, the newest the task has had |
| `Chains.StartsConsumedLink` | src/physharness/orchestration/research_worker.py:290-385 | Saving a successor starts the consumed link, the last one, and no other; saving a known or first session touches no link |
| `Chains.RetiresIssuedLink` | src/physharness/collaboration.py:26-83 | Retiring a queued task retires its issued link, the last one, and no other |
| `Chains.OutcomeStep` | src/physharness/continuation.py:851-925 | Of an ended task, a step keeps the outcome unless it restores or issues a ticket, and either of those queues it |
| `Chains.OutcomeIsFinalExactly` | src/physharness/continuation.py:851-925 | On every run, an outcome stays if and only if no ticket is restored or issued after it |
| `Chains.RevivableExactly` | src/physharness/continuation.py:1629-1638 | A task that ended on a run can be queued again if and only if the guard of a restoration or of a recovering issue holds of it |
| `Chains.FinalWhenNotRevivable` | src/physharness/continuation.py:851-925 | If neither guard holds where it ended, neither ever does, and its outcome is final on every longer run |
| `Chains.RestoreRevivesEndedTask` | src/physharness/continuation.py:851-925 | The first guard happens: a task that ended between consuming its ticket and saving a successor is queued again |
| `Chains.RecoveryRevivesEndedTask` | src/physharness/continuation.py:1629-1638 | So does the second: a task that ended with its session handed off is queued again by a recovering issue |
| `Chains.BlockedIsFinal` | src/physharness/collaboration.py:43-71 | A queued task that was retired or blocked is never queued again, on every run |
| `Chains.RequeuedIsUnready` | src/physharness/continuation.py:529-551 | After a settled boundary is queued for another decision no ticket can be restored or issued, since its newest session has not handed off |
| `Chains.TaskChain.IssueContinuation` | src/physharness/continuation.py:1609-1946 | Accepted exactly when it may be and the checks over other tables pass; the whole new rows |
| `Chains.TaskChain.ConsumeContinuation` | src/physharness/continuation.py:1948-2023 | Accepted exactly for the ready ticket under the live lease, when the checks over other tables pass; the whole new rows |
| `Chains.TaskChain.RestoreUnstarted` | src/physharness/continuation.py:851-925 | Accepted exactly when no successor was saved and the lease expired, and the checks over other tables pass; the whole new rows |
| `Chains.TaskChain.ContinuationLink` | src/physharness/continuation.py:104-121 | The link of an ordinal when there is exactly one |
| `Lineage.AcceptedIsOnePath` | src/physharness/continuation_lineage.py:41-157 | Any chain the validator accepts is a simple path, strictly ordered in time, through every session of its task once |
| `Lineage.AcceptedIsSound` | src/physharness/continuation_lineage.py:20-157 | What is accepted is sound: each link started from a session that handed off, with this checkpoint, to a later one that is the next link's source or has ended; the evidence of all passes; and the task's last ticket is the last link's |
| `Lineage.SoundIsAccepted` | src/physharness/continuation_lineage.py:20-157 | And whatever is sound, its links and sessions stored in any order, is accepted |
| `Lineage.ExtraCheckNeverFires` | src/physharness/continuation_lineage.py:140-143 | The last set check follows from the earlier ones: it refuses nothing |
| `Lineage.SettledChainsAreAccepted` | src/physharness/continuation_lineage.py:41-157 | Every settled chain any run of the protocol builds passes, when its sessions' and links' evidence does |
| `Lineage.LinksGivePath` | src/physharness/continuation_lineage.py:64-108 | Links that pass give a path of the task's own sessions, each created after the one before |
| `Masking.MaskCommentsAndStrings` | tools/formal_environment.py:179-224 | The in-place scan computes the mask, and refuses exactly the texts that end inside a comment or string |
| `Masking.MaskingFollowsTokens` | tools/formal_environment.py:179-224 | However a text falls into complete tokens, its code is kept and each comment or string is blanked, nested comments included |
| `Masking.EveryMaskedTextIsTokens` | tools/formal_environment.py:179-224 | Every text the scan gets through falls into such tokens |
| `Masking.MaskingIsIdempotent` | tools/formal_environment.py:179-224 | Length and every position kept or blanked, newlines kept but for one escaped in a string; nothing opens a comment or string; masking again changes nothing; and a text is unchanged exactly when it opens nothing |

## Left out

- Publication.StoredImportsStayAcyclic: holds for closures of at most 200 nodes, which is where the bounded search is exact; past that `Publication.ChainOfImportsSearched` shows a reachable node it misses.
- CommonsGraph.Graphstore.LongPoleIdsAt: one experiment, one process and serial commands; races on filling the memo are not modelled.
- CommonsGraph.Graphstore.PublishSource: takes it that every module a check inlined was resolved from a stored node; claims and posts touch no graph field and have no step.
- LongPole.ComputePole: claimants, hints and open minutes of the items are not modelled; children are visited in row order, not sorted.
- Inbox.ExactlyOnce: one experiment; a transaction's inserts and locks are atomic steps and readers poll under their own lock; which posts a reader may see is an arbitrary function of the poll.
- Delivery.PeekAgrees: between the peek and the polls nothing else changes, and items are within 2048 bytes as `Excerpts.BoundedExcerpt` makes excerpts.
- Inliner.Visitor.Visit: the Lean scanner is taken as given: each line arrives as blank, import or code with its scope commands; a refused command of the gate is not part of the visit.
- Flattener.InlineCommons: the summary flags of an expansion (all complete, stubs) and texts that are not valid UTF-8 are not modelled.
- Referees.OneNodeDrawsReferees: every node has a creation event, as nodes made through the commands do; fidelity reviews stored before the remediation are not modelled.
- Referees.PanelsStayBounded: a return is any ended referee's, whether or not its own chain allows it (`Chains.Revivable`); the choice of a referee's model is not modelled.
- NodeData.EncodingIsLossless: a number is its text, so how Python writes and reads a floating-point number is not modelled, nor are the non-JSON texts it gives NaN and infinities; object names are strings, kept in order with repeats; the reader does not combine surrogate escapes, which the writer never writes.
- Objective.RefereeObjective: the platform's own text enters by its lengths, 783 and 150 characters.
- Leases.TaskTables.CreateTask: branch authority, admission and experiment scope enter as one flag, `allowed`, as do the experiment, holder, worker slot, workspace and evidence checks of the other commands of that class.
- Chains.TaskChain.IssueContinuation: intent, checkpoint, reservation, budget and workspace checks enter as one flag, `allowed`, as do those of consuming and restoring.
- Lineage.SettledChainsAreAccepted: of a task that is settled, with checkpoint identifiers that match and evidence that passes.
- Publication.Judgement: what the artifact, the text, the check's evidence and the holders' branches say enters as four flags of the publication.
- Leases.JoinedWorkIsSettled: a delegated task is created under its parent's live lease; freedom from deadlock over parents and prerequisites together is not claimed, since only a direct prerequisite among the ancestors is refused.
- Chains.ChainsNeverFork: one task; each step is later than the one before; model, runtime, budget and workspace checks of the commands can only refuse, and steps are what they let through.
- Lineage.AcceptedIsOnePath: checkpoint and archive contents are opaque; a missing field counts as a mismatch.
- Masking.MaskCommentsAndStrings: the message of the error is not modelled.
- SQL, storage, idempotent command replay, budgets, the HTTP interface, workers, verifiers and the console are not part of this model.
- Frontier scores, claim expiry, metrics and registries would only add arithmetic.
