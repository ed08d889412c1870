/** Crash-safe deliveries: writers that take the inbox lock, allocate a sequence and later commit,
    and readers that subscribe, poll and acknowledge. */
module Inbox {
  import opened Basics

  type Sequence = nat   // event sequences, allocated when a row is inserted, from 1

  const PAGE := 100               // events one poll reads
  const MAX_BATCH_BYTES := 12000
  const MAX_ITEM_BYTES := 2048
  const MAX_SUBSCRIPTIONS := 100

  datatype Channel = Thread(topic: nat) | Mail(branch: nat)

  datatype Event = InboxEvent(channel: Channel) | OtherEvent

  datatype Sub = Sub(subscribed: bool, start: Sequence)

  datatype Item = Item(sequence: Sequence, urgent: bool, withdrawn: bool, size: nat)

  /** One move of a reader's cursor over `(start, end]`: what it delivers, and what the push rule
      skipped. A batch with items is a stored delivery; one without is a bare advance. */
  datatype Batch = Batch(start: Sequence, end: Sequence, items: seq<Item>, skipped: set<Sequence>)

  datatype Reader = Reader(branch: Option<nat>, ack: Sequence, pending: bool, history: seq<Batch>,
                           subs: map<nat, Sub>)

  /** A row inserted and not committed, and a subscription set and not committed. */
  datatype Row = Row(tx: nat, event: Event)
  datatype Change = Change(tx: nat, sub: Sub)

  /** `rows` are the committed events; `inflight` those of open transactions. `changes` are the
      open transactions' subscriptions, by reader and topic. `lock` is the inbox lock's holder and
      `readerLocks` the holders of the readers' locks. */
  datatype State = State(next: Sequence, rows: map<Sequence, Event>, open: set<nat>,
                         inflight: map<Sequence, Row>, changes: map<(nat, nat), Change>,
                         lock: Option<nat>, readerLocks: map<nat, nat>, readers: map<nat, Reader>)

  /** What a reader's poll finds out about one event: whether its source may still be read, whether
      the push rule skips it (the reader's own post or a status that is not urgent), and the size
      of its item. */
  datatype Look = Look(inScope: bool, accessible: bool, skip: bool, urgent: bool, size: nat)

  type View = Sequence -> Look

  datatype Step =
    | Begin(tx: nat)
    | TakeLock(tx: nat)
    | LockReader(tx: nat, reader: nat)
    | Insert(tx: nat, event: Event)
    | Subscribe(tx: nat, reader: nat, topic: nat, on: bool)
    | Commit(tx: nat)
    | Abort(tx: nat)
    | Poll(reader: nat, limit: nat, view: View)
    | Acknowledge(reader: nat, batch: nat, view: View)

  // ----- Sorted event lists -----

  ghost predicate Ascending(s: seq<Sequence>) {
    forall i, j | 0 <= i < j < |s| :: s[i] < s[j]
  }

  function InOrder(s: set<Sequence>): (r: seq<Sequence>)
    ensures Ascending(r) && forall x :: x in r <==> x in s
  {
    if s == {} then []
    else
      var m := Smallest(s);
      [m] + InOrder(s - {m})
  }

  function Take(s: seq<Sequence>, n: nat): seq<Sequence> {
    if |s| <= n then s else s[..n]
  }

  // ----- What a reader may be sent -----

  predicate IsInbox(e: Event) {
    e.InboxEvent?
  }

  /** Where the reader starts on a channel it follows: a topic's subscription start, or the
      beginning of its own mail. */
  function Follows(reader: Reader, channel: Channel): Option<Sequence> {
    match channel
    case Thread(topic) =>
      if topic in reader.subs && reader.subs[topic].subscribed then Some(reader.subs[topic].start) else None
    case Mail(branch) =>
      if reader.branch == Some(branch) then Some(0) else None
  }

  predicate Eligible(reader: Reader, e: Event, s: Sequence, after: Sequence) {
    e.InboxEvent? && Follows(reader, e.channel).Some? && s > after && s > Follows(reader, e.channel).value
  }

  /** The reader's eligible committed events after a cursor, in sequence order. */
  function EligibleEvents(rows: map<Sequence, Event>, reader: Reader, after: Sequence): (r: seq<Sequence>)
    ensures Ascending(r) && forall s :: s in r <==> s in rows && Eligible(reader, rows[s], s, after)
  {
    InOrder(set s | s in rows && Eligible(reader, rows[s], s, after))
  }

  /** A post the reader may read and the push rule keeps from it; a message never is one. */
  predicate Skips(e: Event, look: Look) {
    e.InboxEvent? && e.channel.Thread? && look.accessible && look.skip
  }

  function ItemOf(s: Sequence, look: Look): Item {
    Item(s, look.accessible && look.urgent, !look.accessible, look.size)
  }

  /** The items of the handled events, in sequence order. */
  function ItemsOf(rows: map<Sequence, Event>, events: seq<Sequence>, view: View): seq<Item>
    requires forall s | s in events :: s in rows
  {
    if events == [] then []
    else
      var last := events[|events| - 1];
      ItemsOf(rows, events[..|events| - 1], view)
        + if Skips(rows[last], view(last)) then [] else [ItemOf(last, view(last))]
  }

  function SkippedOf(rows: map<Sequence, Event>, events: seq<Sequence>, view: View): set<Sequence>
    requires forall s | s in events :: s in rows
  {
    set s | s in events && Skips(rows[s], view(s))
  }

  /** The bytes of a batch as a JSON list: brackets, items, and a comma and space between. */
  function BatchBytes(items: seq<Item>): nat {
    if items == [] then 2
    else if |items| == 1 then 2 + items[0].size
    else BatchBytes(items[..|items| - 1]) + 2 + items[|items| - 1].size
  }

  /** How many of the events one poll handles: until the batch is full, by count or by bytes. */
  function Handled(rows: map<Sequence, Event>, events: seq<Sequence>, view: View, limit: nat, done: nat): (r: nat)
    requires forall s | s in events :: s in rows
    requires done <= |events|
    ensures done <= r <= |events|
    decreases |events| - done
  {
    if done == |events| then done
    else
      var s, items := events[done], ItemsOf(rows, events[..done], view);
      if Skips(rows[s], view(s)) then Handled(rows, events, view, limit, done + 1)
      else if BatchBytes(items + [ItemOf(s, view(s))]) > MAX_BATCH_BYTES then done
      else if |items| + 1 == limit then done + 1
      else Handled(rows, events, view, limit, done + 1)
  }

  /** Urgent items first; the order within each group is kept. */
  function UrgentFirst(items: seq<Item>): (r: seq<Item>)
    ensures multiset(r) == multiset(items)
  {
    var urgent, rest := Urgents(items, true), Urgents(items, false);
    Partitioned(items);
    urgent + rest
  }

  function Urgents(items: seq<Item>, urgent: bool): seq<Item> {
    if items == [] then []
    else (if items[0].urgent == urgent then [items[0]] else []) + Urgents(items[1..], urgent)
  }

  lemma {:induction false} Partitioned(items: seq<Item>)
    ensures multiset(Urgents(items, true)) + multiset(Urgents(items, false)) == multiset(items)
  {
    if items != [] {
      Partitioned(items[1..]);
      assert items == [items[0]] + items[1..];
    }
  }

  lemma {:induction false} UrgentsOfOne(items: seq<Item>, urgent: bool)
    ensures forall i | 0 <= i < |Urgents(items, urgent)| :: Urgents(items, urgent)[i].urgent == urgent
    ensures Urgents(Urgents(items, urgent), urgent) == Urgents(items, urgent)
    ensures Urgents(Urgents(items, urgent), !urgent) == []
  {
    if items != [] {
      var rest := Urgents(items[1..], urgent);
      UrgentsOfOne(items[1..], urgent);
      if items[0].urgent == urgent {
        assert Urgents(items, urgent) == [items[0]] + rest && ([items[0]] + rest)[1..] == rest;
      } else {
        assert Urgents(items, urgent) == rest;
      }
    }
  }

  lemma {:induction false} UrgentsOfBoth(a: seq<Item>, b: seq<Item>, urgent: bool)
    ensures Urgents(a + b, urgent) == Urgents(a, urgent) + Urgents(b, urgent)
  {
    if a == [] {
      assert a + b == b && Urgents([], urgent) + Urgents(b, urgent) == Urgents(b, urgent);
    } else {
      var one := if a[0].urgent == urgent then [a[0]] else [];
      var mine, more := Urgents(a[1..], urgent), Urgents(b, urgent);
      assert (a + b)[0] == a[0] && (a + b)[1..] == a[1..] + b;
      UrgentsOfBoth(a[1..], b, urgent);
      Together(one, mine, more);
    }
  }

  lemma Together(a: seq<Item>, b: seq<Item>, c: seq<Item>)
    ensures a + (b + c) == (a + b) + c
  {
  }

  /** The urgent items come first, and within each group the order is the one before. */
  lemma UrgentFirstStable(items: seq<Item>)
    ensures var r, n := UrgentFirst(items), |Urgents(items, true)|;
            && n <= |r| && (forall i | 0 <= i < |r| :: r[i].urgent <==> i < n)
            && Urgents(r, true) == Urgents(items, true) && Urgents(r, false) == Urgents(items, false)
  {
    UrgentsOfOne(items, true);
    UrgentsOfOne(items, false);
    UrgentsOfBoth(Urgents(items, true), Urgents(items, false), true);
    UrgentsOfBoth(Urgents(items, true), Urgents(items, false), false);
  }

  function Cursor(reader: Reader): Sequence {
    if reader.history == [] then 0 else reader.history[|reader.history| - 1].end
  }

  /** Sources the reader may no longer read become withdrawal notices at the same sequence. */
  function Sanitized(items: seq<Item>, view: View): (r: seq<Item>)
    ensures |r| == |items| && forall i | 0 <= i < |items| :: r[i].sequence == items[i].sequence
  {
    seq(|items|, i requires 0 <= i < |items| =>
      if view(items[i].sequence).accessible || items[i].withdrawn then items[i]
      else items[i].(withdrawn := true, urgent := false))
  }

  /** The batch one poll makes of the events after the acknowledged cursor. */
  function NextBatch(rows: map<Sequence, Event>, reader: Reader, limit: nat, view: View): Batch {
    var events := Take(EligibleEvents(rows, reader, reader.ack), PAGE);
    var k := Handled(rows, events, view, limit, 0);
    Batch(reader.ack, if k == 0 then reader.ack else events[k - 1],
          UrgentFirst(ItemsOf(rows, events[..k], view)), SkippedOf(rows, events[..k], view))
  }

  // ----- The steps -----

  /** The largest sequence a transaction sees: the committed rows' and its own. */
  ghost predicate IsMaxVisible(rows: map<Sequence, Event>, mine: map<Sequence, Event>, m: Sequence) {
    && (forall s | s in rows || s in mine :: s <= m)
    && (m == 0 || m in rows || m in mine)
  }

  function MaxVisible(rows: map<Sequence, Event>, mine: map<Sequence, Event>): (m: Sequence)
    ensures IsMaxVisible(rows, mine, m)
  {
    var all := InOrder(rows.Keys + mine.Keys);
    assert forall s :: s in all <==> s in rows || s in mine;
    if all == [] then 0 else
      assert all[|all| - 1] in all;
      all[|all| - 1]
  }

  function Mine(inflight: map<Sequence, Row>, t: nat): map<Sequence, Event> {
    map s | s in inflight && inflight[s].tx == t :: inflight[s].event
  }

  function MyChanges(changes: map<(nat, nat), Change>, t: nat): map<(nat, nat), Sub> {
    map k | k in changes && changes[k].tx == t :: changes[k].sub
  }

  function Active(subs: map<nat, Sub>): set<nat> {
    set topic | topic in subs && subs[topic].subscribed
  }

  /** A reader's subscriptions as a transaction sees them, and as they are once it commits. */
  function WithChanges(subs: map<nat, Sub>, r: nat, changes: map<(nat, nat), Sub>): map<nat, Sub> {
    map topic | topic in subs.Keys + (set k | k in changes && k.0 == r :: k.1) ::
      if (r, topic) in changes then changes[(r, topic)] else subs[topic]
  }

  /** Set one topic's subscription. A new start is the largest sequence the transaction sees;
      at the cap a new subscription is refused. */
  function Subscribed(st: State, t: nat, r: nat, topic: nat, on: bool): State
    requires r in st.readers
  {
    var seen := WithChanges(st.readers[r].subs, r, MyChanges(st.changes, t));
    if topic in seen && seen[topic].subscribed == on then st
    else if on && |Active(seen)| >= MAX_SUBSCRIPTIONS then st
    else
      var start := if topic in seen && !on then seen[topic].start
                   else MaxVisible(st.rows, Mine(st.inflight, t));
      st.(changes := st.changes[(r, topic) := Change(t, Sub(on, start))])
  }

  function Closed(st: State, t: nat): State {
    st.(open := st.open - {t},
        inflight := map s | s in st.inflight && st.inflight[s].tx != t :: st.inflight[s],
        changes := map k | k in st.changes && st.changes[k].tx != t :: st.changes[k],
        lock := if st.lock == Some(t) then None else st.lock,
        readerLocks := map r | r in st.readerLocks && st.readerLocks[r] != t :: st.readerLocks[r])
  }

  function CommittedReaders(readers: map<nat, Reader>, changes: map<(nat, nat), Sub>): map<nat, Reader> {
    map r | r in readers :: readers[r].(subs := WithChanges(readers[r].subs, r, changes))
  }

  function Committed(st: State, t: nat): State {
    Closed(st, t).(rows := st.rows + Mine(st.inflight, t),
                   readers := CommittedReaders(st.readers, MyChanges(st.changes, t)))
  }

  /** A poll redelivers the pending batch; else it makes the next one, if there is anything to
      handle. A batch of skipped events only moves the cursor. */
  function Polled(rows: map<Sequence, Event>, reader: Reader, limit: nat, view: View): Reader {
    if reader.pending then
      if reader.history == [] then reader
      else
        var last := reader.history[|reader.history| - 1];
        reader.(history := reader.history[|reader.history| - 1 := last.(items := Sanitized(last.items, view))])
    else
      var batch := NextBatch(rows, reader, limit, view);
      if batch.end == reader.ack then reader
      else if batch.items == [] then reader.(ack := batch.end, history := reader.history + [batch])
      else reader.(pending := true, history := reader.history + [batch])
  }

  /** Only the pending batch can be acknowledged, and only as the reader last saw it: a source
      withdrawn since is stored as such first, and the acknowledgement refused. */
  function Acknowledged(reader: Reader, batch: nat, view: View): Reader {
    if !reader.pending || reader.history == [] || batch != |reader.history| - 1 then reader
    else
      var last := reader.history[|reader.history| - 1];
      var items := Sanitized(last.items, view);
      if items != last.items then
        reader.(history := reader.history[|reader.history| - 1 := last.(items := items)])
      else if last.start != reader.ack then reader
      else reader.(ack := last.end, pending := false)
  }

  predicate Enabled(st: State, step: Step) {
    match step
    case Begin(t) => t !in st.open
    case TakeLock(t) => t in st.open && (st.lock == None || st.lock == Some(t))
    case LockReader(t, r) => t in st.open && (r in st.readerLocks ==> st.readerLocks[r] == t)
    case Insert(t, e) => t in st.open && (IsInbox(e) ==> st.lock == Some(t))
    case Subscribe(t, r, topic, on) =>
      t in st.open && r in st.readers && st.lock == Some(t) && r in st.readerLocks && st.readerLocks[r] == t
    case Commit(t) => t in st.open
    case Abort(t) => t in st.open
    case Poll(r, limit, view) => r in st.readers && r !in st.readerLocks && 1 <= limit <= 10
    case Acknowledge(r, batch, view) => r in st.readers && r !in st.readerLocks
  }

  function Next(st: State, step: Step): State
    requires Enabled(st, step)
  {
    match step
    case Begin(t) => st.(open := st.open + {t})
    case TakeLock(t) => st.(lock := Some(t))
    case LockReader(t, r) => st.(readerLocks := st.readerLocks[r := t])
    case Insert(t, e) => st.(next := st.next + 1, inflight := st.inflight[st.next := Row(t, e)])
    case Subscribe(t, r, topic, on) => Subscribed(st, t, r, topic, on)
    case Commit(t) => Committed(st, t)
    case Abort(t) => Closed(st, t)
    case Poll(r, limit, view) =>
      st.(readers := st.readers[r := Polled(st.rows, st.readers[r], limit, view)])
    case Acknowledge(r, batch, view) =>
      st.(readers := st.readers[r := Acknowledged(st.readers[r], batch, view)])
  }

  // ----- The steps, by the stored fields -----

  /** What a reader may be sent after a cursor: its own branch's mail, and the posts of a topic it
      follows past where it started there. */
  lemma EligibleByFields(reader: Reader, e: Event, s: Sequence, after: Sequence)
    ensures Eligible(reader, e, s, after) <==>
            && e.InboxEvent? && s > after
            && (e.channel.Mail? ==> reader.branch == Some(e.channel.branch) && s > 0)
            && (e.channel.Thread? ==>
                  && e.channel.topic in reader.subs && reader.subs[e.channel.topic].subscribed
                  && s > reader.subs[e.channel.topic].start)
  {
  }

  /** One topic's subscription as a transaction sees it: its own change, else what is stored. */
  function SeenSub(st: State, t: nat, r: nat, topic: nat): Option<Sub>
    requires r in st.readers
  {
    if (r, topic) in st.changes && st.changes[(r, topic)].tx == t then Some(st.changes[(r, topic)].sub)
    else if topic in st.readers[r].subs then Some(st.readers[r].subs[topic])
    else None
  }

  /** The topics it sees the reader follow. */
  ghost predicate FollowedAre(st: State, t: nat, r: nat, topics: set<nat>)
    requires r in st.readers
  {
    forall topic :: topic in topics <==> SeenSub(st, t, r, topic).Some? && SeenSub(st, t, r, topic).value.subscribed
  }

  lemma SeenIsWithChanges(st: State, t: nat, r: nat, topic: nat)
    requires r in st.readers
    ensures var seen := WithChanges(st.readers[r].subs, r, MyChanges(st.changes, t));
            SeenSub(st, t, r, topic) == if topic in seen then Some(seen[topic]) else None
  {
    var mine := MyChanges(st.changes, t);
    if (r, topic) in mine {
      assert topic in (set k | k in mine && k.0 == r :: k.1);
    }
  }

  /** The newest sequence a transaction sees, committed or its own; 0 when it sees none. */
  ghost predicate NewestSeen(st: State, t: nat, s: Sequence) {
    && (forall x | x in st.rows || (x in st.inflight && st.inflight[x].tx == t) :: x <= s)
    && (s == 0 || s in st.rows || (s in st.inflight && st.inflight[s].tx == t))
  }

  lemma MaxVisibleIsNewest(st: State, t: nat)
    ensures NewestSeen(st, t, MaxVisible(st.rows, Mine(st.inflight, t)))
  {
    var mine := Mine(st.inflight, t);
    var m := MaxVisible(st.rows, mine);
    forall x | x in st.inflight && st.inflight[x].tx == t ensures x <= m {
      assert x in mine;
    }
    assert m in mine ==> m in st.inflight && st.inflight[m].tx == t;
  }

  /** Setting a subscription: nothing changes when it is so already, or when it would be the 101st;
      else the transaction's change is stored, a new one starting at the newest sequence it sees and
      one that ends keeping its start. */
  lemma SubscribedByFields(st: State, t: nat, r: nat, topic: nat, on: bool, topics: set<nat>) returns (start: Sequence)
    requires Enabled(st, Subscribe(t, r, topic, on)) && FollowedAre(st, t, r, topics)
    ensures var was := SeenSub(st, t, r, topic);
            && (if was.Some? && !on then start == was.value.start else NewestSeen(st, t, start))
            && Next(st, Subscribe(t, r, topic, on))
               == if (was.Some? && was.value.subscribed == on) || (on && |topics| >= 100) then st
                  else st.(changes := st.changes[(r, topic) := Change(t, Sub(on, start))])
  {
    var seen := WithChanges(st.readers[r].subs, r, MyChanges(st.changes, t));
    SeenIsWithChanges(st, t, r, topic);
    forall x ensures x in topics <==> x in Active(seen) {
      SeenIsWithChanges(st, t, r, x);
    }
    assert topics == Active(seen);
    MaxVisibleIsNewest(st, t);
    start := if topic in seen && !on then seen[topic].start else MaxVisible(st.rows, Mine(st.inflight, t));
  }

  /** What a commit makes visible: the transaction's own rows and subscriptions; the rest of what was in
      flight stays, and its locks are free. */
  lemma CommittedByFields(st: State, t: nat)
    requires Enabled(st, Commit(t))
    ensures var st' := Next(st, Commit(t));
            && (forall s :: s in st'.rows <==> s in st.rows || (s in st.inflight && st.inflight[s].tx == t))
            && (forall s | s in st'.rows ::
                  st'.rows[s] == if s in st.inflight && st.inflight[s].tx == t then st.inflight[s].event else st.rows[s])
            && ClosedByFields(st, t, st')
            && st'.readers.Keys == st.readers.Keys
            && forall r | r in st.readers ::
                 && st'.readers[r] == st.readers[r].(subs := st'.readers[r].subs)
                 && forall topic :: SeenSub(st, t, r, topic)
                                    == if topic in st'.readers[r].subs then Some(st'.readers[r].subs[topic]) else None
  {
    forall r, topic | r in st.readers {
      SeenIsWithChanges(st, t, r, topic);
    }
  }

  lemma AbortedByFields(st: State, t: nat)
    requires Enabled(st, Abort(t))
    ensures var st' := Next(st, Abort(t));
            ClosedByFields(st, t, st') && st'.rows == st.rows && st'.readers == st.readers
  {
  }

  /** The transaction is over: nothing of it is in flight and it holds no lock; all else is as it was. */
  ghost predicate ClosedByFields(st: State, t: nat, st': State) {
    && st'.next == st.next && st'.open == st.open - {t}
    && (forall s :: s in st'.inflight <==> s in st.inflight && st.inflight[s].tx != t)
    && (forall s | s in st'.inflight :: st'.inflight[s] == st.inflight[s])
    && (forall k :: k in st'.changes <==> k in st.changes && st.changes[k].tx != t)
    && (forall k | k in st'.changes :: st'.changes[k] == st.changes[k])
    && st'.lock == (if st.lock == Some(t) then None else st.lock)
    && (forall r :: r in st'.readerLocks <==> r in st.readerLocks && st.readerLocks[r] != t)
    && (forall r | r in st'.readerLocks :: st'.readerLocks[r] == st.readerLocks[r])
  }

  // ----- What every step keeps -----

  /** The reader handled the event in this batch: it is among its items or its skips. */
  predicate InBatch(batch: Batch, s: Sequence) {
    s in batch.skipped || exists i :: 0 <= i < |batch.items| && batch.items[i].sequence == s
  }

  predicate Accounted(reader: Reader, s: Sequence) {
    exists b :: 0 <= b < |reader.history| && InBatch(reader.history[b], s)
  }

  /** Within a batch each event is handled once, inside the batch's own range. */
  ghost predicate BatchOk(batch: Batch) {
    && batch.start < batch.end
    && (forall i | 0 <= i < |batch.items| :: batch.start < batch.items[i].sequence <= batch.end)
    && (forall s | s in batch.skipped :: batch.start < s <= batch.end)
    && (forall i, j | 0 <= i < j < |batch.items| :: batch.items[i].sequence != batch.items[j].sequence)
    && (forall i | 0 <= i < |batch.items| :: batch.items[i].sequence !in batch.skipped)
  }

  /** Batches tile the line from 0 to the cursor: their ranges are disjoint and increasing. */
  ghost predicate Tiled(history: seq<Batch>) {
    && (forall b | 0 <= b < |history| :: BatchOk(history[b]))
    && (history != [] ==> history[0].start == 0)
    && (forall b | 0 <= b < |history| - 1 :: history[b].end == history[b + 1].start)
  }

  /** The acknowledged cursor is the pending batch's start, or the end of everything handled. */
  ghost predicate CursorOk(reader: Reader) {
    if reader.pending then
      && reader.history != [] && reader.history[|reader.history| - 1].items != []
      && reader.ack == reader.history[|reader.history| - 1].start
    else reader.ack == Cursor(reader)
  }

  /** Every committed event of a channel the reader follows, from its start up to the cursor, was
      delivered or skipped. */
  ghost predicate Covered(rows: map<Sequence, Event>, reader: Reader) {
    forall s | s in rows && Eligible(reader, rows[s], s, 0) && s <= Cursor(reader) :: Accounted(reader, s)
  }

  ghost predicate ReaderOk(rows: map<Sequence, Event>, reader: Reader) {
    && Tiled(reader.history) && CursorOk(reader) && Covered(rows, reader)
    && (Cursor(reader) == 0 || (Cursor(reader) in rows && IsInbox(rows[Cursor(reader)])))
  }

  /** Sequences are allocated in order, and each row is in one place. */
  ghost predicate SequencesOk(next: Sequence, rows: map<Sequence, Event>, open: set<nat>, inflight: map<Sequence, Row>) {
    && next > 0
    && (forall s | s in rows :: 0 < s < next)
    && (forall s | s in inflight :: 0 < s < next && s !in rows && inflight[s].tx in open)
  }

  /** Only the lock's holder has inbox rows or subscriptions in flight, and its inbox rows come
      after every committed one. */
  ghost predicate LockOk(rows: map<Sequence, Event>, open: set<nat>, inflight: map<Sequence, Row>,
                         changes: map<(nat, nat), Change>, lock: Option<nat>)
  {
    && (lock.Some? ==> lock.value in open)
    && (forall k | k in changes :: lock == Some(changes[k].tx))
    && (forall s | s in inflight && IsInbox(inflight[s].event) ::
          lock == Some(inflight[s].tx) && forall k | k in rows && IsInbox(rows[k]) :: k < s)
  }

  /** A subscription in flight starts at or past its reader's cursor, and its reader is locked. */
  ghost predicate ChangesOk(next: Sequence, changes: map<(nat, nat), Change>, readerLocks: map<nat, nat>,
                            readers: map<nat, Reader>)
  {
    forall k | k in changes ::
      && k.0 in readerLocks && readerLocks[k.0] == changes[k].tx && k.0 in readers
      && changes[k].sub.start < next
      && (changes[k].sub.subscribed ==> Cursor(readers[k.0]) <= changes[k].sub.start)
  }

  /** No inbox row still to be committed lies at or below a stored subscription's start. */
  ghost predicate StartsOk(next: Sequence, inflight: map<Sequence, Row>, readers: map<nat, Reader>) {
    forall r, topic | r in readers && topic in readers[r].subs ::
      && readers[r].subs[topic].start < next
      && forall s | s in inflight && IsInbox(inflight[s].event) :: readers[r].subs[topic].start < s
  }

  /** No reader follows more topics than its cap, whatever is still in flight. */
  ghost predicate CapOk(changes: map<(nat, nat), Change>, lock: Option<nat>, readers: map<nat, Reader>) {
    forall r | r in readers ::
      && |Active(readers[r].subs)| <= MAX_SUBSCRIPTIONS
      && (lock.Some? ==>
            |Active(WithChanges(readers[r].subs, r, MyChanges(changes, lock.value)))| <= MAX_SUBSCRIPTIONS)
  }

  ghost predicate ReadersOk(rows: map<Sequence, Event>, readers: map<nat, Reader>) {
    forall r | r in readers :: ReaderOk(rows, readers[r])
  }

  ghost predicate Inv(st: State) {
    && SequencesOk(st.next, st.rows, st.open, st.inflight)
    && LockOk(st.rows, st.open, st.inflight, st.changes, st.lock)
    && ChangesOk(st.next, st.changes, st.readerLocks, st.readers)
    && StartsOk(st.next, st.inflight, st.readers)
    && CapOk(st.changes, st.lock, st.readers)
    && ReadersOk(st.rows, st.readers)
  }

  // ----- A poll keeps its reader right -----

  ghost predicate OneEach(items: seq<Item>) {
    forall i, j | 0 <= i < j < |items| :: items[i].sequence != items[j].sequence
  }

  /** An item for each event, in order, but for the skipped ones. */
  lemma {:induction false} ItemsOfEvents(rows: map<Sequence, Event>, events: seq<Sequence>, view: View)
    requires forall s | s in events :: s in rows
    ensures forall x | x in ItemsOf(rows, events, view) ::
              x.sequence in events && !Skips(rows[x.sequence], view(x.sequence))
    ensures forall s | s in events && !Skips(rows[s], view(s)) :: ItemOf(s, view(s)) in ItemsOf(rows, events, view)
  {
    if events != [] {
      var last, rest := events[|events| - 1], events[..|events| - 1];
      ItemsOfEvents(rows, rest, view);
      assert events == rest + [last];
    }
  }

  lemma {:induction false} ItemsDistinct(rows: map<Sequence, Event>, events: seq<Sequence>, view: View)
    requires (forall s | s in events :: s in rows) && Ascending(events)
    ensures OneEach(ItemsOf(rows, events, view))
  {
    if events != [] {
      var last, rest := events[|events| - 1], events[..|events| - 1];
      ItemsDistinct(rows, rest, view);
      ItemsOfEvents(rows, rest, view);
      var before := ItemsOf(rows, rest, view);
      forall i | 0 <= i < |before| ensures before[i].sequence != last {
        assert before[i] in before;
      }
    }
  }

  lemma {:induction false} OnceEach(items: seq<Item>, x: Item)
    requires OneEach(items)
    ensures multiset(items)[x] <= 1
  {
    if items != [] {
      var rest := items[1..];
      assert items == [items[0]] + rest;
      OnceEach(rest, x);
      if x == items[0] {
        assert x !in rest;
      }
    }
  }

  lemma {:induction false} TwiceIn(items: seq<Item>, i: nat, j: nat)
    requires i < j < |items| && items[i] == items[j]
    ensures multiset(items)[items[i]] >= 2
  {
    var a, b := items[..j], items[j..];
    assert items == a + b && a[i] in a && b[0] in b;
  }

  lemma PermutedDistinct(items: seq<Item>, other: seq<Item>)
    requires OneEach(items) && multiset(items) == multiset(other)
    ensures OneEach(other) && forall x :: x in other <==> x in items
  {
    forall x ensures x in other <==> x in items {
      assert x in multiset(items) <==> x in multiset(other);
    }
    forall i, j | 0 <= i < j < |other| && other[i].sequence == other[j].sequence ensures false {
      assert other[i] in items && other[j] in items;
      OnceEach(items, other[i]);
      TwiceIn(other, i, j);
    }
  }

  ghost function BatchOf(rows: map<Sequence, Event>, events: seq<Sequence>, view: View, ack: Sequence): Batch
    requires events != [] && forall s | s in events :: s in rows
  {
    Batch(ack, events[|events| - 1], UrgentFirst(ItemsOf(rows, events, view)), SkippedOf(rows, events, view))
  }

  /** A batch of handled events stays in range and handles each once. */
  lemma BatchInRange(rows: map<Sequence, Event>, events: seq<Sequence>, view: View, ack: Sequence)
    requires events != [] && (forall s | s in events :: s in rows && ack < s) && Ascending(events)
    ensures BatchOk(BatchOf(rows, events, view, ack))
  {
    var items := ItemsOf(rows, events, view);
    var sorted := UrgentFirst(items);
    ItemsOfEvents(rows, events, view);
    ItemsDistinct(rows, events, view);
    PermutedDistinct(items, sorted);
    forall i | 0 <= i < |sorted|
      ensures sorted[i].sequence in events && !Skips(rows[sorted[i].sequence], view(sorted[i].sequence))
    {
      assert sorted[i] in items;
    }
  }

  /** ... and leaves none of them out. */
  lemma BatchHandlesAll(rows: map<Sequence, Event>, events: seq<Sequence>, view: View, ack: Sequence)
    requires events != [] && (forall s | s in events :: s in rows)
    ensures forall s | s in events :: InBatch(BatchOf(rows, events, view, ack), s)
  {
    var items := ItemsOf(rows, events, view);
    var sorted := UrgentFirst(items);
    ItemsOfEvents(rows, events, view);
    forall s | s in events && !Skips(rows[s], view(s)) ensures exists i :: 0 <= i < |sorted| && sorted[i].sequence == s {
      assert ItemOf(s, view(s)) in multiset(sorted);
    }
  }

  lemma PrefixUpTo(all: seq<Sequence>, k: nat)
    requires Ascending(all) && 0 < k <= |all|
    ensures Ascending(all[..k]) && forall s | s in all && s <= all[k - 1] :: s in all[..k]
  {
    forall s | s in all && s <= all[k - 1] ensures s in all[..k] {
      var i :| 0 <= i < |all| && all[i] == s;
      assert i < k && all[..k][i] == s;
    }
  }

  /** The next batch handles, exactly once each, the eligible events up to its end. */
  lemma NextBatchHandles(rows: map<Sequence, Event>, reader: Reader, limit: nat, view: View)
    ensures var batch := NextBatch(rows, reader, limit, view);
            && batch.start == reader.ack && batch.end >= reader.ack
            && (batch.end != reader.ack ==> BatchOk(batch) && batch.end in rows && IsInbox(rows[batch.end]))
            && (forall s | s in rows && Eligible(reader, rows[s], s, reader.ack) && s <= batch.end :: InBatch(batch, s))
  {
    var all := EligibleEvents(rows, reader, reader.ack);
    var k := NextBatchIs(rows, reader, limit, view, all);
    if k > 0 {
      FrontHandled(rows, reader, all, view, k);
    }
  }

  /** It is the batch of the first `k` eligible events, or of none. */
  lemma NextBatchIs(rows: map<Sequence, Event>, reader: Reader, limit: nat, view: View, all: seq<Sequence>) returns (k: nat)
    requires all == EligibleEvents(rows, reader, reader.ack)
    ensures k <= |all| && forall s | s in all :: s in rows
    ensures if k > 0 then NextBatch(rows, reader, limit, view) == BatchOf(rows, all[..k], view, reader.ack)
            else NextBatch(rows, reader, limit, view).start == NextBatch(rows, reader, limit, view).end == reader.ack
  {
    var events := Take(all, PAGE);
    k := Handled(rows, events, view, limit, 0);
    assert events[..k] == all[..k];
  }

  /** A batch of the first `k` eligible events handles them, and no others are at or below its end. */
  lemma FrontHandled(rows: map<Sequence, Event>, reader: Reader, all: seq<Sequence>, view: View, k: nat)
    requires all == EligibleEvents(rows, reader, reader.ack) && 0 < k <= |all|
    ensures var batch := BatchOf(rows, all[..k], view, reader.ack);
            && batch.end > reader.ack && BatchOk(batch) && batch.end in rows && IsInbox(rows[batch.end])
            && (forall s | s in rows && Eligible(reader, rows[s], s, reader.ack) && s <= batch.end :: InBatch(batch, s))
  {
    PrefixUpTo(all, k);
    assert forall s | s in all[..k] :: s in all;
    BatchInRange(rows, all[..k], view, reader.ack);
    BatchHandlesAll(rows, all[..k], view, reader.ack);
    assert all[..k][k - 1] in all;
  }

  lemma SameSequencesOk(batch: Batch, items: seq<Item>)
    requires BatchOk(batch) && |items| == |batch.items|
    requires forall i | 0 <= i < |items| :: items[i].sequence == batch.items[i].sequence
    ensures BatchOk(batch.(items := items))
    ensures forall s :: InBatch(batch, s) <==> InBatch(batch.(items := items), s)
  {
    forall s ensures InBatch(batch, s) <==> InBatch(batch.(items := items), s) {
    }
  }

  /** Withdrawing sources changes no cursor and nothing that was handled. */
  lemma LastSanitized(rows: map<Sequence, Event>, reader: Reader, view: View)
    requires ReaderOk(rows, reader) && reader.pending && reader.history != []
    ensures var last := reader.history[|reader.history| - 1];
            var reader' := reader.(history := reader.history[|reader.history| - 1 := last.(items := Sanitized(last.items, view))]);
            ReaderOk(rows, reader') && Cursor(reader') == Cursor(reader)
  {
    var n := |reader.history| - 1;
    var last := reader.history[n];
    var reader' := reader.(history := reader.history[n := last.(items := Sanitized(last.items, view))]);
    SameSequencesOk(last, Sanitized(last.items, view));
    forall s | s in rows && Eligible(reader', rows[s], s, 0) && s <= Cursor(reader') ensures Accounted(reader', s) {
      assert Eligible(reader, rows[s], s, 0);
      var b :| 0 <= b < |reader.history| && InBatch(reader.history[b], s);
      assert InBatch(reader'.history[b], s);
    }
  }

  lemma HistoryGrows(rows: map<Sequence, Event>, reader: Reader, reader': Reader, batch: Batch)
    requires Tiled(reader.history) && Covered(rows, reader) && batch.start == Cursor(reader) && BatchOk(batch)
    requires reader'.history == reader.history + [batch] && reader'.subs == reader.subs && reader'.branch == reader.branch
    requires forall s | s in rows && Eligible(reader, rows[s], s, Cursor(reader)) && s <= batch.end :: InBatch(batch, s)
    ensures Tiled(reader'.history) && Covered(rows, reader') && Cursor(reader') == batch.end
  {
    forall s | s in rows && Eligible(reader', rows[s], s, 0) && s <= batch.end ensures Accounted(reader', s) {
      assert Follows(reader', rows[s].channel) == Follows(reader, rows[s].channel);
      if s <= Cursor(reader) {
        var b :| 0 <= b < |reader.history| && InBatch(reader.history[b], s);
        assert InBatch(reader'.history[b], s);
      } else {
        assert InBatch(reader'.history[|reader.history|], s);
      }
    }
  }

  lemma PolledOk(rows: map<Sequence, Event>, reader: Reader, limit: nat, view: View)
    requires ReaderOk(rows, reader) && limit >= 1
    ensures ReaderOk(rows, Polled(rows, reader, limit, view))
    ensures Cursor(Polled(rows, reader, limit, view)) >= Cursor(reader)
  {
    if reader.pending {
      LastSanitized(rows, reader, view);
    } else {
      NextBatchHandles(rows, reader, limit, view);
      var batch, reader' := NextBatch(rows, reader, limit, view), Polled(rows, reader, limit, view);
      if batch.end != reader.ack {
        HistoryGrows(rows, reader, reader', batch);
      }
    }
  }

  lemma AcknowledgedOk(rows: map<Sequence, Event>, reader: Reader, batch: nat, view: View)
    requires ReaderOk(rows, reader)
    ensures ReaderOk(rows, Acknowledged(reader, batch, view))
    ensures Cursor(Acknowledged(reader, batch, view)) == Cursor(reader)
  {
    if reader.pending {
      LastSanitized(rows, reader, view);
      var reader' := Acknowledged(reader, batch, view);
      if reader'.history == reader.history {
        forall s | s in rows && Eligible(reader', rows[s], s, 0) && s <= Cursor(reader') ensures Accounted(reader', s) {
          assert Eligible(reader, rows[s], s, 0);
          var b :| 0 <= b < |reader.history| && InBatch(reader.history[b], s);
        }
      }
    }
  }

  // ----- Every step keeps the invariant -----

  lemma NoChanges(subs: map<nat, Sub>, r: nat, changes: map<(nat, nat), Sub>)
    requires forall k | k in changes :: k.0 != r
    ensures WithChanges(subs, r, changes) == subs
  {
    assert (set k | k in changes && k.0 == r :: k.1) == {};
  }

  lemma TakeLockKeeps(st: State, t: nat)
    requires Inv(st) && Enabled(st, TakeLock(t))
    ensures Inv(Next(st, TakeLock(t)))
  {
    if st.lock == None {
      assert MyChanges(st.changes, t) == map[];
      forall r | r in st.readers ensures WithChanges(st.readers[r].subs, r, map[]) == st.readers[r].subs {
        NoChanges(st.readers[r].subs, r, map[]);
      }
    }
  }

  lemma InsertKeeps(st: State, t: nat, e: Event)
    requires Inv(st) && Enabled(st, Insert(t, e))
    ensures Inv(Next(st, Insert(t, e)))
  {
  }

  lemma BeginKeeps(st: State, t: nat)
    requires Inv(st) && Enabled(st, Begin(t))
    ensures Inv(Next(st, Begin(t)))
  {
  }

  lemma LockReaderKeeps(st: State, t: nat, r: nat)
    requires Inv(st) && Enabled(st, LockReader(t, r))
    ensures Inv(Next(st, LockReader(t, r)))
  {
    MoreLocks(st.next, st.changes, st.readerLocks, st.readers, r, t);
  }

  lemma MoreLocks(next: Sequence, changes: map<(nat, nat), Change>, locks: map<nat, nat>, readers: map<nat, Reader>, r: nat, t: nat)
    requires ChangesOk(next, changes, locks, readers) && (r in locks ==> locks[r] == t)
    ensures ChangesOk(next, changes, locks[r := t], readers)
  {
  }

  lemma OneMoreChange(st: State, t: nat, r: nat, topic: nat, sub: Sub)
    requires ChangesOk(st.next, st.changes, st.readerLocks, st.readers)
    requires LockOk(st.rows, st.open, st.inflight, st.changes, st.lock) && st.lock == Some(t)
    requires r in st.readerLocks && st.readerLocks[r] == t && r in st.readers && sub.start < st.next
    requires sub.subscribed ==> Cursor(st.readers[r]) <= sub.start
    ensures var changes := st.changes[(r, topic) := Change(t, sub)];
            ChangesOk(st.next, changes, st.readerLocks, st.readers)
            && LockOk(st.rows, st.open, st.inflight, changes, st.lock)
  {
  }

  lemma ReaderKeeps(st: State, r: nat, reader: Reader)
    requires Inv(st) && r in st.readers && r !in st.readerLocks
    requires ReaderOk(st.rows, reader) && reader.subs == st.readers[r].subs
    ensures Inv(st.(readers := st.readers[r := reader]))
  {
    ReaderKeepsChanges(st.next, st.changes, st.readerLocks, st.readers, r, reader);
    ReaderKeepsStarts(st.next, st.inflight, st.readers, r, reader);
    ReaderKeepsCap(st.changes, st.lock, st.readers, r, reader);
    ReaderKeepsReaders(st.rows, st.readers, r, reader);
  }

  lemma ReaderKeepsChanges(next: Sequence, changes: map<(nat, nat), Change>, locks: map<nat, nat>, readers: map<nat, Reader>,
                           r: nat, reader: Reader)
    requires ChangesOk(next, changes, locks, readers) && r !in locks
    ensures ChangesOk(next, changes, locks, readers[r := reader])
  {
  }

  lemma ReaderKeepsStarts(next: Sequence, inflight: map<Sequence, Row>, readers: map<nat, Reader>, r: nat, reader: Reader)
    requires StartsOk(next, inflight, readers) && r in readers && reader.subs == readers[r].subs
    ensures StartsOk(next, inflight, readers[r := reader])
  {
  }

  lemma ReaderKeepsCap(changes: map<(nat, nat), Change>, lock: Option<nat>, readers: map<nat, Reader>, r: nat, reader: Reader)
    requires CapOk(changes, lock, readers) && r in readers && reader.subs == readers[r].subs
    ensures CapOk(changes, lock, readers[r := reader])
  {
  }

  lemma ReaderKeepsReaders(rows: map<Sequence, Event>, readers: map<nat, Reader>, r: nat, reader: Reader)
    requires ReadersOk(rows, readers) && ReaderOk(rows, reader)
    ensures ReadersOk(rows, readers[r := reader])
  {
  }

  lemma SubscribeKeeps(st: State, t: nat, r: nat, topic: nat, on: bool)
    requires Inv(st) && Enabled(st, Subscribe(t, r, topic, on))
    ensures Inv(Next(st, Subscribe(t, r, topic, on)))
  {
    var st' := Next(st, Subscribe(t, r, topic, on));
    if st' != st {
      var sub := st'.changes[(r, topic)].sub;
      SubscribeStart(st, t, r, topic, on);
      OneMoreChange(st, t, r, topic, sub);
      SubscribeCap(st.changes, t, st.readers, r, topic, sub);
    }
  }

  lemma SubscribeCap(changes: map<(nat, nat), Change>, t: nat, readers: map<nat, Reader>, r: nat, topic: nat, sub: Sub)
    requires CapOk(changes, Some(t), readers) && r in readers
    requires sub.subscribed ==> |Active(WithChanges(readers[r].subs, r, MyChanges(changes, t)))| < MAX_SUBSCRIPTIONS
    ensures CapOk(changes[(r, topic) := Change(t, sub)], Some(t), readers)
  {
    var mine := MyChanges(changes, t);
    MineChanged(changes, t, r, topic, sub);
    forall x | x in readers
      ensures |Active(WithChanges(readers[x].subs, x, mine[(r, topic) := sub]))| <= MAX_SUBSCRIPTIONS
    {
      ChangeKeepsCap(readers[x].subs, x, mine, r, topic, sub);
    }
  }

  lemma MineChanged(changes: map<(nat, nat), Change>, t: nat, r: nat, topic: nat, sub: Sub)
    ensures MyChanges(changes[(r, topic) := Change(t, sub)], t) == MyChanges(changes, t)[(r, topic) := sub]
  {
  }

  /** A subscription's start hides no row its reader has not passed. */
  lemma SubscribeStart(st: State, t: nat, r: nat, topic: nat, on: bool)
    requires Inv(st) && Enabled(st, Subscribe(t, r, topic, on)) && Next(st, Subscribe(t, r, topic, on)) != st
    ensures var sub := Next(st, Subscribe(t, r, topic, on)).changes[(r, topic)].sub;
            && sub.subscribed == on && sub.start < st.next && (on ==> Cursor(st.readers[r]) <= sub.start)
            && (on ==> |Active(WithChanges(st.readers[r].subs, r, MyChanges(st.changes, t)))| < MAX_SUBSCRIPTIONS)
  {
    SeenStarts(st.next, st.inflight, st.changes, st.readerLocks, st.readers, t, r, topic);
    NewestStart(st.next, st.rows, st.open, st.inflight, st.readers[r], t);
  }

  lemma SeenStarts(next: Sequence, inflight: map<Sequence, Row>, changes: map<(nat, nat), Change>, locks: map<nat, nat>,
                   readers: map<nat, Reader>, t: nat, r: nat, topic: nat)
    requires ChangesOk(next, changes, locks, readers) && StartsOk(next, inflight, readers) && r in readers
    ensures var seen := WithChanges(readers[r].subs, r, MyChanges(changes, t));
            topic in seen ==> seen[topic].start < next
  {
  }

  /** The newest sequence a transaction sees is past every cursor, and not yet to come. */
  lemma NewestStart(next: Sequence, rows: map<Sequence, Event>, open: set<nat>, inflight: map<Sequence, Row>, reader: Reader, t: nat)
    requires SequencesOk(next, rows, open, inflight) && ReaderOk(rows, reader)
    ensures Cursor(reader) <= MaxVisible(rows, Mine(inflight, t)) < next
  {
    assert IsMaxVisible(rows, Mine(inflight, t), MaxVisible(rows, Mine(inflight, t)));
  }

  lemma ChangeKeepsCap(subs: map<nat, Sub>, x: nat, changes: map<(nat, nat), Sub>, r: nat, topic: nat, sub: Sub)
    requires |Active(WithChanges(subs, x, changes))| <= MAX_SUBSCRIPTIONS
    requires x == r && sub.subscribed ==> |Active(WithChanges(subs, x, changes))| < MAX_SUBSCRIPTIONS
    ensures |Active(WithChanges(subs, x, changes[(r, topic) := sub]))| <= MAX_SUBSCRIPTIONS
  {
    var before := WithChanges(subs, x, changes);
    WithOneMore(subs, x, changes, r, topic, sub);
    ActiveOneMore(before, topic, sub);
  }

  lemma ActiveOneMore(subs: map<nat, Sub>, topic: nat, sub: Sub)
    ensures |Active(subs[topic := sub])| <= |Active(subs)| + if sub.subscribed then 1 else 0
  {
    assert Active(subs[topic := sub]) == if sub.subscribed then Active(subs) + {topic} else Active(subs) - {topic};
  }

  lemma WithOneMore(subs: map<nat, Sub>, x: nat, changes: map<(nat, nat), Sub>, r: nat, topic: nat, sub: Sub)
    ensures var before := WithChanges(subs, x, changes);
            WithChanges(subs, x, changes[(r, topic) := sub]) == if x == r then before[topic := sub] else before
  {
    var changes' := changes[(r, topic) := sub];
    forall y ensures y in WithChanges(subs, x, changes') <==> y in WithChanges(subs, x, changes) || (x == r && y == topic) {
      if (x, y) in changes' {
        assert y in (set k | k in changes' && k.0 == x :: k.1);
      }
      if (x, y) in changes {
        assert y in (set k | k in changes && k.0 == x :: k.1);
      }
    }
  }

  /** Rows past the cursor and subscriptions that start there leave what was covered covered. */
  lemma CoveredStays(rows: map<Sequence, Event>, mine: map<Sequence, Event>, reader: Reader, r: nat, changes: map<(nat, nat), Sub>)
    requires Covered(rows, reader) && mine.Keys !! rows.Keys
    requires forall s | s in mine && IsInbox(mine[s]) :: s > Cursor(reader)
    requires forall k | k in changes && k.0 == r && changes[k].subscribed :: Cursor(reader) <= changes[k].start
    ensures Covered(rows + mine, reader.(subs := WithChanges(reader.subs, r, changes)))
  {
    var rows', reader' := rows + mine, reader.(subs := WithChanges(reader.subs, r, changes));
    forall s | s in rows' && Eligible(reader', rows'[s], s, 0) && s <= Cursor(reader') ensures Accounted(reader', s) {
      assert s in rows && rows'[s] == rows[s];
      if rows[s].channel.Thread? {
        assert (r, rows[s].channel.topic) !in changes;
        assert reader.subs[rows[s].channel.topic] == reader'.subs[rows[s].channel.topic];
      }
      assert Eligible(reader, rows[s], s, 0);
      assert reader'.history == reader.history && Accounted(reader, s);
    }
  }

  lemma CommittedReaderOk(st: State, t: nat, r: nat)
    requires Inv(st) && r in st.readers
    ensures ReaderOk(Committed(st, t).rows, Committed(st, t).readers[r])
  {
    var reader, mine := st.readers[r], Mine(st.inflight, t);
    assert ReaderOk(st.rows, reader);
    CoveredStays(st.rows, mine, reader, r, MyChanges(st.changes, t));
    assert Cursor(reader) in st.rows ==> (st.rows + mine)[Cursor(reader)] == st.rows[Cursor(reader)];
  }

  lemma ClosedLocks(st: State, t: nat)
    requires SequencesOk(st.next, st.rows, st.open, st.inflight)
    requires LockOk(st.rows, st.open, st.inflight, st.changes, st.lock)
    ensures var st' := Closed(st, t);
            && SequencesOk(st'.next, st'.rows, st'.open, st'.inflight)
            && LockOk(st'.rows, st'.open, st'.inflight, st'.changes, st'.lock)
  {
  }

  lemma ClosedChanges(st: State, t: nat)
    requires ChangesOk(st.next, st.changes, st.readerLocks, st.readers) && StartsOk(st.next, st.inflight, st.readers)
    ensures var st' := Closed(st, t);
            ChangesOk(st'.next, st'.changes, st'.readerLocks, st'.readers) && StartsOk(st'.next, st'.inflight, st'.readers)
  {
  }

  lemma ClosedCap(st: State, t: nat)
    requires CapOk(st.changes, st.lock, st.readers)
    ensures CapOk(Closed(st, t).changes, Closed(st, t).lock, st.readers)
  {
    var st' := Closed(st, t);
    if st'.lock.Some? {
      assert MyChanges(st'.changes, st'.lock.value) == MyChanges(st.changes, st'.lock.value);
    }
  }

  lemma ClosedKeeps(st: State, t: nat)
    requires Inv(st) && t in st.open
    ensures Inv(Closed(st, t))
  {
    ClosedLocks(st, t);
    ClosedChanges(st, t);
    ClosedCap(st, t);
  }

  lemma CommitKeeps(st: State, t: nat)
    requires Inv(st) && t in st.open
    ensures Inv(Committed(st, t))
  {
    forall r | r in Committed(st, t).readers ensures ReaderOk(Committed(st, t).rows, Committed(st, t).readers[r]) {
      CommittedReaderOk(st, t, r);
    }
    CommitSequences(st, t);
    CommitStarts(st, t);
  }

  lemma CommitSequences(st: State, t: nat)
    requires SequencesOk(st.next, st.rows, st.open, st.inflight)
    requires LockOk(st.rows, st.open, st.inflight, st.changes, st.lock)
    ensures var st' := Committed(st, t);
            && SequencesOk(st'.next, st'.rows, st'.open, st'.inflight)
            && LockOk(st'.rows, st'.open, st'.inflight, st'.changes, st'.lock)
  {
  }

  /** Subscriptions commit under the lock, so no other inbox row or change is in flight then. */
  lemma CommitStarts(st: State, t: nat)
    requires LockOk(st.rows, st.open, st.inflight, st.changes, st.lock) && CapOk(st.changes, st.lock, st.readers)
    requires StartsOk(st.next, st.inflight, st.readers) && ChangesOk(st.next, st.changes, st.readerLocks, st.readers)
    ensures var st' := Committed(st, t);
            && StartsOk(st'.next, st'.inflight, st'.readers)
            && CapOk(st'.changes, st'.lock, st'.readers)
            && ChangesOk(st'.next, st'.changes, st'.readerLocks, st'.readers)
  {
    if st.lock == Some(t) {
      CommitHolder(st, t);
    } else {
      CommitOther(st, t);
      ClosedChanges(st, t);
      ClosedCap(st, t);
    }
  }

  lemma CommitOther(st: State, t: nat)
    requires LockOk(st.rows, st.open, st.inflight, st.changes, st.lock) && st.lock != Some(t)
    ensures Committed(st, t).readers == st.readers
  {
    assert MyChanges(st.changes, t) == map[];
    forall r | r in st.readers ensures Committed(st, t).readers[r] == st.readers[r] {
      NoChanges(st.readers[r].subs, r, map[]);
    }
  }

  lemma CommitHolder(st: State, t: nat)
    requires LockOk(st.rows, st.open, st.inflight, st.changes, st.lock) && CapOk(st.changes, st.lock, st.readers)
    requires StartsOk(st.next, st.inflight, st.readers) && ChangesOk(st.next, st.changes, st.readerLocks, st.readers)
    requires st.lock == Some(t)
    ensures var st' := Committed(st, t);
            && StartsOk(st'.next, st'.inflight, st'.readers)
            && CapOk(st'.changes, st'.lock, st'.readers)
            && ChangesOk(st'.next, st'.changes, st'.readerLocks, st'.readers)
  {
    var closed := Closed(st, t);
    HolderLeavesNothing(st, t);
    CommittedCap(st.changes, t, st.readers);
    CommittedStarts(st.next, closed.inflight, st.readers, MyChanges(st.changes, t));
  }

  lemma HolderLeavesNothing(st: State, t: nat)
    requires LockOk(st.rows, st.open, st.inflight, st.changes, st.lock) && st.lock == Some(t)
    ensures var closed := Closed(st, t);
            && closed.changes == map[] && closed.lock == None
            && forall s | s in closed.inflight :: !IsInbox(closed.inflight[s].event)
  {
  }

  lemma CommittedCap(changes: map<(nat, nat), Change>, t: nat, readers: map<nat, Reader>)
    requires CapOk(changes, Some(t), readers)
    ensures CapOk(map[], None, CommittedReaders(readers, MyChanges(changes, t)))
  {
  }

  lemma CommittedStarts(next: Sequence, inflight: map<Sequence, Row>, readers: map<nat, Reader>, changes: map<(nat, nat), Sub>)
    requires forall r, topic | r in readers && topic in readers[r].subs :: readers[r].subs[topic].start < next
    requires forall k | k in changes :: changes[k].start < next
    requires forall s | s in inflight :: !IsInbox(inflight[s].event)
    ensures StartsOk(next, inflight, CommittedReaders(readers, changes))
  {
    forall r, topic | r in readers && topic in WithChanges(readers[r].subs, r, changes)
      ensures WithChanges(readers[r].subs, r, changes)[topic].start < next
    {
      StartInRange(next, readers[r].subs, r, changes, topic);
    }
  }

  lemma StartInRange(next: Sequence, subs: map<nat, Sub>, r: nat, changes: map<(nat, nat), Sub>, topic: nat)
    requires (forall x | x in subs :: subs[x].start < next) && (forall k | k in changes :: changes[k].start < next)
    requires topic in WithChanges(subs, r, changes)
    ensures WithChanges(subs, r, changes)[topic].start < next
  {
  }

  /** Every step of any writer or reader keeps the invariant. */
  lemma StepKeepsInv(st: State, step: Step)
    requires Inv(st) && Enabled(st, step)
    ensures Inv(Next(st, step))
  {
    match step
    case Begin(t) => BeginKeeps(st, t);
    case TakeLock(t) => TakeLockKeeps(st, t);
    case LockReader(t, r) => LockReaderKeeps(st, t, r);
    case Insert(t, e) => InsertKeeps(st, t, e);
    case Subscribe(t, r, topic, on) => SubscribeKeeps(st, t, r, topic, on);
    case Commit(t) => CommitKeeps(st, t);
    case Abort(t) => ClosedKeeps(st, t);
    case Poll(r, limit, view) => PollKeeps(st, r, limit, view);
    case Acknowledge(r, batch, view) => AcknowledgeKeeps(st, r, batch, view);
  }

  lemma PollKeeps(st: State, r: nat, limit: nat, view: View)
    requires Inv(st) && Enabled(st, Poll(r, limit, view))
    ensures Inv(Next(st, Poll(r, limit, view)))
  {
    var reader, reader' := st.readers[r], Polled(st.rows, st.readers[r], limit, view);
    PolledReader(st.rows, reader, limit, view, reader');
    ReaderKeeps(st, r, reader');
  }

  lemma PolledReader(rows: map<Sequence, Event>, reader: Reader, limit: nat, view: View, reader': Reader)
    requires ReaderOk(rows, reader) && limit >= 1 && reader' == Polled(rows, reader, limit, view)
    ensures ReaderOk(rows, reader') && reader'.subs == reader.subs && reader'.branch == reader.branch
    ensures Cursor(reader') >= Cursor(reader)
  {
    PolledOk(rows, reader, limit, view);
  }

  lemma AcknowledgeKeeps(st: State, r: nat, batch: nat, view: View)
    requires Inv(st) && Enabled(st, Acknowledge(r, batch, view))
    ensures Inv(Next(st, Acknowledge(r, batch, view)))
  {
    assert ReaderOk(st.rows, st.readers[r]);
    AcknowledgedOk(st.rows, st.readers[r], batch, view);
    ReaderKeeps(st, r, Acknowledged(st.readers[r], batch, view));
  }

  // ----- Whole runs -----

  ghost predicate IsRun(run: seq<State>, steps: seq<Step>) {
    && |run| == |steps| + 1 && Inv(run[0])
    && forall i | 0 <= i < |steps| :: Enabled(run[i], steps[i]) && run[i + 1] == Next(run[i], steps[i])
  }

  lemma {:induction false} RunKeepsInv(run: seq<State>, steps: seq<Step>, i: nat)
    requires IsRun(run, steps) && i < |run|
    ensures Inv(run[i])
  {
    if i > 0 {
      RunKeepsInv(run, steps, i - 1);
      StepKeepsInv(run[i - 1], steps[i - 1]);
    }
  }

  /** What a batch handled it goes on having handled, whatever is withdrawn from it later. */
  ghost predicate Extends(reader: Reader, later: Reader) {
    && Cursor(reader) <= Cursor(later) && |reader.history| <= |later.history|
    && reader.branch == later.branch
    && forall b, s | 0 <= b < |reader.history| && InBatch(reader.history[b], s) :: InBatch(later.history[b], s)
  }

  lemma SanitizedExtends(reader: Reader, view: View)
    requires reader.history != [] && Tiled(reader.history)
    ensures var last := reader.history[|reader.history| - 1];
            Extends(reader, reader.(history := reader.history[|reader.history| - 1 := last.(items := Sanitized(last.items, view))]))
  {
    var last := reader.history[|reader.history| - 1];
    SameSequencesOk(last, Sanitized(last.items, view));
  }

  lemma PolledExtends(rows: map<Sequence, Event>, reader: Reader, limit: nat, view: View, reader': Reader)
    requires ReaderOk(rows, reader) && limit >= 1 && reader' == Polled(rows, reader, limit, view)
    ensures Extends(reader, reader')
  {
    PolledReader(rows, reader, limit, view, reader');
    if reader.pending {
      SanitizedExtends(reader, view);
    }
  }

  lemma AcknowledgedExtends(rows: map<Sequence, Event>, reader: Reader, batch: nat, view: View, reader': Reader)
    requires ReaderOk(rows, reader) && reader' == Acknowledged(reader, batch, view)
    ensures Extends(reader, reader')
  {
    if reader.pending {
      SanitizedExtends(reader, view);
    }
  }

  lemma ReaderExtends(st: State, step: Step, r: nat)
    requires Inv(st) && Enabled(st, step) && r in st.readers
    ensures r in Next(st, step).readers && Extends(st.readers[r], Next(st, step).readers[r])
  {
    var reader, reader' := st.readers[r], Next(st, step).readers[r];
    assert ReaderOk(st.rows, reader);
    if step.Poll? && step.reader == r {
      PolledExtends(st.rows, reader, step.limit, step.view, reader');
    } else if step.Acknowledge? && step.reader == r {
      AcknowledgedExtends(st.rows, reader, step.batch, step.view, reader');
    } else {
      OtherReadersKept(st, step, r);
    }
  }

  lemma OtherReadersKept(st: State, step: Step, r: nat)
    requires Enabled(st, step) && r in st.readers && !((step.Poll? || step.Acknowledge?) && step.reader == r)
    ensures r in Next(st, step).readers && Next(st, step).readers[r].(subs := st.readers[r].subs) == st.readers[r]
  {
  }

  /** A row commits only past every cursor, and past the start of every channel already followed. */
  lemma CommitsPastCursors(st: State, step: Step, s: Sequence, r: nat)
    requires Inv(st) && Enabled(st, step) && r in st.readers
    requires s !in st.rows && s in Next(st, step).rows && IsInbox(Next(st, step).rows[s])
    ensures PastReader(s, st.readers[r])
  {
    CommitAddsRow(st, step, s);
    RowPastReader(st.next, st.rows, st.inflight, st.readers, s, r);
  }

  lemma CommitAddsRow(st: State, step: Step, s: Sequence)
    requires Enabled(st, step) && s !in st.rows && s in Next(st, step).rows
    ensures s in st.inflight && Next(st, step).rows[s] == st.inflight[s].event
  {
    assert step.Commit?;
  }

  lemma RowPastReader(next: Sequence, rows: map<Sequence, Event>, inflight: map<Sequence, Row>, readers: map<nat, Reader>,
                      s: Sequence, r: nat)
    requires StartsOk(next, inflight, readers) && ReadersOk(rows, readers) && r in readers
    requires s in inflight && IsInbox(inflight[s].event) && s > 0
    requires forall k | k in rows && IsInbox(rows[k]) :: k < s
    ensures PastReader(s, readers[r])
  {
    assert ReaderOk(rows, readers[r]);
  }

  ghost predicate PastReader(s: Sequence, reader: Reader) {
    && s > Cursor(reader)
    && forall channel :: Follows(reader, channel).Some? ==> Follows(reader, channel).value < s
  }

  /** What one step may do to the rows and the readers. */
  ghost predicate Moves(st: State, st': State) {
    && (forall s | s in st.rows :: s in st'.rows && st'.rows[s] == st.rows[s])
    && (forall r | r in st.readers :: r in st'.readers && Extends(st.readers[r], st'.readers[r]))
    && (forall s, r | s in st'.rows && s !in st.rows && IsInbox(st'.rows[s]) && r in st.readers ::
          PastReader(s, st.readers[r]))
  }

  lemma StepMoves(st: State, step: Step)
    requires Inv(st) && Enabled(st, step)
    ensures Moves(st, Next(st, step))
  {
    var st' := Next(st, step);
    forall r | r in st.readers ensures r in st'.readers && Extends(st.readers[r], st'.readers[r]) {
      ReaderExtends(st, step, r);
    }
    forall s, r | s in st'.rows && s !in st.rows && IsInbox(st'.rows[s]) && r in st.readers
      ensures PastReader(s, st.readers[r])
    {
      CommitsPastCursors(st, step, s, r);
    }
    RowsStay(st, step);
  }

  lemma RowsStay(st: State, step: Step)
    requires Inv(st) && Enabled(st, step)
    ensures forall s | s in st.rows :: s in Next(st, step).rows && Next(st, step).rows[s] == st.rows[s]
  {
  }

  ghost predicate Moving(run: seq<State>) {
    forall i | 0 <= i < |run| - 1 :: Moves(run[i], run[i + 1])
  }

  /** A run as its readers see it. */
  ghost predicate Story(run: seq<State>) {
    && Moving(run)
    && (forall i, r | 0 <= i < |run| && r in run[i].readers :: ReaderOk(run[i].rows, run[i].readers[r]))
  }

  lemma RunIsStory(run: seq<State>, steps: seq<Step>)
    requires IsRun(run, steps)
    ensures Story(run)
  {
    forall i | 0 <= i < |run| ensures Inv(run[i]) {
      RunKeepsInv(run, steps, i);
    }
    forall i | 0 <= i < |run| - 1 ensures Moves(run[i], run[i + 1]) {
      StepMoves(run[i], steps[i]);
    }
  }

  lemma MoveExtends(st: State, st': State, r: nat)
    requires Moves(st, st') && r in st.readers
    ensures r in st'.readers && Extends(st.readers[r], st'.readers[r])
  {
  }

  lemma {:induction false} CursorsOnlyAdvance(run: seq<State>, i: nat, j: nat, r: nat)
    requires Moving(run) && i <= j < |run| && r in run[i].readers
    ensures r in run[j].readers && Cursor(run[i].readers[r]) <= Cursor(run[j].readers[r])
    decreases j
  {
    if i < j {
      CursorsOnlyAdvance(run, i, j - 1, r);
      MoveExtends(run[j - 1], run[j], r);
    }
  }

  /** Where an event that was not committed before was committed. */
  lemma {:induction false} CommitPoint(run: seq<State>, i: nat, j: nat, s: Sequence) returns (k: nat)
    requires Moving(run) && i <= j < |run| && s !in run[i].rows && s in run[j].rows
    ensures i <= k < j && s !in run[k].rows && s in run[k + 1].rows && run[k + 1].rows[s] == run[j].rows[s]
    decreases j
  {
    assert Moves(run[j - 1], run[j]);
    if s in run[j - 1].rows {
      k := CommitPoint(run, i, j - 1, s);
    } else {
      k := j - 1;
    }
  }

  /** No event at or below a reader's cursor ever commits later. */
  lemma NothingCommitsBehindTheCursor(run: seq<State>, steps: seq<Step>, i: nat, j: nat, r: nat, s: Sequence)
    requires IsRun(run, steps) && i <= j < |run| && r in run[i].readers
    requires s !in run[i].rows && s in run[j].rows && IsInbox(run[j].rows[s])
    ensures s > Cursor(run[i].readers[r])
  {
    RunIsStory(run, steps);
    var k := CommitPoint(run, i, j, s);
    CursorsOnlyAdvance(run, i, k, r);
    assert Moves(run[k], run[k + 1]);
  }

  lemma {:induction false} RangesIncrease(history: seq<Batch>, a: nat, b: nat)
    requires Tiled(history) && a < b < |history|
    ensures history[a].end <= history[b].start
  {
    if a < b - 1 {
      RangesIncrease(history, a, b - 1);
      assert BatchOk(history[b - 1]);
    }
  }

  /** Handled by exactly one batch of the reader, as one item or one skip. */
  ghost predicate HandledOnce(reader: Reader, s: Sequence) {
    exists b :: 0 <= b < |reader.history| && InBatch(reader.history[b], s)
                && (forall c | 0 <= c < |reader.history| && InBatch(reader.history[c], s) :: c == b)
                && OnceIn(reader.history[b], s)
  }

  ghost predicate OnceIn(batch: Batch, s: Sequence) {
    forall i | 0 <= i < |batch.items| && batch.items[i].sequence == s ::
      s !in batch.skipped && forall j | 0 <= j < |batch.items| && batch.items[j].sequence == s :: j == i
  }

  lemma AccountedOnce(reader: Reader, s: Sequence)
    requires Tiled(reader.history) && Accounted(reader, s)
    ensures HandledOnce(reader, s)
  {
    var b :| 0 <= b < |reader.history| && InBatch(reader.history[b], s);
    assert BatchOk(reader.history[b]);
    forall c | 0 <= c < |reader.history| && InBatch(reader.history[c], s) ensures c == b {
      if b < c {
        NotInBoth(reader.history, b, c, s);
      } else if c < b {
        NotInBoth(reader.history, c, b, s);
      }
    }
  }

  lemma NotInBoth(history: seq<Batch>, a: nat, b: nat, s: Sequence)
    requires Tiled(history) && a < b < |history| && InBatch(history[a], s)
    ensures !InBatch(history[b], s)
  {
    assert BatchOk(history[a]) && BatchOk(history[b]);
    RangesIncrease(history, a, b);
  }

  /** Under every interleaving: an event of a channel the reader follows from before the event's
      commit until the cursor passes it is in exactly one delivery, or was skipped once. */
  lemma ExactlyOnce(run: seq<State>, steps: seq<Step>, i: nat, j: nat, r: nat,
                    channel: Channel, start: Sequence, s: Sequence)
    requires IsRun(run, steps) && i <= j < |run|
    requires forall k | i <= k <= j :: r in run[k].readers && Follows(run[k].readers[r], channel) == Some(start)
    requires s !in run[i].rows && s in run[j].rows && run[j].rows[s] == InboxEvent(channel)
    requires s <= Cursor(run[j].readers[r])
    ensures HandledOnce(run[j].readers[r], s)
  {
    RunIsStory(run, steps);
    var k := CommitPoint(run, i, j, s);
    assert Moves(run[k], run[k + 1]);
    assert PastReader(s, run[k].readers[r]);
    assert ReaderOk(run[j].rows, run[j].readers[r]);
    assert Follows(run[k].readers[r], channel).value < s;
    assert Eligible(run[j].readers[r], run[j].rows[s], s, 0);
    AccountedOnce(run[j].readers[r], s);
  }

  /** ... and stays so on every longer run, whatever is unsubscribed or withdrawn afterwards. */
  lemma HandledOnceForGood(run: seq<State>, steps: seq<Step>, j: nat, k: nat, r: nat, s: Sequence)
    requires IsRun(run, steps) && j <= k < |run| && r in run[j].readers && HandledOnce(run[j].readers[r], s)
    ensures r in run[k].readers && HandledOnce(run[k].readers[r], s)
  {
    RunIsStory(run, steps);
    StillAccounted(run, j, k, r, s);
    assert ReaderOk(run[k].rows, run[k].readers[r]);
    AccountedOnce(run[k].readers[r], s);
  }

  lemma AccountedStays(reader: Reader, later: Reader, s: Sequence)
    requires Extends(reader, later) && Accounted(reader, s)
    ensures Accounted(later, s)
  {
    var b :| 0 <= b < |reader.history| && InBatch(reader.history[b], s);
    assert InBatch(later.history[b], s);
  }

  lemma {:induction false} StillAccounted(run: seq<State>, j: nat, k: nat, r: nat, s: Sequence)
    requires Moving(run) && j <= k < |run| && r in run[j].readers && Accounted(run[j].readers[r], s)
    ensures r in run[k].readers && Accounted(run[k].readers[r], s)
    decreases k
  {
    if j < k {
      StillAccounted(run, j, k - 1, r, s);
      MoveExtends(run[k - 1], run[k], r);
      AccountedStays(run[k - 1].readers[r], run[k].readers[r], s);
    }
  }

  /** Delivery ranges are disjoint and increasing, and only the last one may be pending. */
  lemma DeliveriesInOrder(run: seq<State>, steps: seq<Step>, i: nat, r: nat)
    requires IsRun(run, steps) && i < |run| && r in run[i].readers
    ensures var reader := run[i].readers[r];
            && (forall a, b | 0 <= a < b < |reader.history| :: reader.history[a].end <= reader.history[b].start)
            && (forall b | 0 <= b < |reader.history| && reader.history[b].end > reader.ack ::
                  b == |reader.history| - 1 && reader.pending)
  {
    RunIsStory(run, steps);
    var reader := run[i].readers[r];
    assert ReaderOk(run[i].rows, reader);
    forall a, b | 0 <= a < b < |reader.history| ensures reader.history[a].end <= reader.history[b].start {
      RangesIncrease(reader.history, a, b);
    }
    forall b | 0 <= b < |reader.history| ensures BatchOk(reader.history[b]) {
    }
  }
}
