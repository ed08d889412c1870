/** The inbox's operations over stored rows, and the agreement of an event wait's peek with what
    polling then delivers. */
module Delivery {
  import opened Basics
  import opened Inbox

  const UPDATE_SCAN_PAGE := 100
  const MAX_UPDATE_SCAN := 1000

  // ----- One poll's scan -----

  lemma OneMoreEvent(rows: map<Sequence, Event>, events: seq<Sequence>, view: View, k: nat)
    requires (forall s | s in events :: s in rows) && k < |events|
    ensures var s := events[k];
            && ItemsOf(rows, events[..k + 1], view)
                 == ItemsOf(rows, events[..k], view) + (if Skips(rows[s], view(s)) then [] else [ItemOf(s, view(s))])
            && SkippedOf(rows, events[..k + 1], view)
                 == SkippedOf(rows, events[..k], view) + if Skips(rows[s], view(s)) then {s} else {}
  {
    assert events[..k + 1][..k] == events[..k];
    assert events[..k + 1] == events[..k] + [events[k]];
  }

  /** The first `handled` events are handled, and the scan goes on from there; folded. */
  ghost predicate Scanned(rows: map<Sequence, Event>, events: seq<Sequence>, view: View, limit: nat,
                          items: seq<Item>, skipped: set<Sequence>, handled: nat)
    requires (forall s | s in events :: s in rows) && handled <= |events|
  {
    forall at: nat {:trigger Unfolded(at)} :: Unfolded(at) ==>
      && items == ItemsOf(rows, events[..handled], view) && skipped == SkippedOf(rows, events[..handled], view)
      && Handled(rows, events, view, limit, handled) == Handled(rows, events, view, limit, 0)
  }

  /** The next event is a skip, or an item that fits. */
  lemma ScannedMore(rows: map<Sequence, Event>, events: seq<Sequence>, view: View, limit: nat,
                    items: seq<Item>, skipped: set<Sequence>, handled: nat, items': seq<Item>, skipped': set<Sequence>)
    requires (forall s | s in events :: s in rows) && handled < |events|
    requires Scanned(rows, events, view, limit, items, skipped, handled) && |items| < limit
    requires var s := events[handled];
             if Skips(rows[s], view(s)) then items' == items && skipped' == skipped + {s}
             else items' == items + [ItemOf(s, view(s))] && skipped' == skipped && BatchBytes(items') <= MAX_BATCH_BYTES
    ensures |items'| < limit ==> Scanned(rows, events, view, limit, items', skipped', handled + 1)
    ensures |items'| == limit ==> Stopped(rows, events, view, limit, items', skipped', handled + 1)
  {
    assert Unfolded(0);
    OneMoreEvent(rows, events, view, handled);
    HandledNext(rows, events, view, limit, handled, items);
  }

  lemma HandledNext(rows: map<Sequence, Event>, events: seq<Sequence>, view: View, limit: nat, done: nat, items: seq<Item>)
    requires (forall s | s in events :: s in rows) && done < |events| && items == ItemsOf(rows, events[..done], view)
    ensures var s := events[done];
            Handled(rows, events, view, limit, done)
            == if Skips(rows[s], view(s)) then Handled(rows, events, view, limit, done + 1)
               else if BatchBytes(items + [ItemOf(s, view(s))]) > MAX_BATCH_BYTES then done
               else if |items| + 1 == limit then done + 1
               else Handled(rows, events, view, limit, done + 1)
  {
  }

  /** What one poll handled, and what that came to; folded. */
  ghost predicate Stopped(rows: map<Sequence, Event>, events: seq<Sequence>, view: View, limit: nat,
                          items: seq<Item>, skipped: set<Sequence>, handled: nat)
    requires (forall s | s in events :: s in rows) && handled <= |events|
  {
    forall at: nat {:trigger Unfolded(at)} :: Unfolded(at) ==>
      && items == ItemsOf(rows, events[..handled], view) && skipped == SkippedOf(rows, events[..handled], view)
      && handled == Handled(rows, events, view, limit, 0)
  }

  /** The scan stops at the end of the events, or before an item that does not fit. */
  lemma StopsHere(rows: map<Sequence, Event>, events: seq<Sequence>, view: View, limit: nat,
                  items: seq<Item>, skipped: set<Sequence>, handled: nat)
    requires (forall s | s in events :: s in rows) && handled <= |events|
    requires Scanned(rows, events, view, limit, items, skipped, handled)
    requires handled == |events| || FullBefore(rows, items, events[handled], view)
    ensures Stopped(rows, events, view, limit, items, skipped, handled)
  {
    assert Unfolded(0);
  }

  /** The scan of one poll: as many events as fit, by count and by bytes, each an item or a skip. */
  method Scan(rows: map<Sequence, Event>, events: seq<Sequence>, view: View, limit: nat)
    returns (items: seq<Item>, skipped: set<Sequence>, handled: nat)
    requires (forall s | s in events :: s in rows) && limit >= 1
    ensures handled == Handled(rows, events, view, limit, 0)
    ensures items == ItemsOf(rows, events[..handled], view) && skipped == SkippedOf(rows, events[..handled], view)
    ensures |items| <= limit && BatchBytes(items) <= MAX_BATCH_BYTES
    ensures handled < |events| ==> |items| == limit || FullBefore(rows, items, events[handled], view)
  {
    items, skipped, handled := ScanEvents(rows, events, view, limit);
    assert Unfolded(0);
  }

  method ScanEvents(rows: map<Sequence, Event>, events: seq<Sequence>, view: View, limit: nat)
    returns (items: seq<Item>, skipped: set<Sequence>, handled: nat)
    requires (forall s | s in events :: s in rows) && limit >= 1
    ensures handled <= |events| && Stopped(rows, events, view, limit, items, skipped, handled)
    ensures |items| <= limit && BatchBytes(items) <= MAX_BATCH_BYTES
    ensures handled < |events| ==> |items| == limit || FullBefore(rows, items, events[handled], view)
  {
    items, skipped, handled := [], {}, 0;
    NothingScanned(rows, events, view, limit);
    while handled < |events|
      invariant handled <= |events| && |items| < limit && BatchBytes(items) <= MAX_BATCH_BYTES
      invariant Scanned(rows, events, view, limit, items, skipped, handled)
    {
      var s := events[handled];
      ghost var items0, skipped0 := items, skipped;
      if Skips(rows[s], view(s)) {
        skipped := skipped + {s};
      } else {
        var more := items + [ItemOf(s, view(s))];
        if BatchBytes(more) > MAX_BATCH_BYTES {
          StopsHere(rows, events, view, limit, items, skipped, handled);
          return;
        }
        items := more;
      }
      ScannedMore(rows, events, view, limit, items0, skipped0, handled, items, skipped);
      handled := handled + 1;
      if |items| == limit {
        return;
      }
    }
    StopsHere(rows, events, view, limit, items, skipped, handled);
  }

  lemma NothingScanned(rows: map<Sequence, Event>, events: seq<Sequence>, view: View, limit: nat)
    requires forall s | s in events :: s in rows
    ensures Scanned(rows, events, view, limit, [], {}, 0)
  {
    assert events[..0] == [];
  }

  ghost predicate FullBefore(rows: map<Sequence, Event>, items: seq<Item>, next: Sequence, view: View)
    requires next in rows
  {
    !Skips(rows[next], view(next)) && BatchBytes(items + [ItemOf(next, view(next))]) > MAX_BATCH_BYTES
  }

  /** Items are excerpts cut to the item bound. */
  ghost predicate ItemsFit(view: View) {
    forall s :: view(s).size <= MAX_ITEM_BYTES
  }

  /** What a scan handles before its first item are skips, and nothing stops it there. */
  lemma {:induction false} SkipsOnly(rows: map<Sequence, Event>, events: seq<Sequence>, view: View, limit: nat, done: nat)
    requires (forall s | s in events :: s in rows) && limit >= 1 && done <= |events| && ItemsFit(view)
    requires ItemsOf(rows, events[..done], view) == []
    ensures var k := Handled(rows, events, view, limit, done);
            && (ItemsOf(rows, events[..k], view) == [] ==> k == |events|)
            && (done < |events| ==> k > done)
    decreases |events| - done
  {
    if done < |events| {
      var s := events[done];
      assert events[..done + 1][..done] == events[..done];
      if Skips(rows[s], view(s)) {
        SkipsOnly(rows, events, view, limit, done + 1);
      } else {
        assert BatchBytes([] + [ItemOf(s, view(s))]) <= MAX_BATCH_BYTES;
        var k := Handled(rows, events, view, limit, done);
        assert s in events[..k];
        ItemsOfEvents(rows, events[..k], view);
      }
    }
  }

  ghost function Sizes(items: seq<Item>): nat {
    if items == [] then 0 else items[0].size + Sizes(items[1..])
  }

  lemma {:induction false} SizesOfBoth(a: seq<Item>, b: seq<Item>)
    ensures Sizes(a + b) == Sizes(a) + Sizes(b)
  {
    if a == [] {
      assert a + b == b;
    } else {
      assert (a + b)[1..] == a[1..] + b;
      SizesOfBoth(a[1..], b);
    }
  }

  lemma {:induction false} BytesFromSizes(items: seq<Item>)
    requires items != []
    ensures BatchBytes(items) == Sizes(items) + 2 * |items|
  {
    var last := items[|items| - 1];
    assert items == items[..|items| - 1] + [last];
    SizesOfBoth(items[..|items| - 1], [last]);
    if |items| > 1 {
      BytesFromSizes(items[..|items| - 1]);
    }
  }

  lemma {:induction false} SizesPartitioned(items: seq<Item>)
    ensures Sizes(Urgents(items, true)) + Sizes(Urgents(items, false)) == Sizes(items)
  {
    if items != [] {
      var mine := Urgents(items[1..], items[0].urgent);
      SizesPartitioned(items[1..]);
      SizesOfBoth([items[0]], mine);
      assert Urgents(items, items[0].urgent) == [items[0]] + mine;
      assert Urgents(items, !items[0].urgent) == Urgents(items[1..], !items[0].urgent);
    }
  }

  /** Putting urgent items first changes neither their number nor the batch's bytes. */
  lemma SameBytes(items: seq<Item>)
    ensures |UrgentFirst(items)| == |items| && BatchBytes(UrgentFirst(items)) == BatchBytes(items)
  {
    var sorted := UrgentFirst(items);
    assert |multiset(sorted)| == |multiset(items)|;
    assert |sorted| == |items|;
    if items != [] {
      SizesPartitioned(items);
      SizesOfBoth(Urgents(items, true), Urgents(items, false));
      assert Sizes(sorted) == Sizes(items);
      BytesFromSizes(items);
      BytesFromSizes(sorted);
    }
  }

  // ----- Paging -----

  lemma {:induction false} AscendingUnique(a: seq<Sequence>, b: seq<Sequence>)
    requires Ascending(a) && Ascending(b) && forall x :: x in a <==> x in b
    ensures a == b
  {
    if b != [] {
      assert b[0] in b;
    }
    if a != [] {
      assert a[0] in b && b[0] in a;
      assert a[0] == b[0];
      forall x ensures x in a[1..] <==> x in b[1..] {
        if x in a[1..] {
          assert x in a && x > a[0];
        }
        if x in b[1..] {
          assert x in b && x > b[0];
        }
      }
      AscendingUnique(a[1..], b[1..]);
    }
  }

  /** The events after the k-th are the rest of the list: a later page starts where one ended. */
  lemma EligibleAfter(rows: map<Sequence, Event>, reader: Reader, other: Reader, after: Sequence, k: nat)
    requires other.subs == reader.subs && other.branch == reader.branch
    requires 0 < k <= |EligibleEvents(rows, reader, after)|
    ensures var all := EligibleEvents(rows, reader, after);
            EligibleEvents(rows, other, all[k - 1]) == all[k..]
  {
    var all := EligibleEvents(rows, reader, after);
    var rest := EligibleEvents(rows, other, all[k - 1]);
    assert all[k - 1] in all;
    forall x ensures x in all[k..] <==> x in rest {
      if x in all[k..] {
        var i :| k <= i < |all| && all[i] == x;
        assert x in all;
        assert Follows(other, rows[x].channel) == Follows(reader, rows[x].channel);
      }
      if x in rest {
        assert Follows(other, rows[x].channel) == Follows(reader, rows[x].channel);
        assert x in all;
        var i :| 0 <= i < |all| && all[i] == x;
      }
    }
    AscendingUnique(all[k..], rest);
  }

  // ----- An event wait's peek -----

  /** A message always wakes its reader; a post does when it may be read and push would send it. */
  predicate Wakes(e: Event, look: Look) {
    e.InboxEvent? && (e.channel.Mail? || (look.inScope && !look.skip))
  }

  /** One of the first `MAX_UPDATE_SCAN` eligible events after the cursor wakes the reader. */
  ghost predicate Pending(rows: map<Sequence, Event>, reader: Reader, after: Sequence, view: View) {
    WokenWithin(rows, EligibleEvents(rows, reader, after), view, MAX_UPDATE_SCAN)
  }

  ghost predicate WokenWithin(rows: map<Sequence, Event>, all: seq<Sequence>, view: View, n: nat) {
    exists i :: 0 <= i < |all| && i < n && all[i] in rows && Wakes(rows[all[i]], view(all[i]))
  }

  /** Whether the reader follows anything at all. */
  predicate Listens(reader: Reader) {
    Active(reader.subs) != {} || reader.branch.Some?
  }

  ghost predicate SomeWakes(rows: map<Sequence, Event>, events: seq<Sequence>, view: View) {
    exists s :: s in events && s in rows && Wakes(rows[s], view(s))
  }

  method AnyWakes(rows: map<Sequence, Event>, events: seq<Sequence>, view: View) returns (found: bool)
    requires forall s | s in events :: s in rows
    ensures found == SomeWakes(rows, events, view)
  {
    var k := 0;
    while k < |events|
      invariant 0 <= k <= |events|
      invariant forall j | 0 <= j < k :: !Wakes(rows[events[j]], view(events[j]))
    {
      if Wakes(rows[events[k]], view(events[k])) {
        return true;
      }
      k := k + 1;
    }
    return false;
  }

  lemma DeafHasNone(rows: map<Sequence, Event>, reader: Reader, after: Sequence)
    ensures Listens(reader) || EligibleEvents(rows, reader, after) == []
  {
    var all := EligibleEvents(rows, reader, after);
    if all != [] {
      var s := all[0];
      assert s in all;
      assert rows[s].channel.Thread? ==> rows[s].channel.topic in Active(reader.subs);
    }
  }

  /** The cursor that lies just before the k-th event of the list. */
  ghost predicate CursorAt(all: seq<Sequence>, after: Sequence, cursor: Sequence, k: nat) {
    k <= |all| && cursor == if k == 0 then after else all[k - 1]
  }

  ghost predicate IsPage(all: seq<Sequence>, k: nat, page: nat, events: seq<Sequence>) {
    && |events| <= page && k + |events| <= |all| && (|events| < page ==> k + |events| == |all|)
    && forall j | 0 <= j < |events| :: events[j] == all[k + j]
  }

  /** A page that follows a quiet start decides a little more: all there is, if the page is short. */
  lemma PageDecides(rows: map<Sequence, Event>, all: seq<Sequence>, view: View, k: nat, page: nat,
                    events: seq<Sequence>, found: bool)
    requires !WokenWithin(rows, all, view, k) && IsPage(all, k, page, events) && found == SomeWakes(rows, events, view)
    ensures found && k + page <= MAX_UPDATE_SCAN ==> WokenWithin(rows, all, view, MAX_UPDATE_SCAN)
    ensures !found ==> !WokenWithin(rows, all, view, k + |events|)
    ensures !found && |events| < page ==> !WokenWithin(rows, all, view, MAX_UPDATE_SCAN)
  {
    if found {
      var s :| s in events && s in rows && Wakes(rows[s], view(s));
      var j :| 0 <= j < |events| && events[j] == s;
      assert all[k + j] == s;
    } else {
      forall i | 0 <= i < |all| && i < k + page ensures all[i] in rows ==> !Wakes(rows[all[i]], view(all[i])) {
        if i >= k {
          assert events[i - k] == all[i];
        }
      }
    }
  }

  /** Reading one page. */
  method ReadPage(rows: map<Sequence, Event>, reader: Reader, cursor: Sequence, page: nat,
                  ghost after: Sequence, ghost k: nat) returns (events: seq<Sequence>)
    requires CursorAt(EligibleEvents(rows, reader, after), after, cursor, k)
    ensures IsPage(EligibleEvents(rows, reader, after), k, page, events) && forall s | s in events :: s in rows
  {
    events := Take(EligibleEvents(rows, reader, cursor), page);
    if k > 0 {
      EligibleAfter(rows, reader, reader, after, k);
    }
    forall s | s in events ensures s in EligibleEvents(rows, reader, cursor) {
    }
  }

  method PendingUpdate(rows: map<Sequence, Event>, reader: Reader, after: Sequence, view: View) returns (pending: bool)
    ensures pending == Pending(rows, reader, after, view)
  {
    if !Listens(reader) {
      DeafHasNone(rows, reader, after);
      return false;
    }
    pending := ScanPages(rows, reader, after, view, EligibleEvents(rows, reader, after));
  }

  method ScanPages(rows: map<Sequence, Event>, reader: Reader, after: Sequence, view: View, ghost all: seq<Sequence>)
    returns (pending: bool)
    requires all == EligibleEvents(rows, reader, after)
    ensures pending == WokenWithin(rows, all, view, MAX_UPDATE_SCAN)
  {
    var cursor, scanned := after, 0;
    pending := false;
    while scanned < MAX_UPDATE_SCAN
      invariant CursorAt(all, after, cursor, scanned) && scanned <= MAX_UPDATE_SCAN
      invariant !pending && !WokenWithin(rows, all, view, scanned)
    {
      var page := MAX_UPDATE_SCAN - scanned;
      if UPDATE_SCAN_PAGE < page {
        page := UPDATE_SCAN_PAGE;
      }
      var events := ReadPage(rows, reader, cursor, page, after, scanned);
      pending := AnyWakes(rows, events, view);
      PageDecides(rows, all, view, scanned, page, events, pending);
      if pending || |events| < page {
        return;
      }
      cursor, scanned := events[|events| - 1], scanned + |events|;
    }
  }

  // ----- The peek agrees with polling -----

  /** The reader after some polls with nothing else changing. */
  ghost function Drained(rows: map<Sequence, Event>, reader: Reader, limit: nat, view: View, polls: nat): Reader
    decreases polls
  {
    if polls == 0 then reader
    else Drained(rows, Polled(rows, reader, limit, view), limit, view, polls - 1)
  }

  /** The page a poll reads, and what is left after it. */
  ghost function Page(rows: map<Sequence, Event>, reader: Reader): seq<Sequence> {
    Take(EligibleEvents(rows, reader, reader.ack), PAGE)
  }

  ghost predicate SomeItem(rows: map<Sequence, Event>, events: seq<Sequence>, view: View) {
    exists s :: s in events && s in rows && !Skips(rows[s], view(s))
  }

  /** Of a page with something to handle, a batch takes some event: it has items, or takes a whole
      page of skips. */
  lemma PageProgresses(rows: map<Sequence, Event>, page: seq<Sequence>, view: View, limit: nat, k: nat)
    requires page != [] && limit >= 1 && ItemsFit(view) && forall s | s in page :: s in rows
    requires k == Handled(rows, page, view, limit, 0)
    ensures k > 0 && (ItemsOf(rows, page[..k], view) != [] <==> SomeItem(rows, page, view))
    ensures ItemsOf(rows, page[..k], view) == [] ==> k == |page|
  {
    SkipsOnly(rows, page, view, limit, 0);
    ItemsOfEvents(rows, page[..k], view);
    var items := ItemsOf(rows, page[..k], view);
    if items == [] {
      assert page[..k] == page;
    } else {
      assert items[0] in items;
      assert items[0].sequence in page;
    }
  }

  /** So the next batch always gets further. */
  lemma BatchProgresses(rows: map<Sequence, Event>, reader: Reader, limit: nat, view: View)
    requires limit >= 1 && ItemsFit(view) && Page(rows, reader) != []
    ensures var batch, page := NextBatch(rows, reader, limit, view), Page(rows, reader);
            && batch.end > reader.ack
            && (batch.items != [] <==> SomeItem(rows, page, view))
            && (batch.items == [] ==> batch.end == page[|page| - 1])
  {
    var all, page := EligibleEvents(rows, reader, reader.ack), Page(rows, reader);
    assert forall s | s in page :: s in all;
    var k := Handled(rows, page, view, limit, 0);
    PageProgresses(rows, page, view, limit, k);
    assert page[k - 1] == all[k - 1] && all[k - 1] in all;
    SameEmptiness(ItemsOf(rows, page[..k], view));
  }

  lemma PollProgresses(rows: map<Sequence, Event>, reader: Reader, limit: nat, view: View, reader': Reader)
    requires !reader.pending && limit >= 1 && ItemsFit(view) && Page(rows, reader) != []
    requires reader' == Polled(rows, reader, limit, view)
    ensures |reader'.history| == |reader.history| + 1 && reader'.history[..|reader.history|] == reader.history
    ensures reader'.history[|reader.history|].end > reader.ack
    ensures reader'.pending <==> reader'.history[|reader.history|].items != []
    ensures reader'.pending <==> SomeItem(rows, Page(rows, reader), view)
    ensures !reader'.pending ==> reader'.ack == Page(rows, reader)[|Page(rows, reader)| - 1]
  {
    BatchProgresses(rows, reader, limit, view);
  }

  lemma SkippedPage(rows: map<Sequence, Event>, reader: Reader, limit: nat, view: View, reader': Reader)
    requires !reader.pending && limit >= 1 && ItemsFit(view) && Page(rows, reader) != []
    requires reader' == Polled(rows, reader, limit, view) && !reader'.pending
    ensures reader'.ack > reader.ack
    ensures EligibleEvents(rows, reader', reader'.ack) == EligibleEvents(rows, reader, reader.ack)[|Page(rows, reader)|..]
  {
    BatchProgresses(rows, reader, limit, view);
    EligibleAfter(rows, reader, reader', reader.ack, |Page(rows, reader)|);
  }

  lemma SameEmptiness(items: seq<Item>)
    ensures UrgentFirst(items) == [] <==> items == []
  {
    assert |multiset(UrgentFirst(items))| == |multiset(items)|;
  }

  /** One poll delivers something of the first page, or leaves the rest for later polls. */
  lemma FirstPoll(rows: map<Sequence, Event>, reader: Reader, limit: nat, view: View, all: seq<Sequence>)
    returns (reader': Reader)
    requires !reader.pending && limit >= 1 && ItemsFit(view) && all == EligibleEvents(rows, reader, reader.ack)
    requires all != []
    ensures reader'.pending <==> SomeItem(rows, Take(all, PAGE), view)
    ensures !reader'.pending ==> EligibleEvents(rows, reader', reader'.ack) == all[|Take(all, PAGE)|..]
    ensures forall n: nat {:trigger Drained(rows, reader', limit, view, n)} ::
              Drained(rows, reader, limit, view, n + 1) == Drained(rows, reader', limit, view, n)
  {
    reader' := Polled(rows, reader, limit, view);
    PollProgresses(rows, reader, limit, view, reader');
    if !reader'.pending {
      SkippedPage(rows, reader, limit, view, reader');
    }
  }

  /** Polling comes to a batch with items when some eligible event is not a skip: in at most one
      poll for each page up to it. */
  lemma {:induction false} PollingDelivers(rows: map<Sequence, Event>, reader: Reader, limit: nat, view: View,
                                           all: seq<Sequence>, i: nat)
    requires !reader.pending && limit >= 1 && ItemsFit(view) && all == EligibleEvents(rows, reader, reader.ack)
    requires i < |all| && !Skips(rows[all[i]], view(all[i]))
    ensures exists n :: 0 < n && (n - 1) * PAGE <= i && Drained(rows, reader, limit, view, n).pending
    decreases i
  {
    var reader' := FirstPoll(rows, reader, limit, view, all);
    if i < PAGE {
      assert Take(all, PAGE)[i] == all[i];
      assert SomeItem(rows, Take(all, PAGE), view);
    }
    if reader'.pending {
      assert Drained(rows, reader', limit, view, 0) == reader';
      assert Drained(rows, reader, limit, view, 1).pending;
    } else {
      assert all[PAGE..][i - PAGE] == all[i];
      PollingDelivers(rows, reader', limit, view, all[PAGE..], i - PAGE);
      var n :| 0 < n && (n - 1) * PAGE <= i - PAGE && Drained(rows, reader', limit, view, n).pending;
      assert Drained(rows, reader, limit, view, n + 1).pending;
    }
  }

  lemma OnePollMore(rows: map<Sequence, Event>, reader: Reader, limit: nat, view: View, n: nat)
    ensures Drained(rows, reader, limit, view, n + 1) == Drained(rows, Polled(rows, reader, limit, view), limit, view, n)
  {
  }

  ghost predicate AllSkipped(rows: map<Sequence, Event>, events: seq<Sequence>, view: View) {
    forall s | s in events && s in rows :: Skips(rows[s], view(s))
  }

  /** The readers differ by empty deliveries alone. */
  ghost predicate OnlyAdvanced(reader: Reader, reader': Reader) {
    && !reader'.pending && reader'.ack >= reader.ack
    && |reader'.history| >= |reader.history| && reader'.history[..|reader.history|] == reader.history
    && forall b | |reader.history| <= b < |reader'.history| :: reader'.history[b].items == []
  }

  lemma OnlyAdvancedTwice(first: Reader, second: Reader, third: Reader)
    requires OnlyAdvanced(first, second) && OnlyAdvanced(second, third)
    ensures OnlyAdvanced(first, third)
  {
    assert third.history[..|first.history|] == third.history[..|second.history|][..|first.history|];
    forall b | |first.history| <= b < |second.history| ensures third.history[b].items == [] {
      assert third.history[b] == third.history[..|second.history|][b];
    }
  }

  lemma NothingToPoll(rows: map<Sequence, Event>, reader: Reader, limit: nat, view: View)
    requires !reader.pending && EligibleEvents(rows, reader, reader.ack) == []
    ensures Polled(rows, reader, limit, view) == reader
  {
  }

  lemma SkippedParts(rows: map<Sequence, Event>, all: seq<Sequence>, view: View, k: nat)
    requires AllSkipped(rows, all, view) && k <= |all|
    ensures !SomeItem(rows, all[..k], view) && AllSkipped(rows, all[k..], view)
  {
    assert forall s | s in all[..k] || s in all[k..] :: s in all;
  }

  /** A poll of a page of skips delivers nothing and passes the page. */
  lemma SkippedPageOnly(rows: map<Sequence, Event>, reader: Reader, limit: nat, view: View, all: seq<Sequence>, reader': Reader)
    requires !reader.pending && limit >= 1 && ItemsFit(view) && all == EligibleEvents(rows, reader, reader.ack) && all != []
    requires reader' == Polled(rows, reader, limit, view) && !SomeItem(rows, Take(all, PAGE), view)
    ensures OnlyAdvanced(reader, reader')
    ensures EligibleEvents(rows, reader', reader'.ack) == all[|Take(all, PAGE)|..]
  {
    PollProgresses(rows, reader, limit, view, reader');
    SkippedPage(rows, reader, limit, view, reader');
  }

  /** A poll with only skips to come delivers nothing and passes a page of them. */
  lemma SkippingPoll(rows: map<Sequence, Event>, reader: Reader, limit: nat, view: View, all: seq<Sequence>, reader': Reader)
    requires !reader.pending && limit >= 1 && ItemsFit(view) && all == EligibleEvents(rows, reader, reader.ack)
    requires AllSkipped(rows, all, view) && reader' == Polled(rows, reader, limit, view)
    ensures OnlyAdvanced(reader, reader')
    ensures var rest := EligibleEvents(rows, reader', reader'.ack);
            AllSkipped(rows, rest, view) && (|rest| == |all| - PAGE || rest == [])
  {
    if all == [] {
      NothingToPoll(rows, reader, limit, view);
    } else {
      var n := |Take(all, PAGE)|;
      SkippedParts(rows, all, view, n);
      assert all[..n] == Take(all, PAGE);
      SkippedPageOnly(rows, reader, limit, view, all, reader');
      assert |all[n..]| == |all| - n;
    }
  }

  /** With only skips to come, polling delivers nothing and the cursor passes them all. */
  lemma {:induction false} PollingOnlyAdvances(rows: map<Sequence, Event>, reader: Reader, limit: nat, view: View,
                                               all: seq<Sequence>, n: nat)
    requires !reader.pending && limit >= 1 && ItemsFit(view) && all == EligibleEvents(rows, reader, reader.ack)
    requires AllSkipped(rows, all, view)
    ensures var reader' := Drained(rows, reader, limit, view, n);
            && OnlyAdvanced(reader, reader')
            && (|all| <= n * PAGE ==> EligibleEvents(rows, reader', reader'.ack) == [])
    decreases n
  {
    if n > 0 {
      var reader' := Polled(rows, reader, limit, view);
      OnePollMore(rows, reader, limit, view, n - 1);
      SkippingPoll(rows, reader, limit, view, all, reader');
      PollingOnlyAdvances(rows, reader', limit, view, EligibleEvents(rows, reader', reader'.ack), n - 1);
      OnlyAdvancedTwice(reader, reader', Drained(rows, reader, limit, view, n));
    }
  }

  /** However many events are eligible, polling comes to deliver items exactly when one of them is not
      a skip. */
  lemma PollingDeliversExactly(rows: map<Sequence, Event>, reader: Reader, limit: nat, view: View)
    requires !reader.pending && limit >= 1 && ItemsFit(view)
    ensures (exists n :: Drained(rows, reader, limit, view, n).pending)
            <==> exists s :: s in EligibleEvents(rows, reader, reader.ack) && !Skips(rows[s], view(s))
  {
    var all := EligibleEvents(rows, reader, reader.ack);
    if s :| s in all && !Skips(rows[s], view(s)) {
      var i :| 0 <= i < |all| && all[i] == s;
      PollingDelivers(rows, reader, limit, view, all, i);
    } else {
      forall n ensures !Drained(rows, reader, limit, view, n).pending {
        PollingOnlyAdvances(rows, reader, limit, view, all, n);
      }
    }
  }

  /** If the peek says there is an update, ten polls or fewer from that cursor deliver items. */
  lemma PendingIsDelivered(rows: map<Sequence, Event>, reader: Reader, limit: nat, view: View)
    requires !reader.pending && limit >= 1 && ItemsFit(view) && Pending(rows, reader, reader.ack, view)
    ensures exists n :: 0 < n <= 10 && Drained(rows, reader, limit, view, n).pending
  {
    var all := EligibleEvents(rows, reader, reader.ack);
    var i :| 0 <= i < |all| && i < MAX_UPDATE_SCAN && Wakes(rows[all[i]], view(all[i]));
    PollingDelivers(rows, reader, limit, view, all, i);
  }

  /** No eligible event within the scan's bound would come as a withdrawal notice the peek passes
      over: a post out of scope, or one push would skip but that may no longer be read. */
  ghost predicate NoSilentNotice(rows: map<Sequence, Event>, reader: Reader, view: View) {
    forall s | s in EligibleEvents(rows, reader, reader.ack) && rows[s].InboxEvent? && rows[s].channel.Thread? ::
      !view(s).inScope || view(s).skip ==> view(s).accessible && view(s).skip
  }

  /** Up to the scan's bound: a true peek is always delivered, and a false one means that polling
      delivers nothing exactly when no event comes as a silent withdrawal notice. */
  lemma PeekAgrees(rows: map<Sequence, Event>, reader: Reader, limit: nat, view: View)
    requires !reader.pending && limit >= 1 && ItemsFit(view)
    requires |EligibleEvents(rows, reader, reader.ack)| <= MAX_UPDATE_SCAN
    ensures Pending(rows, reader, reader.ack, view) ==> exists n :: 0 < n <= 10 && Drained(rows, reader, limit, view, n).pending
    ensures !Pending(rows, reader, reader.ack, view) ==>
              ((forall n :: !Drained(rows, reader, limit, view, n).pending) <==> NoSilentNotice(rows, reader, view))
  {
    var all := EligibleEvents(rows, reader, reader.ack);
    if Pending(rows, reader, reader.ack, view) {
      PendingIsDelivered(rows, reader, limit, view);
    } else {
      forall s | s in all ensures !Wakes(rows[s], view(s)) {
        var i :| 0 <= i < |all| && all[i] == s;
      }
      PollingDeliversExactly(rows, reader, limit, view);
    }
  }

  /** A false peek over at most a thousand eligible events, none of them a silent notice: polling
      delivers nothing, and ten polls pass them all. */
  lemma QuietInboxOnlyAdvances(rows: map<Sequence, Event>, reader: Reader, limit: nat, view: View, n: nat)
    requires !reader.pending && limit >= 1 && ItemsFit(view)
    requires |EligibleEvents(rows, reader, reader.ack)| <= MAX_UPDATE_SCAN
    requires !Pending(rows, reader, reader.ack, view) && NoSilentNotice(rows, reader, view)
    ensures OnlyAdvanced(reader, Drained(rows, reader, limit, view, n))
    ensures var reader' := Drained(rows, reader, limit, view, n);
            n >= 10 ==> EligibleEvents(rows, reader', reader'.ack) == []
  {
    var all := EligibleEvents(rows, reader, reader.ack);
    forall s | s in all ensures !Wakes(rows[s], view(s)) {
      var i :| 0 <= i < |all| && all[i] == s;
    }
    PollingOnlyAdvances(rows, reader, limit, view, all, n);
  }

  /** The exception is real: a post put out of the reader's scope leaves the peek false, and is
      still delivered as a withdrawal notice. */
  lemma WithdrawnPostIsMissed()
    ensures var rows, reader := map[1 := InboxEvent(Thread(7))], Reader(Some(3), 0, false, [], map[7 := Sub(true, 0)]);
            var view := (s: Sequence) => Look(false, false, false, false, 100);
            !Pending(rows, reader, 0, view) && Drained(rows, reader, 10, view, 1).pending
  {
    var rows, reader := map[1 := InboxEvent(Thread(7))], Reader(Some(3), 0, false, [], map[7 := Sub(true, 0)]);
    var view := (s: Sequence) => Look(false, false, false, false, 100);
    var all := EligibleEvents(rows, reader, 0);
    assert 1 in all;
    AscendingUnique(all, [1]);
    PollingDelivers(rows, reader, 10, view, all, 0);
  }

  // ----- What a new batch holds -----

  /** An event's item: a notice when its source may no longer be read, else as urgent as the source is. */
  ghost predicate TellsOf(rows: map<Sequence, Event>, item: Item, view: View) {
    var look := view(item.sequence);
    && item.sequence in rows && item.size == look.size
    && (if look.accessible then !item.withdrawn && item.urgent == look.urgent else item.withdrawn && !item.urgent)
    && !PassedOver(rows, item.sequence, view)
  }

  /** A post the reader may read and push keeps from it. */
  ghost predicate PassedOver(rows: map<Sequence, Event>, s: Sequence, view: View) {
    s in rows && rows[s].InboxEvent? && rows[s].channel.Thread? && view(s).accessible && view(s).skip
  }

  lemma {:induction false} ItemsTell(rows: map<Sequence, Event>, events: seq<Sequence>, view: View)
    requires forall s | s in events :: s in rows
    ensures forall item | item in ItemsOf(rows, events, view) :: TellsOf(rows, item, view)
    ensures |ItemsOf(rows, events, view)| + |SkippedOf(rows, events, view)| <= |events|
  {
    if events == [] {
      assert SkippedOf(rows, events, view) == {};
    } else {
      var k := |events| - 1;
      OneMoreEvent(rows, events, view, k);
      assert events[..k + 1] == events;
      ItemsTell(rows, events[..k], view);
    }
  }

  /** The batch of a poll holds each event it handles as what it is, and passes over what push keeps back. */
  lemma BatchTells(rows: map<Sequence, Event>, reader: Reader, limit: nat, view: View)
    ensures var batch := NextBatch(rows, reader, limit, view);
            && (forall i | 0 <= i < |batch.items| :: TellsOf(rows, batch.items[i], view))
            && (forall s | s in batch.skipped :: PassedOver(rows, s, view))
  {
    var events := Take(EligibleEvents(rows, reader, reader.ack), PAGE);
    assert forall s | s in events :: s in EligibleEvents(rows, reader, reader.ack);
    var handled := events[..Handled(rows, events, view, limit, 0)];
    assert forall s | s in handled :: s in events;
    ItemsTell(rows, handled, view);
    var items := ItemsOf(rows, handled, view);
    forall i | 0 <= i < |UrgentFirst(items)| ensures UrgentFirst(items)[i] in items {
      assert UrgentFirst(items)[i] in multiset(UrgentFirst(items));
    }
  }

  /** The scan stops before the end of its events only when it is full. */
  lemma {:induction false} HandledUntilFull(rows: map<Sequence, Event>, events: seq<Sequence>, view: View, limit: nat, done: nat)
    requires (forall s | s in events :: s in rows) && done <= |events| && |ItemsOf(rows, events[..done], view)| < limit
    ensures var k := Handled(rows, events, view, limit, done);
            var items := ItemsOf(rows, events[..k], view);
            k < |events| ==> |items| == limit || FullBefore(rows, items, events[k], view)
    decreases |events| - done
  {
    if done < |events| {
      var items := ItemsOf(rows, events[..done], view);
      OneMoreEvent(rows, events, view, done);
      HandledNext(rows, events, view, limit, done, items);
      if Skips(rows[events[done]], view(events[done])) || (|items| + 1 < limit && BatchBytes(items + [ItemOf(events[done], view(events[done]))]) <= MAX_BATCH_BYTES) {
        HandledUntilFull(rows, events, view, limit, done + 1);
      }
    }
  }

  /** No room for the event after these items, put in whatever order. */
  ghost predicate NoRoomFor(rows: map<Sequence, Event>, items: seq<Item>, s: Sequence, view: View) {
    s in rows && !PassedOver(rows, s, view) && Sizes(items) + 2 * |items| + view(s).size + 2 > 12000
  }

  lemma FullMeansNoRoom(rows: map<Sequence, Event>, items: seq<Item>, s: Sequence, view: View)
    requires s in rows && FullBefore(rows, items, s, view)
    ensures NoRoomFor(rows, UrgentFirst(items), s, view)
  {
    var next := ItemOf(s, view(s));
    BytesFromSizes(items + [next]);
    SizesOfBoth(items, [next]);
    SameBytes(items);
    SameSizes(items);
  }

  /** A batch leaves an eligible event for later only when it handled a page of a hundred, holds as many
      items as asked, or has no room for the next one in its 12,000 bytes. */
  lemma BatchIsFull(rows: map<Sequence, Event>, reader: Reader, limit: nat, view: View, all: seq<Sequence>) returns (k: nat)
    requires limit >= 1 && all == EligibleEvents(rows, reader, reader.ack)
    ensures k <= |all|
    ensures var batch := NextBatch(rows, reader, limit, view);
            && batch.end == (if k == 0 then reader.ack else all[k - 1])
            && (k < |all| ==> k == 100 || |batch.items| == limit || NoRoomFor(rows, batch.items, all[k], view))
  {
    var events := Take(all, PAGE);
    k := BatchParts(rows, reader, limit, view, events);
    FrontIsFull(rows, events, view, limit, k);
  }

  lemma BatchParts(rows: map<Sequence, Event>, reader: Reader, limit: nat, view: View, events: seq<Sequence>) returns (k: nat)
    requires events == Take(EligibleEvents(rows, reader, reader.ack), PAGE)
    ensures (forall s | s in events :: s in rows) && k <= |events| && k == Handled(rows, events, view, limit, 0)
    ensures NextBatch(rows, reader, limit, view)
            == Batch(reader.ack, if k == 0 then reader.ack else events[k - 1],
                     UrgentFirst(ItemsOf(rows, events[..k], view)), SkippedOf(rows, events[..k], view))
  {
    assert forall s | s in events :: s in EligibleEvents(rows, reader, reader.ack);
    k := Handled(rows, events, view, limit, 0);
  }

  lemma FrontIsFull(rows: map<Sequence, Event>, events: seq<Sequence>, view: View, limit: nat, k: nat)
    requires limit >= 1 && (forall s | s in events :: s in rows) && k == Handled(rows, events, view, limit, 0)
    ensures var items := UrgentFirst(ItemsOf(rows, events[..k], view));
            k < |events| ==> |items| == limit || NoRoomFor(rows, items, events[k], view)
  {
    var items := ItemsOf(rows, events[..k], view);
    assert events[..0] == [];
    HandledUntilFull(rows, events, view, limit, 0);
    SameBytes(items);
    if k < |events| && FullBefore(rows, items, events[k], view) {
      FullMeansNoRoom(rows, items, events[k], view);
    }
  }

  lemma SameSizes(items: seq<Item>)
    ensures Sizes(UrgentFirst(items)) == Sizes(items)
  {
    SizesPartitioned(items);
    SizesOfBoth(Urgents(items, true), Urgents(items, false));
  }

  // ----- Polls and acknowledgements in turn -----

  /** A poll, and the acknowledgement of what it returned; folded. */
  ghost predicate IsRound(rows: map<Sequence, Event>, reader: Reader, limit: nat, view: View, reader': Reader) {
    forall at: nat {:trigger Unfolded(at)} :: Unfolded(at) ==>
      var polled := Polled(rows, reader, limit, view);
      reader' == if polled.history == [] then polled else Acknowledged(polled, |polled.history| - 1, view)
  }

  lemma SanitizedTwice(items: seq<Item>, view: View)
    ensures Sanitized(Sanitized(items, view), view) == Sanitized(items, view)
  {
  }

  /** What a batch of a poll holds needs no more sanitizing by the same view. */
  lemma {:induction false} ItemsAreSeen(rows: map<Sequence, Event>, events: seq<Sequence>, view: View)
    requires forall s | s in events :: s in rows
    ensures forall item | item in ItemsOf(rows, events, view) :: SeenAsIs(item, view)
  {
    if events != [] {
      ItemsAreSeen(rows, events[..|events| - 1], view);
    }
  }

  lemma SortedSeen(items: seq<Item>, view: View)
    requires forall item | item in items :: SeenAsIs(item, view)
    ensures Sanitized(UrgentFirst(items), view) == UrgentFirst(items)
  {
    var sorted := UrgentFirst(items);
    forall i | 0 <= i < |sorted| ensures SeenAsIs(sorted[i], view) {
      assert sorted[i] in multiset(sorted);
    }
  }

  lemma NextBatchIsSeen(rows: map<Sequence, Event>, reader: Reader, limit: nat, view: View)
    ensures Sanitized(NextBatch(rows, reader, limit, view).items, view) == NextBatch(rows, reader, limit, view).items
  {
    var events := Take(EligibleEvents(rows, reader, reader.ack), PAGE);
    assert forall s | s in events :: s in EligibleEvents(rows, reader, reader.ack);
    var handled := events[..Handled(rows, events, view, limit, 0)];
    assert forall s | s in handled :: s in events;
    ItemsAreSeen(rows, handled, view);
    SortedSeen(ItemsOf(rows, handled, view), view);
  }

  /** Nothing is pending, and so many eligible events are left; folded. */
  ghost predicate Left(rows: map<Sequence, Event>, reader: Reader, n: nat) {
    forall at: nat {:trigger Unfolded(at)} :: Unfolded(at) ==>
      !reader.pending && CursorOk(reader) && |EligibleEvents(rows, reader, reader.ack)| == n
  }

  lemma SameEligible(rows: map<Sequence, Event>, reader: Reader, other: Reader, after: Sequence)
    requires other.subs == reader.subs && other.branch == reader.branch
    ensures EligibleEvents(rows, other, after) == EligibleEvents(rows, reader, after)
  {
    assert forall e: Event :: e.InboxEvent? ==> Follows(other, e.channel) == Follows(reader, e.channel);
    AscendingUnique(EligibleEvents(rows, other, after), EligibleEvents(rows, reader, after));
  }

  /** A round from a batch still pending acknowledges it. */
  lemma PendingRound(rows: map<Sequence, Event>, reader: Reader, limit: nat, view: View, reader': Reader)
    requires reader.pending && CursorOk(reader) && IsRound(rows, reader, limit, view, reader')
    ensures Left(rows, reader', |EligibleEvents(rows, reader, Cursor(reader))|)
  {
    assert Unfolded(0);
    SanitizedTwice(reader.history[|reader.history| - 1].items, view);
    SameEligible(rows, reader, reader', Cursor(reader));
  }

  /** A new batch is acknowledged at once by the same view. */
  lemma NewBatchAcknowledged(reader: Reader, batch: Batch, view: View, polled: Reader)
    requires batch.start == reader.ack && Sanitized(batch.items, view) == batch.items
    requires polled == reader.(pending := true, history := reader.history + [batch])
    ensures Acknowledged(polled, |polled.history| - 1, view) == polled.(ack := batch.end, pending := false)
  {
    assert polled.history[|polled.history| - 1] == batch;
  }

  lemma RoundPolls(rows: map<Sequence, Event>, reader: Reader, limit: nat, view: View, batch: Batch, reader': Reader)
    requires !reader.pending && batch == NextBatch(rows, reader, limit, view) && batch.end > reader.ack
    requires IsRound(rows, reader, limit, view, reader')
    ensures reader' == reader.(ack := batch.end, history := reader.history + [batch])
  {
    assert Unfolded(0);
    var polled := Polled(rows, reader, limit, view);
    if batch.items != [] {
      NextBatchIsSeen(rows, reader, limit, view);
      NewBatchAcknowledged(reader, batch, view, polled);
    }
  }

  /** A round with something eligible passes the first of it. */
  lemma RoundPasses(rows: map<Sequence, Event>, reader: Reader, limit: nat, view: View, n: nat, reader': Reader)
    returns (left: nat)
    requires limit >= 1 && ItemsFit(view) && Left(rows, reader, n) && n > 0 && IsRound(rows, reader, limit, view, reader')
    ensures left < n && Left(rows, reader', left)
  {
    assert Unfolded(0);
    var all, page := EligibleEvents(rows, reader, reader.ack), Page(rows, reader);
    var k := Handled(rows, page, view, limit, 0);
    PageProgresses(rows, page, view, limit, k);
    assert page[k - 1] == all[k - 1] && all[k - 1] in all;
    RoundPolls(rows, reader, limit, view, NextBatch(rows, reader, limit, view), reader');
    PassedLeft(rows, reader, all, k, reader');
    left := n - k;
  }

  lemma PassedLeft(rows: map<Sequence, Event>, reader: Reader, all: seq<Sequence>, k: nat, reader': Reader)
    requires all == EligibleEvents(rows, reader, reader.ack) && 0 < k <= |all|
    requires !reader'.pending && CursorOk(reader') && reader'.ack == all[k - 1]
    requires reader'.subs == reader.subs && reader'.branch == reader.branch
    ensures Left(rows, reader', |all| - k)
  {
    EligibleAfter(rows, reader, reader', reader.ack, k);
  }

  lemma QuietRound(rows: map<Sequence, Event>, reader: Reader, limit: nat, view: View, reader': Reader)
    requires Left(rows, reader, 0) && IsRound(rows, reader, limit, view, reader')
    ensures reader' == reader
  {
    assert Unfolded(0);
    NothingToPoll(rows, reader, limit, view);
  }

  ghost predicate AreRounds(rows: map<Sequence, Event>, trace: seq<Reader>, limit: nat, view: View) {
    forall i, j | 0 <= i < j < |trace| && j == i + 1 :: IsRound(rows, trace[i], limit, view, trace[j])
  }

  /** From the k-th reader on, with no more left than rounds to come. */
  lemma {:induction false} RoundsFinish(rows: map<Sequence, Event>, trace: seq<Reader>, limit: nat, view: View, k: nat, left: nat)
    requires limit >= 1 && ItemsFit(view) && AreRounds(rows, trace, limit, view)
    requires k < |trace| && left < |trace| - k && Left(rows, trace[k], left)
    ensures Left(rows, trace[|trace| - 1], 0)
    decreases |trace| - k
  {
    if k + 1 < |trace| {
      assert IsRound(rows, trace[k], limit, view, trace[k + 1]);
      if left == 0 {
        QuietRound(rows, trace[k], limit, view, trace[k + 1]);
        RoundsFinish(rows, trace, limit, view, k + 1, 0);
      } else {
        var fewer := RoundPasses(rows, trace[k], limit, view, left, trace[k + 1]);
        RoundsFinish(rows, trace, limit, view, k + 1, fewer);
      }
    }
  }

  /** Polls and acknowledgements in turn pass every eligible event: a round handles one at least, and
      a batch still pending takes one round more. */
  lemma RoundsPassEverything(rows: map<Sequence, Event>, trace: seq<Reader>, limit: nat, view: View)
    requires limit >= 1 && ItemsFit(view) && AreRounds(rows, trace, limit, view) && trace != [] && CursorOk(trace[0])
    requires |trace| > |EligibleEvents(rows, trace[0], Cursor(trace[0]))| + if trace[0].pending then 1 else 0
    ensures var last := trace[|trace| - 1];
            !last.pending && EligibleEvents(rows, last, last.ack) == []
  {
    var left := |EligibleEvents(rows, trace[0], Cursor(trace[0]))|;
    if trace[0].pending {
      assert IsRound(rows, trace[0], limit, view, trace[1]);
      PendingRound(rows, trace[0], limit, view, trace[1]);
      RoundsFinish(rows, trace, limit, view, 1, left);
    } else {
      RoundsFinish(rows, trace, limit, view, 0, left);
    }
    NothingLeft(rows, trace[|trace| - 1]);
  }

  lemma NothingLeft(rows: map<Sequence, Event>, reader: Reader)
    requires Left(rows, reader, 0)
    ensures !reader.pending && EligibleEvents(rows, reader, reader.ack) == []
  {
    assert Unfolded(0);
  }

  // ----- One reader's poll and acknowledgement -----

  method ScanNext(rows: map<Sequence, Event>, reader: Reader, limit: nat, view: View) returns (batch: Batch)
    requires limit >= 1
    ensures batch == NextBatch(rows, reader, limit, view)
    ensures |batch.items| <= limit && BatchBytes(batch.items) <= MAX_BATCH_BYTES
  {
    if !Listens(reader) {
      DeafHasNone(rows, reader, reader.ack);
      return Batch(reader.ack, reader.ack, [], {});
    }
    var events := Take(EligibleEvents(rows, reader, reader.ack), PAGE);
    ghost var k := BatchParts(rows, reader, limit, view, events);
    var items, skipped, handled := Scan(rows, events, view, limit);
    SameBytes(items);
    return Batch(reader.ack, if handled == 0 then reader.ack else events[handled - 1], UrgentFirst(items), skipped);
  }

  /** A poll returns the pending batch again, sanitized; or the next one, pending when it has items. */
  method PollReader(rows: map<Sequence, Event>, reader: Reader, limit: nat, view: View)
    returns (reader': Reader, batch: Option<Batch>)
    requires ReaderOk(rows, reader) && limit >= 1
    ensures reader' == Polled(rows, reader, limit, view)
    ensures batch.Some? <==> reader'.pending
    ensures batch.Some? ==> reader'.history != [] && batch.value == reader'.history[|reader'.history| - 1]
    ensures batch.Some? && !reader.pending ==>
              |batch.value.items| <= limit && BatchBytes(batch.value.items) <= MAX_BATCH_BYTES
    ensures !reader.pending && reader'.pending ==> batch.Some? && reader' == reader.(pending := true, history := reader.history + [batch.value])
    ensures !reader.pending && !reader'.pending ==>
              || reader' == reader
              || (reader'.history != [] && var b := reader'.history[|reader'.history| - 1];
                  b.items == [] && reader' == reader.(ack := b.end, history := reader.history + [b]))
    ensures reader.pending ==>
              var n := |reader.history| - 1;
              && reader'.(history := reader.history) == reader && |reader'.history| == n + 1
              && reader'.history[..n] == reader.history[..n]
              && Withdrawn(reader.history[n], reader'.history[n], view)
  {
    if reader.pending {
      var last := reader.history[|reader.history| - 1];
      last := last.(items := Sanitized(last.items, view));
      return reader.(history := reader.history[|reader.history| - 1 := last]), Some(last);
    }
    var next := ScanNext(rows, reader, limit, view);
    NextBatchHandles(rows, reader, limit, view);
    if next.items == [] {
      if next.end > reader.ack {
        return reader.(ack := next.end, history := reader.history + [next]), None;
      }
      return reader, None;
    }
    ItemsNeedEvents(rows, reader, limit, view);
    return reader.(pending := true, history := reader.history + [next]), Some(next);
  }

  lemma ItemsNeedEvents(rows: map<Sequence, Event>, reader: Reader, limit: nat, view: View)
    ensures NextBatch(rows, reader, limit, view).end == reader.ack ==> NextBatch(rows, reader, limit, view).items == []
  {
    var all := EligibleEvents(rows, reader, reader.ack);
    var events := Take(all, PAGE);
    var k := Handled(rows, events, view, limit, 0);
    SameEmptiness([]);
    if k > 0 {
      assert all[k - 1] in all;
    }
  }

  /** The item is a withdrawal notice already, or of a source the reader may still read. */
  predicate SeenAsIs(item: Item, view: View) {
    item.withdrawn || view(item.sequence).accessible
  }

  /** The batch with each item of a source no longer readable turned into a notice, and nothing else
      changed. */
  ghost predicate Withdrawn(before: Batch, after: Batch, view: View) {
    && after.start == before.start && after.end == before.end && after.skipped == before.skipped
    && |after.items| == |before.items|
    && forall i | 0 <= i < |before.items| ::
         var was := before.items[i];
         after.items[i] == if SeenAsIs(was, view) then was else Item(was.sequence, false, true, was.size)
  }

  /** An acknowledgement is refused when the batch is not the pending one, or has changed since the
      reader last read it. */
  method AcknowledgeReader(rows: map<Sequence, Event>, reader: Reader, batch: nat, view: View)
    returns (reader': Reader, done: bool)
    requires ReaderOk(rows, reader)
    ensures reader' == Acknowledged(reader, batch, view)
    ensures done <==> reader.pending && batch == |reader.history| - 1
                      && forall i | 0 <= i < |reader.history[batch].items| :: SeenAsIs(reader.history[batch].items[i], view)
    ensures done ==> reader' == reader.(ack := reader.history[batch].end, pending := false)
    ensures !done ==> reader'.(history := reader.history) == reader && |reader'.history| == |reader.history|
    ensures !done ==> forall b | 0 <= b < |reader.history| ::
                        if reader.pending && b == batch == |reader.history| - 1 then Withdrawn(reader.history[b], reader'.history[b], view)
                        else reader'.history[b] == reader.history[b]
  {
    if !reader.pending || batch != |reader.history| - 1 {
      return reader, false;
    }
    var last := reader.history[batch];
    var items := Sanitized(last.items, view);
    if items != last.items {
      return reader.(history := reader.history[batch := last.(items := items)]), false;
    }
    return reader.(ack := last.end, pending := false), true;
  }

  // ----- The stored rows -----

  /** The tables' invariant, folded. */
  ghost predicate Right(st: State) {
    forall at: nat {:trigger Unfolded(at)} :: Unfolded(at) ==> Inv(st)
  }

  lemma StepKeepsRight(st: State, step: Step)
    requires Right(st) && Enabled(st, step)
    ensures Right(Next(st, step))
  {
    assert Unfolded(0);
    StepKeepsInv(st, step);
  }

  lemma ReaderRight(st: State, r: nat)
    requires Right(st) && r in st.readers
    ensures ReaderOk(st.rows, st.readers[r])
  {
    assert Unfolded(0);
  }

  /** The inbox tables. Every operation is one transaction's or one reader's step, under its locks;
      an operation that would wait for a lock changes nothing and says so. */
  class InboxTables {
    var next: Sequence
    var rows: map<Sequence, Event>
    var open: set<nat>
    var inflight: map<Sequence, Row>
    var changes: map<(nat, nat), Change>
    var lock: Option<nat>
    var readerLocks: map<nat, nat>
    var readers: map<nat, Reader>

    ghost function Contents(): State
      reads this
    {
      State(next, rows, open, inflight, changes, lock, readerLocks, readers)
    }

    ghost predicate Valid()
      reads this
    {
      Right(Contents())
    }

    /** A reader's row is there from its first subscription or poll. */
    constructor (branches: map<nat, Option<nat>>)
      ensures Valid() && rows == map[] && open == {} && readers.Keys == branches.Keys
    {
      next, rows, open, inflight, changes, lock, readerLocks := 1, map[], {}, map[], map[], None, map[];
      readers := map r | r in branches :: Reader(branches[r], 0, false, [], map[]);
      new;
      forall r | r in readers ensures Active(readers[r].subs) == {} {
      }
    }

    method Begin(t: nat)
      requires Valid() && t !in open
      modifies this
      ensures Valid() && Contents() == Next(old(Contents()), Step.Begin(t))
    {
      StepKeepsRight(Contents(), Step.Begin(t));
      open := open + {t};
    }

    method TakeLock(t: nat) returns (taken: bool)
      requires Valid() && t in open
      modifies this`lock
      ensures Valid() && taken == Enabled(old(Contents()), Step.TakeLock(t))
      ensures taken == (old(lock) == None || old(lock) == Some(t)) && (taken ==> lock == Some(t))
      ensures Contents() == if taken then Next(old(Contents()), Step.TakeLock(t)) else old(Contents())
    {
      taken := lock == None || lock == Some(t);
      if taken {
        StepKeepsRight(Contents(), Step.TakeLock(t));
        lock := Some(t);
      }
    }

    /** Store a post's or message's event: the lock is taken first and kept until the transaction ends. */
    method InsertEvent(t: nat, channel: Channel) returns (stored: Option<Sequence>)
      requires Valid() && t in open
      modifies this`lock, this`next, this`inflight
      ensures Valid() && (stored.Some? <==> Enabled(old(Contents()), Step.TakeLock(t)))
      ensures stored.None? ==> Contents() == old(Contents())
      ensures stored.Some? ==>
                var locked := Next(old(Contents()), Step.TakeLock(t));
                Contents() == Next(locked, Step.Insert(t, InboxEvent(channel))) && stored.value == old(next)
      ensures stored.Some? ==> next == old(next) + 1 && inflight == old(inflight)[old(next) := Row(t, InboxEvent(channel))] && lock == Some(t)
      ensures stored.None? <==> old(lock).Some? && old(lock) != Some(t)
    {
      var taken := TakeLock(t);
      if !taken {
        return None;
      }
      StepKeepsRight(Contents(), Step.Insert(t, InboxEvent(channel)));
      stored := Some(next);
      inflight := inflight[next := Row(t, InboxEvent(channel))];
      next := next + 1;
    }

    /** Any other event is inserted without the lock. */
    method InsertOther(t: nat)
      requires Valid() && t in open
      modifies this`next, this`inflight
      ensures Valid() && Contents() == Next(old(Contents()), Step.Insert(t, OtherEvent))
      ensures next == old(next) + 1 && inflight == old(inflight)[old(next) := Row(t, OtherEvent)]
    {
      StepKeepsRight(Contents(), Step.Insert(t, OtherEvent));
      inflight := inflight[next := Row(t, OtherEvent)];
      next := next + 1;
    }

    /** Set one reader's subscription: the reader's lock, then the inbox lock, then the row. */
    method SetSubscription(t: nat, r: nat, topic: nat, on: bool) returns (taken: bool)
      requires Valid() && t in open && r in readers
      modifies this`lock, this`readerLocks, this`changes
      ensures Valid()
      ensures taken == (Enabled(old(Contents()), Step.LockReader(t, r)) && Enabled(old(Contents()), Step.TakeLock(t)))
      ensures taken == ((r in old(readerLocks) ==> old(readerLocks)[r] == t) && (old(lock) == None || old(lock) == Some(t)))
      ensures taken ==> lock == Some(t) && readerLocks == old(readerLocks)[r := t]
      ensures taken ==>
                var locked := Next(Next(old(Contents()), Step.LockReader(t, r)), Step.TakeLock(t));
                Contents() == Next(locked, Step.Subscribe(t, r, topic, on))
      ensures !taken ==> readers == old(readers) && changes == old(changes) && rows == old(rows)
    {
      if r in readerLocks && readerLocks[r] != t {
        return false;
      }
      StepKeepsRight(Contents(), Step.LockReader(t, r));
      readerLocks := readerLocks[r := t];
      taken := TakeLock(t);
      if !taken {
        return;
      }
      StepKeepsRight(Contents(), Step.Subscribe(t, r, topic, on));
      StoreSubscription(t, r, topic, on);
    }

    method StoreSubscription(t: nat, r: nat, topic: nat, on: bool)
      requires r in readers
      modifies this`changes
      ensures Contents() == Subscribed(old(Contents()), t, r, topic, on)
    {
      var seen := WithChanges(readers[r].subs, r, MyChanges(changes, t));
      if topic in seen && seen[topic].subscribed == on {
        return;
      }
      if on && |Active(seen)| >= MAX_SUBSCRIPTIONS {
        return;
      }
      var start := MaxVisible(rows, Mine(inflight, t));
      if topic in seen && !on {
        start := seen[topic].start;
      }
      changes := changes[(r, topic) := Change(t, Sub(on, start))];
    }

    method Commit(t: nat)
      requires Valid() && t in open
      modifies this
      ensures Valid() && Contents() == Next(old(Contents()), Step.Commit(t))
      ensures ClosedByFields(old(Contents()), t, Contents())
      ensures forall s :: s in rows <==> s in old(rows) || (s in old(inflight) && old(inflight)[s].tx == t)
    {
      CommittedByFields(Contents(), t);
      StepKeepsRight(Contents(), Step.Commit(t));
      rows := rows + Mine(inflight, t);
      readers := CommittedReaders(readers, MyChanges(changes, t));
      Release(t);
    }

    method Abort(t: nat)
      requires Valid() && t in open
      modifies this
      ensures Valid() && Contents() == Next(old(Contents()), Step.Abort(t))
      ensures ClosedByFields(old(Contents()), t, Contents()) && rows == old(rows) && readers == old(readers)
    {
      AbortedByFields(Contents(), t);
      StepKeepsRight(Contents(), Step.Abort(t));
      Release(t);
    }

    method Release(t: nat)
      modifies this
      ensures Contents() == Closed(old(Contents()), t)
    {
      open := open - {t};
      inflight := map s | s in inflight && inflight[s].tx != t :: inflight[s];
      changes := map k | k in changes && changes[k].tx != t :: changes[k];
      if lock == Some(t) {
        lock := None;
      }
      readerLocks := map r | r in readerLocks && readerLocks[r] != t :: readerLocks[r];
    }

    /** Poll: the pending batch again, sanitized; or the next one, stored as pending when it has items. */
    method Updates(r: nat, limit: nat, view: View) returns (batch: Option<Batch>)
      requires Valid() && r in readers && r !in readerLocks && 1 <= limit <= 10
      modifies this`readers
      ensures Valid() && Contents() == Next(old(Contents()), Step.Poll(r, limit, view))
      ensures batch.Some? <==> readers[r].pending
      ensures batch.Some? ==> readers[r].history != [] && batch.value == readers[r].history[|readers[r].history| - 1]
      ensures batch.Some? && !old(readers)[r].pending ==>
                |batch.value.items| <= limit && BatchBytes(batch.value.items) <= MAX_BATCH_BYTES
    {
      StepKeepsRight(Contents(), Step.Poll(r, limit, view));
      ReaderRight(Contents(), r);
      var reader;
      reader, batch := PollReader(rows, readers[r], limit, view);
      readers := readers[r := reader];
    }

    /** Acknowledge the current batch: refused when it is another one, or has changed since it was read. */
    method Acknowledge(r: nat, batch: nat, view: View) returns (done: bool)
      requires Valid() && r in readers && r !in readerLocks
      modifies this`readers
      ensures Valid() && Contents() == Next(old(Contents()), Step.Acknowledge(r, batch, view))
      ensures done <==> var reader := old(readers)[r];
                        && reader.pending && batch == |reader.history| - 1
                        && forall i | 0 <= i < |reader.history[batch].items| :: SeenAsIs(reader.history[batch].items[i], view)
      ensures done ==> var reader := old(readers)[r];
                       readers == old(readers)[r := reader.(ack := reader.history[batch].end, pending := false)]
      ensures !done ==> readers[r].ack == old(readers)[r].ack && readers[r].pending == old(readers)[r].pending
    {
      StepKeepsRight(Contents(), Step.Acknowledge(r, batch, view));
      ReaderRight(Contents(), r);
      var reader;
      reader, done := AcknowledgeReader(rows, readers[r], batch, view);
      readers := readers[r := reader];
    }
  }
}
