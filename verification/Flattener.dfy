/** The flattened file: hoisted imports, each module in its own section, the caller's lines, and the
    map from its lines back to theirs. */
module Flattener {
  import opened Basics
  import Commons
  import opened Graphs
  import opened Inliner

  // ----- Its pieces -----

  function Fresh(env: seq<string>, out: seq<string>): (r: seq<string>)
    ensures forall l :: l in r <==> l in env && l !in out
  {
    if env == [] then []
    else (if env[0] in out then [] else [env[0]]) + Fresh(env[1..], out)
  }

  /** Environment imports, the caller's first: a line already hoisted is not hoisted again, but a
      line one source repeats is repeated. */
  function Hoisted(env: seq<string>, resolve: Resolver, order: seq<Name>): seq<string>
    requires AllKnown(resolve, order)
  {
    if order == [] then Fresh(env, [])
    else
      var before := Hoisted(env, resolve, order[..|order| - 1]);
      before + Fresh(Split(resolve[order[|order| - 1]].lines).env, before)
  }

  predicate AllKnown(resolve: Resolver, order: seq<Name>) {
    forall n | n in order :: n in resolve
  }

  function Texts(lines: seq<string>): (r: seq<Line>)
    ensures |r| == |lines|
    ensures forall i | 0 <= i < |lines| :: r[i] == Line(lines[i], Import([]))
  {
    if lines == [] then [] else [Line(lines[0], Import([]))] + Texts(lines[1..])
  }

  function Title(m: Module): string {
    "-- " + m.name + ": node " + m.node + ", " + m.rank + if m.stale then ", stale" else ""
  }

  function LeftOpen(m: Module): seq<string> {
    var open := Run(Some([]), ScopesOf(m.lines));
    if open.Some? then open.value else []
  }

  /** A part of the file, and the module it reports as. */
  datatype Section = Section(owner: string, lines: seq<Line>)

  function SectionOf(m: Module): Section {
    Section(m.name, [Line("section", Code([Opens("")])), Line(Title(m), Blank)]
                    + Split(m.lines).rest + ClosersFor(LeftOpen(m)) + [Closer("")])
  }

  function SectionsFor(resolve: Resolver, order: seq<Name>): (r: seq<Section>)
    requires AllKnown(resolve, order)
    ensures |r| == |order| && forall i | 0 <= i < |order| :: r[i] == SectionOf(resolve[order[i]])
  {
    seq(|order|, i requires 0 <= i < |order| => SectionOf(resolve[order[i]]))
  }

  function Joined(sections: seq<Section>): seq<Line> {
    if sections == [] then [] else Joined(sections[..|sections| - 1]) + sections[|sections| - 1].lines
  }

  /** Lines `first` to `last` of the file are a module's section, or the caller's lines from
      `origin` on. */
  datatype Segment = Segment(first: nat, last: nat, owner: Option<string>, origin: nat)

  function SectionSegments(sections: seq<Section>, start: nat): seq<Segment> {
    if sections == [] then []
    else
      var init, s := sections[..|sections| - 1], sections[|sections| - 1];
      var before := start + |Joined(init)|;
      SectionSegments(init, start) + [Segment(before + 1, before + |s.lines|, Some(s.owner), 1)]
  }

  /** A file of hoisted lines, sections and the caller's lines, and its segments. */
  function FileOf(hoisted: seq<Line>, sections: seq<Section>, rest: seq<Line>): seq<Line> {
    hoisted + Joined(sections) + rest
  }

  function SegmentsOf(hoisted: seq<Line>, sections: seq<Section>, rest: seq<Line>, first: nat): seq<Segment> {
    var before := |hoisted| + |Joined(sections)|;
    SectionSegments(sections, |hoisted|) + [Segment(before + 1, before + |rest|, None, first + 1)]
  }

  function HoistedLines(source: seq<Line>, resolve: Resolver, order: seq<Name>): seq<Line>
    requires AllKnown(resolve, order)
  {
    Texts(Hoisted(Split(source).env, resolve, order))
  }

  function Flat(source: seq<Line>, resolve: Resolver, order: seq<Name>): seq<Line>
    requires AllKnown(resolve, order)
  {
    FileOf(HoistedLines(source, resolve, order), SectionsFor(resolve, order), Split(source).rest)
  }

  function Segments(source: seq<Line>, resolve: Resolver, order: seq<Name>): seq<Segment>
    requires AllKnown(resolve, order)
  {
    SegmentsOf(HoistedLines(source, resolve, order), SectionsFor(resolve, order), Split(source).rest, Split(source).first)
  }

  // ----- Flattening -----

  datatype Expansion = Expansion(lines: seq<Line>, order: seq<Name>, segments: seq<Segment>)

  datatype Outcome = Unchanged | Expanded(expansion: Expansion) | Failed(error: Error)

  ghost predicate Succeeds(source: seq<Line>, resolve: Resolver, max: nat, e: Expansion) {
    var g := ModuleGraph(resolve);
    && IsOrder(g, Needed(g, Split(source).modules), Accepted(resolve), e.order)
    && |e.order| <= Commons.MAX_COMMONS_MODULES && AllKnown(resolve, e.order)
    && e.lines == Flat(source, resolve, e.order) && e.segments == Segments(source, resolve, e.order)
    && Size(e.lines) <= max
  }

  /** Why flattening failed: an early size is no more than any flattened file would have, a final
      one is that of a flattened file. */
  ghost predicate FailsFor(source: seq<Line>, resolve: Resolver, max: nat, error: Error) {
    var g := ModuleGraph(resolve);
    var needed, accepted := Needed(g, Split(source).modules), Accepted(resolve);
    match error
    case ImportCycle(modules) => RealCycle(g, needed, modules)
    case ExpansionLimit => ManyNeeded(needed)
    case ModuleMissing(n) => n in needed && n !in resolve
    case ModuleRefused(n) => n in needed && n in resolve && Refusable(resolve[n])
    case ExpansionTooLarge(size) =>
      size > max &&
      ((exists order :: IsOrder(g, needed, accepted, order) && AllKnown(resolve, order)
                        && Size(Flat(source, resolve, order)) == size)
       || (forall order | IsOrder(g, needed, accepted, order) && AllKnown(resolve, order) ::
             Size(Flat(source, resolve, order)) >= size))
  }

  method InlineCommons(source: seq<Line>, resolve: Resolver, max: nat) returns (outcome: Outcome)
    ensures outcome.Unchanged? <==> Split(source).modules == []
    ensures outcome.Expanded? ==> Succeeds(source, resolve, max, outcome.expansion)
    ensures outcome.Failed? ==> FailsFor(source, resolve, max, outcome.error)
  {
    var imports := SplitImports(source);
    if imports.modules == [] {
      return Unchanged;
    }
    var error, order := VisitImports(resolve, imports.modules, Size(imports.rest), max);
    if error.Some? {
      JustifiedFails(source, resolve, max, error.value);
      return Failed(error.value);
    }
    outcome := Assemble(source, imports, resolve, order, max);
  }

  /** Everything the modules import, in order, or why not. */
  method VisitImports(resolve: Resolver, modules: seq<Name>, rest: nat, max: nat) returns (error: Option<Error>, order: seq<Name>)
    ensures var g := ModuleGraph(resolve);
            if error.Some? then Justified(g, Needed(g, modules), SizesOf(resolve), resolve, rest, max, error.value)
            else
              IsOrder(g, Needed(g, modules), Accepted(resolve), order)
              && |order| <= Commons.MAX_COMMONS_MODULES && AllKnown(resolve, order)
  {
    var visitor := new Visitor(resolve, modules, rest, max);
    error := visitor.VisitAll(modules);
    order := visitor.ordered;
    assert Unfolded(0);
    if error.None? {
      VisitedAll(visitor.g, modules, visitor.accepted, order);
    }
  }

  /** Write the file out, if it is not too large. */
  method Assemble(source: seq<Line>, imports: Parts, resolve: Resolver, order: seq<Name>, max: nat) returns (outcome: Outcome)
    requires imports == Split(source) && AllKnown(resolve, order)
    ensures if Size(Flat(source, resolve, order)) > max
            then outcome == Failed(ExpansionTooLarge(Size(Flat(source, resolve, order))))
            else outcome == Expanded(Expansion(Flat(source, resolve, order), order, Segments(source, resolve, order)))
  {
    var out := HoistImports(imports.env, resolve, order);
    var lines, segments := Write(Texts(out), SectionsFor(resolve, order), imports.rest, imports.first);
    var size := Size(lines);
    if size > max {
      return Failed(ExpansionTooLarge(size));
    }
    return Expanded(Expansion(lines, order, segments));
  }

  method Write(hoisted: seq<Line>, sections: seq<Section>, rest: seq<Line>, first: nat)
    returns (lines: seq<Line>, segments: seq<Segment>)
    ensures lines == FileOf(hoisted, sections, rest) && segments == SegmentsOf(hoisted, sections, rest, first)
  {
    lines, segments := JoinSections(sections, |hoisted|);
    lines := hoisted + lines;
    segments := segments + [Segment(|lines| + 1, |lines| + |rest|, None, first + 1)];
    lines := lines + rest;
  }

  method HoistImports(env: seq<string>, resolve: Resolver, order: seq<Name>) returns (out: seq<string>)
    requires AllKnown(resolve, order)
    ensures out == Hoisted(env, resolve, order)
  {
    out := Fresh(env, []);
    for i := 0 to |order|
      invariant out == Hoisted(env, resolve, order[..i])
    {
      assert order[..i + 1][..i] == order[..i];
      var parts := SplitImports(resolve[order[i]].lines);
      out := out + Fresh(parts.env, out);
    }
    assert order[..|order|] == order;
  }

  method JoinSections(sections: seq<Section>, start: nat) returns (out: seq<Line>, segments: seq<Segment>)
    ensures out == Joined(sections) && segments == SectionSegments(sections, start)
  {
    out, segments := [], [];
    for i := 0 to |sections|
      invariant out == Joined(sections[..i]) && segments == SectionSegments(sections[..i], start)
    {
      assert sections[..i + 1][..i] == sections[..i];
      segments := segments + [Segment(start + |out| + 1, start + |out| + |sections[i].lines|, Some(sections[i].owner), 1)];
      out := out + sections[i].lines;
    }
    assert sections[..|sections|] == sections;
  }

  // ----- The visit's order is the whole closure -----

  /** A finished visit of all roots covers everything needed. */
  lemma VisitedAll(g: Graph, roots: seq<Name>, accepted: iset<Name>, order: seq<Name>)
    requires Finished(g, Needed(g, roots), accepted, order) && forall i | 0 <= i < |roots| :: roots[i] in order
    ensures IsOrder(g, Needed(g, roots), accepted, order)
  {
    var inside := iset n: Name | n in order;
    forall a, b | a in inside && Edge(g, a, b) ensures b in inside {
      var i :| 0 <= i < |order| && order[i] == a;
      assert Before(order, b, i);
    }
    forall n | n in Needed(g, roots) ensures n in order {
      var r :| r in roots && Reaches(g, r, n);
      ReachesStays(g, inside, r, n);
    }
  }

  /** An order leaves no cycle among what it covers. */
  lemma OrderMeansAcyclic(g: Graph, needed: iset<Name>, accepted: iset<Name>, order: seq<Name>)
    requires IsOrder(g, needed, accepted, order)
    ensures AcyclicOn(g, needed)
  {
    forall a, b | a in needed && Edge(g, a, b) ensures !Reaches(g, b, a) {
      var i :| 0 <= i < |order| && order[i] == a;
      assert Before(order, b, i);
      var j :| 0 <= j < i && order[j] == b;
      if Reaches(g, b, a) {
        StaysEarlier(g, order, j, a, j + 1);
      }
    }
  }

  lemma StaysEarlier(g: Graph, order: seq<Name>, j: nat, a: Name, k: nat)
    requires ImportsFirst(g, order) && j < |order| && k == j + 1 && Reaches(g, order[j], a)
    ensures Before(order, a, k)
  {
    var inside := iset n: Name | Before(order, n, k);
    forall x, y | x in inside && Edge(g, x, y) ensures y in inside {
      var i :| 0 <= i < k && i < |order| && order[i] == x;
      assert Before(order, y, i);
    }
    assert Before(order, order[j], k);
    ReachesStays(g, inside, order[j], a);
  }

  ghost predicate AcyclicOn(g: Graph, needed: iset<Name>) {
    forall a, b | a in needed && Edge(g, a, b) :: !Reaches(g, b, a)
  }

  // ----- The running floor never passes the file's size -----

  lemma {:induction false} TerminatedJoins(a: seq<Line>, b: seq<Line>)
    ensures Terminated(a + b) == Terminated(a) + Terminated(b)
  {
    if b == [] {
      assert a + b == a;
    } else {
      assert (a + b)[..|a + b| - 1] == a + b[..|b| - 1];
      TerminatedJoins(a, b[..|b| - 1]);
    }
  }

  lemma SectionSize(m: Module)
    ensures Terminated(SectionOf(m).lines) > Size(Split(m.lines).rest)
  {
    var head := [Line("section", Code([Opens("")])), Line(Title(m), Blank)];
    SectionSizeOf(head, Split(m.lines).rest, ClosersFor(LeftOpen(m)) + [Closer("")]);
    assert SectionOf(m).lines == head + Split(m.lines).rest + (ClosersFor(LeftOpen(m)) + [Closer("")]);
  }

  lemma SectionSizeOf(head: seq<Line>, rest: seq<Line>, tail: seq<Line>)
    requires head != []
    ensures Terminated(head + rest + tail) > Size(rest)
  {
    TerminatedJoins(head + rest, tail);
    TerminatedJoins(head, rest);
  }

  lemma SectionsStep(resolve: Resolver, init: seq<Name>, last: Name)
    requires AllKnown(resolve, init + [last])
    ensures last in resolve && AllKnown(resolve, init)
    ensures SectionsFor(resolve, init + [last]) == SectionsFor(resolve, init) + [SectionOf(resolve[last])]
  {
    assert (init + [last])[|init|] == last;
    forall n | n in init ensures n in init + [last] {
    }
  }

  lemma JoinedStep(sections: seq<Section>, last: Section)
    ensures Terminated(Joined(sections + [last])) == Terminated(Joined(sections)) + Terminated(last.lines)
  {
    assert (sections + [last])[..|sections|] == sections;
    TerminatedJoins(Joined(sections), last.lines);
  }

  lemma {:induction false} SectionsSize(resolve: Resolver, order: seq<Name>)
    requires AllKnown(resolve, order)
    ensures Terminated(Joined(SectionsFor(resolve, order))) >= Bodies(SizesOf(resolve), order) + |order|
  {
    if order != [] {
      var init, last := order[..|order| - 1], order[|order| - 1];
      assert order == init + [last];
      SectionsStep(resolve, init, last);
      SectionsSize(resolve, init);
      SectionOneMore(resolve, init, last, SectionsFor(resolve, init));
    }
  }

  lemma SectionOneMore(resolve: Resolver, init: seq<Name>, last: Name, sections: seq<Section>)
    requires last in resolve && Terminated(Joined(sections)) >= Bodies(SizesOf(resolve), init) + |init|
    ensures Terminated(Joined(sections + [SectionOf(resolve[last])])) >= Bodies(SizesOf(resolve), init + [last]) + |init| + 1
  {
    BodiesOneMore(SizesOf(resolve), init, last);
    JoinedStep(sections, SectionOf(resolve[last]));
    SectionSize(resolve[last]);
  }

  /** Any flattened file is at least as long as the caller's lines and the modules' own together. */
  lemma FlatSize(source: seq<Line>, resolve: Resolver, order: seq<Name>)
    requires AllKnown(resolve, order)
    ensures Size(Flat(source, resolve, order)) >= Size(Split(source).rest) + Bodies(SizesOf(resolve), order)
  {
    FileSize(HoistedLines(source, resolve, order), Joined(SectionsFor(resolve, order)), Split(source).rest,
             Bodies(SizesOf(resolve), order));
    SectionsSize(resolve, order);
    assert order == [] ==> Bodies(SizesOf(resolve), order) == 0;
  }

  lemma FileSize(hoisted: seq<Line>, sections: seq<Line>, rest: seq<Line>, bodies: nat)
    ensures Terminated(sections) > bodies ==> Size(hoisted + sections + rest) >= Size(rest) + bodies
    ensures Size(hoisted + sections + rest) >= Size(rest)
  {
    TerminatedJoins(hoisted + sections, rest);
    TerminatedJoins(hoisted, sections);
  }

  /** Distinct modules of an order have no more bytes than all of it. */
  lemma {:induction false} PartOfOrder(sizes: Sizes, part: seq<Name>, order: seq<Name>)
    requires Distinct(part) && forall n | n in part :: n in order
    ensures Bodies(sizes, part) <= Bodies(sizes, order)
    decreases |part|
  {
    if part != [] {
      var init, last := part[..|part| - 1], part[|part| - 1];
      assert part == init + [last] && last in part;
      var k :| 0 <= k < |order| && order[k] == last;
      var before, after := order[..k], order[k + 1..];
      assert order == before + [last] + after;
      forall n | n in init ensures n in before + after {
        var i :| 0 <= i < |init| && init[i] == n;
        assert part[i] in order && part[i] != last;
      }
      PartOfOrder(sizes, init, before + after);
      BodiesOneMore(sizes, init, last);
      BodiesAppend(sizes, before + [last], after);
      BodiesOneMore(sizes, before, last);
      BodiesAppend(sizes, before, after);
    }
  }

  /** An early refusal by size is sound: no flattened file would be shorter than the floor. */
  lemma EarlyRefusalSound(source: seq<Line>, resolve: Resolver, needed: iset<Name>, order: seq<Name>, size: nat)
    requires AllKnown(resolve, order) && forall n :: n in order <==> n in needed
    requires PartOfSize(SizesOf(resolve), needed, Size(Split(source).rest), size)
    ensures Size(Flat(source, resolve, order)) >= size
  {
    var sizes := SizesOf(resolve);
    var s: seq<Name> :| Distinct(s) && AllIn(s, needed) && size == Size(Split(source).rest) + Bodies(sizes, s);
    PartOfOrder(sizes, s, order);
    FlatSize(source, resolve, order);
  }

  lemma JustifiedFails(source: seq<Line>, resolve: Resolver, max: nat, error: Error)
    requires var g := ModuleGraph(resolve);
             Justified(g, Needed(g, Split(source).modules), SizesOf(resolve), resolve, Size(Split(source).rest), max, error)
    ensures FailsFor(source, resolve, max, error)
  {
    var g := ModuleGraph(resolve);
    var needed := Needed(g, Split(source).modules);
    if error.ExpansionTooLarge? {
      forall order | IsOrder(g, needed, Accepted(resolve), order) && AllKnown(resolve, order)
        ensures Size(Flat(source, resolve, order)) >= error.size
      {
        EarlyRefusalSound(source, resolve, needed, order, error.size);
      }
    }
  }

  // ----- Success and failure exclude each other -----

  /** A closure that is acyclic, resolvable, not refused and within the module bound is flattened,
      unless it is too large. */
  lemma GoodClosureInlines(source: seq<Line>, resolve: Resolver, max: nat, error: Error)
    requires FailsFor(source, resolve, max, error)
    requires var g := ModuleGraph(resolve);
             var needed := Needed(g, Split(source).modules);
             AcyclicOn(g, needed) && !ManyNeeded(needed) && forall n | n in needed :: n in Accepted(resolve)
    ensures error.ExpansionTooLarge?
  {
    if error.ImportCycle? {
      var g, w := ModuleGraph(resolve), error.modules;
      CycleClosed(g, Needed(g, Split(source).modules), w);
    }
  }

  lemma CycleClosed(g: Graph, needed: iset<Name>, w: seq<Name>)
    requires RealCycle(g, needed, w)
    ensures !AcyclicOn(g, needed)
  {
    var i :| 0 <= i < |w| - 1 && w[..|w| - 1][i] == w[|w| - 1];
    assert w[i] in w && Edge(g, w[i], w[i + 1]);
    WalkReaches(g, w, i + 1, |w| - 1);
  }

  lemma {:induction false} DistinctFit(s: seq<Name>, order: seq<Name>)
    requires Distinct(s) && forall n | n in s :: n in order
    ensures |s| <= |order|
    decreases |s|
  {
    if s != [] {
      var init, last := s[..|s| - 1], s[|s| - 1];
      assert last in s;
      var k :| 0 <= k < |order| && order[k] == last;
      var rest := order[..k] + order[k + 1..];
      forall n | n in init ensures n in rest {
        var i :| 0 <= i < |init| && init[i] == n;
        assert s[i] in order && s[i] != last;
        var j :| 0 <= j < |order| && order[j] == n;
        assert if j < k then rest[j] == n else rest[j - 1] == n;
      }
      DistinctFit(init, rest);
    }
  }

  /** ... and a flattened closure is acyclic, resolvable, not refused and within the bound. */
  lemma InlinedIsGood(source: seq<Line>, resolve: Resolver, max: nat, e: Expansion)
    requires Succeeds(source, resolve, max, e)
    ensures var g := ModuleGraph(resolve);
            var needed := Needed(g, Split(source).modules);
            AcyclicOn(g, needed) && !ManyNeeded(needed) && forall n | n in needed :: n in Accepted(resolve)
  {
    var g := ModuleGraph(resolve);
    var needed := Needed(g, Split(source).modules);
    OrderMeansAcyclic(g, needed, Accepted(resolve), e.order);
    forall s: seq<Name> | Distinct(s) && AllIn(s, needed) ensures |s| <= Commons.MAX_COMMONS_MODULES {
      DistinctFit(s, e.order);
    }
  }

  // ----- Segments and remapping -----

  datatype Place = AtLine(line: nat) | InModule(owner: string) | Elsewhere

  /** Where a line of the flattened file is reported: the first segment that holds it. */
  function Moved(segments: seq<Segment>, line: nat): Place {
    if segments == [] then Elsewhere
    else
      var s := segments[0];
      if s.first <= line <= s.last then
        if s.owner.None? then AtLine(s.origin + line - s.first) else InModule(s.owner.value)
      else Moved(segments[1..], line)
  }

  /** Each segment starts where the one before ended. */
  ghost predicate Tiles(segments: seq<Segment>, start: nat, end: nat) {
    && (forall i | 0 <= i < |segments| :: segments[i].first <= segments[i].last + 1)
    && (forall i | 0 <= i < |segments| - 1 :: segments[i + 1].first == segments[i].last + 1)
    && (if segments == [] then start == end
        else segments[0].first == start + 1 && segments[|segments| - 1].last == end)
  }

  lemma {:induction false} SectionsTile(sections: seq<Section>, start: nat)
    ensures Tiles(SectionSegments(sections, start), start, start + |Joined(sections)|)
    ensures |SectionSegments(sections, start)| == |sections|
  {
    if sections != [] {
      SectionsTile(sections[..|sections| - 1], start);
    }
  }

  /** The segments are disjoint and cover every line after the hoisted imports. */
  lemma SegmentsTile(hoisted: seq<Line>, sections: seq<Section>, rest: seq<Line>, first: nat)
    ensures Tiles(SegmentsOf(hoisted, sections, rest, first), |hoisted|, |FileOf(hoisted, sections, rest)|)
  {
    SectionsTile(sections, |hoisted|);
  }

  /** The lines of the sections before the i-th. */
  function SectionStart(sections: seq<Section>, i: nat): nat
    requires i <= |sections|
  {
    |Joined(sections[..i])|
  }

  lemma {:induction false} SectionAt(sections: seq<Section>, start: nat, i: nat)
    requires i < |sections|
    ensures var s, from := sections[i], SectionStart(sections, i);
            && |SectionSegments(sections, start)| == |sections| && from + |s.lines| <= |Joined(sections)|
            && SectionSegments(sections, start)[i] == Segment(start + from + 1, start + from + |s.lines|, Some(s.owner), 1)
            && forall k | 0 <= k < |s.lines| :: Joined(sections)[from + k] == s.lines[k]
  {
    var init := sections[..|sections| - 1];
    SectionsTile(init, start);
    if i < |sections| - 1 {
      SectionAt(init, start, i);
      assert init[..i] == sections[..i];
    } else {
      assert sections[..i] == init;
    }
  }

  lemma {:induction false} TilesIncrease(segments: seq<Segment>, start: nat, end: nat, i: nat, j: nat)
    requires Tiles(segments, start, end) && i < j < |segments|
    ensures segments[i].last < segments[j].first
    decreases j
  {
    if i < j - 1 {
      TilesIncrease(segments, start, end, i, j - 1);
    }
  }

  /** A line of the i-th segment is reported by that segment. */
  lemma {:induction false} MovedBy(segments: seq<Segment>, start: nat, end: nat, i: nat, line: nat)
    requires Tiles(segments, start, end) && i < |segments| && segments[i].first <= line <= segments[i].last
    ensures var s := segments[i];
            Moved(segments, line) == if s.owner.None? then AtLine(s.origin + line - s.first) else InModule(s.owner.value)
    decreases i
  {
    if i > 0 {
      TilesIncrease(segments, start, end, 0, i);
      var rest := segments[1..];
      assert forall j | 0 <= j < |rest| :: rest[j] == segments[j + 1];
      assert Tiles(rest, segments[0].last, end);
      MovedBy(rest, segments[0].last, end, i - 1, line);
    }
  }

  lemma {:induction false} MovedByNone(segments: seq<Segment>, start: nat, end: nat, line: nat)
    requires Tiles(segments, start, end) && line <= start
    ensures Moved(segments, line) == Elsewhere
  {
    forall i | 0 <= i < |segments| ensures line < segments[i].first {
      if i > 0 {
        TilesIncrease(segments, start, end, 0, i);
      }
    }
    MovedPast(segments, line);
  }

  lemma {:induction false} MovedPast(segments: seq<Segment>, line: nat)
    requires forall i | 0 <= i < |segments| :: line < segments[i].first
    ensures Moved(segments, line) == Elsewhere
  {
    if segments != [] {
      MovedPast(segments[1..], line);
    }
  }

  /** A hoisted import belongs to no line of anyone's source. */
  lemma HoistedElsewhere(hoisted: seq<Line>, sections: seq<Section>, rest: seq<Line>, first: nat, line: nat)
    requires line <= |hoisted|
    ensures Moved(SegmentsOf(hoisted, sections, rest, first), line) == Elsewhere
  {
    SegmentsTile(hoisted, sections, rest, first);
    MovedByNone(SegmentsOf(hoisted, sections, rest, first), |hoisted|, |FileOf(hoisted, sections, rest)|, line);
  }

  /** A line of a module's section is reported in that module, and is that line of its section. */
  lemma SectionLines(hoisted: seq<Line>, sections: seq<Section>, rest: seq<Line>, first: nat, i: nat, k: nat)
    requires i < |sections| && k < |sections[i].lines|
    ensures var line := |hoisted| + SectionStart(sections, i) + k + 1;
            && line <= |FileOf(hoisted, sections, rest)| && FileOf(hoisted, sections, rest)[line - 1] == sections[i].lines[k]
            && Moved(SegmentsOf(hoisted, sections, rest, first), line) == InModule(sections[i].owner)
  {
    var segments := SegmentsOf(hoisted, sections, rest, first);
    SegmentsTile(hoisted, sections, rest, first);
    SectionAt(sections, |hoisted|, i);
    assert segments[i] == SectionSegments(sections, |hoisted|)[i];
    MovedBy(segments, |hoisted|, |FileOf(hoisted, sections, rest)|, i, |hoisted| + SectionStart(sections, i) + k + 1);
  }

  lemma RestLines(hoisted: seq<Line>, sections: seq<Section>, rest: seq<Line>, first: nat, k: nat, line: nat)
    requires k < |rest| && line == |hoisted| + |Joined(sections)| + k + 1
    ensures line <= |FileOf(hoisted, sections, rest)| && FileOf(hoisted, sections, rest)[line - 1] == rest[k]
    ensures Moved(SegmentsOf(hoisted, sections, rest, first), line) == AtLine(first + 1 + k)
  {
    var segments, blocks := SegmentsOf(hoisted, sections, rest, first), SectionSegments(sections, |hoisted|);
    var last := Segment(|hoisted| + |Joined(sections)| + 1, |hoisted| + |Joined(sections)| + |rest|, None, first + 1);
    assert segments == blocks + [last] && segments[|blocks|] == last;
    SegmentsTile(hoisted, sections, rest, first);
    MovedBy(segments, |hoisted|, |FileOf(hoisted, sections, rest)|, |blocks|, line);
    ThirdPart(hoisted, Joined(sections), rest, k);
  }

  lemma ThirdPart(a: seq<Line>, b: seq<Line>, c: seq<Line>, k: nat)
    requires k < |c|
    ensures (a + b + c)[|a| + |b| + k] == c[k]
  {
  }

  lemma RestIs(source: seq<Line>)
    ensures Split(source).first + |Split(source).rest| == |source|
    ensures forall k | 0 <= k < |Split(source).rest| :: Split(source).rest[k] == source[Split(source).first + k]
  {
  }

  /** The lines before the caller's own. */
  function CallerStart(source: seq<Line>, resolve: Resolver, order: seq<Name>): nat
    requires AllKnown(resolve, order)
  {
    |HoistedLines(source, resolve, order)| + |Joined(SectionsFor(resolve, order))|
  }

  /** Every line past the sections is the caller's, reported at the line of the source it is; and
      none of the source's lines from its first on is lost. */
  lemma CallerLines(source: seq<Line>, resolve: Resolver, order: seq<Name>, line: nat)
    requires AllKnown(resolve, order) && CallerStart(source, resolve, order) < line
    requires line <= |Flat(source, resolve, order)| || line - CallerStart(source, resolve, order) <= |source| - Split(source).first
    ensures line <= |Flat(source, resolve, order)|
    ensures var n := Split(source).first + line - CallerStart(source, resolve, order);
            && n <= |source| && source[n - 1] == Flat(source, resolve, order)[line - 1]
            && Moved(Segments(source, resolve, order), line) == AtLine(n)
  {
    var k := line - CallerStart(source, resolve, order) - 1;
    RestIs(source);
    RestLines(HoistedLines(source, resolve, order), SectionsFor(resolve, order), Split(source).rest, Split(source).first, k, line);
  }

  // ----- Scopes -----

  /** Commands that close only what they open do so below any stack. */
  lemma {:induction false} RunAbove(stack: seq<string>, scopes: seq<Scope>)
    requires Run(Some([]), scopes).Some?
    ensures Run(Some(stack), scopes) == Some(stack + Run(Some([]), scopes).value)
  {
    if scopes == [] {
      assert stack + [] == stack;
    } else {
      var init := scopes[..|scopes| - 1];
      RunAbove(stack, init);
      var open := Run(Some([]), init).value;
      match scopes[|scopes| - 1]
      case Opens(title) => assert (stack + open) + [title] == stack + (open + [title]);
      case Closes => assert (stack + open)[..|stack + open| - 1] == stack + open[..|open| - 1];
    }
  }

  lemma {:induction false} RunJoins(stack: Option<seq<string>>, a: seq<Scope>, b: seq<Scope>)
    ensures Run(stack, a + b) == Run(Run(stack, a), b)
  {
    if b == [] {
      assert a + b == a;
    } else {
      assert (a + b)[..|a + b| - 1] == a + b[..|b| - 1];
      RunJoins(stack, a, b[..|b| - 1]);
    }
  }

  lemma {:induction false} ScopesJoin(a: seq<Line>, b: seq<Line>)
    ensures ScopesOf(a + b) == ScopesOf(a) + ScopesOf(b)
  {
    if b == [] {
      assert a + b == a;
    } else {
      assert (a + b)[..|a + b| - 1] == a + b[..|b| - 1];
      ScopesJoin(a, b[..|b| - 1]);
    }
  }

  lemma {:induction false} NoScopesBefore(lines: seq<Line>)
    requires forall i | 0 <= i < |lines| :: !lines[i].reading.Code?
    ensures ScopesOf(lines) == []
  {
    if lines != [] {
      NoScopesBefore(lines[..|lines| - 1]);
    }
  }

  /** A module's own lines hold all its scope commands. */
  lemma RestScopes(lines: seq<Line>)
    ensures ScopesOf(Split(lines).rest) == ScopesOf(lines)
  {
    var first := Split(lines).first;
    assert lines == lines[..first] + lines[first..];
    ScopesJoin(lines[..first], lines[first..]);
    NoScopesBefore(lines[..first]);
  }

  /** Each closer ends the innermost open scope, by its own name. */
  lemma {:induction false} ClosersNamed(open: seq<string>, j: nat)
    requires j < |open|
    ensures |ClosersFor(open)| == |open| && ClosersFor(open)[j] == Closer(open[|open| - 1 - j])
  {
    ClosersCount(open);
    if j > 0 {
      ClosersNamed(open[..|open| - 1], j - 1);
    }
  }

  lemma {:induction false} ClosersCount(open: seq<string>)
    ensures |ClosersFor(open)| == |open|
  {
    if open != [] {
      ClosersCount(open[..|open| - 1]);
    }
  }

  lemma OneCloser(stack: seq<string>, last: string)
    ensures Run(Some(stack + [last]), ScopesOf([Closer(last)])) == Some(stack)
  {
    assert ScopesOf([Closer(last)]) == [Closes];
    assert (stack + [last])[..|stack|] == stack;
    assert Run(Some(stack + [last]), []) == Some(stack + [last]);
  }

  lemma {:induction false} ClosersClose(open: seq<string>)
    ensures Run(Some(open), ScopesOf(ClosersFor(open))) == Some([])
  {
    if open != [] {
      var init, last := open[..|open| - 1], open[|open| - 1];
      ClosersClose(init);
      ScopesJoin([Closer(last)], ClosersFor(init));
      RunJoins(Some(open), ScopesOf([Closer(last)]), ScopesOf(ClosersFor(init)));
      OneCloser(init, last);
      assert open == init + [last];
    }
  }

  /** A section leaves the scopes as it found them, whatever is open around it. */
  lemma SectionScopes(m: Module, stack: seq<string>)
    requires !Refusable(m)
    ensures Run(Some(stack), ScopesOf(SectionOf(m).lines)) == Some(stack)
  {
    var head := [Line("section", Code([Opens("")])), Line(Title(m), Blank)];
    var rest, closers := Split(m.lines).rest, ClosersFor(LeftOpen(m));
    var a, b, c, d := ScopesOf(head), ScopesOf(rest), ScopesOf(closers), ScopesOf([Closer("")]);
    assert SectionOf(m).lines == head + rest + closers + [Closer("")];
    ScopesJoin(head + rest + closers, [Closer("")]);
    ScopesJoin(head + rest, closers);
    ScopesJoin(head, rest);
    RestScopes(m.lines);
    ClosersClose(LeftOpen(m));
    OneCloser([], "");
    BalancedAbove(a, b, c, d, LeftOpen(m), stack);
  }

  lemma BalancedAbove(a: seq<Scope>, b: seq<Scope>, c: seq<Scope>, d: seq<Scope>, open: seq<string>, stack: seq<string>)
    requires a == [Opens("")] && Run(Some([]), b) == Some(open) && Run(Some(open), c) == Some([]) && d == [Closes]
    ensures Run(Some(stack), a + b + c + d) == Some(stack)
  {
    RunJoins(Some(stack), a + b + c, d);
    RunJoins(Some(stack), a, b + c);
    assert a + b + c == a + (b + c);
    RunJoins(Some([]), b, c);
    assert Run(Some(stack), []) == Some(stack);
    assert Run(Some(stack), a) == Some(stack + [""]);
    RunAbove(stack + [""], b + c);
    assert stack + [""] + [] == stack + [""];
    assert (stack + [""])[..|stack|] == stack;
  }

  ghost predicate Balanced(lines: seq<Line>) {
    Run(Some([]), ScopesOf(lines)) == Some([])
  }

  lemma BalancedJoin(a: seq<Line>, b: seq<Line>)
    requires Balanced(a) && Balanced(b)
    ensures Balanced(a + b)
  {
    ScopesJoin(a, b);
    RunJoins(Some([]), ScopesOf(a), ScopesOf(b));
  }

  lemma {:induction false} JoinedBalanced(sections: seq<Section>)
    requires forall i | 0 <= i < |sections| :: Balanced(sections[i].lines)
    ensures Balanced(Joined(sections))
  {
    if sections != [] {
      JoinedBalanced(sections[..|sections| - 1]);
      BalancedJoin(Joined(sections[..|sections| - 1]), sections[|sections| - 1].lines);
    }
  }

  lemma {:induction false} TextsHaveNoScopes(texts: seq<string>)
    ensures ScopesOf(Texts(texts)) == []
  {
    NoScopesBefore(Texts(texts));
  }

  lemma {:induction false} RunNone(scopes: seq<Scope>)
    ensures Run(None, scopes) == None
  {
    if scopes != [] {
      RunNone(scopes[..|scopes| - 1]);
    }
  }

  /** Nothing in a balanced text closes what is not open. */
  lemma NeverNegative(lines: seq<Line>, k: nat)
    requires Balanced(lines) && k <= |lines|
    ensures Run(Some([]), ScopesOf(lines[..k])).Some?
  {
    assert lines == lines[..k] + lines[k..];
    ScopesJoin(lines[..k], lines[k..]);
    RunJoins(Some([]), ScopesOf(lines[..k]), ScopesOf(lines[k..]));
    RunNone(ScopesOf(lines[k..]));
  }

  lemma SectionsBalanced(resolve: Resolver, order: seq<Name>)
    requires AllKnown(resolve, order) && forall n | n in order :: !Refusable(resolve[n])
    ensures Balanced(Joined(SectionsFor(resolve, order)))
  {
    forall i | 0 <= i < |order| ensures Balanced(SectionsFor(resolve, order)[i].lines) {
      assert order[i] in order;
      SectionScopes(resolve[order[i]], []);
    }
    JoinedBalanced(SectionsFor(resolve, order));
  }

  /** The caller's first line is at the top level, and no line before it closes what is not open. */
  lemma CallerAtTopLevel(source: seq<Line>, resolve: Resolver, order: seq<Name>, before: seq<Line>)
    requires AllKnown(resolve, order) && forall n | n in order :: !Refusable(resolve[n])
    requires before == HoistedLines(source, resolve, order) + Joined(SectionsFor(resolve, order))
    ensures Flat(source, resolve, order) == before + Split(source).rest
    ensures Balanced(before) && forall k | 0 <= k <= |before| :: Run(Some([]), ScopesOf(before[..k])).Some?
  {
    TextsHaveNoScopes(Hoisted(Split(source).env, resolve, order));
    SectionsBalanced(resolve, order);
    assert Balanced(HoistedLines(source, resolve, order));
    BalancedJoin(HoistedLines(source, resolve, order), Joined(SectionsFor(resolve, order)));
    forall k | 0 <= k <= |before| ensures Run(Some([]), ScopesOf(before[..k])).Some? {
      NeverNegative(before, k);
    }
  }

  // ----- The file, line by line -----

  /** Lines `from` on of the file are these. */
  ghost predicate HoldsAt(file: seq<Line>, from: nat, lines: seq<Line>) {
    from + |lines| <= |file| && forall k | 0 <= k < |lines| :: file[from + k] == lines[k]
  }

  /** An `end` for each open scope, by its name, innermost first. */
  ghost predicate EndsAt(file: seq<Line>, from: nat, open: seq<string>) {
    from + |open| <= |file|
    && forall i | 0 <= i < |open| :: file[from + (|open| - 1 - i)].text == if open[i] == "" then "end" else "end " + open[i]
  }

  /** A module's section: the command, its title, its own lines from the first after its imports, an `end`
      for each scope they leave open, innermost first, and the section's own `end`. */
  ghost predicate IsSection(s: seq<Line>, title: string, own: seq<Line>, open: seq<string>) {
    && |s| == |own| + |open| + 3 && s[0].text == "section" && s[1].text == title && s[|s| - 1].text == "end"
    && HoldsAt(s, 2, own) && EndsAt(s, 2 + |own|, open)
  }

  lemma SectionIs(m: Module, open: seq<string>)
    requires Run(Some([]), ScopesOf(m.lines)) == Some(open)
    ensures SectionOf(m).owner == m.name
    ensures IsSection(SectionOf(m).lines, "-- " + m.name + ": node " + m.node + ", " + m.rank + (if m.stale then ", stale" else ""),
                      m.lines[Split(m.lines).first..], open)
  {
    var head, own := [Line("section", Code([Opens("")])), Line(Title(m), Blank)], m.lines[Split(m.lines).first..];
    assert SectionOf(m).lines == head + own + ClosersFor(open) + [Closer("")];
    SectionShape(head, own, open, Closer(""));
  }

  lemma SectionShape(head: seq<Line>, own: seq<Line>, open: seq<string>, last: Line)
    requires |head| == 2 && head[0].text == "section" && last.text == "end"
    ensures IsSection(head + own + ClosersFor(open) + [last], head[1].text, own, open)
  {
    ClosersCount(open);
    ClosersEnd(head + own, open, [last]);
  }

  lemma CloserAt(open: seq<string>, i: nat)
    requires i < |open|
    ensures |ClosersFor(open)| == |open|
    ensures ClosersFor(open)[|open| - 1 - i].text == if open[i] == "" then "end" else "end " + open[i]
  {
    ClosersCount(open);
    ClosersNamed(open, |open| - 1 - i);
  }

  lemma ClosersEnd(before: seq<Line>, open: seq<string>, after: seq<Line>)
    ensures EndsAt(before + ClosersFor(open) + after, |before|, open)
  {
    var file, closers := before + ClosersFor(open) + after, ClosersFor(open);
    ClosersCount(open);
    forall i | 0 <= i < |open|
      ensures file[|before| + (|open| - 1 - i)].text == if open[i] == "" then "end" else "end " + open[i]
    {
      CloserAt(open, i);
      assert file[|before| + (|open| - 1 - i)] == closers[|open| - 1 - i];
    }
  }

  lemma ThreeParts(a: seq<Line>, b: seq<Line>, c: seq<Line>, from: nat, lines: seq<Line>)
    requires HoldsAt(b, from, lines)
    ensures HoldsAt(a + b + c, 0, a) && HoldsAt(a + b + c, |a| + |b|, c) && HoldsAt(a + b + c, |a| + from, lines)
  {
    forall k | 0 <= k < |lines| ensures (a + b + c)[|a| + from + k] == lines[k] {
      assert b[from + k] == lines[k];
    }
  }

  /** The file holds the hoisted lines, the i-th section and the rest, and the segments say where and
      whose. */
  ghost predicate PartsTell(file: seq<Line>, segments: seq<Segment>, hoisted: seq<Line>, sections: seq<Section>,
                            rest: seq<Line>, first: nat, i: nat)
    requires i < |sections|
  {
    && |segments| == |sections| + 1 && 0 < segments[i].first && 0 < segments[|sections|].first
    && segments[i].last == segments[i].first - 1 + |sections[i].lines| && segments[i].owner == Some(sections[i].owner)
    && segments[|sections|] == Segment(segments[|sections|].first, |file|, None, first + 1)
    && (i == 0 ==> segments[0].first == |hoisted| + 1)
    && HoldsAt(file, 0, hoisted) && HoldsAt(file, segments[i].first - 1, sections[i].lines)
    && HoldsAt(file, segments[|sections|].first - 1, rest)
  }

  lemma PartsAreWhereTheySay(hoisted: seq<Line>, sections: seq<Section>, rest: seq<Line>, first: nat, i: nat)
    requires i < |sections|
    ensures PartsTell(FileOf(hoisted, sections, rest), SegmentsOf(hoisted, sections, rest, first), hoisted, sections, rest, first, i)
  {
    SectionAt(sections, |hoisted|, i);
    ThreeParts(hoisted, Joined(sections), rest, SectionStart(sections, i), sections[i].lines);
    assert sections[..0] == [];
  }

  /** The flattened file is the hoisted imports, each module's section in the order given, and the caller's
      lines from the first after its imports; each segment says where its part is and whose it is. */
  lemma FileIs(source: seq<Line>, resolve: Resolver, order: seq<Name>, i: nat)
    requires AllKnown(resolve, order) && i < |order|
    ensures PartsTell(Flat(source, resolve, order), Segments(source, resolve, order), HoistedLines(source, resolve, order),
                      SectionsFor(resolve, order), Split(source).rest, Split(source).first, i)
  {
    var hoisted, sections, rest, first := HoistedLines(source, resolve, order), SectionsFor(resolve, order), Split(source).rest, Split(source).first;
    PartsAreWhereTheySay(hoisted, sections, rest, first, i);
    assert Flat(source, resolve, order) == FileOf(hoisted, sections, rest);
    assert Segments(source, resolve, order) == SegmentsOf(hoisted, sections, rest, first);
  }

  // ----- Hoisted imports -----

  /** Exactly the caller's and the modules' environment imports are hoisted. */
  lemma {:induction false} HoistedAll(env: seq<string>, resolve: Resolver, order: seq<Name>, text: string)
    requires AllKnown(resolve, order)
    ensures text in Hoisted(env, resolve, order)
            <==> text in env || exists n :: n in order && text in Split(resolve[n].lines).env
  {
    if order != [] {
      var init, last := order[..|order| - 1], order[|order| - 1];
      assert order == init + [last];
      HoistedAll(env, resolve, init, text);
    }
  }

  /** Every line the list repeats was already out. */
  predicate RepeatsAreOut(env: seq<string>, out: seq<string>) {
    forall i, j | 0 <= i < j < |env| && env[i] == env[j] :: env[i] in out
  }

  /** A list adds each of its lines once exactly when what it repeats is already out. */
  lemma {:induction false} FreshOnce(env: seq<string>, out: seq<string>)
    ensures Distinct(Fresh(env, out)) <==> RepeatsAreOut(env, out)
  {
    if env != [] {
      var rest := Fresh(env[1..], out);
      FreshOnce(env[1..], out);
      if env[0] in out {
        FrontRepeats(env, out);
        assert [] + rest == rest;
      } else if env[0] !in env[1..] {
        FrontRepeats(env, out);
        OnceTogether([env[0]], rest);
      } else {
        var j :| 1 <= j < |env| && env[j] == env[0];
        assert !RepeatsAreOut(env, out);
        RepeatedFront(env[0], rest);
      }
    }
  }

  lemma RepeatedFront(line: string, rest: seq<string>)
    requires line in rest
    ensures !Distinct([line] + rest)
  {
    var k :| 0 <= k < |rest| && rest[k] == line;
    assert ([line] + rest)[0] == ([line] + rest)[k + 1];
  }

  lemma FrontRepeats(env: seq<string>, out: seq<string>)
    requires env != [] && (env[0] in out || env[0] !in env[1..])
    ensures RepeatsAreOut(env, out) <==> RepeatsAreOut(env[1..], out)
  {
    forall j | 1 <= j < |env| ensures env[j] == env[1..][j - 1] && env[j] in env[1..] {
    }
    if RepeatsAreOut(env, out) {
      forall i, j | 0 <= i < j < |env| - 1 && env[1..][i] == env[1..][j] ensures env[1..][i] in out {
        assert env[i + 1] == env[j + 1];
      }
    }
  }

  /** Two lists with nothing in common repeat nothing together exactly when neither does. */
  lemma OnceTogether(a: seq<string>, b: seq<string>)
    requires forall l | l in b :: l !in a
    ensures Distinct(a + b) <==> Distinct(a) && Distinct(b)
  {
    forall i | 0 <= i < |a + b| ensures (a + b)[i] == if i < |a| then a[i] else b[i - |a|] {
    }
    if Distinct(a + b) {
      forall i, j | 0 <= i < j < |b| ensures b[i] != b[j] {
        assert (a + b)[|a| + i] != (a + b)[|a| + j];
      }
      forall i, j | 0 <= i < j < |a| ensures a[i] != a[j] {
        assert (a + b)[i] != (a + b)[j];
      }
    } else if Distinct(a) && Distinct(b) {
      forall i, j | 0 <= i < j < |a + b| ensures (a + b)[i] != (a + b)[j] {
        if i < |a| <= j {
          assert b[j - |a|] in b;
        }
      }
    }
  }

  /** A line before a source's first line of code. */
  ghost predicate BeforeCode(lines: seq<Line>, i: nat) {
    i < |lines| && forall j | 0 <= j <= i :: !lines[j].reading.Code?
  }

  /** The caller's lines, or those of a module in the order. */
  ghost predicate Inlined(source: seq<Line>, resolve: Resolver, order: seq<Name>, lines: seq<Line>)
    requires AllKnown(resolve, order)
  {
    lines == source || exists n :: n in order && lines == resolve[n].lines
  }

  lemma EnvironmentListed(lines: seq<Line>, i: nat) returns (text: string)
    requires BeforeCode(lines, i) && ImportsEnvironment(lines[i])
    ensures text in Split(lines).env && EnvironmentImport(text, lines[i].reading.words)
  {
    var k := FirstCode(lines);
    var at := SplitIs(lines, k);
    assert i < k && lines[..k][i] == lines[i];
    var j :| 0 <= j < |at| && at[j] == i;
    text := Split(lines).env[j];
  }

  /** Every environment import of the caller and of each module inlined is on a hoisted line, spelled
      word for word; and nothing else is hoisted. */
  lemma EnvironmentHoisted(source: seq<Line>, resolve: Resolver, order: seq<Name>, lines: seq<Line>, i: nat) returns (h: nat)
    requires AllKnown(resolve, order) && Inlined(source, resolve, order, lines)
    requires BeforeCode(lines, i) && ImportsEnvironment(lines[i])
    ensures h < |HoistedLines(source, resolve, order)| <= |Flat(source, resolve, order)|
    ensures EnvironmentImport(Flat(source, resolve, order)[h].text, lines[i].reading.words)
  {
    var text := EnvironmentListed(lines, i);
    var hoisted := Hoisted(Split(source).env, resolve, order);
    HoistedAll(Split(source).env, resolve, order, text);
    assert text in hoisted;
    h :| 0 <= h < |hoisted| && hoisted[h] == text;
  }

  lemma OnlyImportsHoisted(source: seq<Line>, resolve: Resolver, order: seq<Name>, h: nat) returns (lines: seq<Line>, i: nat)
    requires AllKnown(resolve, order) && h < |HoistedLines(source, resolve, order)|
    ensures h < |Flat(source, resolve, order)| && Inlined(source, resolve, order, lines)
    ensures BeforeCode(lines, i) && ImportsEnvironment(lines[i])
    ensures EnvironmentImport(Flat(source, resolve, order)[h].text, lines[i].reading.words)
  {
    var hoisted := Hoisted(Split(source).env, resolve, order);
    var text := hoisted[h];
    HoistedAll(Split(source).env, resolve, order, text);
    assert text in hoisted;
    lines := source;
    if text !in Split(source).env {
      var n :| n in order && text in Split(resolve[n].lines).env;
      lines := resolve[n].lines;
    }
    i := ListedEnvironment(lines, text);
  }

  lemma ListedEnvironment(lines: seq<Line>, text: string) returns (i: nat)
    requires text in Split(lines).env
    ensures BeforeCode(lines, i) && ImportsEnvironment(lines[i]) && EnvironmentImport(text, lines[i].reading.words)
  {
    var k := FirstCode(lines);
    var at := SplitIs(lines, k);
    var j :| 0 <= j < |Split(lines).env| && Split(lines).env[j] == text;
    i := at[j];
    assert lines[..k][i] == lines[i];
  }

  /** The caller, or one of the first `k` modules, imports the line. */
  ghost predicate ImportedBefore(env: seq<string>, resolve: Resolver, order: seq<Name>, k: nat, text: string)
    requires AllKnown(resolve, order) && k <= |order|
  {
    text in env || exists j | 0 <= j < k :: text in Split(resolve[order[j]].lines).env
  }

  /** Every line the k-th module repeats was imported by a source before it. */
  ghost predicate RepeatsHidden(env: seq<string>, resolve: Resolver, order: seq<Name>, k: nat)
    requires AllKnown(resolve, order) && k < |order|
  {
    var own := Split(resolve[order[k]].lines).env;
    forall i, j | 0 <= i < j < |own| && own[i] == own[j] :: ImportedBefore(env, resolve, order, k, own[i])
  }

  lemma HoistedBefore(env: seq<string>, resolve: Resolver, order: seq<Name>, k: nat, text: string)
    requires AllKnown(resolve, order) && k <= |order|
    ensures text in Hoisted(env, resolve, order[..k]) <==> ImportedBefore(env, resolve, order, k, text)
  {
    HoistedAll(env, resolve, order[..k], text);
    if n :| n in order[..k] && text in Split(resolve[n].lines).env {
      var j :| 0 <= j < k && order[..k][j] == n;
      assert order[j] == n;
    }
    forall j | 0 <= j < k ensures order[j] in order[..k] {
      assert order[..k][j] == order[j];
    }
  }

  /** What one more module repeats, and whether the lines stay distinct. */
  lemma OneMoreModule(env: seq<string>, resolve: Resolver, order: seq<Name>)
    requires AllKnown(resolve, order) && order != []
    ensures Distinct(Hoisted(env, resolve, order))
            <==> Distinct(Hoisted(env, resolve, order[..|order| - 1])) && RepeatsHidden(env, resolve, order, |order| - 1)
  {
    var k := |order| - 1;
    var before, own := Hoisted(env, resolve, order[..k]), Split(resolve[order[k]].lines).env;
    FreshOnce(own, before);
    OnceTogether(before, Fresh(own, before));
    forall text ensures text in before <==> ImportedBefore(env, resolve, order, k, text) {
      HoistedBefore(env, resolve, order, k, text);
    }
  }

  /** The lines hoisted are distinct exactly when the caller repeats none, and each module only
      repeats lines a source before it imports. */
  lemma {:induction false} HoistedOnce(env: seq<string>, resolve: Resolver, order: seq<Name>)
    requires AllKnown(resolve, order)
    ensures Distinct(Hoisted(env, resolve, order))
            <==> Distinct(env) && forall k | 0 <= k < |order| :: RepeatsHidden(env, resolve, order, k)
  {
    if order == [] {
      AllFresh(env);
    } else {
      var init := order[..|order| - 1];
      HoistedOnce(env, resolve, init);
      OneMoreModule(env, resolve, order);
      forall k | 0 <= k < |init| ensures RepeatsHidden(env, resolve, order, k) <==> RepeatsHidden(env, resolve, init, k) {
        SameBefore(env, resolve, order, k);
      }
    }
  }

  lemma SameBefore(env: seq<string>, resolve: Resolver, order: seq<Name>, k: nat)
    requires AllKnown(resolve, order) && k < |order| - 1
    ensures RepeatsHidden(env, resolve, order, k) <==> RepeatsHidden(env, resolve, order[..|order| - 1], k)
  {
    var init := order[..|order| - 1];
    forall j | 0 <= j <= k ensures order[j] == init[j] {
    }
  }

  /** The caller's own lines come first, as they stand. */
  lemma {:induction false} CallerRepeatsKept(env: seq<string>, resolve: Resolver, order: seq<Name>)
    requires AllKnown(resolve, order)
    ensures env <= Hoisted(env, resolve, order)
  {
    if order == [] {
      AllFresh(env);
    } else {
      CallerRepeatsKept(env, resolve, order[..|order| - 1]);
    }
  }

  /** How often a list holds a line. */
  function Times(lines: seq<string>, text: string): nat {
    multiset(lines)[text]
  }

  lemma {:induction false} FreshTimes(env: seq<string>, out: seq<string>, text: string)
    ensures Times(Fresh(env, out), text) == if text in out then 0 else Times(env, text)
  {
    if env != [] {
      assert env == [env[0]] + env[1..];
      FreshTimes(env[1..], out, text);
    }
  }

  /** How often the first source that imports the line, the caller before any module, does so. */
  function FirstTimes(env: seq<string>, resolve: Resolver, order: seq<Name>, text: string): nat
    requires AllKnown(resolve, order)
    decreases |order|
  {
    if text in env || order == [] then Times(env, text)
    else FirstTimes(Split(resolve[order[0]].lines).env, resolve, order[1..], text)
  }

  /** A line is hoisted as often as the first source that imports it repeats it. */
  lemma {:induction false} HoistedAsOften(env: seq<string>, resolve: Resolver, order: seq<Name>, text: string)
    requires AllKnown(resolve, order)
    ensures Times(Hoisted(env, resolve, order), text) == FirstTimes(env, resolve, order, text)
  {
    if order == [] {
      AllFresh(env);
    } else {
      var init, last := order[..|order| - 1], order[|order| - 1];
      var before := Hoisted(env, resolve, init);
      HoistedAsOften(env, resolve, init, text);
      FreshTimes(Split(resolve[last].lines).env, before, text);
      FirstTimesMore(env, resolve, order, text);
    }
  }

  lemma {:induction false} FirstTimesMore(env: seq<string>, resolve: Resolver, order: seq<Name>, text: string)
    requires AllKnown(resolve, order) && order != []
    ensures var init, last := order[..|order| - 1], order[|order| - 1];
            var first := FirstTimes(env, resolve, init, text);
            FirstTimes(env, resolve, order, text) == if first > 0 then first else Times(Split(resolve[last].lines).env, text)
    decreases |order|
  {
    if text !in env && |order| > 1 {
      assert order[1..][..|order| - 2] == order[..|order| - 1][1..];
      FirstTimesMore(Split(resolve[order[0]].lines).env, resolve, order[1..], text);
    }
  }

  lemma {:induction false} AllFresh(env: seq<string>)
    ensures Fresh(env, []) == env
  {
    if env != [] {
      AllFresh(env[1..]);
    }
  }
}
