/** The referee's objective: author data fenced and, when it is too long, clipped to a budget by
    field, always within the task bound. */
module Objective {
  import opened Basics
  import opened NodeData

  const MAX_OBJECTIVE := 20_000
  const TITLE_BUDGET := 400
  const STATEMENT_BUDGET := 9000
  const ASSUMPTIONS_BUDGET := 4000
  const INTERFACE_BUDGET := 4000

  // Input bounds of a node and of its interface, and the lengths of the platform's own text.
  const MAX_ASSUMPTIONS := 32
  const MAX_INTERFACE := 20
  const MAX_NODE_ID := 36
  const TEMPLATE_LENGTH := 783
  const NOTE_LENGTH := 150

  // ----- Widths of fenced text -----

  function Width(t: string): nat {
    |Fenced(t)|
  }

  predicate Angle(c: char) {
    c == '<' || c == '>'
  }

  /** No run of brackets can cross from one text into the other. */
  predicate Apart(a: string, b: string) {
    a == "" || b == "" || !Angle(a[|a| - 1]) || !Angle(b[0])
  }

  lemma {:induction false} WidthJoin(a: string, b: string)
    requires Apart(a, b)
    ensures Width(a + b) == Width(a) + Width(b)
  {
    if a == "" {
      assert a + b == b;
    } else if |a| >= 3 && (a[0] == a[1] == a[2] == '<' || a[0] == a[1] == a[2] == '>') {
      assert (a + b)[3..] == a[3..] + b;
      WidthJoin(a[3..], b);
    } else {
      assert (a + b)[1..] == a[1..] + b;
      WidthJoin(a[1..], b);
    }
  }

  lemma {:induction false} WidthPlain(t: string)
    requires Plain(t)
    ensures Width(t) == |t|
  {
    if |t| >= 3 {
      WidthPlain(t[1..]);
    }
  }

  /** A longer text is never narrower. */
  lemma {:induction false} WidthGrows(a: string, b: string)
    ensures Width(a) <= Width(a + b)
  {
    if |a| < 3 {
      AtLeastLength(a + b);
    } else if a[0] == a[1] == a[2] == '<' || a[0] == a[1] == a[2] == '>' {
      assert (a + b)[3..] == a[3..] + b;
      WidthGrows(a[3..], b);
    } else {
      assert (a + b)[1..] == a[1..] + b;
      WidthGrows(a[1..], b);
    }
  }

  lemma {:induction false} AtLeastLength(t: string)
    ensures Width(t) >= |t|
  {
    if |t| >= 3 {
      AtLeastLength(t[3..]);
      AtLeastLength(t[1..]);
    }
  }

  // ----- The longest prefix that fits -----

  function Encoded(text: string): nat {
    |Encode(Text(text))|
  }

  lemma EncodedWidth(text: string)
    ensures Encoded(text) == Width(Quoted(text)) == 2 + Width(NodeData.Escaped(text))
  {
    TwoPasses(Dump(Text(text), 0));
    WidthJoin("\"" + NodeData.Escaped(text), "\"");
    WidthJoin("\"", NodeData.Escaped(text));
  }

  /** A longer prefix never encodes shorter. */
  lemma EncodedGrows(text: string, i: nat, j: nat)
    requires i <= j <= |text|
    ensures Encoded(text[..i]) <= Encoded(text[..j])
  {
    assert text[..j] == text[..i] + text[i..j];
    EscapedJoin(text[..i], text[i..j]);
    WidthGrows(NodeData.Escaped(text[..i]), NodeData.Escaped(text[i..j]));
    EncodedWidth(text[..i]);
    EncodedWidth(text[..j]);
  }

  /** The longest prefix of the text whose encoding fits the budget; the empty one fits from two
      characters on. */
  method Fit(text: string, budget: int) returns (r: string)
    ensures r <= text
    ensures Encoded(text) <= budget ==> r == text
    ensures budget >= 2 ==> forall k | 0 <= k <= |text| :: Encoded(text[..k]) <= budget <==> k <= |r|
    ensures budget < 2 ==> r == ""
  {
    forall k | 0 <= k <= |text| ensures Encoded(text[..k]) >= 2 {
      EncodedWidth(text[..k]);
    }
    assert text[..|text|] == text && text[..0] == "";
    EncodedWidth("");
    if Encoded(text) <= budget {
      forall k | 0 <= k <= |text| ensures Encoded(text[..k]) <= budget {
        EncodedGrows(text, k, |text|);
      }
      return text;
    }
    var low, high := 0, |text|;
    while low < high
      invariant 0 <= low <= high <= |text|
      invariant low > 0 ==> Encoded(text[..low]) <= budget
      invariant high < |text| ==> Encoded(text[..high + 1]) > budget
    {
      var middle := (low + high + 1) / 2;
      if Encoded(text[..middle]) <= budget {
        low := middle;
      } else {
        high := middle - 1;
      }
    }
    r := text[..low];
    if budget >= 2 {
      forall k | 0 <= k <= |text| ensures Encoded(text[..k]) <= budget <==> k <= low {
        if k <= low {
          EncodedGrows(text, k, low);
        } else {
          EncodedGrows(text, low + 1, k);
        }
      }
    }
  }

  // ----- The data block -----

  /** Everything author-written that a referee is shown. */
  datatype Author = Author(title: string, statement: string, assumptions: seq<string>, plan: seq<string>)

  function Listed(texts: seq<string>): Items {
    if texts == [] then NoItems else Item(Text(texts[0]), Listed(texts[1..]))
  }

  function ListOf(texts: seq<string>): Json {
    Array(Listed(texts))
  }

  function FieldsOf(names: seq<string>, a: Author): Fields
    requires |names| == 4
  {
    Field(names[0], Text(a.title), Field(names[1], Text(a.statement), Field(names[2], ListOf(a.assumptions),
          if a.plan == [] then NoFields else Field(names[3], ListOf(a.plan), NoFields))))
  }

  function DataOf(a: Author): Json {
    Object(FieldsOf(["title", "statement", "assumptions", "interface"], a))
  }

  lemma {:induction false} SpacesLength(n: nat)
    ensures |Spaces(n)| == n
  {
    if n > 0 {
      SpacesLength(n - 1);
    }
  }

  lemma NewLineLength(depth: nat)
    ensures |NewLine(depth)| == 2 * depth + 1 && Width(NewLine(depth)) == 2 * depth + 1
  {
    SpacesLength(2 * depth);
    NewLinePlain(depth);
    WidthPlain(NewLine(depth));
  }

  /** A text whose ends no bracket run can cross. */
  predicate Walled(t: string) {
    t != "" && !Angle(t[0]) && !Angle(t[|t| - 1])
  }

  lemma ItemsWalled(texts: seq<string>, depth: nat)
    requires texts != []
    ensures Walled(DumpItems(Listed(texts), depth))
    decreases |texts|
  {
    if |texts| > 1 {
      assert Listed(texts).tail == Listed(texts[1..]) && Listed(texts[1..]).Item?;
      ItemsWalled(texts[1..], depth);
    } else {
      assert Listed(texts).tail == NoItems;
    }
  }

  ghost function Total(texts: seq<string>): nat {
    if texts == [] then 0 else Encoded(texts[0]) + Total(texts[1..])
  }

  lemma TextWidth(s: string, depth: nat)
    ensures Width(Dump(Text(s), depth)) == Encoded(s) && Walled(Dump(Text(s), depth))
  {
    EncodedWidth(s);
  }

  lemma ItemsStep(texts: seq<string>, depth: nat)
    requires texts != []
    ensures DumpItems(Listed(texts), depth)
            == if |texts| == 1 then Dump(Text(texts[0]), depth)
               else Dump(Text(texts[0]), depth) + "," + NewLine(depth) + DumpItems(Listed(texts[1..]), depth)
  {
    if |texts| > 1 {
      assert Listed(texts[1..]).Item?;
    } else {
      assert Listed(texts).tail == NoItems;
    }
  }

  /** The first item, a comma and a new line, and the rest. */
  lemma FirstItemWidth(texts: seq<string>, depth: nat)
    requires |texts| > 1
    ensures Width(DumpItems(Listed(texts), depth))
            == Encoded(texts[0]) + 2 * depth + 2 + Width(DumpItems(Listed(texts[1..]), depth))
  {
    TextWidth(texts[0], depth);
    ItemsStep(texts, depth);
    ItemsWalled(texts[1..], depth);
    CommaWidth(Dump(Text(texts[0]), depth), depth, DumpItems(Listed(texts[1..]), depth));
  }

  /** A list's items take their own widths and a comma and new line between. */
  lemma {:induction false} ItemsWidth(texts: seq<string>, depth: nat)
    requires texts != []
    ensures Width(DumpItems(Listed(texts), depth)) == Total(texts) + (|texts| - 1) * (2 * depth + 2)
    decreases |texts|
  {
    assert Total(texts) == Encoded(texts[0]) + Total(texts[1..]);
    if |texts| > 1 {
      FirstItemWidth(texts, depth);
      ItemsWidth(texts[1..], depth);
      OneMoreComma(|texts| - 1, 2 * depth + 2);
    } else {
      TextWidth(texts[0], depth);
      ItemsStep(texts, depth);
    }
  }

  lemma OneMoreComma(n: nat, w: nat)
    requires n > 0
    ensures n * w == (n - 1) * w + w
  {
  }

  lemma CommaWidth(head: string, depth: nat, more: string)
    requires Walled(head) && Walled(more)
    ensures Width(head + "," + NewLine(depth) + more) == Width(head) + 2 * depth + 2 + Width(more)
  {
    NewLineLength(depth);
    WidthJoin(head + "," + NewLine(depth), more);
    WidthJoin(head + ",", NewLine(depth));
    WidthJoin(head, ",");
  }

  /** Two brackets around a body on lines of its own. */
  lemma BracketWidth(open: string, body: string, close: string, depth: nat)
    requires Walled(body) && |open| == |close| == 1 && !Angle(open[0]) && !Angle(close[0])
    ensures Width(open + NewLine(depth + 1) + body + NewLine(depth) + close) == Width(body) + 4 * depth + 6
  {
    NewLineLength(depth);
    NewLineLength(depth + 1);
    WidthJoin(open + NewLine(depth + 1) + body + NewLine(depth), close);
    WidthJoin(open + NewLine(depth + 1) + body, NewLine(depth));
    WidthJoin(open + NewLine(depth + 1), body);
    WidthJoin(open, NewLine(depth + 1));
  }

  lemma ListWidth(texts: seq<string>, depth: nat)
    ensures Walled(Dump(ListOf(texts), depth))
    ensures Width(Dump(ListOf(texts), depth))
            == if texts == [] then 2 else Total(texts) + (|texts| - 1) * (2 * depth + 4) + 4 * depth + 6
  {
    if texts != [] {
      ItemsWidth(texts, depth + 1);
      ItemsWalled(texts, depth + 1);
      BracketWidth("[", DumpItems(Listed(texts), depth + 1), "]", depth);
    }
  }

  function EncodedList(texts: seq<string>): nat {
    |Encode(ListOf(texts))|
  }

  lemma EncodedListWidth(texts: seq<string>, depth: nat)
    requires depth == 0
    ensures EncodedList(texts) == Width(Dump(ListOf(texts), depth))
  {
    TwoPasses(Dump(ListOf(texts), depth));
  }

  lemma OneDeeper(texts: seq<string>, depth: nat, deeper: nat)
    requires deeper == depth + 1
    ensures Width(Dump(ListOf(texts), deeper)) <= Width(Dump(ListOf(texts), depth)) + 2 * |texts| + 2
  {
    ListWidth(texts, depth);
    ListWidth(texts, deeper);
    if texts != [] {
      LinesDeeper(|texts| - 1, 2 * depth + 4);
    }
  }

  lemma LinesDeeper(n: nat, w: nat)
    ensures n * (w + 2) == n * w + 2 * n
  {
  }

  /** In the data block a list is two spaces deeper on each of its lines. */
  lemma ListDeeper(texts: seq<string>, depth: nat)
    requires depth == 1
    ensures Width(Dump(ListOf(texts), depth)) <= EncodedList(texts) + 2 * |texts| + 2
  {
    EncodedListWidth(texts, depth - 1);
    OneDeeper(texts, depth - 1, depth);
  }

  lemma {:induction false} TotalShares(texts: seq<string>, share: nat)
    requires forall i | 0 <= i < |texts| :: Encoded(texts[i]) <= share
    ensures Total(texts) <= |texts| * share
  {
    if texts != [] {
      TotalShares(texts[1..], share);
      assert |texts| * share == (|texts| - 1) * share + share;
    }
  }

  lemma SharesFit(n: nat, budget: nat, share: int)
    requires n > 0 && share == budget / n - 8
    ensures n * share + 8 * n <= budget
  {
    assert n * (budget / n) <= budget;
  }

  lemma ShareAtLeast(n: nat, k: nat, budget: nat)
    requires n > 0 && n * k <= budget
    ensures budget / n >= k
  {
    var q := budget / n;
    assert n * (q + 1) == n * q + n && budget < n * q + n;
    if q < k {
      ProductGrows(n, q + 1, k);
    }
  }

  lemma ProductGrows(n: nat, a: nat, b: nat)
    requires a <= b
    ensures n * a <= n * b
  {
  }

  /** A list clipped to even shares takes no more than its budget and a little. */
  lemma ClippedWidth(texts: seq<string>, budget: nat, share: int)
    requires texts != [] && share == budget / |texts| - 8 && share >= 2
    requires forall i | 0 <= i < |texts| :: Encoded(texts[i]) <= share
    ensures Width(Dump(ListOf(texts), 1)) <= budget + 4
  {
    ListWidth(texts, 1);
    TotalShares(texts, share);
    SharesFit(|texts|, budget, share);
  }

  predicate Lowercase(name: string) {
    forall i | 0 <= i < |name| :: 'a' <= name[i] <= 'z'
  }

  lemma {:induction false} NameAsIs(name: string)
    requires Lowercase(name)
    ensures NodeData.Escaped(name) == name
  {
    if name != "" {
      NameAsIs(name[1..]);
      assert name == [name[0]] + name[1..];
    }
  }

  lemma FieldWidth(name: string, value: Json, depth: nat)
    requires Lowercase(name) && Walled(Dump(value, depth))
    ensures Width(DumpField(name, value, depth)) == |name| + 4 + Width(Dump(value, depth))
    ensures Walled(DumpField(name, value, depth))
  {
    NameWidth(name);
    WidthJoin(Quoted(name) + ": ", Dump(value, depth));
  }

  lemma NameWidth(name: string)
    requires Lowercase(name)
    ensures Width(Quoted(name) + ": ") == |name| + 4
  {
    NameAsIs(name);
    WidthPlain(Quoted(name) + ": ");
  }

  lemma PartsWidth(title: string, statement: string, assumptions: string, plan: string, whole: bool)
    requires Walled(title) && Walled(statement) && Walled(assumptions) && Walled(plan)
    ensures var last := if whole then assumptions + "," + NewLine(1) + plan else assumptions;
            Width("{" + NewLine(1) + (title + "," + NewLine(1) + (statement + "," + NewLine(1) + last)) + NewLine(0) + "}")
            == 14 + Width(title) + Width(statement) + Width(assumptions) + if whole then 4 + Width(plan) else 0
  {
    var last := if whole then assumptions + "," + NewLine(1) + plan else assumptions;
    if whole {
      OneMorePart(assumptions, plan, last);
    }
    var more := statement + "," + NewLine(1) + last;
    OneMorePart(statement, last, more);
    var body := title + "," + NewLine(1) + more;
    OneMorePart(title, more, body);
    BracketWidth("{", body, "}", 0);
  }

  lemma OneMorePart(head: string, more: string, joined: string)
    requires Walled(head) && Walled(more) && joined == head + "," + NewLine(1) + more
    ensures Walled(joined) && Width(joined) == Width(head) + 4 + Width(more)
  {
    CommaWidth(head, 1, more);
    assert joined[0] == head[0] && joined[|joined| - 1] == more[|more| - 1];
  }

  lemma TextFieldWidth(name: string, s: string)
    requires Lowercase(name)
    ensures Width(DumpField(name, Text(s), 1)) == |name| + 4 + Encoded(s) && Walled(DumpField(name, Text(s), 1))
  {
    TextWidth(s, 1);
    FieldWidth(name, Text(s), 1);
  }

  lemma ListFieldWidth(name: string, texts: seq<string>)
    requires Lowercase(name)
    ensures Width(DumpField(name, ListOf(texts), 1)) == |name| + 4 + Width(Dump(ListOf(texts), 1))
    ensures Walled(DumpField(name, ListOf(texts), 1))
  {
    ListWidth(texts, 1);
    FieldWidth(name, ListOf(texts), 1);
  }

  lemma FieldsText(names: seq<string>, a: Author)
    requires |names| == 4
    ensures var title, statement := DumpField(names[0], Text(a.title), 1), DumpField(names[1], Text(a.statement), 1);
            var assumptions, plan := DumpField(names[2], ListOf(a.assumptions), 1), DumpField(names[3], ListOf(a.plan), 1);
            var last := if a.plan != [] then assumptions + "," + NewLine(1) + plan else assumptions;
            Dump(Object(FieldsOf(names, a)), 0)
            == "{" + NewLine(1) + (title + "," + NewLine(1) + (statement + "," + NewLine(1) + last)) + NewLine(0) + "}"
  {
    var fields := FieldsOf(names, a);
    var last := DumpFields(fields.rest.rest, 1);
    if a.plan != [] {
      assert DumpFields(fields.rest.rest.rest, 1) == DumpField(names[3], ListOf(a.plan), 1);
      assert last == DumpField(names[2], ListOf(a.assumptions), 1) + "," + NewLine(1) + DumpField(names[3], ListOf(a.plan), 1);
    } else {
      assert last == DumpField(names[2], ListOf(a.assumptions), 1);
    }
    assert DumpFields(fields.rest, 1) == DumpField(names[1], Text(a.statement), 1) + "," + NewLine(1) + last;
    assert DumpFields(fields, 1) == DumpField(names[0], Text(a.title), 1) + "," + NewLine(1) + DumpFields(fields.rest, 1);
  }

  lemma FieldsWidth(names: seq<string>, a: Author)
    requires |names| == 4 && forall i | 0 <= i < 4 :: Lowercase(names[i])
    ensures Width(Dump(Object(FieldsOf(names, a)), 0))
            == 26 + |names[0]| + |names[1]| + |names[2]| + Encoded(a.title) + Encoded(a.statement)
               + Width(Dump(ListOf(a.assumptions), 1)) + if a.plan == [] then 0 else 8 + |names[3]| + Width(Dump(ListOf(a.plan), 1))
  {
    FieldsText(names, a);
    TextFieldWidth(names[0], a.title);
    TextFieldWidth(names[1], a.statement);
    ListFieldWidth(names[2], a.assumptions);
    ListFieldWidth(names[3], a.plan);
    PartsWidth(DumpField(names[0], Text(a.title), 1), DumpField(names[1], Text(a.statement), 1),
               DumpField(names[2], ListOf(a.assumptions), 1), DumpField(names[3], ListOf(a.plan), 1), a.plan != []);
  }

  lemma DataWidth(a: Author)
    ensures Width(Dump(DataOf(a), 0))
            == 51 + Encoded(a.title) + Encoded(a.statement) + Width(Dump(ListOf(a.assumptions), 1))
               + if a.plan == [] then 0 else 17 + Width(Dump(ListOf(a.plan), 1))
  {
    FieldsWidth(["title", "statement", "assumptions", "interface"], a);
  }

  // ----- Clipping -----

  /** The longest prefix that fits, as `Fit` finds it. */
  ghost predicate IsLongest(text: string, r: string, budget: int) {
    && r <= text
    && (Encoded(text) <= budget ==> r == text)
    && (budget >= 2 ==> forall k | 0 <= k <= |text| :: Encoded(text[..k]) <= budget <==> k <= |r|)
    && (budget < 2 ==> r == "")
  }

  /** Each item is clipped to an even share, less the list's own marks. */
  ghost predicate IsClippedList(texts: seq<string>, r: seq<string>, budget: nat) {
    if EncodedList(texts) <= budget || texts == [] then r == texts
    else |r| == |texts| && forall i | 0 <= i < |texts| :: IsLongest(texts[i], r[i], budget / |texts| - 8)
  }

  /** What a referee is shown of what an author wrote. */
  ghost predicate IsClipped(a: Author, b: Author) {
    && IsLongest(a.title, b.title, TITLE_BUDGET) && IsLongest(a.statement, b.statement, STATEMENT_BUDGET)
    && IsClippedList(a.assumptions, b.assumptions, ASSUMPTIONS_BUDGET) && IsClippedList(a.plan, b.plan, INTERFACE_BUDGET)
  }

  lemma LongestFits(text: string, r: string, budget: nat)
    requires IsLongest(text, r, budget) && budget >= 2
    ensures Encoded(r) <= budget
  {
    assert text[..|r|] == r;
  }

  lemma ClippedListFits(texts: seq<string>, r: seq<string>, budget: nat, most: nat)
    requires IsClippedList(texts, r, budget) && |texts| <= most && most > 0 && most * 10 <= budget
    ensures Width(Dump(ListOf(r), 1)) <= budget + 2 * most + 2
  {
    if EncodedList(texts) <= budget || texts == [] {
      ListDeeper(r, 1);
      ListWidth([], 1);
    } else {
      var share := budget / |texts| - 8;
      ProductGrows(10, |texts|, most);
      ShareAtLeast(|texts|, 10, budget);
      forall i | 0 <= i < |r| ensures Encoded(r[i]) <= share {
        LongestFits(texts[i], r[i], share);
      }
      ClippedWidth(r, budget, share);
    }
  }

  /** The clipped data block is within what the task bound leaves it. */
  lemma ClippedDataFits(a: Author, b: Author)
    requires IsClipped(a, b) && |a.assumptions| <= MAX_ASSUMPTIONS && |a.plan| <= MAX_INTERFACE
    ensures |Encode(DataOf(b))| <= 17_576
  {
    TwoPasses(Dump(DataOf(b), 0));
    DataWidth(b);
    LongestFits(a.title, b.title, TITLE_BUDGET);
    LongestFits(a.statement, b.statement, STATEMENT_BUDGET);
    ClippedListFits(a.assumptions, b.assumptions, ASSUMPTIONS_BUDGET, MAX_ASSUMPTIONS);
    ClippedListFits(a.plan, b.plan, INTERFACE_BUDGET, MAX_INTERFACE);
  }

  // ----- The objective -----

  /** The platform's own text around the node's id, the data block and the note. */
  datatype Template = Template(head: string, middle: string, gap: string, tail: string)

  datatype NoteText = NoteText(head: string, middle: string, tail: string)

  predicate PlatformText(t: Template, n: NoteText) {
    |t.head| + |t.middle| + |t.gap| + |t.tail| == TEMPLATE_LENGTH && |n.head| + |n.middle| + |n.tail| == NOTE_LENGTH
  }

  function Fill(t: Template, id: string, data: string, note: string): string {
    t.head + id + t.middle + data + t.gap + note + t.tail
  }

  /** The author-written parts of the data, in its order. */
  datatype Part = Title | Statement | Assumptions | Interface

  function NameOf(part: Part): string {
    match part case Title => "title" case Statement => "statement" case Assumptions => "assumptions" case Interface => "interface"
  }

  function Listing(parts: seq<Part>): string {
    if parts == [] then "" else if |parts| == 1 then NameOf(parts[0])
    else Listing(parts[..|parts| - 1]) + ", " + NameOf(parts[|parts| - 1])
  }

  function Note(n: NoteText, parts: seq<Part>, id: string): string {
    n.head + Listing(parts) + n.middle + id + n.tail
  }

  function Added(parts: seq<Part>, more: bool, part: Part): seq<Part> {
    parts + if more then [part] else []
  }

  function Picked(title: bool, statement: bool, assumptions: bool, plan: bool): seq<Part> {
    Added(Added(Added(Added([], title, Title), statement, Statement), assumptions, Assumptions), plan, Interface)
  }

  /** The parts that were over their budgets. */
  function ClippedParts(a: Author): seq<Part> {
    Picked(Encoded(a.title) > TITLE_BUDGET, Encoded(a.statement) > STATEMENT_BUDGET,
           EncodedList(a.assumptions) > ASSUMPTIONS_BUDGET, a.plan != [] && EncodedList(a.plan) > INTERFACE_BUDGET)
  }

  lemma ListingMore(parts: seq<Part>, more: bool, part: Part, length: nat)
    requires |Listing(parts)| <= length
    ensures |Listing(Added(parts, more, part))| <= length + |NameOf(part)| + if parts == [] then 0 else 2
  {
    var all := Added(parts, more, part);
    assert if more then all[..|all| - 1] == parts else all == parts;
  }

  lemma PickedLength(title: bool, statement: bool, assumptions: bool, plan: bool)
    ensures |Listing(Picked(title, statement, assumptions, plan))| <= 40
  {
    var one := Added([], title, Title);
    var two := Added(one, statement, Statement);
    var three := Added(two, assumptions, Assumptions);
    ListingMore([], title, Title, 0);
    ListingMore(one, statement, Statement, 5);
    ListingMore(two, assumptions, Assumptions, 16);
    ListingMore(three, plan, Interface, 29);
  }

  method FitEach(texts: seq<string>, share: int) returns (r: seq<string>)
    ensures |r| == |texts| && forall i | 0 <= i < |texts| :: IsLongest(texts[i], r[i], share)
  {
    r := [];
    for i := 0 to |texts|
      invariant |r| == i && forall j | 0 <= j < i :: IsLongest(texts[j], r[j], share)
    {
      var item := Fit(texts[i], share);
      r := r + [item];
    }
  }

  method ClipText(text: string, budget: nat) returns (r: string)
    requires budget >= 2
    ensures IsLongest(text, r, budget)
  {
    r := Fit(text, budget);
  }

  method ClipList(texts: seq<string>, budget: nat) returns (r: seq<string>)
    requires budget >= 2
    ensures IsClippedList(texts, r, budget)
  {
    if EncodedList(texts) <= budget || texts == [] {
      return texts;
    }
    r := FitEach(texts, budget / |texts| - 8);
  }

  // ----- What an objective says -----

  /** The parts' names with a comma and a space between. */
  ghost function Separated(parts: seq<Part>): string {
    if parts == [] then ""
    else
      (match parts[0] case Title => "title" case Statement => "statement" case Assumptions => "assumptions" case Interface => "interface")
        + if |parts| == 1 then "" else ", " + Separated(parts[1..])
  }

  lemma {:induction false} SeparatedMore(parts: seq<Part>, part: Part)
    requires parts != []
    ensures Separated(parts + [part]) == Separated(parts) + ", " + NameOf(part)
  {
    var all := parts + [part];
    assert all[1..] == parts[1..] + [part];
    if |parts| > 1 {
      SeparatedMore(parts[1..], part);
    } else {
      assert all[1..] == [part] && Separated([part]) == NameOf(part);
    }
  }

  lemma {:induction false} ListingSeparates(parts: seq<Part>)
    ensures Listing(parts) == Separated(parts)
  {
    if |parts| > 1 {
      var init, last := parts[..|parts| - 1], parts[|parts| - 1];
      ListingSeparates(init);
      SeparatedMore(init, last);
      assert parts == init + [last];
    } else if |parts| == 1 {
      OneName(parts[0]);
      assert parts == [parts[0]];
    }
  }

  lemma OneName(part: Part)
    ensures Listing([part]) == NameOf(part) == Separated([part])
  {
  }

  /** The parts over their budgets, each once, in the order of the data. */
  ghost predicate OverBudget(a: Author, parts: seq<Part>) {
    PickedAre(parts, Encoded(a.title) > 400, Encoded(a.statement) > 9000,
              EncodedList(a.assumptions) > 4000, a.plan != [] && EncodedList(a.plan) > 4000)
  }

  ghost predicate PickedAre(parts: seq<Part>, title: bool, statement: bool, assumptions: bool, plan: bool) {
    && (forall i, j | 0 <= i < j < |parts| :: Place(parts[i]) < Place(parts[j]))
    && (Title in parts <==> title) && (Statement in parts <==> statement)
    && (Assumptions in parts <==> assumptions) && (Interface in parts <==> plan)
  }

  function Place(part: Part): nat {
    match part case Title => 0 case Statement => 1 case Assumptions => 2 case Interface => 3
  }

  lemma PickedInOrder(title: bool, statement: bool, assumptions: bool, plan: bool)
    ensures PickedAre(Picked(title, statement, assumptions, plan), title, statement, assumptions, plan)
  {
  }

  lemma ClippedPartsAreOver(a: Author)
    ensures OverBudget(a, ClippedParts(a))
  {
    PickedInOrder(Encoded(a.title) > 400, Encoded(a.statement) > 9000,
                  EncodedList(a.assumptions) > 4000, a.plan != [] && EncodedList(a.plan) > 4000);
  }

  function FieldOf(fields: Fields, name: string): Option<Json> {
    match fields
    case NoFields => None
    case Field(first, value, rest) => if first == name then Some(value) else FieldOf(rest, name)
  }

  /** The texts of a list, if it is one of texts. */
  function TextsOf(items: Items): Option<seq<string>> {
    match items
    case NoItems => Some([])
    case Item(Text(s), tail) => if TextsOf(tail).None? then None else Some([s] + TextsOf(tail).value)
    case _ => None
  }

  lemma {:induction false} ListedTexts(texts: seq<string>)
    ensures TextsOf(Listed(texts)) == Some(texts)
  {
    if texts != [] {
      ListedTexts(texts[1..]);
      assert texts == [texts[0]] + texts[1..];
    }
  }

  /** Read as JSON, the data are exactly what the author wrote; the interface is there only when it lists
      something. */
  lemma DataReadsBack(a: Author)
    ensures var data := Decode(Encode(DataOf(a)));
            && data.Some? && data.value.Object?
            && var fields := data.value.fields;
               && FieldOf(fields, "title") == Some(Text(a.title)) && FieldOf(fields, "statement") == Some(Text(a.statement))
               && (exists items :: FieldOf(fields, "assumptions") == Some(Array(items)) && TextsOf(items) == Some(a.assumptions))
               && if a.plan == [] then FieldOf(fields, "interface") == None
                  else exists items :: FieldOf(fields, "interface") == Some(Array(items)) && TextsOf(items) == Some(a.plan)
  {
    EncodingIsLossless(DataOf(a));
    ListedTexts(a.assumptions);
    ListedTexts(a.plan);
    var fields := FieldsOf(["title", "statement", "assumptions", "interface"], a);
    assert fields.name == "title" && fields.rest.name == "statement" && fields.rest.rest.name == "assumptions";
    assert FieldOf(fields, "statement") == FieldOf(fields.rest, "statement");
    assert FieldOf(fields, "assumptions") == FieldOf(fields.rest, "assumptions") == FieldOf(fields.rest.rest, "assumptions");
    assert FieldOf(fields, "interface") == FieldOf(fields.rest, "interface") == FieldOf(fields.rest.rest, "interface")
        == FieldOf(fields.rest.rest.rest, "interface");
  }

  /** A note that lists the fields over their budgets. */
  ghost predicate NotesClipped(n: NoteText, id: string, a: Author, note: string) {
    exists parts :: OverBudget(a, parts) && note == n.head + Separated(parts) + n.middle + id + n.tail
  }

  lemma NoteSays(n: NoteText, id: string, a: Author)
    ensures NotesClipped(n, id, a, Note(n, ClippedParts(a), id))
  {
    ClippedPartsAreOver(a);
    ListingSeparates(ClippedParts(a));
  }

  /** The objective of a node's referee. Within the input bounds it is always within the task bound,
      so the last guard never fires. */
  method RefereeObjective(t: Template, n: NoteText, id: string, a: Author) returns (r: Option<string>)
    requires PlatformText(t, n)
    ensures r.Some? ==> |r.value| <= MAX_OBJECTIVE
    ensures |id| <= MAX_NODE_ID && |a.assumptions| <= MAX_ASSUMPTIONS && |a.plan| <= MAX_INTERFACE ==> r.Some?
    ensures var plain := t.head + id + t.middle + Encode(DataOf(a)) + t.gap + t.tail;
            if |plain| <= 20_000 then r == Some(plain)
            else
              r.Some? ==> exists b, note ::
                && IsClipped(a, b) && NotesClipped(n, id, a, note)
                && r.value == t.head + id + t.middle + Encode(DataOf(b)) + t.gap + note + t.tail
  {
    NoteSays(n, id, a);
    assert t.head + id + t.middle + Encode(DataOf(a)) + t.gap + "" == t.head + id + t.middle + Encode(DataOf(a)) + t.gap;
    var objective := Fill(t, id, Encode(DataOf(a)), "");
    if |objective| <= MAX_OBJECTIVE {
      return Some(objective);
    }
    var title := ClipText(a.title, TITLE_BUDGET);
    var statement := ClipText(a.statement, STATEMENT_BUDGET);
    var assumptions := ClipList(a.assumptions, ASSUMPTIONS_BUDGET);
    var plan := ClipList(a.plan, INTERFACE_BUDGET);
    var b := Author(title, statement, assumptions, plan);
    assert IsClipped(a, b);
    objective := Fill(t, id, Encode(DataOf(b)), Note(n, ClippedParts(a), id));
    PickedLength(Encoded(a.title) > TITLE_BUDGET, Encoded(a.statement) > STATEMENT_BUDGET,
                 EncodedList(a.assumptions) > ASSUMPTIONS_BUDGET, a.plan != [] && EncodedList(a.plan) > INTERFACE_BUDGET);
    if |a.assumptions| <= MAX_ASSUMPTIONS && |a.plan| <= MAX_INTERFACE {
      ClippedDataFits(a, b);
    }
    if |objective| > MAX_OBJECTIVE {
      return None;
    }
    return Some(objective);
  }
}
