/** The fenced block of author data in a referee's objective: JSON whose text cannot reproduce the
    markers around it, and from which the author's values are read back unchanged. */
module NodeData {
  import opened Basics

  datatype Json = Null | Flag(on: bool) | Number(digits: NumberText) | Text(text: string)
                | Array(items: Items) | Object(fields: Fields)
  datatype Items = NoItems | Item(head: Json, tail: Items)
  datatype Fields = NoFields | Field(name: string, value: Json, rest: Fields)

  // ----- Numbers (RFC 8259, section 6) -----

  predicate Digit(c: char) {
    '0' <= c <= '9'
  }

  /** A character that can be part of a number. */
  predicate NumberChar(c: char) {
    Digit(c) || c in {'-', '+', '.', 'e', 'E'}
  }

  /** How many digits the text begins with. */
  function Digits(s: string): (n: nat)
    ensures n <= |s| && forall i | 0 <= i < n :: Digit(s[i])
  {
    if s != "" && Digit(s[0]) then 1 + Digits(s[1..]) else 0
  }

  /** How many of its first characters can be part of a number. */
  function NumberLength(s: string): (n: nat)
    ensures n <= |s|
  {
    if s != "" && NumberChar(s[0]) then 1 + NumberLength(s[1..]) else 0
  }

  predicate IsExponent(s: string) {
    s == ""
    || (s[0] in {'e', 'E'} &&
        var n := if |s| > 1 && s[1] in {'+', '-'} then s[2..] else s[1..];
        n != "" && Digits(n) == |n|)
  }

  predicate IsFraction(s: string) {
    if s != "" && s[0] == '.' then Digits(s[1..]) > 0 && IsExponent(s[1..][Digits(s[1..])..]) else IsExponent(s)
  }

  /** A sign, digits without a leading zero, a fraction and an exponent. */
  predicate IsNumber(t: string) {
    var whole := if t != "" && t[0] == '-' then t[1..] else t;
    var n := Digits(whole);
    n > 0 && (whole[0] == '0' ==> n == 1) && IsFraction(whole[n..])
  }

  /** Numbers are carried by the text their writer gives them. */
  type NumberText = t: string | IsNumber(t) witness "0"

  predicate AllNumber(s: string) {
    forall i | 0 <= i < |s| :: NumberChar(s[i])
  }

  lemma ExponentChars(s: string)
    requires IsExponent(s)
    ensures AllNumber(s)
  {
    if s != "" {
      var k := if |s| > 1 && s[1] in {'+', '-'} then 2 else 1;
      forall i | 0 <= i < |s| ensures NumberChar(s[i]) {
        assert i >= k ==> s[i] == s[k..][i - k];
      }
    }
  }

  lemma AfterDigits(s: string, n: nat)
    requires n == Digits(s) && AllNumber(s[n..])
    ensures AllNumber(s)
  {
    forall i | n <= i < |s| ensures NumberChar(s[i]) {
      assert s[i] == s[n..][i - n];
    }
  }

  lemma FractionChars(s: string)
    requires IsFraction(s)
    ensures AllNumber(s)
  {
    if s != "" && s[0] == '.' {
      var more := s[1..];
      ExponentChars(more[Digits(more)..]);
      AfterDigits(more, Digits(more));
      AfterFirst(s);
    } else {
      ExponentChars(s);
    }
  }

  lemma AfterFirst(s: string)
    requires s != "" && NumberChar(s[0]) && AllNumber(s[1..])
    ensures AllNumber(s)
  {
    forall i | 0 < i < |s| ensures NumberChar(s[i]) {
      assert s[i] == s[1..][i - 1];
    }
  }

  lemma NumberChars(t: string)
    requires IsNumber(t)
    ensures AllNumber(t) && t != "" && (t[0] == '-' || Digit(t[0]))
  {
    var whole := if t[0] == '-' then t[1..] else t;
    FractionChars(whole[Digits(whole)..]);
    AfterDigits(whole, Digits(whole));
    if t[0] == '-' {
      AfterFirst(t);
    }
  }

  /** A text that cannot continue a number. */
  predicate EndsNumber(rest: string) {
    rest == "" || !NumberChar(rest[0])
  }

  lemma {:induction false} NumberTaken(t: string, rest: string)
    requires AllNumber(t) && EndsNumber(rest)
    ensures NumberLength(t + rest) == |t|
  {
    if t == "" {
      assert t + rest == rest;
    } else {
      assert (t + rest)[1..] == t[1..] + rest;
      NumberTaken(t[1..], rest);
    }
  }

  // ----- Whole numbers in decimal -----

  function Decimal(n: int): string {
    if n < 0 then "-" + Natural(-n) else Natural(n)
  }

  function Natural(n: nat): string {
    if n < 10 then [DigitOf(n)] else Natural(n / 10) + [DigitOf(n % 10)]
  }

  function DigitOf(n: nat): char
    requires n < 10
  {
    '0' + n as char
  }

  function WholeOf(t: string): int {
    if t != "" && t[0] == '-' then -NaturalOf(t[1..]) else NaturalOf(t)
  }

  function NaturalOf(t: string): int {
    if t == "" then 0 else 10 * NaturalOf(t[..|t| - 1]) + (t[|t| - 1] as int - '0' as int)
  }

  lemma {:induction false} AllDigits(t: string)
    requires forall i | 0 <= i < |t| :: Digit(t[i])
    ensures Digits(t) == |t|
  {
    if t != "" {
      AllDigits(t[1..]);
    }
  }

  lemma {:induction false} NaturalIsNumber(n: nat)
    ensures var t := Natural(n); t != "" && (forall i | 0 <= i < |t| :: Digit(t[i])) && (t[0] == '0' ==> n == 0) && NaturalOf(t) == n
  {
    if n >= 10 {
      NaturalIsNumber(n / 10);
      assert Natural(n)[..|Natural(n)| - 1] == Natural(n / 10);
    }
  }

  /** Every whole number's decimal text is a number, and reads back as it. */
  lemma WholeNumbersKept(n: int)
    ensures IsNumber(Decimal(n)) && WholeOf(Decimal(n)) == n
  {
    var size: nat := if n < 0 then -n else n;
    var t := Natural(size);
    NaturalIsNumber(size);
    AllDigits(t);
    assert t[0] == '0' ==> t == "0";
    assert t[|t|..] == "" && ("-" + t)[1..] == t;
  }

  // ----- Writing JSON -----

  function HexDigit(n: nat): char
    requires n < 16
  {
    if n < 10 then '0' + n as char else 'a' + (n - 10) as char
  }

  /** A character as JSON text writes it: quotes, backslashes and control characters escaped. */
  function EscapeOf(c: char): string {
    if c == '"' then "\\\""
    else if c == '\\' then "\\\\"
    else if c == '\n' then "\\n"
    else if c == '\r' then "\\r"
    else if c == '\t' then "\\t"
    else if c == '\U{8}' then "\\b"
    else if c == '\U{c}' then "\\f"
    else if c < ' ' then "\\u00" + [HexDigit(c as int / 16), HexDigit(c as int % 16)]
    else [c]
  }

  /** As short as JSON allows: two characters for those with an escape of their own, six for the other
      control characters, and the character itself for any other. */
  lemma EscapesAreShort(c: char)
    ensures |EscapeOf(c)| == if c in {'"', '\\', '\n', '\r', '\t', '\U{8}', '\U{c}'} then 2 else if c < '\U{20}' then 6 else 1
  {
  }

  function Escaped(s: string): string {
    if s == "" then "" else EscapeOf(s[0]) + Escaped(s[1..])
  }

  lemma {:induction false} EscapedJoin(a: string, b: string)
    ensures Escaped(a + b) == Escaped(a) + Escaped(b)
  {
    if a == "" {
      assert a + b == b;
    } else {
      assert (a + b)[1..] == a[1..] + b;
      EscapedJoin(a[1..], b);
    }
  }

  function Quoted(s: string): string {
    "\"" + Escaped(s) + "\""
  }

  function Spaces(n: nat): string {
    if n == 0 then "" else " " + Spaces(n - 1)
  }

  /** A new line at a depth of nesting, two spaces a level. */
  function NewLine(depth: nat): string {
    "\n" + Spaces(2 * depth)
  }

  function Dump(v: Json, depth: nat): string
    decreases v, 0
  {
    match v
    case Null => "null"
    case Flag(on) => if on then "true" else "false"
    case Number(digits) => digits
    case Text(s) => Quoted(s)
    case Array(NoItems) => "[]"
    case Array(items) => "[" + NewLine(depth + 1) + DumpItems(items, depth + 1) + NewLine(depth) + "]"
    case Object(NoFields) => "{}"
    case Object(fields) => "{" + NewLine(depth + 1) + DumpFields(fields, depth + 1) + NewLine(depth) + "}"
  }

  function DumpItems(items: Items, depth: nat): string
    decreases items, 0
  {
    match items
    case NoItems => ""
    case Item(head, NoItems) => Dump(head, depth)
    case Item(head, tail) => Dump(head, depth) + "," + NewLine(depth) + DumpItems(tail, depth)
  }

  function DumpField(name: string, value: Json, depth: nat): string
    decreases value, 1
  {
    Quoted(name) + ": " + Dump(value, depth)
  }

  function DumpFields(fields: Fields, depth: nat): string
    decreases fields, 0
  {
    match fields
    case NoFields => ""
    case Field(name, value, NoFields) => DumpField(name, value, depth)
    case Field(name, value, rest) => DumpField(name, value, depth) + "," + NewLine(depth) + DumpFields(rest, depth)
  }

  // ----- Replacing bracket runs -----

  function Thrice(t: string): string {
    t + t + t
  }

  const OPEN_ESCAPE := "\\u003c"
  const CLOSE_ESCAPE := "\\u003e"

  /** Every run of three `c` replaced by three of its escape, from the left. */
  function Replaced(t: string, c: char, escape: string): string {
    if |t| < 3 then t
    else if t[0] == t[1] == t[2] == c then Thrice(escape) + Replaced(t[3..], c, escape)
    else [t[0]] + Replaced(t[1..], c, escape)
  }

  function Encode(v: Json): string {
    Replaced(Replaced(Dump(v, 0), '<', OPEN_ESCAPE), '>', CLOSE_ESCAPE)
  }

  // ----- Reading JSON (RFC 8259) -----

  function HexValue(c: char): Option<nat> {
    if '0' <= c <= '9' then Some((c - '0') as int)
    else if 'a' <= c <= 'f' then Some((c - 'a') as int + 10)
    else if 'A' <= c <= 'F' then Some((c - 'A') as int + 10)
    else None
  }

  /** The character of four hex digits; a lone half of a surrogate pair is none. */
  function CodeOf(a: char, b: char, c: char, d: char): Option<char> {
    var h := (HexValue(a), HexValue(b), HexValue(c), HexValue(d));
    if h.0.None? || h.1.None? || h.2.None? || h.3.None? then None
    else
      var code := 4096 * h.0.value + 256 * h.1.value + 16 * h.2.value + h.3.value;
      if code < 0xD800 || 0xE000 <= code < 0x10000 then Some(code as char) else None
  }

  function Short(c: char): Option<char> {
    if c == '"' || c == '\\' || c == '/' then Some(c)
    else if c == 'b' then Some('\U{8}')
    else if c == 'f' then Some('\U{c}')
    else if c == 'n' then Some('\n')
    else if c == 'r' then Some('\r')
    else if c == 't' then Some('\t')
    else None
  }

  /** One character of a string and what follows it. */
  function ReadChar(s: string): (r: Option<(char, string)>)
    ensures r.Some? ==> |r.value.1| < |s|
  {
    if s == "" || s[0] < ' ' || s[0] == '"' then None
    else if s[0] != '\\' then Some((s[0], s[1..]))
    else if |s| >= 6 && s[1] == 'u' then
      var c := CodeOf(s[2], s[3], s[4], s[5]);
      if c.None? then None else Some((c.value, s[6..]))
    else if |s| >= 2 && Short(s[1]).Some? then Some((Short(s[1]).value, s[2..]))
    else None
  }

  /** The rest of a string, up to its closing quote, and what follows it. */
  function ReadString(s: string): (r: Option<(string, string)>)
    ensures r.Some? ==> |r.value.1| < |s|
    decreases |s|
  {
    if s != "" && s[0] == '"' then Some(("", s[1..]))
    else
      var c := ReadChar(s);
      if c.None? then None
      else
        var more := ReadString(c.value.1);
        if more.None? then None else Some(([c.value.0] + more.value.0, more.value.1))
  }

  function Skip(s: string): (r: string)
    ensures |r| <= |s|
  {
    if s != "" && s[0] in {' ', '\n', '\r', '\t'} then Skip(s[1..]) else s
  }

  function ReadValue(s: string): (r: Option<(Json, string)>)
    ensures r.Some? ==> |r.value.1| < |s|
    decreases |s|, 0
  {
    var t := Skip(s);
    if t == "" then None
    else if t[0] == '"' then
      var text := ReadString(t[1..]);
      if text.None? then None else Some((Text(text.value.0), text.value.1))
    else if t[0] == '[' then
      var u := Skip(t[1..]);
      if u != "" && u[0] == ']' then Some((Array(NoItems), u[1..]))
      else
        var items := ReadItems(u);
        if items.None? then None else Some((Array(items.value.0), items.value.1))
    else if t[0] == '{' then
      var u := Skip(t[1..]);
      if u != "" && u[0] == '}' then Some((Object(NoFields), u[1..]))
      else
        var fields := ReadFields(u);
        if fields.None? then None else Some((Object(fields.value.0), fields.value.1))
    else ReadWord(t)
  }

  /** A number, or one of the three words. */
  function ReadWord(t: string): (r: Option<(Json, string)>)
    ensures r.Some? ==> |r.value.1| < |t|
  {
    var n := NumberLength(t);
    if Starts(t, "null") then Some((Null, t[4..]))
    else if Starts(t, "true") then Some((Flag(true), t[4..]))
    else if Starts(t, "false") then Some((Flag(false), t[5..]))
    else if n > 0 && IsNumber(t[..n]) then Some((Number(t[..n]), t[n..]))
    else None
  }

  function ReadItems(s: string): (r: Option<(Items, string)>)
    ensures r.Some? ==> |r.value.1| < |s|
    decreases |s|, 1
  {
    var head := ReadValue(s);
    if head.None? then None
    else
      var t := Skip(head.value.1);
      if t == "" then None
      else if t[0] == ']' then Some((Item(head.value.0, NoItems), t[1..]))
      else if t[0] != ',' then None
      else
        var tail := ReadItems(t[1..]);
        if tail.None? then None else Some((Item(head.value.0, tail.value.0), tail.value.1))
  }

  /** A name, a colon and a value. */
  function ReadField(s: string): (r: Option<(string, Json, string)>)
    ensures r.Some? ==> |r.value.2| < |s|
    decreases |s|, 1
  {
    var n := Skip(s);
    if n == "" || n[0] != '"' then None
    else
      var name := ReadString(n[1..]);
      if name.None? then None
      else
        var colon := Skip(name.value.1);
        if colon == "" || colon[0] != ':' then None
        else
          var value := ReadValue(colon[1..]);
          if value.None? then None else Some((name.value.0, value.value.0, value.value.1))
  }

  function ReadFields(s: string): (r: Option<(Fields, string)>)
    ensures r.Some? ==> |r.value.1| < |s|
    decreases |s|, 2
  {
    var field := ReadField(s);
    if field.None? then None
    else
      var t := Skip(field.value.2);
      if t == "" then None
      else if t[0] == '}' then Some((Field(field.value.0, field.value.1, NoFields), t[1..]))
      else if t[0] != ',' then None
      else
        var rest := ReadFields(t[1..]);
        if rest.None? then None
        else Some((Field(field.value.0, field.value.1, rest.value.0), rest.value.1))
  }

  function Decode(s: string): Option<Json> {
    var v := ReadValue(s);
    if v.Some? && Skip(v.value.1) == "" then Some(v.value.0) else None
  }

  // ----- Some brackets spelled as escapes -----

  /** Which characters are spelled as escapes, by position. */
  type Marks = nat -> bool

  function SpellChar(c: char, marked: bool): string {
    if marked && c == '<' then OPEN_ESCAPE else if marked && c == '>' then CLOSE_ESCAPE else [c]
  }

  /** The text with the marked angle brackets escaped; its first character is at position `k`. */
  function Spell(t: string, marks: Marks, k: nat): string {
    if t == "" then "" else SpellChar(t[0], marks(k)) + Spell(t[1..], marks, k + 1)
  }

  predicate Plain(t: string) {
    forall i | 0 <= i < |t| :: t[i] != '<' && t[i] != '>'
  }

  lemma {:induction false} SpellJoin(a: string, b: string, marks: Marks, k: nat)
    ensures Spell(a + b, marks, k) == Spell(a, marks, k) + Spell(b, marks, k + |a|)
  {
    if a == "" {
      assert a + b == b;
    } else {
      assert (a + b)[1..] == a[1..] + b;
      SpellJoin(a[1..], b, marks, k + 1);
    }
  }

  lemma {:induction false} SpellPlain(t: string, marks: Marks, k: nat)
    requires Plain(t)
    ensures Spell(t, marks, k) == t
  {
    if t != "" {
      SpellPlain(t[1..], marks, k + 1);
      assert t == [t[0]] + t[1..];
    }
  }

  lemma {:induction false} SpellAgrees(t: string, marks: Marks, other: Marks, k: nat)
    requires forall i: nat | k <= i :: marks(i) == other(i)
    ensures Spell(t, marks, k) == Spell(t, other, k)
  {
    if t != "" {
      SpellAgrees(t[1..], marks, other, k + 1);
    }
  }

  // ----- Both passes at once -----

  /** Both replacements in one pass. */
  function Fenced(t: string): string {
    if |t| < 3 then t
    else if t[0] == t[1] == t[2] == '<' then Thrice(OPEN_ESCAPE) + Fenced(t[3..])
    else if t[0] == t[1] == t[2] == '>' then Thrice(CLOSE_ESCAPE) + Fenced(t[3..])
    else [t[0]] + Fenced(t[1..])
  }

  /** A prefix without the replaced character is copied. */
  lemma {:induction false} CopyPrefix(p: string, t: string, c: char, escape: string)
    requires forall i | 0 <= i < |p| :: p[i] != c
    ensures Replaced(p + t, c, escape) == p + Replaced(t, c, escape)
  {
    if p == "" {
      assert p + t == t;
    } else {
      assert (p + t)[1..] == p[1..] + t;
      CopyPrefix(p[1..], t, c, escape);
      assert p == [p[0]] + p[1..];
    }
  }

  /** The first pass keeps the `>` at the front of a text where they are. */
  lemma FrontKept(t: string)
    ensures var u := Replaced(t, '<', OPEN_ESCAPE);
            && (|u| >= 1 && u[0] == '>' <==> |t| >= 1 && t[0] == '>')
            && (|u| >= 2 && u[0] == u[1] == '>' <==> |t| >= 2 && t[0] == t[1] == '>')
  {
    if |t| >= 3 {
      assert Thrice(OPEN_ESCAPE)[0] == '\\';
    }
  }

  lemma {:induction false} TwoPasses(t: string)
    ensures Replaced(Replaced(t, '<', OPEN_ESCAPE), '>', CLOSE_ESCAPE) == Fenced(t)
  {
    if |t| >= 3 {
      if t[0] == t[1] == t[2] == '<' {
        TwoPasses(t[3..]);
        CopyPrefix(Thrice(OPEN_ESCAPE), Replaced(t[3..], '<', OPEN_ESCAPE), '>', CLOSE_ESCAPE);
      } else if t[0] == t[1] == t[2] == '>' {
        TwoPasses(t[3..]);
        CopyPrefix(t[..3], t[3..], '<', OPEN_ESCAPE);
        assert t == t[..3] + t[3..];
        var u := Replaced(t[3..], '<', OPEN_ESCAPE);
        assert (t[..3] + u)[3..] == u;
      } else {
        TwoPasses(t[1..]);
        FrontKept(t[1..]);
        var u := Replaced(t[1..], '<', OPEN_ESCAPE);
        assert ([t[0]] + u)[1..] == u;
      }
    }
  }

  /** What the replacements leave is the text with some brackets spelled as escapes. */
  lemma {:induction false} FencedSpells(t: string, k: nat) returns (marks: Marks)
    ensures Fenced(t) == Spell(t, marks, k)
  {
    if |t| < 3 {
      marks := (i: nat) => false;
      SpellUnmarked(t, marks, k);
    } else if (t[0] == t[1] == t[2] == '<') || (t[0] == t[1] == t[2] == '>') {
      var later := FencedSpells(t[3..], k + 3);
      marks := (i: nat) => i < k + 3 || later(i);
      SpellAgrees(t[3..], marks, later, k + 3);
      assert t == t[..3] + t[3..];
      SpellJoin(t[..3], t[3..], marks, k);
      SpellThree(t[..3], marks, k);
    } else {
      var later := FencedSpells(t[1..], k + 1);
      marks := (i: nat) => i > k && later(i);
      SpellAgrees(t[1..], marks, later, k + 1);
    }
  }

  lemma SpellThree(t: string, marks: Marks, k: nat)
    requires |t| == 3 && t[0] == t[1] == t[2] && marks(k) && marks(k + 1) && marks(k + 2)
    requires t[0] == '<' || t[0] == '>'
    ensures Spell(t, marks, k) == Thrice(SpellChar(t[0], true))
  {
    assert Spell(t[1..], marks, k + 1) == SpellChar(t[1], true) + Spell(t[2..], marks, k + 2);
    assert t[1..][1..] == t[2..] && t[2..][1..] == "";
  }

  lemma {:induction false} SpellUnmarked(t: string, marks: Marks, k: nat)
    requires forall i: nat | k <= i :: !marks(i)
    ensures Spell(t, marks, k) == t
  {
    if t != "" {
      SpellUnmarked(t[1..], marks, k + 1);
      assert t == [t[0]] + t[1..];
    }
  }

  // ----- Reading back what was written -----

  ghost predicate ReadsString(t: string, s: string, rest: string) {
    forall at: nat {:trigger Unfolded(at)} :: Unfolded(at) ==> ReadString(t) == Some((s, rest))
  }

  ghost predicate ReadsValue(t: string, v: Json, rest: string) {
    forall at: nat {:trigger Unfolded(at)} :: Unfolded(at) ==> ReadValue(t) == Some((v, rest))
  }

  ghost predicate ReadsItems(t: string, items: Items, rest: string) {
    forall at: nat {:trigger Unfolded(at)} :: Unfolded(at) ==> ReadItems(t) == Some((items, rest))
  }

  ghost predicate ReadsField(t: string, name: string, v: Json, rest: string) {
    forall at: nat {:trigger Unfolded(at)} :: Unfolded(at) ==> ReadField(t) == Some((name, v, rest))
  }

  ghost predicate ReadsFields(t: string, fields: Fields, rest: string) {
    forall at: nat {:trigger Unfolded(at)} :: Unfolded(at) ==> ReadFields(t) == Some((fields, rest))
  }

  lemma EscapePlain(c: char)
    requires c != '<' && c != '>'
    ensures Plain(EscapeOf(c))
  {
  }

  lemma HexReads(n: nat)
    requires n < 16
    ensures HexValue(HexDigit(n)) == Some(n)
  {
  }

  lemma ShortReads(e: string, c: char, rest: string)
    requires |e| == 2 && e[0] == '\\' && e[1] != 'u' && Short(e[1]) == Some(c)
    ensures ReadChar(e + rest) == Some((c, rest))
  {
    assert (e + rest)[2..] == rest;
  }

  lemma CodeReads(e: string, c: char, rest: string)
    requires |e| == 6 && e[0] == '\\' && e[1] == 'u' && CodeOf(e[2], e[3], e[4], e[5]) == Some(c)
    ensures ReadChar(e + rest) == Some((c, rest))
  {
    assert (e + rest)[6..] == rest;
  }

  lemma ControlCode(c: char)
    requires c < ' '
    ensures CodeOf('0', '0', HexDigit(c as int / 16), HexDigit(c as int % 16)) == Some(c)
  {
    HexReads(0);
    HexReads(c as int / 16);
    HexReads(c as int % 16);
  }

  lemma EscapeReads(c: char, rest: string)
    ensures ReadChar(EscapeOf(c) + rest) == Some((c, rest))
    ensures EscapeOf(c)[0] != '"'
  {
    var e := EscapeOf(c);
    if |e| == 1 {
      assert ([c] + rest)[1..] == rest;
    } else if |e| == 2 {
      ShortReads(e, c, rest);
    } else {
      ControlCode(c);
      CodeReads(e, c, rest);
    }
  }

  lemma BracketReads(rest: string)
    ensures ReadChar(OPEN_ESCAPE + rest) == Some(('<', rest)) && ReadChar(CLOSE_ESCAPE + rest) == Some(('>', rest))
  {
    HexReads(0);
    HexReads(3);
    HexReads(12);
    HexReads(14);
    CodeReads(OPEN_ESCAPE, '<', rest);
    CodeReads(CLOSE_ESCAPE, '>', rest);
  }

  /** However its bracket is spelled, an escaped character reads back as itself. */
  lemma CharReads(c: char, marks: Marks, k: nat, rest: string)
    ensures ReadChar(Spell(EscapeOf(c), marks, k) + rest) == Some((c, rest))
    ensures var piece := Spell(EscapeOf(c), marks, k); |piece| > 0 && piece[0] != '"'
  {
    var e := EscapeOf(c);
    EscapeReads(c, rest);
    if c == '<' || c == '>' {
      BracketReads(rest);
      assert Spell(e, marks, k) == SpellChar(c, marks(k));
    } else {
      EscapePlain(c);
      SpellPlain(e, marks, k);
    }
  }

  lemma Associates(a: string, b: string, c: string)
    ensures (a + b) + c == a + (b + c)
  {
  }

  lemma Regrouped(a: string, b: string, c: string, d: string)
    ensures ((a + b) + c) + d == a + ((b + c) + d) && (a + b) + (c + d) == a + (b + (c + d))
    ensures ((a + b) + c) + d == (a + b) + (c + d)
  {
  }

  lemma {:induction false} StringReads(s: string, marks: Marks, k: nat, rest: string)
    ensures ReadsString(Spell(Escaped(s), marks, k) + "\"" + rest, s, rest)
  {
    if s == "" {
      assert Unfolded(0);
      assert Spell(Escaped(s), marks, k) + "\"" + rest == "\"" + rest;
      assert ("\"" + rest)[1..] == rest;
    } else {
      var e, more := EscapeOf(s[0]), Escaped(s[1..]);
      var piece, x := Spell(e, marks, k), Spell(more, marks, k + |e|);
      StringReads(s[1..], marks, k + |e|, rest);
      SpellJoin(e, more, marks, k);
      CharReads(s[0], marks, k, x + "\"" + rest);
      StringStep(s[0], s[1..], piece, x, rest);
      assert s == [s[0]] + s[1..];
    }
  }

  lemma StringStep(c: char, more: string, piece: string, x: string, rest: string)
    requires ReadsString(x + "\"" + rest, more, rest)
    requires piece != "" && piece[0] != '"' && ReadChar(piece + (x + "\"" + rest)) == Some((c, x + "\"" + rest))
    ensures ReadsString((piece + x) + "\"" + rest, [c] + more, rest)
  {
    assert Unfolded(0);
    Regrouped(piece, x, "\"", rest);
    OneMoreChar(piece + (x + "\"" + rest), c, x + "\"" + rest, more, rest);
  }

  lemma OneMoreChar(all: string, c: char, tail: string, more: string, rest: string)
    requires all != "" && all[0] != '"' && ReadChar(all) == Some((c, tail)) && ReadString(tail) == Some((more, rest))
    ensures ReadString(all) == Some(([c] + more, rest))
  {
  }

  // ----- Values -----

  lemma {:induction false} SkipSpaces(n: nat, t: string)
    ensures Skip(Spaces(n) + t) == Skip(t)
  {
    if n == 0 {
      assert Spaces(0) + t == t;
    } else {
      assert (Spaces(n) + t)[1..] == Spaces(n - 1) + t;
      SkipSpaces(n - 1, t);
    }
  }

  lemma SkipNewLine(depth: nat, t: string)
    ensures Skip(NewLine(depth) + t) == Skip(t)
  {
    assert (NewLine(depth) + t)[1..] == Spaces(2 * depth) + t;
    SkipSpaces(2 * depth, t);
  }

  lemma {:induction false} SpacesPlain(n: nat)
    ensures Plain(Spaces(n))
  {
    if n > 0 {
      SpacesPlain(n - 1);
    }
  }

  lemma NewLinePlain(depth: nat)
    ensures Plain(NewLine(depth))
  {
    SpacesPlain(2 * depth);
  }

  /** A value's text begins with its own first mark, however its brackets are spelled. */
  predicate Opens(t: string) {
    t != "" && (t[0] in {'"', '[', '{', 'n', 't', 'f', '-'} || Digit(t[0]))
  }

  predicate IsWord(v: Json) {
    v.Null? || v.Flag? || v.Number?
  }

  /** A word holds no bracket, so it is spelled as it is. */
  lemma WordSpelled(v: Json, depth: nat, marks: Marks, k: nat)
    requires IsWord(v)
    ensures Spell(Dump(v, depth), marks, k) == Dump(v, depth) && Opens(Dump(v, depth))
  {
    if v.Number? {
      NumberChars(v.digits);
    }
    SpellPlain(Dump(v, depth), marks, k);
  }

  lemma WordRead(v: Json, depth: nat, rest: string)
    requires IsWord(v) && (v.Number? ==> EndsNumber(rest))
    ensures ReadWord(Dump(v, depth) + rest) == Some((v, rest))
  {
    var t := Dump(v, depth);
    assert (t + rest)[..|t|] == t && (t + rest)[|t|..] == rest;
    if v.Number? {
      NumberChars(v.digits);
      NumberTaken(v.digits, rest);
      assert (t + rest)[0] == t[0];
    } else {
      assert (t + rest)[0] == t[0];
    }
  }

  lemma WordReads(v: Json, depth: nat, rest: string)
    requires IsWord(v) && (v.Number? ==> EndsNumber(rest))
    ensures ReadsValue(Dump(v, depth) + rest, v, rest)
  {
    var all := Dump(v, depth) + rest;
    WordRead(v, depth, rest);
    WordSpelled(v, depth, (i: nat) => false, 0);
    assert all[0] == Dump(v, depth)[0];
    assert Skip(all) == all;
  }

  lemma QuotedSpelled(s: string, marks: Marks, k: nat)
    ensures Spell(Quoted(s), marks, k) == "\"" + Spell(Escaped(s), marks, k + 1) + "\""
  {
    SpellJoin("\"" + Escaped(s), "\"", marks, k);
    SpellJoin("\"", Escaped(s), marks, k);
    SpellPlain("\"", marks, k);
    SpellPlain("\"", marks, k + 1 + |Escaped(s)|);
  }

  lemma TextReads(s: string, marks: Marks, k: nat, rest: string)
    ensures ReadsValue(Spell(Quoted(s), marks, k) + rest, Text(s), rest)
    ensures Opens(Spell(Quoted(s), marks, k))
  {
    QuotedSpelled(s, marks, k);
    StringReads(s, marks, k + 1, rest);
    QuotedReads(s, Spell(Escaped(s), marks, k + 1), rest);
  }

  lemma QuotedReads(s: string, inner: string, rest: string)
    requires ReadsString(inner + "\"" + rest, s, rest)
    ensures ReadsValue(("\"" + inner + "\"") + rest, Text(s), rest)
  {
    assert Unfolded(0);
    Regrouped("\"", inner, "\"", rest);
    assert ("\"" + (inner + "\"" + rest))[1..] == inner + "\"" + rest;
  }

  /** A bracketed list's spelling, part by part. */
  lemma ListSpelled(open: string, body: string, close: string, depth: nat, marks: Marks, k: nat) returns (j: nat)
    requires Plain(open) && Plain(close)
    ensures Spell(open + NewLine(depth + 1) + body + NewLine(depth) + close, marks, k)
            == open + NewLine(depth + 1) + Spell(body, marks, j) + NewLine(depth) + close
  {
    NewLinePlain(depth);
    NewLinePlain(depth + 1);
    j := k + |open + NewLine(depth + 1)|;
    PartsSpelled(open, NewLine(depth + 1), body, NewLine(depth), close, marks, k);
  }

  lemma PartsSpelled(open: string, line: string, body: string, line': string, close: string, marks: Marks, k: nat)
    requires Plain(open) && Plain(line) && Plain(line') && Plain(close)
    ensures Spell(open + line + body + line' + close, marks, k)
            == open + line + Spell(body, marks, k + |open + line|) + line' + close
  {
    PlainAround(open + line, body, line' + close, marks, k);
    Associates(open + line + body, line', close);
    Associates(open + line + Spell(body, marks, k + |open + line|), line', close);
  }

  lemma PlainAround(head: string, body: string, tail: string, marks: Marks, k: nat)
    requires Plain(head) && Plain(tail)
    ensures Spell((head + body) + tail, marks, k) == (head + Spell(body, marks, k + |head|)) + tail
  {
    SpellJoin(head + body, tail, marks, k);
    SpellJoin(head, body, marks, k);
    SpellPlain(head, marks, k);
    SpellPlain(tail, marks, k + |head + body|);
  }

  /** What is read after a list's opening bracket. */
  lemma AfterOpen(open: string, depth: nat, spelled: string, close: string, rest: string)
    requires |open| == 1 && Opens(spelled)
    ensures var all := open + NewLine(depth + 1) + spelled + NewLine(depth) + close + rest;
            all[0] == open[0] && Skip(all[1..]) == spelled + (NewLine(depth) + close + rest)
  {
    var after := spelled + (NewLine(depth) + close + rest);
    var all := open + NewLine(depth + 1) + spelled + NewLine(depth) + close + rest;
    assert all[1..] == NewLine(depth + 1) + after;
    SkipNewLine(depth + 1, after);
  }

  lemma {:induction false} ValueReads(v: Json, depth: nat, marks: Marks, k: nat, rest: string)
    requires v.Number? ==> EndsNumber(rest)
    ensures ReadsValue(Spell(Dump(v, depth), marks, k) + rest, v, rest)
    ensures Opens(Spell(Dump(v, depth), marks, k))
    decreases v, 0
  {
    if IsWord(v) {
      WordSpelled(v, depth, marks, k);
      WordReads(v, depth, rest);
      return;
    }
    match v
    case Text(s) => TextReads(s, marks, k, rest);
    case Array(NoItems) =>
      assert Unfolded(0);
      SpellPlain("[]", marks, k);
      assert ("[]" + rest)[1..] == "]" + rest && ("]" + rest)[1..] == rest;
    case Object(NoFields) =>
      assert Unfolded(0);
      SpellPlain("{}", marks, k);
      assert ("{}" + rest)[1..] == "}" + rest && ("}" + rest)[1..] == rest;
    case Array(items) => ListReads(items, depth, marks, k, rest);
    case Object(fields) => RecordReads(fields, depth, marks, k, rest);
  }

  lemma ListReads(items: Items, depth: nat, marks: Marks, k: nat, rest: string)
    requires items.Item?
    ensures ReadsValue(Spell(Dump(Array(items), depth), marks, k) + rest, Array(items), rest)
    ensures Opens(Spell(Dump(Array(items), depth), marks, k))
    decreases items, 2
  {
    var j := ListSpelled("[", DumpItems(items, depth + 1), "]", depth, marks, k);
    var spelled := Spell(DumpItems(items, depth + 1), marks, j);
    ItemsRead(items, depth + 1, marks, j, depth, rest);
    AfterOpen("[", depth, spelled, "]", rest);
    ArrayReads(Spell(Dump(Array(items), depth), marks, k) + rest, spelled + (NewLine(depth) + "]" + rest), items, rest);
  }

  lemma RecordReads(fields: Fields, depth: nat, marks: Marks, k: nat, rest: string)
    requires fields.Field?
    ensures ReadsValue(Spell(Dump(Object(fields), depth), marks, k) + rest, Object(fields), rest)
    ensures Opens(Spell(Dump(Object(fields), depth), marks, k))
    decreases fields, 2
  {
    var j := ListSpelled("{", DumpFields(fields, depth + 1), "}", depth, marks, k);
    var spelled := Spell(DumpFields(fields, depth + 1), marks, j);
    FieldsRead(fields, depth + 1, marks, j, depth, rest);
    AfterOpen("{", depth, spelled, "}", rest);
    ObjectReads(Spell(Dump(Object(fields), depth), marks, k) + rest, spelled + (NewLine(depth) + "}" + rest), fields, rest);
  }

  lemma ArrayReads(all: string, body: string, items: Items, rest: string)
    requires all != "" && all[0] == '[' && Skip(all[1..]) == body && Opens(body) && ReadsItems(body, items, rest)
    ensures ReadsValue(all, Array(items), rest)
  {
    assert Unfolded(0);
  }

  lemma ObjectReads(all: string, body: string, fields: Fields, rest: string)
    requires all != "" && all[0] == '{' && Skip(all[1..]) == body && Opens(body) && ReadsFields(body, fields, rest)
    ensures ReadsValue(all, Object(fields), rest)
  {
    assert Unfolded(0);
  }

  /** Reading starts past white space. */
  lemma SkipFirst(depth: nat, t: string)
    ensures forall items, rest | ReadsItems(t, items, rest) :: ReadsItems(NewLine(depth) + t, items, rest)
    ensures forall fields, rest | ReadsFields(t, fields, rest) :: ReadsFields(NewLine(depth) + t, fields, rest)
  {
    SkipNewLine(depth, t);
    assert Unfolded(0);
    assert ReadValue(NewLine(depth) + t) == ReadValue(t);
    assert ReadField(NewLine(depth) + t) == ReadField(t);
  }

  lemma CommaSpelled(head: string, comma: string, more: string, marks: Marks, k: nat)
    requires Plain(comma)
    ensures Spell((head + comma) + more, marks, k)
            == Spell(head, marks, k) + (comma + Spell(more, marks, k + |head| + |comma|))
  {
    SpellJoin(head + comma, more, marks, k);
    SpellJoin(head, comma, marks, k);
    SpellPlain(comma, marks, k + |head|);
    Associates(Spell(head, marks, k), comma, Spell(more, marks, k + |head| + |comma|));
  }

  /** What follows one part of a list, spelled: a comma, a new line, the rest and the close. */
  lemma PartSpelled(head: string, depth: nat, more: string, marks: Marks, k: nat, close: string) returns (j: nat, after: string)
    ensures after == "," + (NewLine(depth) + (Spell(more, marks, j) + close)) && EndsNumber(after)
    ensures Spell(head + "," + NewLine(depth) + more, marks, k) + close == Spell(head, marks, k) + after
  {
    var line := NewLine(depth);
    NewLinePlain(depth);
    CommaSpelled(head, "," + line, more, marks, k);
    j := k + |head| + |"," + line|;
    var spelled := Spell(more, marks, j);
    after := "," + (line + (spelled + close));
    Parted(head, line, more);
    PartedAfter(Spell(head, marks, k), line, spelled, close);
  }

  lemma Parted(head: string, line: string, more: string)
    ensures head + "," + line + more == (head + ("," + line)) + more
  {
    assert (head + ",") + line == head + ("," + line);
  }

  lemma PartedAfter(head: string, line: string, more: string, close: string)
    ensures (head + (("," + line) + more)) + close == head + ("," + (line + (more + close)))
  {
    assert ("," + line) + more == "," + (line + more);
    Regrouped(head, ",", line + more, close);
    assert ((line + more) + close) == line + (more + close);
  }

  lemma {:induction false} ItemsRead(items: Items, depth: nat, marks: Marks, k: nat, out: nat, rest: string)
    requires items.Item?
    ensures ReadsItems(Spell(DumpItems(items, depth), marks, k) + (NewLine(out) + "]" + rest), items, rest)
    ensures Opens(Spell(DumpItems(items, depth), marks, k))
    decreases items, 1
  {
    var close := NewLine(out) + "]" + rest;
    assert close[0] == '\n';
    if items.tail == NoItems {
      ValueReads(items.head, depth, marks, k, close);
      assert close == NewLine(out) + ("]" + rest);
      SkipNewLine(out, "]" + rest);
      LastItem(Spell(Dump(items.head, depth), marks, k) + close, items.head, close, rest);
    } else {
      var head, more := Dump(items.head, depth), DumpItems(items.tail, depth);
      var j, after := PartSpelled(head, depth, more, marks, k, close);
      ValueReads(items.head, depth, marks, k, after);
      ItemsRead(items.tail, depth, marks, j, out, rest);
      SkipFirst(depth, Spell(more, marks, j) + close);
      MoreItems(Spell(head, marks, k) + after, items.head, after, NewLine(depth) + (Spell(more, marks, j) + close), items.tail, rest);
      OpensFront(Spell(head, marks, k), after, Spell(DumpItems(items, depth), marks, k), close);
    }
  }

  lemma OpensFront(head: string, after: string, all: string, close: string)
    requires Opens(head) && all + close == head + after && |all| > 0
    ensures Opens(all)
  {
    assert (all + close)[0] == all[0] && (head + after)[0] == head[0];
  }

  lemma LastItem(all: string, v: Json, close: string, rest: string)
    requires ReadsValue(all, v, close) && Skip(close) == "]" + rest
    ensures ReadsItems(all, Item(v, NoItems), rest)
  {
    assert Unfolded(0);
    assert ("]" + rest)[1..] == rest;
  }

  lemma MoreItems(all: string, v: Json, after: string, next: string, items: Items, rest: string)
    requires ReadsValue(all, v, after) && after == "," + next && ReadsItems(next, items, rest)
    ensures ReadsItems(all, Item(v, items), rest)
  {
    assert Unfolded(0);
    assert after[1..] == next;
  }

  lemma FieldSpelled(name: string, value: Json, depth: nat, marks: Marks, k: nat) returns (i: nat, j: nat)
    ensures j == k + |Quoted(name)| + 2
    ensures Spell(DumpField(name, value, depth), marks, k)
            == ("\"" + Spell(Escaped(name), marks, i) + "\"") + (": " + Spell(Dump(value, depth), marks, j))
  {
    i := k + 1;
    j := k + |Quoted(name)| + 2;
    CommaSpelled(Quoted(name), ": ", Dump(value, depth), marks, k);
    QuotedSpelled(name, marks, k);
  }

  /** A field's name and value read, whatever follows that does not continue a number. */
  lemma FieldReads(name: string, value: Json, depth: nat, marks: Marks, k: nat, after: string)
    requires value.Number? ==> EndsNumber(after)
    ensures ReadsField(Spell(DumpField(name, value, depth), marks, k) + after, name, value, after)
    ensures Opens(Spell(DumpField(name, value, depth), marks, k))
    decreases value, 1
  {
    var i, j := FieldSpelled(name, value, depth, marks, k);
    var spelled := Spell(Dump(value, depth), marks, j);
    ValueReads(value, depth, marks, j, after);
    StringReads(name, marks, i, ":" + (" " + (spelled + after)));
    FieldParts(name, Spell(Escaped(name), marks, i), spelled, value, after);
  }

  lemma FieldParts(name: string, key: string, spelled: string, value: Json, after: string)
    requires ReadsString(key + "\"" + (":" + (" " + (spelled + after))), name, ":" + (" " + (spelled + after)))
    requires ReadsValue(spelled + after, value, after)
    ensures ReadsField((("\"" + key + "\"") + (": " + spelled)) + after, name, value, after)
  {
    var from := " " + (spelled + after);
    FieldJoined(key, spelled, after, from);
    OneField("\"" + (key + "\"" + (":" + from)), key + "\"" + (":" + from), name, from, spelled + after, value, after);
  }

  lemma OneField(all: string, inner: string, name: string, from: string, text: string, value: Json, after: string)
    requires all == "\"" + inner && ReadsString(inner, name, ":" + from) && from == " " + text
    requires ReadsValue(text, value, after)
    ensures ReadsField(all, name, value, after)
  {
    assert Unfolded(0);
    assert from[1..] == text;
    assert ReadValue(from) == ReadValue(text);
    assert all[1..] == inner && (":" + from)[1..] == from;
  }

  lemma FieldJoined(key: string, spelled: string, after: string, from: string)
    requires from == " " + (spelled + after)
    ensures (("\"" + key + "\"") + (": " + spelled)) + after == "\"" + (key + "\"" + (":" + from))
  {
    assert ": " + spelled + after == ":" + from;
    Regrouped("\"" + key + "\"", ": " , spelled, after);
    Regrouped("\"", key, "\"", ":" + from);
  }

  lemma {:induction false} FieldsRead(fields: Fields, depth: nat, marks: Marks, k: nat, out: nat, rest: string)
    requires fields.Field?
    ensures ReadsFields(Spell(DumpFields(fields, depth), marks, k) + (NewLine(out) + "}" + rest), fields, rest)
    ensures Opens(Spell(DumpFields(fields, depth), marks, k))
    decreases fields, 1
  {
    var close := NewLine(out) + "}" + rest;
    assert close[0] == '\n';
    if fields.rest == NoFields {
      FieldReads(fields.name, fields.value, depth, marks, k, close);
      assert close == NewLine(out) + ("}" + rest);
      SkipNewLine(out, "}" + rest);
      LastField(Spell(DumpField(fields.name, fields.value, depth), marks, k) + close, fields.name, fields.value, close, rest);
    } else {
      var head, more := DumpField(fields.name, fields.value, depth), DumpFields(fields.rest, depth);
      var j, after := PartSpelled(head, depth, more, marks, k, close);
      FieldReads(fields.name, fields.value, depth, marks, k, after);
      FieldsRead(fields.rest, depth, marks, j, out, rest);
      SkipFirst(depth, Spell(more, marks, j) + close);
      MoreFields(Spell(head, marks, k) + after, fields.name, fields.value, after,
                 NewLine(depth) + (Spell(more, marks, j) + close), fields.rest, rest);
      OpensFront(Spell(head, marks, k), after, Spell(DumpFields(fields, depth), marks, k), close);
    }
  }

  lemma LastField(all: string, name: string, value: Json, close: string, rest: string)
    requires ReadsField(all, name, value, close) && Skip(close) == "}" + rest
    ensures ReadsFields(all, Field(name, value, NoFields), rest)
  {
    assert Unfolded(0);
    assert ("}" + rest)[1..] == rest;
  }

  lemma MoreFields(all: string, name: string, value: Json, after: string, next: string, fields: Fields, rest: string)
    requires ReadsField(all, name, value, after) && after == "," + next && ReadsFields(next, fields, rest)
    ensures ReadsFields(all, Field(name, value, fields), rest)
  {
    assert Unfolded(0);
    assert after[1..] == next;
  }

  /** The encoding loses nothing: read as JSON it gives back the very value. */
  lemma EncodingIsLossless(v: Json)
    ensures Decode(Encode(v)) == Some(v)
  {
    TwoPasses(Dump(v, 0));
    var marks := FencedSpells(Dump(v, 0), 0);
    ValueReads(v, 0, marks, 0, "");
    assert Unfolded(0);
    assert Spell(Dump(v, 0), marks, 0) + "" == Encode(v);
  }

  // ----- The markers cannot be reproduced -----

  ghost predicate RunAt(t: string, i: nat, c: char) {
    i + 2 < |t| && t[i] == c && t[i + 1] == c && t[i + 2] == c
  }

  ghost predicate HasRun(t: string, c: char) {
    exists i :: RunAt(t, i, c)
  }

  lemma NoRunAfter(p: string, t: string, c: char)
    requires !HasRun(t, c) && forall i | 0 <= i < |p| :: p[i] != c
    ensures !HasRun(p + t, c)
  {
    forall i: nat ensures !RunAt(p + t, i, c) {
      if RunAt(p + t, i, c) && i >= |p| {
        assert RunAt(t, i - |p|, c);
      }
    }
  }

  lemma NoRunOneMore(x: char, t: string, c: char)
    requires !HasRun(t, c) && !(x == c && |t| >= 2 && t[0] == t[1] == c)
    ensures !HasRun([x] + t, c)
  {
    forall i: nat ensures !RunAt([x] + t, i, c) {
      if i > 0 && RunAt([x] + t, i, c) {
        assert RunAt(t, i - 1, c);
      }
    }
  }

  /** Brackets at the front of a fenced text were at the front of the text. */
  lemma FencedFront(t: string, c: char)
    requires c == '<' || c == '>'
    ensures |Fenced(t)| >= 2 && Fenced(t)[0] == Fenced(t)[1] == c ==> |t| >= 2 && t[0] == t[1] == c
  {
    if |t| >= 3 {
      FencedFirst(t, c);
      FencedFirst(t[1..], c);
    }
  }

  lemma FencedFirst(t: string, c: char)
    requires c == '<' || c == '>'
    ensures |Fenced(t)| >= 1 && Fenced(t)[0] == c ==> |t| >= 1 && t[0] == c && (|t| >= 3 ==> Fenced(t) == [t[0]] + Fenced(t[1..]))
  {
    if |t| >= 3 {
      assert Thrice(OPEN_ESCAPE)[0] == '\\' && Thrice(CLOSE_ESCAPE)[0] == '\\';
    }
  }

  lemma {:induction false} FencedHasNoRun(t: string, c: char)
    requires c == '<' || c == '>'
    ensures !HasRun(Fenced(t), c)
  {
    if |t| >= 3 {
      if t[0] == t[1] == t[2] == '<' {
        FencedHasNoRun(t[3..], c);
        NoRunAfter(Thrice(OPEN_ESCAPE), Fenced(t[3..]), c);
      } else if t[0] == t[1] == t[2] == '>' {
        FencedHasNoRun(t[3..], c);
        NoRunAfter(Thrice(CLOSE_ESCAPE), Fenced(t[3..]), c);
      } else {
        FencedHasNoRun(t[1..], c);
        FencedFront(t[1..], c);
        NoRunOneMore(t[0], Fenced(t[1..]), c);
      }
    }
  }

  /** No value's encoding holds three brackets in a row, so neither marker can appear in it. */
  lemma EncodingHasNoMarker(v: Json)
    ensures !HasRun(Encode(v), '<') && !HasRun(Encode(v), '>')
  {
    TwoPasses(Dump(v, 0));
    FencedHasNoRun(Dump(v, 0), '<');
    FencedHasNoRun(Dump(v, 0), '>');
  }
}
