/** Masking Lean comments and strings in place, position for position. */
module Masking {
  import opened Basics

  function Blank(c: char): char {
    if c == '\n' then '\n' else ' '
  }

  function Prefixed(p: string, r: Option<string>): Option<string> {
    if r.None? then None else Some(p + r.value)
  }

  function Blanks(n: nat): string {
    seq(n, i => ' ')
  }

  /** The length of a line up to its newline. */
  function LineLength(s: string): (n: nat)
    ensures n <= |s| && (forall i | 0 <= i < n :: s[i] != '\n') && (n < |s| ==> s[n] == '\n')
  {
    if s == "" || s[0] == '\n' then 0 else 1 + LineLength(s[1..])
  }

  /** What the scan makes of the rest of a text, inside `depth` comments or a string; None when it
      ends there. */
  function Mask(s: string, depth: nat, quoted: bool): Option<string>
    decreases |s|
  {
    if s == "" then if depth > 0 || quoted then None else Some("")
    else if depth > 0 then
      if Starts(s, "/-") then Prefixed("  ", Mask(s[2..], depth + 1, quoted))
      else if Starts(s, "-/") then Prefixed("  ", Mask(s[2..], depth - 1, quoted))
      else Prefixed([Blank(s[0])], Mask(s[1..], depth, quoted))
    else if quoted then
      if s[0] == '\\' then if |s| == 1 then None else Prefixed("  ", Mask(s[2..], 0, true))
      else Prefixed([Blank(s[0])], Mask(s[1..], 0, s[0] != '"'))
    else if Starts(s, "--") then Prefixed(Blanks(LineLength(s)), Mask(s[LineLength(s)..], 0, false))
    else if Starts(s, "/-") then Prefixed("  ", Mask(s[2..], 1, false))
    else if s[0] == '"' then Prefixed(" ", Mask(s[1..], 0, true))
    else Prefixed([s[0]], Mask(s[1..], 0, false))
  }

  /** Overwrite part of the list; past its end the list grows. */
  function Overwritten(result: string, at: nat, with: string): string
    requires at <= |result|
  {
    result[..at] + with + if at + |with| <= |result| then result[at + |with|..] else ""
  }

  /** The masked text is this prefix and the rest masked from here. */
  ghost predicate Reached(goal: Option<string>, source: string, done: string, position: nat, depth: nat, quoted: bool) {
    && position <= |source| && |done| == position
    && forall at: nat {:trigger Unfolded(at)} :: Unfolded(at) ==> goal == Prefixed(done, Mask(source[position..], depth, quoted))
  }

  /** The list so far: the done prefix, then the source unchanged. */
  ghost predicate Written(result: string, source: string, done: string, position: nat) {
    forall at: nat {:trigger Unfolded(at)} :: Unfolded(at) ==>
      position <= |source| && |done| == position && result == done + source[position..]
  }

  lemma StartsReached(source: string, goal: Option<string>)
    requires goal == Mask(source, 0, false)
    ensures Reached(goal, source, "", 0, 0, false)
  {
    assert Unfolded(0);
    assert source[0..] == source;
    if goal.Some? {
      assert "" + goal.value == goal.value;
    }
  }

  lemma Advance(goal: Option<string>, source: string, done: string, position: nat, depth: nat, quoted: bool,
                piece: string, n: nat, depth': nat, quoted': bool)
    requires Reached(goal, source, done, position, depth, quoted) && n <= |source| - position && |piece| == n
    requires Mask(source[position..], depth, quoted) == Prefixed(piece, Mask(source[position..][n..], depth', quoted'))
    ensures Reached(goal, source, done + piece, position + n, depth', quoted')
  {
    assert Unfolded(0);
    assert source[position..][n..] == source[position + n..];
    PrefixedTwice(done, piece, Mask(source[position + n..], depth', quoted'));
  }

  /** A scan that ended inside a comment or a string, or at the end of the text. */
  lemma EndReached(goal: Option<string>, source: string, done: string, depth: nat, quoted: bool)
    requires Reached(goal, source, done, |source|, depth, quoted)
    ensures goal == if depth > 0 || quoted then None else Some(done)
  {
    assert Unfolded(0);
    assert source[|source|..] == "" && done + "" == done;
  }

  lemma BackslashAtEnd(goal: Option<string>, source: string, done: string, position: nat)
    requires Reached(goal, source, done, position, 0, true) && position + 1 == |source| && source[position] == '\\'
    ensures goal.None?
  {
    assert Unfolded(0);
    assert source[position..] == [source[position]];
  }

  /** What is written at the scan's position, and where and in what it goes on. */
  method Piece(rest: string, depth: nat, quoted: bool) returns (piece: string, n: nat, depth': nat, quoted': bool)
    requires rest != "" && !(depth > 0 && quoted) && !(quoted && rest[0] == '\\' && |rest| == 1)
    ensures 0 < n <= |rest| && |piece| == n && !(depth' > 0 && quoted')
    ensures Mask(rest, depth, quoted) == Prefixed(piece, Mask(rest[n..], depth', quoted'))
  {
    piece, n, depth', quoted' := [Blank(rest[0])], 1, depth, quoted;
    if depth > 0 {
      if Starts(rest, "/-") {
        piece, n, depth' := "  ", 2, depth + 1;
      } else if Starts(rest, "-/") {
        piece, n, depth' := "  ", 2, depth - 1;
      }
    } else if quoted {
      if rest[0] == '\\' {
        piece, n := "  ", 2;
      } else {
        quoted' := rest[0] != '"';
      }
    } else if Starts(rest, "--") {
      n := LineLength(rest);
      piece := Blanks(n);
      LineGoesOn(rest);
    } else if Starts(rest, "/-") {
      piece, n, depth' := "  ", 2, 1;
    } else if rest[0] == '"' {
      piece, quoted' := " ", true;
    } else {
      piece := [rest[0]];
    }
  }

  method MaskedAt(ghost goal: Option<string>, source: string, ghost done: string, position: nat, depth: nat, quoted: bool)
    returns (piece: string, n: nat, depth': nat, quoted': bool)
    requires Reached(goal, source, done, position, depth, quoted) && position < |source| && !(depth > 0 && quoted)
    requires !(quoted && source[position] == '\\' && position + 1 == |source|)
    ensures 0 < n && position + n <= |source| && |piece| == n && !(depth' > 0 && quoted')
    ensures Reached(goal, source, done + piece, position + n, depth', quoted')
  {
    piece, n, depth', quoted' := Piece(source[position..], depth, quoted);
    Advance(goal, source, done, position, depth, quoted, piece, n, depth', quoted');
  }

  method MaskCommentsAndStrings(source: string) returns (masked: Option<string>)
    ensures masked == Mask(source, 0, false)
  {
    StartsReached(source, Mask(source, 0, false));
    masked := Scan(source, Mask(source, 0, false));
  }

  /** Where the scan is: still within the source, or past a backslash that ends it. */
  ghost predicate Scanning(goal: Option<string>, source: string, result: string, done: string,
                           position: nat, depth: nat, quoted: bool) {
    && !(depth > 0 && quoted)
    && (position <= |source| ==> Reached(goal, source, done, position, depth, quoted) && Written(result, source, done, position))
    && (position > |source| ==> quoted && goal.None?)
  }

  method Scan(source: string, ghost goal: Option<string>) returns (masked: Option<string>)
    requires Reached(goal, source, "", 0, 0, false)
    ensures masked == goal
  {
    var result := source;
    var position: nat, depth: nat, quoted := 0, 0, false;
    ghost var done := "";
    StartsWritten(source);
    while position < |source|
      invariant Scanning(goal, source, result, done, position, depth, quoted)
      decreases |source| - position
    {
      result, position, depth, quoted, done := Turn(goal, source, result, done, position, depth, quoted);
    }
    ScanEnds(goal, source, result, done, position, depth, quoted);
    if depth > 0 || quoted {
      return None;
    }
    return Some(result);
  }

  method Turn(ghost goal: Option<string>, source: string, result: string, ghost done: string,
              position: nat, depth: nat, quoted: bool)
    returns (result': string, position': nat, depth': nat, quoted': bool, ghost done': string)
    requires Scanning(goal, source, result, done, position, depth, quoted) && position < |source|
    ensures Scanning(goal, source, result', done', position', depth', quoted') && position' > position
  {
    if quoted && source[position] == '\\' && position + 1 == |source| {
      BackslashAtEnd(goal, source, done, position);
      EndWritten(result, source, done, position);
      return Overwritten(result, position, "  "), position + 2, depth, quoted, done;
    }
    var piece, n;
    piece, n, depth', quoted' := MaskedAt(goal, source, done, position, depth, quoted);
    result' := Overwrite(result, source, position, piece, done);
    position', done' := position + n, done + piece;
  }

  lemma ScanEnds(goal: Option<string>, source: string, result: string, done: string, position: nat, depth: nat, quoted: bool)
    requires Scanning(goal, source, result, done, position, depth, quoted) && position >= |source|
    ensures goal == if depth > 0 || quoted then None else Some(result)
  {
    if position == |source| {
      EndReached(goal, source, done, depth, quoted);
      EndWritten(result, source, done, position);
    }
  }

  method Overwrite(result: string, source: string, position: nat, piece: string, ghost done: string) returns (r: string)
    requires position + |piece| <= |source| && Written(result, source, done, position)
    ensures position <= |result| && r == Overwritten(result, position, piece)
    ensures Written(r, source, done + piece, position + |piece|)
  {
    assert Unfolded(0);
    r := Overwritten(result, position, piece);
    assert r == (done + piece) + source[position + |piece|..];
  }

  lemma StartsWritten(source: string)
    ensures Written(source, source, "", 0)
  {
    assert "" + source[0..] == source;
  }

  lemma EndWritten(result: string, source: string, done: string, position: nat)
    requires Written(result, source, done, position) && position <= |source|
    ensures |result| == |source| && (position == |source| ==> result == done)
  {
    assert Unfolded(0);
    assert position == |source| ==> done + source[position..] == done;
  }

  lemma LineGoesOn(s: string)
    requires Starts(s, "--")
    ensures LineLength(s) >= 2
  {
  }

  // ----- What is masked -----

  /** The end of a comment nested `depth` deep. */
  function BlockEnd(s: string, depth: nat): (n: Option<nat>)
    ensures n.Some? ==> n.value <= |s|
    decreases |s|
  {
    if depth == 0 then Some(0)
    else if s == "" then None
    else if Starts(s, "/-") then Plus(2, BlockEnd(s[2..], depth + 1))
    else if Starts(s, "-/") then Plus(2, BlockEnd(s[2..], depth - 1))
    else Plus(1, BlockEnd(s[1..], depth))
  }

  function Plus(k: nat, n: Option<nat>): Option<nat> {
    if n.None? then None else Some(k + n.value)
  }

  /** The end of a string whose opening quote is behind. */
  function QuoteEnd(s: string): (n: Option<nat>)
    ensures n.Some? ==> n.value <= |s|
    decreases |s|
  {
    if s == "" then None
    else if s[0] == '"' then Some(1)
    else if s[0] == '\\' then if |s| == 1 then None else Plus(2, QuoteEnd(s[2..]))
    else Plus(1, QuoteEnd(s[1..]))
  }

  /** Lexical pieces of a text. */
  datatype Token = Char(c: char) | LineComment(text: string) | BlockComment(text: string) | Quoted(text: string)

  function TextOf(t: Token): string {
    match t
    case Char(c) => [c]
    case LineComment(text) => text
    case BlockComment(text) => text
    case Quoted(text) => text
  }

  function Render(tokens: seq<Token>): string {
    if tokens == [] then "" else TextOf(tokens[0]) + Render(tokens[1..])
  }

  /** A token is complete, and does not run on into what follows it. */
  predicate Lexed(t: Token, after: string) {
    match t
    case Char(c) => c != '"' && !Starts([c] + after, "--") && !Starts([c] + after, "/-")
    case LineComment(text) => Starts(text, "--") && LineLength(text) == |text| && (after == "" || after[0] == '\n')
    case BlockComment(text) => Starts(text, "/-") && BlockEnd(text[2..], 1) == Some(|text| - 2)
    case Quoted(text) => Starts(text, "\"") && QuoteEnd(text[1..]) == Some(|text| - 1)
  }

  predicate WellFormed(tokens: seq<Token>) {
    tokens == [] || (Lexed(tokens[0], Render(tokens[1..])) && WellFormed(tokens[1..]))
  }

  function BlankAll(s: string): string {
    if s == "" then "" else [Blank(s[0])] + BlankAll(s[1..])
  }

  /** In a string an escaped character is blanked with its backslash, a newline too. */
  function BlankString(s: string): string {
    if s == "" then ""
    else if s[0] == '\\' && |s| > 1 then "  " + BlankString(s[2..])
    else [Blank(s[0])] + BlankString(s[1..])
  }

  function Masked(t: Token): string {
    match t
    case Char(c) => [c]
    case LineComment(text) => Blanks(|text|)
    case BlockComment(text) => BlankAll(text)
    case Quoted(text) => BlankString(text)
  }

  function MaskedAll(tokens: seq<Token>): string {
    if tokens == [] then "" else Masked(tokens[0]) + MaskedAll(tokens[1..])
  }

  lemma PrefixedTwice(a: string, b: string, r: Option<string>)
    ensures Prefixed(a, Prefixed(b, r)) == Prefixed(a + b, r)
  {
    if r.Some? {
      assert a + (b + r.value) == (a + b) + r.value;
    }
  }

  /** How far one step inside comments goes, and how deep it leaves them. */
  function BlockStep(s: string, depth: nat): (nat, nat)
    requires s != "" && depth > 0
  {
    if Starts(s, "/-") then (2, depth + 1) else if Starts(s, "-/") then (2, depth - 1) else (1, depth)
  }

  lemma BlockSteps(s: string, depth: nat)
    requires s != "" && depth > 0
    ensures var (k, depth') := BlockStep(s, depth);
            && k <= |s| && BlockEnd(s, depth) == Plus(k, BlockEnd(s[k..], depth'))
            && Mask(s, depth, false) == Prefixed(BlankAll(s[..k]), Mask(s[k..], depth', false))
  {
    if Starts(s, "/-") || Starts(s, "-/") {
      assert s[..2] == [s[0], s[1]] && [s[0], s[1]][1..] == [s[1]] && BlankAll([s[1]]) == [Blank(s[1])];
      assert BlankAll(s[..2]) == "  ";
    } else {
      assert s[..1] == [s[0]] && BlankAll([s[0]]) == [Blank(s[0])];
    }
  }

  lemma {:induction false} BlockMasked(s: string, depth: nat)
    requires depth > 0
    ensures var n := BlockEnd(s, depth);
            Mask(s, depth, false)
            == if n.None? then None else Prefixed(BlankAll(s[..n.value]), Mask(s[n.value..], 0, false))
    decreases |s|
  {
    if s != "" {
      var (k, depth') := BlockStep(s, depth);
      BlockSteps(s, depth);
      if depth' > 0 {
        BlockMasked(s[k..], depth');
      }
      var n := BlockEnd(s, depth);
      if n.Some? {
        assert s[k..][n.value - k..] == s[n.value..] && s[k..][..n.value - k] == s[k..n.value];
        BlankSplit(s, k, n.value);
        PrefixedTwice(BlankAll(s[..k]), BlankAll(s[k..n.value]), Mask(s[n.value..], 0, false));
        assert depth' == 0 ==> n.value == k && BlankAll(s[..k]) + "" == BlankAll(s[..k]);
      }
    }
  }

  lemma {:induction false} BlankSplit(s: string, k: nat, n: nat)
    requires k <= n <= |s|
    ensures BlankAll(s[..n]) == BlankAll(s[..k]) + BlankAll(s[k..n])
    decreases k
  {
    if k == 0 {
      assert s[0..n] == s[..n];
    } else {
      assert s[..n][1..] == s[1..][..n - 1] && s[..k][1..] == s[1..][..k - 1] && s[k..n] == s[1..][k - 1..n - 1];
      BlankSplit(s[1..], k - 1, n - 1);
    }
  }

  lemma {:induction false} QuoteMasked(s: string)
    ensures var n := QuoteEnd(s);
            Mask(s, 0, true)
            == if n.None? then None else Prefixed(BlankString(s[..n.value]), Mask(s[n.value..], 0, false))
    decreases |s|
  {
    var n := QuoteEnd(s);
    if s != "" && s[0] != '"' && !(s[0] == '\\' && |s| == 1) {
      var k := if s[0] == '\\' then 2 else 1;
      QuoteMasked(s[k..]);
      if n.Some? {
        var t := s[..n.value];
        assert s[k..][n.value - k..] == s[n.value..] && t[k..] == s[k..][..n.value - k];
        PrefixedTwice(if k == 2 then "  " else [Blank(s[0])], BlankString(t[k..]), Mask(s[n.value..], 0, false));
      }
    } else if s != "" && s[0] == '"' {
      assert s[..1] == "\"" && BlankString("\"") == " ";
    }
  }

  // ----- Masking follows the tokens -----

  lemma OneCharacter(t: string, depth: nat)
    requires |t| == 1 && depth > 0
    ensures BlockEnd(t, depth).None?
  {
    assert t[1..] == "";
  }

  lemma {:induction false} BlockEndJoin(t: string, u: string, depth: nat)
    requires BlockEnd(t, depth).Some?
    ensures BlockEnd(t + u, depth) == BlockEnd(t, depth)
    decreases |t|
  {
    if depth > 0 {
      var (k, depth') := BlockStep(t, depth);
      BlockSteps(t, depth);
      if |t| == 1 {
        OneCharacter(t, depth);
      } else {
        assert (t + u)[0] == t[0] && (t + u)[1] == t[1];
        BlockSteps(t + u, depth);
        assert BlockStep(t + u, depth) == (k, depth');
        assert (t + u)[k..] == t[k..] + u;
        BlockEndJoin(t[k..], u, depth');
      }
    }
  }

  lemma {:induction false} QuoteEndJoin(t: string, u: string)
    requires QuoteEnd(t).Some?
    ensures QuoteEnd(t + u) == QuoteEnd(t)
    decreases |t|
  {
    if t[0] != '"' {
      var k := if t[0] == '\\' then 2 else 1;
      assert (t + u)[0] == t[0] && (t + u)[k..] == t[k..] + u;
      QuoteEndJoin(t[k..], u);
    }
  }

  lemma {:induction false} LineLengthJoin(t: string, u: string)
    requires LineLength(t) == |t| && (u == "" || u[0] == '\n')
    ensures LineLength(t + u) == |t|
  {
    if t == "" {
      assert t + u == u;
    } else {
      assert (t + u)[1..] == t[1..] + u;
      LineLengthJoin(t[1..], u);
    }
  }

  lemma LineMasked(text: string, after: string)
    requires Lexed(LineComment(text), after)
    ensures Mask(text + after, 0, false) == Prefixed(Blanks(|text|), Mask(after, 0, false))
  {
    LineLengthJoin(text, after);
    assert Starts(text + after, "--") && (text + after)[|text|..] == after;
  }

  lemma BlankOpening(text: string)
    requires Starts(text, "/-")
    ensures BlankAll(text) == "  " + BlankAll(text[2..])
  {
    assert text[1..][1..] == text[2..] && text[0] == '/' && text[1] == '-';
    assert " " + (" " + BlankAll(text[2..])) == "  " + BlankAll(text[2..]);
  }

  /** A comment and what follows, from behind its opening. */
  lemma InsideComment(inner: string, after: string)
    requires BlockEnd(inner, 1) == Some(|inner|)
    ensures Mask(inner + after, 1, false) == Prefixed(BlankAll(inner), Mask(after, 0, false))
  {
    BlockEndJoin(inner, after, 1);
    BlockMasked(inner + after, 1);
    assert (inner + after)[..|inner|] == inner && (inner + after)[|inner|..] == after;
  }

  lemma CommentOpens(s: string, r: Option<string>)
    requires Starts(s, "/-") && Mask(s[2..], 1, false) == r
    ensures Mask(s, 0, false) == Prefixed("  ", r)
  {
    assert s[0] == '/' && s[1] == '-';
  }

  lemma CommentMasked(text: string, after: string)
    requires Lexed(BlockComment(text), after)
    ensures Mask(text + after, 0, false) == Prefixed(BlankAll(text), Mask(after, 0, false))
  {
    var inner := text[2..];
    assert (text + after)[2..] == inner + after && (text + after)[0] == '/' && (text + after)[1] == '-';
    InsideComment(inner, after);
    CommentOpens(text + after, Prefixed(BlankAll(inner), Mask(after, 0, false)));
    BlankOpening(text);
    PrefixedTwice("  ", BlankAll(inner), Mask(after, 0, false));
  }

  lemma BlankQuote(text: string)
    requires Starts(text, "\"")
    ensures BlankString(text) == " " + BlankString(text[1..])
  {
    assert text[0] == '"';
  }

  /** The mask of a text, folded. */
  ghost predicate Masks(s: string, quoted: bool, r: Option<string>) {
    forall at: nat {:trigger Unfolded(at)} :: Unfolded(at) ==> Mask(s, 0, quoted) == r
  }

  /** A string and what follows, from behind its opening quote. */
  lemma InnerMasked(inner: string, after: string, r: Option<string>)
    requires QuoteEnd(inner) == Some(|inner|) && Masks(after, false, r)
    ensures Masks(inner + after, true, Prefixed(BlankString(inner), r))
  {
    assert Unfolded(0);
    QuoteEndJoin(inner, after);
    QuoteMasked(inner + after);
    assert (inner + after)[..|inner|] == inner && (inner + after)[|inner|..] == after;
  }

  lemma StringOpens(s: string, r: Option<string>)
    requires Starts(s, "\"") && Masks(s[1..], true, r)
    ensures Masks(s, false, Prefixed(" ", r))
  {
    assert Unfolded(0);
    assert s[0] == '"';
  }

  lemma StringMasked(text: string, after: string, r: Option<string>)
    requires Lexed(Quoted(text), after) && Masks(after, false, r)
    ensures Masks(text + after, false, Prefixed(BlankString(text), r))
  {
    InnerMasked(text[1..], after, r);
    assert (text + after)[0] == text[0] && (text + after)[1..] == text[1..] + after;
    StringOpens(text + after, Prefixed(BlankString(text[1..]), r));
    BlankQuote(text);
    PrefixedTwice(" ", BlankString(text[1..]), r);
  }

  lemma OtherMasked(t: Token, after: string)
    requires Lexed(t, after) && !t.Quoted?
    ensures Mask(TextOf(t) + after, 0, false) == Prefixed(Masked(t), Mask(after, 0, false))
  {
    match t
    case Char(c) => assert ([c] + after)[1..] == after;
    case LineComment(text) => LineMasked(text, after);
    case BlockComment(text) => CommentMasked(text, after);
  }

  lemma TokenMasked(t: Token, after: string, r: Option<string>)
    requires Lexed(t, after) && Masks(after, false, r)
    ensures Masks(TextOf(t) + after, false, Prefixed(Masked(t), r))
  {
    if t.Quoted? {
      StringMasked(t.text, after, r);
    } else {
      assert Unfolded(0);
      OtherMasked(t, after);
    }
  }

  /** However a text falls into complete tokens, its code is kept as it is and its comments and
      strings are blanked. */
  lemma {:induction false} MaskingFollowsTokens(tokens: seq<Token>)
    requires WellFormed(tokens)
    ensures Mask(Render(tokens), 0, false) == Some(MaskedAll(tokens))
  {
    if tokens != [] {
      MaskingFollowsTokens(tokens[1..]);
      TokenMasked(tokens[0], Render(tokens[1..]), Some(MaskedAll(tokens[1..])));
      assert Unfolded(0);
    }
  }

  lemma SlicedTwice(s: string, k: nat, n: nat)
    requires k <= n <= |s|
    ensures s[..n][k..] == s[k..][..n - k]
  {
  }

  /** A step that ends within the first characters is the step of those characters. */
  lemma StepKept(s: string, depth: nat, n: nat)
    requires s != "" && depth > 0 && 0 < n <= |s|
    requires n == 1 ==> BlockStep(s, depth).0 == 1
    ensures BlockStep(s[..n], depth) == BlockStep(s, depth)
  {
    assert s[..n][0] == s[0];
    if n > 1 {
      assert s[..n][1] == s[1];
    }
  }

  lemma {:induction false} BlockEndKept(s: string, depth: nat, n: nat)
    requires BlockEnd(s, depth) == Some(n)
    ensures BlockEnd(s[..n], depth) == Some(n)
    decreases |s|
  {
    if depth > 0 {
      var (k, depth') := BlockStep(s, depth);
      BlockSteps(s, depth);
      StepKept(s, depth, n);
      BlockSteps(s[..n], depth);
      SlicedTwice(s, k, n);
      BlockEndKept(s[k..], depth', n - k);
    }
  }

  lemma {:induction false} QuoteEndKept(s: string, n: nat)
    requires QuoteEnd(s) == Some(n)
    ensures n > 0 && QuoteEnd(s[..n]) == Some(n)
    decreases |s|
  {
    if s[0] != '"' {
      var k := if s[0] == '\\' then 2 else 1;
      QuoteEndKept(s[k..], n - k);
      SlicedTwice(s, k, n);
    }
  }

  lemma {:induction false} LineLengthKept(s: string)
    ensures LineLength(s[..LineLength(s)]) == LineLength(s)
  {
    if s != "" && s[0] != '\n' {
      LineLengthKept(s[1..]);
      assert s[..LineLength(s)][1..] == s[1..][..LineLength(s) - 1];
    }
  }

  lemma LineToken(s: string) returns (n: nat)
    requires Starts(s, "--")
    ensures 0 < n <= |s| && Lexed(LineComment(s[..n]), s[n..])
  {
    n := LineLength(s);
    LineGoesOn(s);
    LineLengthKept(s);
  }

  /** The scan gets through a comment only to its end. */
  lemma InsideBlock(s: string)
    requires Mask(s, 1, false).Some?
    ensures BlockEnd(s, 1).Some?
  {
    BlockMasked(s, 1);
  }

  lemma InsideQuote(s: string)
    requires Mask(s, 0, true).Some?
    ensures QuoteEnd(s).Some?
  {
    QuoteMasked(s);
  }

  lemma BlockToken(s: string, inner: string, n: nat)
    requires s == "/-" + inner && BlockEnd(inner, 1) == Some(n)
    ensures n + 2 <= |s| && Lexed(BlockComment(s[..n + 2]), s[n + 2..])
  {
    BlockEndKept(inner, 1, n);
    assert s[..n + 2] == "/-" + inner[..n] && s[..n + 2][2..] == inner[..n];
  }

  lemma QuoteToken(s: string, inner: string, n: nat)
    requires s == "\"" + inner && QuoteEnd(inner) == Some(n)
    ensures n + 1 <= |s| && Lexed(Quoted(s[..n + 1]), s[n + 1..])
  {
    QuoteEndKept(inner, n);
    assert s[..n + 1] == "\"" + inner[..n] && s[..n + 1][1..] == inner[..n];
  }

  /** What the scan goes into from code. */
  lemma Inside(s: string)
    requires s != "" && Mask(s, 0, false).Some?
    ensures !Starts(s, "--") && Starts(s, "/-") ==> Mask(s[2..], 1, false).Some?
    ensures s[0] == '"' ==> Mask(s[1..], 0, true).Some?
  {
  }

  /** The text is this token and what follows it. */
  ghost predicate Splits(s: string, t: Token, after: string) {
    s == TextOf(t) + after && TextOf(t) != "" && Lexed(t, after)
  }

  lemma LineFirst(s: string) returns (t: Token, after: string)
    requires Starts(s, "--")
    ensures Splits(s, t, after)
  {
    var n := LineToken(s);
    t, after := LineComment(s[..n]), s[n..];
  }

  lemma BlockFirst(s: string) returns (t: Token, after: string)
    requires Starts(s, "/-") && BlockEnd(s[2..], 1).Some?
    ensures Splits(s, t, after)
  {
    var n := BlockEnd(s[2..], 1).value + 2;
    assert s == "/-" + s[2..];
    BlockToken(s, s[2..], n - 2);
    t, after := BlockComment(s[..n]), s[n..];
  }

  lemma QuoteFirst(s: string) returns (t: Token, after: string)
    requires Starts(s, "\"") && QuoteEnd(s[1..]).Some?
    ensures Splits(s, t, after)
  {
    var n := QuoteEnd(s[1..]).value + 1;
    assert s == "\"" + s[1..];
    QuoteToken(s, s[1..], n - 1);
    t, after := Quoted(s[..n]), s[n..];
  }

  lemma CharFirst(s: string) returns (t: Token, after: string)
    requires s != "" && !Starts(s, "--") && !Starts(s, "/-") && s[0] != '"'
    ensures Splits(s, t, after)
  {
    t, after := Char(s[0]), s[1..];
    assert [s[0]] + s[1..] == s;
  }

  /** Inside what the text opens with, the scan comes to the end of it. */
  lemma OpenedEnds(s: string)
    requires s != "" && Mask(s, 0, false).Some?
    ensures !Starts(s, "--") && Starts(s, "/-") ==> BlockEnd(s[2..], 1).Some?
    ensures s[0] == '"' ==> QuoteEnd(s[1..]).Some?
  {
    Inside(s);
    if !Starts(s, "--") && Starts(s, "/-") {
      InsideBlock(s[2..]);
    }
    if s[0] == '"' {
      InsideQuote(s[1..]);
    }
  }

  /** The first token of a text the scan gets through. */
  lemma FirstToken(s: string) returns (t: Token, after: string)
    requires s != "" && Mask(s, 0, false).Some?
    ensures Splits(s, t, after)
  {
    OpenedEnds(s);
    if Starts(s, "--") {
      t, after := LineFirst(s);
    } else if Starts(s, "/-") {
      t, after := BlockFirst(s);
    } else if s[0] == '"' {
      t, after := QuoteFirst(s);
    } else {
      t, after := CharFirst(s);
    }
  }

  /** ... and every text the scan gets through falls into such tokens. */
  lemma {:induction false} EveryMaskedTextIsTokens(s: string) returns (tokens: seq<Token>)
    requires Mask(s, 0, false).Some?
    ensures WellFormed(tokens) && Render(tokens) == s && Mask(s, 0, false) == Some(MaskedAll(tokens))
    decreases |s|
  {
    if s == "" {
      tokens := [];
    } else {
      var t, after := FirstToken(s);
      TokenMasked(t, after, Mask(after, 0, false));
      assert Unfolded(0);
      var rest := EveryMaskedTextIsTokens(after);
      tokens := [t] + rest;
      assert tokens[1..] == rest;
    }
  }

  // ----- What the result looks like -----

  /** Position for position: a character is kept or blanked, and a newline is kept, but for one
      escaped in a string. */
  ghost predicate SameShape(s: string, r: string) {
    |r| == |s| && forall i: nat | i < |s| :: ShapeAt(s, r, i)
  }

  predicate ShapeAt(s: string, r: string, i: nat)
    requires i < |s| && i < |r|
  {
    r[i] == s[i] || (r[i] == ' ' && (s[i] == '\n' ==> i > 0 && s[i - 1] == '\\'))
  }

  lemma ShapeJoin(s: string, n: nat, a: string, b: string)
    requires n <= |s| && SameShape(s[..n], a) && SameShape(s[n..], b)
    ensures SameShape(s, a + b)
  {
    forall i: nat | i < |s| ensures ShapeAt(s, a + b, i) {
      if i < n {
        assert ShapeAt(s[..n], a, i);
      } else {
        assert ShapeAt(s[n..], b, i - n);
      }
    }
  }

  lemma {:induction false} MaskShape(s: string, depth: nat, quoted: bool)
    requires !(depth > 0 && quoted) && Mask(s, depth, quoted).Some?
    ensures SameShape(s, Mask(s, depth, quoted).value)
    decreases |s|
  {
    if s != "" && !(quoted && s == "\\") {
      if !quoted && depth == 0 && Starts(s, "--") {
        LineGoesOn(s);
      }
      var piece, n, depth', quoted' := PieceOf(s, depth, quoted);
      MaskShape(s[n..], depth', quoted');
      ShapeJoin(s, n, piece, Mask(s[n..], depth', quoted').value);
    }
  }

  /** The piece one step of the scan writes. */
  lemma PieceOf(s: string, depth: nat, quoted: bool) returns (piece: string, n: nat, depth': nat, quoted': bool)
    requires s != "" && !(depth > 0 && quoted) && Mask(s, depth, quoted).Some?
    ensures 0 < n <= |s| && |piece| == n && SameShape(s[..n], piece) && !(depth' > 0 && quoted')
    ensures Mask(s, depth, quoted) == Prefixed(piece, Mask(s[n..], depth', quoted'))
    ensures (forall i | 0 <= i < n :: piece[i] == ' ' || piece[i] == '\n')
            || (n == 1 && piece == s[..1] && !quoted && depth == 0 && !quoted' && depth' == 0
                && s[0] != '"' && !Starts(s, "--") && !Starts(s, "/-"))
  {
    piece, n, depth', quoted' := [Blank(s[0])], 1, depth, quoted;
    if depth > 0 {
      if Starts(s, "/-") {
        piece, n, depth' := "  ", 2, depth + 1;
      } else if Starts(s, "-/") {
        piece, n, depth' := "  ", 2, depth - 1;
      }
    } else if quoted {
      if s[0] == '\\' {
        piece, n := "  ", 2;
      } else {
        quoted' := s[0] != '"';
      }
    } else if Starts(s, "--") {
      n := LineLength(s);
      piece := Blanks(n);
      LineGoesOn(s);
    } else if Starts(s, "/-") {
      piece, n, depth' := "  ", 2, 1;
    } else if s[0] == '"' {
      piece, quoted' := " ", true;
    } else {
      piece := s[..1];
      assert s[..1] == [s[0]];
    }
  }

  /** Nothing in the text opens a comment or a string. */
  ghost predicate Clean(t: string) {
    forall i | 0 <= i < |t| :: OpensNothing(t, i)
  }

  predicate OpensNothing(t: string, i: nat)
    requires i < |t|
  {
    t[i] != '"' && !(i + 1 < |t| && t[i + 1] == '-' && (t[i] == '-' || t[i] == '/'))
  }

  lemma CleanJoin(piece: string, r: string)
    requires Clean(r) && forall i | 0 <= i < |piece| :: piece[i] == ' ' || piece[i] == '\n'
    ensures Clean(piece + r)
  {
    var t := piece + r;
    forall i | 0 <= i < |t| ensures OpensNothing(t, i) {
      if i >= |piece| {
        assert OpensNothing(r, i - |piece|);
      }
    }
  }

  lemma CleanFront(c: char, r: string)
    requires Clean(r) && c != '"' && !(r != "" && r[0] == '-' && (c == '-' || c == '/'))
    ensures Clean([c] + r)
  {
    var t := [c] + r;
    forall i | 0 <= i < |t| ensures OpensNothing(t, i) {
      if i >= 1 {
        assert OpensNothing(r, i - 1);
      }
    }
  }

  /** The result opens no comment and holds no quote. */
  lemma {:induction false} MaskedIsClean(s: string, depth: nat, quoted: bool)
    requires !(depth > 0 && quoted) && Mask(s, depth, quoted).Some?
    ensures Clean(Mask(s, depth, quoted).value)
    decreases |s|
  {
    if s != "" {
      var piece, n, depth', quoted' := PieceOf(s, depth, quoted);
      var r := Mask(s[n..], depth', quoted').value;
      MaskedIsClean(s[n..], depth', quoted');
      if forall i | 0 <= i < n :: piece[i] == ' ' || piece[i] == '\n' {
        CleanJoin(piece, r);
      } else {
        MaskShape(s[1..], 0, false);
        assert r != "" ==> r[0] == s[1..][0] || r[0] == ' ';
        assert piece == [s[0]];
        CleanFront(s[0], r);
      }
    }
  }

  /** A text is left as it is exactly when it opens nothing. */
  lemma {:induction false} CleanIsKept(t: string)
    requires Clean(t)
    ensures Mask(t, 0, false) == Some(t)
  {
    if t != "" {
      assert OpensNothing(t, 0);
      forall i | 0 <= i < |t[1..]| ensures OpensNothing(t[1..], i) {
        assert OpensNothing(t, i + 1);
      }
      CleanIsKept(t[1..]);
      assert t == [t[0]] + t[1..];
    }
  }

  /** What masking makes of any text: the same shape, nothing opened, and masking it again changes
      nothing. */
  lemma MaskingIsIdempotent(s: string)
    requires Mask(s, 0, false).Some?
    ensures var r := Mask(s, 0, false).value;
            && SameShape(s, r) && Clean(r) && Mask(r, 0, false) == Some(r)
            && (r == s <==> Clean(s))
  {
    MaskShape(s, 0, false);
    MaskedIsClean(s, 0, false);
    CleanIsKept(Mask(s, 0, false).value);
    if Clean(s) {
      CleanIsKept(s);
    }
  }
}
