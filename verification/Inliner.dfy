/** Flattening an import closure of published modules into one self-contained file. */
module Inliner {
  import opened Basics
  import Commons
  import opened Graphs

  type Name = Vertex   // a commons module's name

  datatype Word = CommonsModule(name: Name) | Environment(text: string)

  /** A scope command: one that opens a scope, with its label or none, or an `end`. */
  datatype Scope = Opens(title: string) | Closes

  /** What the scanner makes of a line: nothing but blanks and comments, only module names after
      `import`, or code with its scope commands. */
  datatype Reading = Blank | Import(words: seq<Word>) | Code(scopes: seq<Scope>)

  datatype Line = Line(text: string, reading: Reading)

  datatype Module = Module(name: string, node: string, rank: string, stale: bool, lines: seq<Line>)

  type Resolver = imap<Name, Module>

  // ----- The imports at the top of a source -----

  /** A source taken apart: the commons modules and environment import lines at its top, and the
      lines from the first that is neither, with that line's index. */
  datatype Parts = Parts(modules: seq<Name>, env: seq<string>, rest: seq<Line>, first: nat)

  function CommonsNames(words: seq<Word>, seen: seq<Name>): (r: seq<Name>)
    ensures forall n :: n in r <==> CommonsModule(n) in words && n !in seen
  {
    if words == [] then []
    else
      (if words[0].CommonsModule? && words[0].name !in seen then [words[0].name] else [])
        + CommonsNames(words[1..], seen)
  }

  function Others(words: seq<Word>): seq<string> {
    if words == [] then []
    else (if words[0].Environment? then [words[0].text] else []) + Others(words[1..])
  }

  function Spaced(texts: seq<string>): string {
    if texts == [] then "" else " " + texts[0] + Spaced(texts[1..])
  }

  function EnvLine(words: seq<Word>): seq<string> {
    if Others(words) == [] then [] else ["import" + Spaced(Others(words))]
  }

  /** A name is listed once, unless one import line repeats it. */
  function ModulesOf(lines: seq<Line>): (r: seq<Name>)
    ensures forall n :: n in r <==> exists i :: 0 <= i < |lines| && lines[i].reading.Import? && CommonsModule(n) in lines[i].reading.words
  {
    if lines == [] then []
    else
      var init, last := lines[..|lines| - 1], lines[|lines| - 1].reading;
      var before := ModulesOf(init);
      assert lines == init + [lines[|lines| - 1]];
      assert forall i | 0 <= i < |init| :: init[i] == lines[i];
      if last.Import? then before + CommonsNames(last.words, before) else before
  }

  function EnvOf(lines: seq<Line>): seq<string> {
    if lines == [] then []
    else
      var last := lines[|lines| - 1].reading;
      EnvOf(lines[..|lines| - 1]) + if last.Import? then EnvLine(last.words) else []
  }

  function FirstCode(lines: seq<Line>): (k: nat)
    ensures k <= |lines| && (forall i | 0 <= i < k :: !lines[i].reading.Code?)
    ensures k < |lines| ==> lines[k].reading.Code?
  {
    if lines == [] || lines[0].reading.Code? then 0 else 1 + FirstCode(lines[1..])
  }

  function AfterImports(lines: seq<Line>): (k: nat)
    ensures k <= |lines| && (k > 0 ==> lines[k - 1].reading.Import?)
    ensures forall i | k <= i < |lines| :: !lines[i].reading.Import?
  {
    if lines == [] then 0
    else if lines[|lines| - 1].reading.Import? then |lines|
    else AfterImports(lines[..|lines| - 1])
  }

  function Split(lines: seq<Line>): Parts {
    var k := FirstCode(lines);
    var first := if k < |lines| then k else AfterImports(lines);
    Parts(ModulesOf(lines[..k]), EnvOf(lines[..k]), lines[first..], first)
  }

  lemma FirstCodeIs(lines: seq<Line>, k: nat)
    requires k <= |lines| && (k < |lines| ==> lines[k].reading.Code?)
    requires forall i | 0 <= i < k :: !lines[i].reading.Code?
    ensures FirstCode(lines) == k
  {
  }

  method SplitImports(lines: seq<Line>) returns (parts: Parts)
    ensures parts == Split(lines)
  {
    var modules: seq<Name>, env: seq<string>, end := [], [], 0;
    for index := 0 to |lines|
      invariant modules == ModulesOf(lines[..index]) && env == EnvOf(lines[..index])
      invariant end == AfterImports(lines[..index])
      invariant forall i | 0 <= i < index :: !lines[i].reading.Code?
    {
      var reading := lines[index].reading;
      assert lines[..index + 1][..index] == lines[..index];
      if reading.Code? {
        FirstCodeIs(lines, index);
        return Parts(modules, env, lines[index..], index);
      }
      if reading.Import? {
        modules := modules + CommonsNames(reading.words, modules);
        env := env + EnvLine(reading.words);
        end := index + 1;
      }
    }
    FirstCodeIs(lines, |lines|);
    assert lines[..|lines|] == lines;
    return Parts(modules, env, lines[end..], end);
  }

  // ----- What the parts are, line by line -----

  predicate HasEnvironment(words: seq<Word>) {
    exists w :: w in words && w.Environment?
  }

  /** The environment words of a line, in their order, each after one space; nothing else. */
  ghost predicate WordsSpelled(text: string, words: seq<Word>)
    decreases |words|
  {
    if words == [] then text == ""
    else
      match words[0]
      case CommonsModule(_) => WordsSpelled(text, words[1..])
      case Environment(word) => Starts(text, " " + word) && WordsSpelled(text[|word| + 1..], words[1..])
  }

  /** The line that stands for an import line's environment words. */
  ghost predicate EnvironmentImport(text: string, words: seq<Word>) {
    Starts(text, "import") && WordsSpelled(text[6..], words)
  }

  lemma {:induction false} SpacedSpells(words: seq<Word>)
    ensures WordsSpelled(Spaced(Others(words)), words)
    ensures Others(words) == [] <==> !HasEnvironment(words)
  {
    if words != [] {
      var more := Others(words[1..]);
      SpacedSpells(words[1..]);
      assert forall w | w in words[1..] :: w in words;
      match words[0]
      case CommonsModule(_) => assert Others(words) == more;
      case Environment(word) =>
        var text := Spaced(Others(words));
        assert Others(words) == [word] + more && ([word] + more)[1..] == more;
        assert text == " " + word + Spaced(more) && text[|word| + 1..] == Spaced(more);
        assert words[0] in words;
    }
  }

  lemma EnvLineImports(words: seq<Word>)
    ensures EnvLine(words) == [] || |EnvLine(words)| == 1
    ensures EnvLine(words) == [] <==> !HasEnvironment(words)
    ensures EnvLine(words) != [] ==> EnvironmentImport(EnvLine(words)[0], words)
  {
    SpacedSpells(words);
    if EnvLine(words) != [] {
      assert EnvLine(words)[0][6..] == Spaced(Others(words));
    }
  }

  ghost predicate ImportsEnvironment(line: Line) {
    line.reading.Import? && HasEnvironment(line.reading.words)
  }

  /** One environment import for each import line with environment words, in their order: `at` says which
      line each is of. */
  ghost predicate EnvAt(lines: seq<Line>, env: seq<string>, at: seq<nat>) {
    && |at| == |env|
    && (forall k | 0 <= k < |at| ::
          at[k] < |lines| && ImportsEnvironment(lines[at[k]]) && EnvironmentImport(env[k], lines[at[k]].reading.words))
    && (forall i, j | 0 <= i < j < |at| :: at[i] < at[j])
    && forall i: nat | i < |lines| && ImportsEnvironment(lines[i]) :: i in at
  }

  lemma {:induction false} EnvLinesAre(lines: seq<Line>) returns (at: seq<nat>)
    ensures EnvAt(lines, EnvOf(lines), at)
  {
    if lines == [] {
      at := [];
    } else {
      var n := |lines| - 1;
      var init, last := lines[..n], lines[n];
      var before := EnvLinesAre(init);
      at := before + if ImportsEnvironment(last) then [n] else [];
      if last.reading.Import? {
        EnvLineImports(last.reading.words);
      }
      EnvAtMore(init, EnvOf(init), before, last, EnvOf(lines), at);
      assert lines == init + [last];
    }
  }

  lemma EnvAtMore(init: seq<Line>, env: seq<string>, at: seq<nat>, last: Line, env': seq<string>, at': seq<nat>)
    requires EnvAt(init, env, at)
    requires if ImportsEnvironment(last) then |env'| == |env| + 1 && env' == env + [env'[|env|]]
                                              && EnvironmentImport(env'[|env|], last.reading.words) && at' == at + [|init|]
             else env' == env && at' == at
    ensures EnvAt(init + [last], env', at')
  {
    forall i: nat | i < |init| + 1 && ImportsEnvironment((init + [last])[i]) ensures i in at' {
      if i < |init| {
        assert i in at;
      }
    }
  }

  /** A source's parts by its lines: with `k` its first line of code, or its end, the modules and the
      environment imports are those of the import lines before `k`; and what is left is from `k`, or,
      without any code, from behind the last import. */
  lemma SplitIs(lines: seq<Line>, k: nat) returns (at: seq<nat>)
    requires k <= |lines| && (k < |lines| ==> lines[k].reading.Code?) && forall i | 0 <= i < k :: !lines[i].reading.Code?
    ensures var parts := Split(lines);
            && parts.first <= |lines| && parts.rest == lines[parts.first..]
            && (k < |lines| ==> parts.first == k)
            && (k == |lines| ==>
                  && (parts.first > 0 ==> lines[parts.first - 1].reading.Import?)
                  && forall i | parts.first <= i < |lines| :: !lines[i].reading.Import?)
            && (forall n :: n in parts.modules
                  <==> exists i :: 0 <= i < k && lines[i].reading.Import? && CommonsModule(n) in lines[i].reading.words)
            && EnvAt(lines[..k], parts.env, at)
  {
    FirstCodeIs(lines, k);
    at := EnvLinesAre(lines[..k]);
    forall i | 0 <= i < k ensures lines[..k][i] == lines[i] {
    }
  }

  // ----- Scopes -----

  /** The labels of the scopes open after some commands, outermost first; None when an `end` closes
      a scope that was never opened. */
  function Run(stack: Option<seq<string>>, scopes: seq<Scope>): Option<seq<string>> {
    if scopes == [] then stack
    else
      match Run(stack, scopes[..|scopes| - 1])
      case None => None
      case Some(open) =>
        match scopes[|scopes| - 1]
        case Opens(title) => Some(open + [title])
        case Closes => if open == [] then None else Some(open[..|open| - 1])
  }

  function ScopesOf(lines: seq<Line>): seq<Scope> {
    if lines == [] then []
    else
      var last := lines[|lines| - 1].reading;
      ScopesOf(lines[..|lines| - 1]) + if last.Code? then last.scopes else []
  }

  function Closer(title: string): Line {
    Line(if title == "" then "end" else "end " + title, Code([Closes]))
  }

  /** `end` lines for open scopes, innermost first. */
  function ClosersFor(open: seq<string>): seq<Line> {
    if open == [] then [] else [Closer(open[|open| - 1])] + ClosersFor(open[..|open| - 1])
  }

  /** The `end` lines for what a module leaves open; None refuses an `end` it never opened. */
  method ScopeClosers(lines: seq<Line>) returns (closers: Option<seq<Line>>)
    ensures var open := Run(Some([]), ScopesOf(lines));
            closers == if open.None? then None else Some(ClosersFor(open.value))
  {
    var scopes := ScopesOf(lines);
    var stack: seq<string> := [];
    for i := 0 to |scopes|
      invariant Run(Some([]), scopes[..i]) == Some(stack)
    {
      assert scopes[..i + 1][..i] == scopes[..i];
      if scopes[i] == Closes {
        if stack == [] {
          StaysNone(scopes, i + 1);
          return None;
        }
        stack := stack[..|stack| - 1];
      } else {
        stack := stack + [scopes[i].title];
      }
    }
    assert scopes[..|scopes|] == scopes;
    return Some(ClosersFor(stack));
  }

  lemma {:induction false} StaysNone(scopes: seq<Scope>, k: nat)
    requires k <= |scopes| && Run(Some([]), scopes[..k]).None?
    ensures Run(Some([]), scopes).None?
    decreases |scopes| - k
  {
    if k < |scopes| {
      assert scopes[..k + 1][..k] == scopes[..k];
      StaysNone(scopes, k + 1);
    } else {
      assert scopes[..k] == scopes;
    }
  }

  /** How many more scopes the commands from `i` up to `j` open than close. */
  function Net(scopes: seq<Scope>, i: nat, j: nat): int
    requires j <= |scopes|
  {
    if j <= i then 0 else Net(scopes, i, j - 1) + if scopes[j - 1].Opens? then 1 else -1
  }

  /** The i-th command opens a scope, and none of those after it, up to the n-th, closes it. */
  ghost predicate StillOpen(scopes: seq<Scope>, i: nat, n: nat)
    requires n <= |scopes|
  {
    i < n && scopes[i].Opens? && NeverBelow(scopes, i + 1, n)
  }

  ghost predicate NeverBelow(scopes: seq<Scope>, i: nat, n: nat)
    requires n <= |scopes|
  {
    forall j | i <= j <= n :: Net(scopes, i, j) >= 0
  }

  /** The places of the scopes still open, outermost first, and how deep each is. */
  ghost predicate OpenAt(scopes: seq<Scope>, n: nat, open: seq<string>, at: seq<nat>)
    requires n <= |scopes|
  {
    && |at| == |open| == Net(scopes, 0, n)
    && (forall i, j | 0 <= i < j < |at| :: at[i] < at[j])
    && (forall k | 0 <= k < |at| ::
          StillOpen(scopes, at[k], n) && scopes[at[k]].title == open[k] && Net(scopes, at[k] + 1, n) == |at| - 1 - k)
    && forall i: nat | StillOpen(scopes, i, n) :: i in at
  }

  /** The stack after `n` commands: none when at some point more scopes were closed than opened; else the
      labels of exactly the scopes still open, outermost first. */
  lemma {:induction false} RunIsMatching(scopes: seq<Scope>, n: nat) returns (at: seq<nat>)
    requires n <= |scopes|
    ensures var open := Run(Some([]), scopes[..n]);
            if open.None? then exists j :: 0 <= j <= n && Net(scopes, 0, j) < 0
            else OpenAt(scopes, n, open.value, at) && forall j | 0 <= j <= n :: Net(scopes, 0, j) >= 0
  {
    if n == 0 {
      at := [];
      assert scopes[..0] == [];
    } else {
      var before := RunIsMatching(scopes, n - 1);
      assert scopes[..n][..n - 1] == scopes[..n - 1];
      var open := Run(Some([]), scopes[..n - 1]);
      at := before;
      if open.Some? {
        if scopes[n - 1].Opens? {
          at := before + [n - 1];
          OneMoreOpen(scopes, n - 1, open.value, before);
        } else if open.value != [] {
          at := before[..|before| - 1];
          OneClosed(scopes, n - 1, open.value, before);
        } else {
          assert Net(scopes, 0, n) < 0;
        }
      }
    }
  }

  lemma StillOpenNext(scopes: seq<Scope>, i: nat, n: nat)
    requires n < |scopes|
    ensures StillOpen(scopes, i, n + 1)
            <==> (StillOpen(scopes, i, n) && Net(scopes, i + 1, n + 1) >= 0) || (i == n && scopes[n].Opens?)
  {
    assert StillOpen(scopes, i, n) && Net(scopes, i + 1, n + 1) >= 0 ==> NeverBelow(scopes, i + 1, n + 1);
  }

  lemma OneMoreOpen(scopes: seq<Scope>, n: nat, open: seq<string>, at: seq<nat>)
    requires n < |scopes| && scopes[n].Opens? && OpenAt(scopes, n, open, at)
    ensures OpenAt(scopes, n + 1, open + [scopes[n].title], at + [n])
  {
    forall i: nat ensures StillOpen(scopes, i, n + 1)
                          <==> (StillOpen(scopes, i, n) && Net(scopes, i + 1, n + 1) >= 0) || i == n {
      StillOpenNext(scopes, i, n);
    }
  }

  lemma OneClosed(scopes: seq<Scope>, n: nat, open: seq<string>, at: seq<nat>)
    requires n < |scopes| && scopes[n].Closes? && OpenAt(scopes, n, open, at) && open != []
    ensures OpenAt(scopes, n + 1, open[..|open| - 1], at[..|at| - 1])
  {
    var at' := at[..|at| - 1];
    forall i: nat ensures StillOpen(scopes, i, n + 1) <==> StillOpen(scopes, i, n) && Net(scopes, i + 1, n + 1) >= 0 {
      StillOpenNext(scopes, i, n);
    }
    forall i: nat | StillOpen(scopes, i, n + 1) ensures i in at' {
      assert StillOpen(scopes, i, n) && i in at;
      var k :| 0 <= k < |at| && at[k] == i;
      assert Net(scopes, i + 1, n) == |at| - 1 - k;
      assert at'[k] == i;
    }
  }

  // ----- Sizes -----

  function CharBytes(c: char): nat {
    if c < '\U{80}' then 1 else if c < '\U{800}' then 2 else if c < '\U{10000}' then 3 else 4
  }

  /** A text's length in UTF-8. */
  function Bytes(text: string): nat {
    if text == "" then 0 else CharBytes(text[0]) + Bytes(text[1..])
  }

  /** A character's bytes (RFC 3629, section 3). */
  function Utf8(c: char): seq<int> {
    var n := c as int;
    if n < 0x80 then [n]
    else if n < 0x800 then [0xC0 + n / 64, 0x80 + n % 64]
    else if n < 0x1_0000 then [0xE0 + n / 64 / 64, 0x80 + n / 64 % 64, 0x80 + n % 64]
    else [0xF0 + n / 64 / 64 / 64, 0x80 + n / 64 / 64 % 64, 0x80 + n / 64 % 64, 0x80 + n % 64]
  }

  /** The number of some six-bit bytes after what the first one held. */
  function Continued(first: int, more: seq<int>): int {
    if more == [] then first else 64 * Continued(first, more[..|more| - 1]) + more[|more| - 1] - 0x80
  }

  /** The code point of one character's bytes, by how the first one starts. */
  function FromUtf8(bytes: seq<int>): int
    requires bytes != []
  {
    var first := bytes[0];
    Continued(if first < 0x80 then first else if first < 0xE0 then first - 0xC0 else if first < 0xF0 then first - 0xE0 else first - 0xF0,
              bytes[1..])
  }

  lemma Divided(n: nat)
    ensures n == 64 * (n / 64) + n % 64
  {
  }

  /** A character takes as many bytes as its UTF-8 has, and is read back from them. */
  lemma Utf8Reads(c: char)
    ensures |Utf8(c)| == CharBytes(c) && FromUtf8(Utf8(c)) == c as int
    ensures forall i | 0 <= i < |Utf8(c)| :: 0 <= Utf8(c)[i] < 256 && (i > 0 ==> 0x80 <= Utf8(c)[i] < 0xC0)
    ensures |Utf8(c)| > 1 ==> Utf8(c)[0] >= 0xC0
  {
    var n := c as int;
    var bytes := Utf8(c);
    Divided(n);
    Divided(n / 64);
    Divided(n / 64 / 64);
    if |bytes| == 1 {
      assert bytes[1..] == [];
    } else if |bytes| == 2 {
      assert bytes[1..] == [0x80 + n % 64];
      OneContinued(bytes[0] - 0xC0, n % 64);
    } else if |bytes| == 3 {
      assert bytes[1..] == [0x80 + n / 64 % 64, 0x80 + n % 64];
      TwoContinued(bytes[0] - 0xE0, n / 64 % 64, n % 64);
    } else {
      assert bytes[1..] == [0x80 + n / 64 / 64 % 64, 0x80 + n / 64 % 64, 0x80 + n % 64];
      ThreeContinued(bytes[0] - 0xF0, n / 64 / 64 % 64, n / 64 % 64, n % 64);
    }
  }

  lemma OneContinued(first: int, a: int)
    ensures Continued(first, [0x80 + a]) == 64 * first + a
  {
    assert [0x80 + a][..0] == [];
  }

  lemma TwoContinued(first: int, a: int, b: int)
    ensures Continued(first, [0x80 + a, 0x80 + b]) == 64 * (64 * first + a) + b
  {
    OneContinued(first, a);
    assert [0x80 + a, 0x80 + b][..1] == [0x80 + a];
  }

  lemma ThreeContinued(first: int, a: int, b: int, c: int)
    ensures Continued(first, [0x80 + a, 0x80 + b, 0x80 + c]) == 64 * (64 * (64 * first + a) + b) + c
  {
    TwoContinued(first, a, b);
    assert [0x80 + a, 0x80 + b, 0x80 + c][..2] == [0x80 + a, 0x80 + b];
  }

  function Terminated(lines: seq<Line>): nat {
    if lines == [] then 0 else Terminated(lines[..|lines| - 1]) + Bytes(lines[|lines| - 1].text) + 1
  }

  /** The bytes of lines joined by newlines. */
  function Size(lines: seq<Line>): nat {
    if lines == [] then 0 else Terminated(lines) - 1
  }

  // ----- What is inlined -----

  ghost function ModuleGraph(resolve: Resolver): Graph {
    imap n | n in resolve :: Split(resolve[n].lines).modules
  }

  ghost predicate ReachedFrom(g: Graph, roots: seq<Name>, n: Name) {
    exists r :: r in roots && Reaches(g, r, n)
  }

  /** Everything reachable along imports from the caller's own. */
  ghost function Needed(g: Graph, roots: seq<Name>): iset<Name> {
    iset n: Name | ReachedFrom(g, roots, n)
  }

  predicate ExitAt(text: string, i: nat) {
    i + 5 <= |text| && text[i..i + 5] == "#exit"
  }

  predicate HoldsExit(text: string) {
    exists i: nat :: i < |text| && ExitAt(text, i)
  }

  /** A module that holds `#exit`, or closes a scope it never opened. */
  predicate Refusable(m: Module) {
    (exists i :: 0 <= i < |m.lines| && HoldsExit(m.lines[i].text)) || Run(Some([]), ScopesOf(m.lines)).None?
  }

  /** At some point more scopes were closed than opened. */
  ghost predicate Overcloses(scopes: seq<Scope>) {
    exists j: nat :: j <= |scopes| && Net(scopes, 0, j) < 0
  }

  lemma OvercloseIsRefused(scopes: seq<Scope>)
    ensures Run(Some([]), scopes).None? <==> Overcloses(scopes)
  {
    var at := RunIsMatching(scopes, |scopes|);
    assert scopes[..|scopes|] == scopes;
  }

  /** Refused exactly when `#exit` is somewhere in its text, or it closes a scope it never opened. */
  lemma RefusedExactly(m: Module)
    ensures Refusable(m) <==> (Overcloses(ScopesOf(m.lines)) || exists i :: 0 <= i < |m.lines| && HasExit(m.lines[i].text))
  {
    OvercloseIsRefused(ScopesOf(m.lines));
    if i :| 0 <= i < |m.lines| && HasExit(m.lines[i].text) {
      ExitIsInside(m.lines[i].text);
    }
    if i :| 0 <= i < |m.lines| && HoldsExit(m.lines[i].text) {
      ExitIsInside(m.lines[i].text);
    }
  }

  ghost predicate HasExit(text: string) {
    exists before, after :: text == before + "#exit" + after
  }

  lemma ExitIsInside(text: string)
    ensures HoldsExit(text) <==> HasExit(text)
  {
    if HoldsExit(text) {
      var i: nat :| i < |text| && ExitAt(text, i);
      assert text == text[..i] + "#exit" + text[i + 5..];
    }
    if before, after :| text == before + "#exit" + after {
      assert ExitAt(text, |before|);
    }
  }

  ghost function Accepted(resolve: Resolver): iset<Name> {
    iset n | n in resolve && !Refusable(resolve[n])
  }

  ghost predicate AllIn(s: seq<Name>, names: iset<Name>) {
    forall n | n in s :: n in names
  }

  function Body(resolve: Resolver, n: Name): seq<Line>
    requires n in resolve
  {
    Split(resolve[n].lines).rest
  }

  function BodySize(resolve: Resolver, n: Name): nat {
    if n in resolve then Size(Body(resolve, n)) else 0
  }

  /** Sizes by module. */
  type Sizes = imap<Name, nat>

  ghost function SizesOf(resolve: Resolver): Sizes {
    imap n: Name | true :: BodySize(resolve, n)
  }

  ghost function BodiesUpTo(sizes: Sizes, names: seq<Name>, k: nat): nat
    requires k <= |names|
  {
    if k == 0 then 0
    else BodiesUpTo(sizes, names, k - 1) + if names[k - 1] in sizes then sizes[names[k - 1]] else 0
  }

  /** The bytes of the modules' own lines. */
  ghost function Bodies(sizes: Sizes, names: seq<Name>): nat {
    BodiesUpTo(sizes, names, |names|)
  }

  lemma {:induction false} SamePrefix(sizes: Sizes, a: seq<Name>, b: seq<Name>, k: nat)
    requires k <= |a| && k <= |b| && forall i | 0 <= i < k :: a[i] == b[i]
    ensures BodiesUpTo(sizes, a, k) == BodiesUpTo(sizes, b, k)
  {
    if k > 0 {
      SamePrefix(sizes, a, b, k - 1);
    }
  }

  lemma BodiesOneMore(sizes: Sizes, names: seq<Name>, n: Name)
    ensures Bodies(sizes, names + [n]) == Bodies(sizes, names) + if n in sizes then sizes[n] else 0
  {
    SamePrefix(sizes, names, names + [n], |names|);
  }

  /** Every module comes after everything it imports. */
  ghost predicate ImportsFirst(g: Graph, order: seq<Name>) {
    forall i, b | 0 <= i < |order| && Edge(g, order[i], b) :: Before(order, b, i)
  }

  ghost predicate Before(order: seq<Name>, b: Name, i: nat) {
    exists j :: 0 <= j < i && j < |order| && order[j] == b
  }

  /** Exactly the needed modules, each once, after all it imports, none refused. */
  ghost predicate IsOrder(g: Graph, needed: iset<Name>, accepted: iset<Name>, order: seq<Name>) {
    && Distinct(order) && ImportsFirst(g, order) && AllIn(order, accepted)
    && forall n :: n in order <==> n in needed
  }

  datatype Error =
    | ImportCycle(modules: seq<Name>)
    | ExpansionLimit
    | ModuleMissing(name: Name)
    | ModuleRefused(name: Name)
    | ExpansionTooLarge(size: nat)

  /** The cycle is one of real imports, among needed modules. */
  ghost predicate RealCycle(g: Graph, needed: iset<Name>, w: seq<Name>) {
    |w| >= 2 && Walk(g, w) && AllIn(w, needed) && w[|w| - 1] in w[..|w| - 1]
  }

  ghost predicate ManyNeeded(needed: iset<Name>) {
    exists s: seq<Name> :: Distinct(s) && |s| == Commons.MAX_COMMONS_MODULES + 1 && AllIn(s, needed)
  }

  /** A part of what is needed that alone has the size. */
  ghost predicate PartOfSize(sizes: Sizes, needed: iset<Name>, rest: nat, size: nat) {
    exists s: seq<Name> :: Distinct(s) && AllIn(s, needed) && size == rest + Bodies(sizes, s)
  }

  /** What each refusal during the visit says is so. */
  ghost predicate Justified(g: Graph, needed: iset<Name>, sizes: Sizes, resolve: Resolver, rest: nat, max: nat, error: Error) {
    match error
    case ImportCycle(modules) => RealCycle(g, needed, modules)
    case ExpansionLimit => ManyNeeded(needed)
    case ModuleMissing(n) => n in needed && n !in resolve
    case ModuleRefused(n) => n in needed && n in resolve && Refusable(resolve[n])
    case ExpansionTooLarge(size) => size > max && PartOfSize(sizes, needed, rest, size)
  }

  lemma NeededClosed(g: Graph, roots: seq<Name>)
    ensures Closed(g, roots, Needed(g, roots))
  {
    forall n | n in roots ensures n in Needed(g, roots) {
      ReachesSelf(g, n);
    }
    forall a, b | a in Needed(g, roots) && Edge(g, a, b) ensures b in Needed(g, roots) {
      var r :| r in roots && Reaches(g, r, a);
      EdgeReaches(g, a, b);
      ReachesTrans(g, r, a, b);
    }
  }

  ghost predicate Closed(g: Graph, roots: seq<Name>, needed: iset<Name>) {
    AllIn(roots, needed) && forall a, b | a in needed && Edge(g, a, b) :: b in needed
  }

  // ----- The visit -----

  /** Modules that are done: each once, and closed under imports. */
  ghost predicate Finished(g: Graph, needed: iset<Name>, accepted: iset<Name>, ordered: seq<Name>) {
    Distinct(ordered) && ImportsFirst(g, ordered) && AllIn(ordered, accepted) && AllIn(ordered, needed)
  }

  ghost predicate Steps(g: Graph, w: seq<Name>) {
    forall i, j | 0 <= i < j < |w| && j == i + 1 :: Edge(g, w[i], w[j])
  }

  /** A path of imports being visited. */
  ghost predicate OnPath(g: Graph, needed: iset<Name>, accepted: iset<Name>, active: seq<Name>) {
    Distinct(active) && Steps(g, active) && AllIn(active, accepted) && AllIn(active, needed)
  }

  /** A module the caller imports, or the innermost active one does. */
  ghost predicate Entered(g: Graph, roots: seq<Name>, active: seq<Name>, name: Name) {
    if active == [] then name in roots else Edge(g, active[|active| - 1], name)
  }

  lemma PathShortened(g: Graph, needed: iset<Name>, accepted: iset<Name>, active: seq<Name>)
    requires OnPath(g, needed, accepted, active) && active != []
    ensures OnPath(g, needed, accepted, active[..|active| - 1])
  {
    var shorter := active[..|active| - 1];
    forall n | n in shorter ensures n in active {
    }
  }

  lemma FinishedExtended(g: Graph, needed: iset<Name>, accepted: iset<Name>, ordered: seq<Name>, name: Name)
    requires Finished(g, needed, accepted, ordered) && name !in ordered && name in needed && name in accepted
    requires name in g && forall n | n in g[name] :: n in ordered
    ensures Finished(g, needed, accepted, ordered + [name])
  {
    var order := ordered + [name];
    forall i, b | 0 <= i < |order| && Edge(g, order[i], b) ensures Before(order, b, i) {
      if i < |ordered| {
        assert Before(ordered, b, i);
        var j :| 0 <= j < i && ordered[j] == b;
        assert order[j] == b;
      } else {
        var j :| 0 <= j < |ordered| && ordered[j] == b;
        assert order[j] == b;
      }
    }
  }

  lemma JoinedPart(a: seq<Name>, b: seq<Name>, needed: iset<Name>)
    requires Distinct(a) && Distinct(b) && (forall n | n in b :: n !in a) && AllIn(a, needed) && AllIn(b, needed)
    ensures Distinct(a + b) && AllIn(a + b, needed)
  {
    forall i, j | 0 <= i < j < |a + b| ensures (a + b)[i] != (a + b)[j] {
      if i < |a| && j >= |a| {
        assert b[j - |a|] in b;
      }
    }
  }

  method Examine(found: Module) returns (refused: bool, parts: Parts)
    ensures refused == Refusable(found) && parts == Split(found.lines)
  {
    parts := SplitImports(found.lines);
    if exists i :: 0 <= i < |found.lines| && HoldsExit(found.lines[i].text) {
      return true, parts;
    }
    var closers := ScopeClosers(found.lines);
    refused := closers.None?;
  }

  /** How far a visit has come. */
  ghost predicate Visiting(g: Graph, roots: seq<Name>, needed: iset<Name>, accepted: iset<Name>, sizes: Sizes, rest: nat,
                           ordered: seq<Name>, active: seq<Name>, done: set<Name>, floor: nat)
  {
    && Closed(g, roots, needed)
    && (forall n :: n in done <==> n in ordered) && |done| == |ordered|
    && Finished(g, needed, accepted, ordered) && OnPath(g, needed, accepted, active)
    && (forall n | n in active :: n !in ordered)
    && floor == rest + Bodies(sizes, ordered) + Bodies(sizes, active)
  }

  lemma NothingVisited(g: Graph, roots: seq<Name>, needed: iset<Name>, accepted: iset<Name>, sizes: Sizes, rest: nat)
    requires Closed(g, roots, needed)
    ensures Visiting(g, roots, needed, accepted, sizes, rest, [], [], {}, rest)
  {
  }

  /** The visit of the import graph. */
  class Visitor {
    ghost const g: Graph
    ghost const needed: iset<Name>
    ghost const accepted: iset<Name>
    ghost const sizes: Sizes
    const resolve: Resolver
    const roots: seq<Name>
    const rest: nat
    const max: nat
    var ordered: seq<Name>
    var active: seq<Name>
    var done: set<Name>
    var floor: nat

    constructor (resolve: Resolver, roots: seq<Name>, rest: nat, max: nat)
      ensures Valid() && active == [] && ordered == [] && done == {}
      ensures this.resolve == resolve && this.roots == roots && this.rest == rest && this.max == max
      ensures Tied() && needed == Needed(g, roots)
    {
      this.g, this.needed, this.accepted := ModuleGraph(resolve), Needed(ModuleGraph(resolve), roots), Accepted(resolve);
      this.sizes := SizesOf(resolve);
      this.resolve, this.roots, this.rest, this.max := resolve, roots, rest, max;
      ordered, active, done, floor := [], [], {}, rest;
      NeededClosed(ModuleGraph(resolve), roots);
      NothingVisited(ModuleGraph(resolve), roots, Needed(ModuleGraph(resolve), roots), Accepted(resolve), SizesOf(resolve), rest);
    }

    /** The invariant, folded, and the bound that ends the visit. */
    ghost predicate Valid()
      reads this
    {
      && |done| + |active| <= Commons.MAX_COMMONS_MODULES
      && forall at: nat {:trigger Unfolded(at)} :: Unfolded(at) ==> Inside()
    }

    /** Modules done are closed under imports; active ones are a path of imports; and the floor is
        the bytes of all their bodies and the caller's lines. */
    ghost predicate Inside()
      reads this
    {
      Visiting(g, roots, needed, accepted, sizes, rest, ordered, active, done, floor)
    }

    /** What the ghost constants stand for, folded as the invariant is. */
    ghost predicate Tied() {
      forall at: nat {:trigger Unfolded(at)} :: Unfolded(at) ==>
        g == ModuleGraph(resolve) && accepted == Accepted(resolve) && sizes == SizesOf(resolve)
    }

    /** Visit a module the caller imports, or the innermost active module does. It ends because
        modules done and active together are bounded, however large the graph. */
    method Visit(name: Name) returns (error: Option<Error>)
      requires Valid() && Tied() && Entered(g, roots, active, name)
      modifies this`ordered, this`active, this`done, this`floor
      ensures error.None? ==> Valid() && active == old(active) && name in done && old(done) <= done
      ensures error.Some? ==> Justified(g, needed, sizes, resolve, rest, max, error.value)
      decreases Commons.MAX_COMMONS_MODULES - (|done| + |active|), 0
    {
      if name in done {
        return None;
      }
      var children;
      error, children := Open(name);
      if error.Some? {
        return;
      }
      error := VisitAll(children);
      if error.Some? {
        return;
      }
      Finish(name, old(active));
    }

    /** Visit the caller's own imports, or all of the innermost active module's. */
    method VisitAll(names: seq<Name>) returns (error: Option<Error>)
      requires Valid() && Tied() && forall n | n in names :: Entered(g, roots, active, n)
      modifies this`ordered, this`active, this`done, this`floor
      ensures error.None? ==> Valid() && active == old(active) && old(done) <= done && forall n | n in names :: n in done
      ensures error.Some? ==> Justified(g, needed, sizes, resolve, rest, max, error.value)
      decreases Commons.MAX_COMMONS_MODULES - (|done| + |active|), 1
    {
      for i := 0 to |names|
        invariant Valid() && active == old(active) && old(done) <= done
        invariant forall j | 0 <= j < i :: names[j] in done
      {
        SubsetSize(old(done), done);
        error := Visit(names[i]);
        if error.Some? {
          return;
        }
      }
      return None;
    }

    /** Resolve a module, check it and make it the innermost active one. */
    method Open(name: Name) returns (error: Option<Error>, children: seq<Name>)
      requires Valid() && Tied() && Entered(g, roots, active, name) && name !in done
      modifies this`active, this`floor
      ensures error.None? ==> Valid() && active == old(active) + [name] && name in g && children == g[name]
      ensures error.None? ==> |done| + |active| <= Commons.MAX_COMMONS_MODULES
      ensures error.Some? ==> Justified(g, needed, sizes, resolve, rest, max, error.value)
    {
      EntryNeeded(name);
      if name in active {
        CycleIsReal(name);
        return Some(ImportCycle(active + [name])), [];
      }
      if |done| + |active| >= Commons.MAX_COMMONS_MODULES {
        LimitIsReal(name);
        return Some(ExpansionLimit), [];
      }
      if name !in resolve {
        return Some(ModuleMissing(name)), [];
      }
      var refused, parts := Examine(resolve[name]);
      if refused {
        return Some(ModuleRefused(name)), [];
      }
      TiedAt(name);
      Activate(name, Size(parts.rest));
      if floor > max {
        PartIsReal();
        return Some(ExpansionTooLarge(floor)), [];
      }
      return None, parts.modules;
    }

    method Activate(name: Name, size: nat)
      requires Valid() && Entered(g, roots, active, name) && name !in done && name !in active
      requires |done| + |active| < Commons.MAX_COMMONS_MODULES
      requires name in accepted && name in resolve && name in sizes && size == sizes[name]
      modifies this`active, this`floor
      ensures Valid() && active == old(active) + [name]
    {
      assert Unfolded(0);
      BodiesOneMore(sizes, active, name);
      active := active + [name];
      floor := floor + size;
    }

    method Finish(name: Name, ghost path: seq<Name>)
      requires Valid() && active == path + [name]
      requires name in g && forall n | n in g[name] :: n in done
      modifies this`ordered, this`active, this`done
      ensures Valid() && active == path && done == old(done) + {name}
    {
      assert Unfolded(0);
      assert name in active;
      PathShortened(g, needed, accepted, active);
      FinishedExtended(g, needed, accepted, ordered, name);
      BodiesOneMore(sizes, ordered, name);
      BodiesOneMore(sizes, path, name);
      assert active[..|active| - 1] == path;
      active := active[..|active| - 1];
      done := done + {name};
      ordered := ordered + [name];
      forall n | n in active ensures n in old(active) && n != name {
      }
    }

    lemma EntryNeeded(name: Name)
      requires Valid() && Entered(g, roots, active, name)
      ensures name in needed
    {
      assert Unfolded(0);
    }

    lemma TiedAt(name: Name)
      requires Tied() && name in resolve
      ensures name in g && g[name] == Split(resolve[name].lines).modules
      ensures name in accepted <==> !Refusable(resolve[name])
      ensures name in sizes && sizes[name] == Size(Body(resolve, name))
    {
      assert Unfolded(0);
    }

    lemma CycleIsReal(name: Name)
      requires Valid() && Entered(g, roots, active, name) && name in active
      ensures RealCycle(g, needed, active + [name])
    {
      assert Unfolded(0);
      var w := active + [name];
      assert w[..|w| - 1] == active;
    }

    lemma LimitIsReal(name: Name)
      requires Valid() && name in needed && name !in done && name !in active && |done| + |active| == Commons.MAX_COMMONS_MODULES
      ensures ManyNeeded(needed)
    {
      assert Unfolded(0);
      JoinedPart(ordered, active, needed);
      JoinedPart(ordered + active, [name], needed);
    }

    lemma PartIsReal()
      requires Valid()
      ensures PartOfSize(sizes, needed, rest, floor)
    {
      assert Unfolded(0);
      JoinedPart(ordered, active, needed);
      BodiesAppend(sizes, ordered, active);
    }
  }

  lemma {:induction false} BodiesAppend(sizes: Sizes, a: seq<Name>, b: seq<Name>)
    ensures Bodies(sizes, a + b) == Bodies(sizes, a) + Bodies(sizes, b)
  {
    if b == [] {
      assert a + b == a;
    } else {
      var init, last := b[..|b| - 1], b[|b| - 1];
      assert a + b == (a + init) + [last] && b == init + [last];
      BodiesAppend(sizes, a, init);
      BodiesOneMore(sizes, a + init, last);
      BodiesOneMore(sizes, init, last);
    }
  }
}
