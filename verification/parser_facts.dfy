/** Properties of the parser in module `Parser`: what it recovers from
    declarations written in the usual way (round trips), and the corner
    cases where the patterns of plsql/parser.py read a declaration
    differently from PL/SQL. */
module ParserFacts {
  import opened Wrappers
  import opened Text
  import opened Scanner
  import opened Parser

  // ---------------------------------------------------------------------
  // Declarations as they are usually written
  // ---------------------------------------------------------------------

  /** The four spellings a declaration uses for a direction. */
  predicate CanonicalDirection(d: Option<string>) {
    d == None || d == Some("in") || d == Some("out") || d == Some("in out")
  }

  predicate WellFormedArg(a: ArgSpec) {
    IsWordText(a.name) && IsWordText(a.oraType) && CanonicalDirection(a.direction)
  }

  function DirectionText(d: Option<string>): string {
    if d.Some? then d.value + " " else ""
  }

  /** `name [direction] type`, one blank between the words. */
  function RenderArg(a: ArgSpec): string {
    a.name + " " + DirectionText(a.direction) + a.oraType
  }

  // ---------------------------------------------------------------------
  // Small facts about the pattern pieces
  // ---------------------------------------------------------------------

  lemma WordRunToEnd(t: string, u: nat)
    requires u < |t|
    requires forall k :: u <= k < |t| ==> IsWord(t[k])
    ensures WordAt(t, u) == Some(|t|)
  {
    RunEndIs(t, u, WordChar, |t|);
  }

  lemma SingleBlank(t: string, i: nat)
    requires i + 1 < |t| && IsSpace(t[i]) && !IsSpace(t[i + 1])
    ensures BlanksAt(t, i) == Some(i + 1)
  {
    RunEndIs(t, i, Blank, i + 1);
  }

  /** Facts about the type word that fills the text from `u` on. */
  lemma TypeWordFrom(t: string, u: nat, ty: string)
    requires u <= |t| && t[u..] == ty && IsWordText(ty)
    ensures u < |t| && WordAt(t, u) == Some(|t|) && t[u..|t|] == ty
    ensures forall k :: u <= k < |t| ==> IsWord(t[k])
  {
    assert forall k :: u <= k < |t| ==> IsWord(t[k]) by {
      forall k | u <= k < |t| ensures IsWord(t[k]) {
        assert t[k] == ty[k - u];
      }
    }
    WordRunToEnd(t, u);
  }

  lemma NoDirection(t: string, c: nat, ty: string)
    requires c <= |t| && t[c..] == ty && IsWordText(ty)
    ensures DirectedTypeAt(t, c) == Some((None, ty))
  {
    TypeWordFrom(t, c, ty);
    if c + 2 <= |t| {
      assert BlanksAt(t, c + 2) == None by {
        if c + 2 < |t| { assert IsWord(t[c + 2]); }
      }
    }
    if c + 3 <= |t| {
      assert BlanksAt(t, c + 3) == None by {
        if c + 3 < |t| { assert IsWord(t[c + 3]); }
      }
    }
  }

  lemma InDirection(t: string, c: nat, ty: string)
    requires c + 3 <= |t| && t[c..c + 3] == "in " && t[c + 3..] == ty && IsWordText(ty)
    ensures DirectedTypeAt(t, c) == Some((Some("in"), ty))
  {
    TypeWordFrom(t, c + 3, ty);
    assert t[c] == 'i' && t[c + 1] == 'n' && t[c + 2] == ' ' by {
      assert t[c..c + 3][2] == t[c + 2];
    }
    assert t[c..c + 2] == t[c..c + 3][..2];
    assert HasAt(t, c, "in");
    SingleBlank(t, c + 2);
    if c + 6 <= |t| {
      assert BlanksAt(t, c + 6) == None by {
        if c + 6 < |t| { assert IsWord(t[c + 6]); }
      }
    }
    assert !HasAt(t, c, "out");
  }

  lemma OutDirection(t: string, c: nat, ty: string)
    requires c + 4 <= |t| && t[c..c + 4] == "out " && t[c + 4..] == ty && IsWordText(ty)
    ensures DirectedTypeAt(t, c) == Some((Some("out"), ty))
  {
    TypeWordFrom(t, c + 4, ty);
    assert t[c] == 'o' && t[c + 3] == ' ' by {
      assert t[c..c + 4][3] == t[c + 3];
    }
    assert t[c..c + 3] == t[c..c + 4][..3];
    assert HasAt(t, c, "out");
    assert !HasAt(t, c, "in");
    SingleBlank(t, c + 3);
  }

  lemma InOutDirection(t: string, c: nat, ty: string)
    requires c + 7 <= |t| && t[c..c + 7] == "in out " && t[c + 7..] == ty && IsWordText(ty)
    ensures DirectedTypeAt(t, c) == Some((Some("in out"), ty))
  {
    TypeWordFrom(t, c + 7, ty);
    var h := t[c..c + 7];
    assert h[0] == t[c] && h[1] == t[c + 1] && h[2] == t[c + 2] && h[3] == t[c + 3];
    assert h[4] == t[c + 4] && h[5] == t[c + 5] && h[6] == t[c + 6];
    assert t[c..c + 2] == "in";
    assert t[c + 3..c + 6] == "out";
    assert t[c..c + 6] == "in out";
    assert HasAt(t, c, "in");
    assert HasAt(t, c + 3, "out");
    SingleBlank(t, c + 2);
    SingleBlank(t, c + 6);
  }

  /** With the direction text and the type word from `c` on, the direction
      group and the type come out as written. */
  lemma DirectedTypeOf(t: string, c: nat, d: Option<string>, ty: string)
    requires c <= |t| && t[c..] == DirectionText(d) + ty
    requires IsWordText(ty) && CanonicalDirection(d)
    ensures DirectedTypeAt(t, c) == Some((d, ty))
  {
    var w := |DirectionText(d)|;
    assert t[c + w..] == ty by {
      assert t[c + w..] == t[c..][w..];
    }
    assert t[c..c + w] == DirectionText(d) by {
      assert t[c..c + w] == t[c..][..w];
    }
    if d == None {
      NoDirection(t, c, ty);
    } else if d == Some("in") {
      InDirection(t, c, ty);
    } else if d == Some("out") {
      OutDirection(t, c, ty);
    } else {
      InOutDirection(t, c, ty);
    }
  }

  /** An argument written as `name [direction] type` is read back as
      written, for each of the four direction spellings. */
  lemma ArgRoundTrip(a: ArgSpec)
    requires WellFormedArg(a)
    ensures ArgSearch(RenderArg(a)) == Some(a)
  {
    var t := RenderArg(a);
    ArgAtRendered(a);
    assert ArgTable(t)[0] == Some(a);
  }

  /** What follows the name and its blank: the direction or the type,
      neither of which starts with a blank. */
  lemma ArgRestStart(a: ArgSpec)
    requires WellFormedArg(a)
    ensures var rest := DirectionText(a.direction) + a.oraType;
      |rest| > 0 && !IsSpace(rest[0])
  {
    var rest := DirectionText(a.direction) + a.oraType;
    WordText(a.oraType);
    if a.direction.Some? {
      assert rest[0] == a.direction.value[0];
    } else {
      assert rest[0] == a.oraType[0];
    }
  }

  /** The argument pattern at the start, from the positions of its parts. */
  lemma ArgAtFromParts(t: string, n: nat, c: nat, dt: (Option<string>, string))
    requires c <= |t| && WordAt(t, 0) == Some(n) && BlanksAt(t, n) == Some(c)
    requires DirectedTypeAt(t, c) == Some(dt)
    ensures ArgAt(t, 0) == Some(ArgSpec(t[0..n], dt.0, dt.1))
  {
  }

  lemma ArgAtRendered(a: ArgSpec)
    requires WellFormedArg(a)
    ensures ArgAt(RenderArg(a), 0) == Some(a)
  {
    var t := RenderArg(a);
    var n := |a.name|;
    var rest := DirectionText(a.direction) + a.oraType;
    assert t == a.name + " " + rest;
    ArgRestStart(a);
    NameThenBlank(t, a.name, rest);
    DirectedTypeOf(t, n + 1, a.direction, a.oraType);
    ArgAtFromParts(t, n, n + 1, (a.direction, a.oraType));
  }

  // ---------------------------------------------------------------------
  // Argument lists
  // ---------------------------------------------------------------------

  /** The pieces `a1`, ` a2`, ..., ` an` that a comma-separated argument
      list is made of. */
  function ArgPieces(args: seq<ArgSpec>): (pieces: seq<string>)
    ensures |pieces| == |args|
  {
    seq(|args|, k requires 0 <= k < |args| => (if k == 0 then "" else " ") + RenderArg(args[k]))
  }

  /** `a1, a2, ..., an`. */
  function RenderArgs(args: seq<ArgSpec>): string
    requires |args| > 0
  {
    Join(ArgPieces(args), ',')
  }

  /** A rendered argument holds only word characters and blanks, and does
      not start or end with a blank. */
  lemma RenderedArgChars(a: ArgSpec)
    requires WellFormedArg(a)
    ensures var t := RenderArg(a);
      && |t| > 0 && t[0] != ' ' && t[|t| - 1] != ' '
      && forall k :: 0 <= k < |t| ==> IsWord(t[k]) || t[k] == ' '
  {
    var t := RenderArg(a);
    var d := DirectionText(a.direction);
    assert forall k :: 0 <= k < |d| ==> IsWord(d[k]) || d[k] == ' ';
    forall k | 0 <= k < |t| ensures IsWord(t[k]) || t[k] == ' ' {
      if k < |a.name| {
        assert t[k] == a.name[k];
      } else if k == |a.name| {
      } else if k < |a.name| + 1 + |d| {
        assert t[k] == d[k - |a.name| - 1];
      } else {
        assert t[k] == a.oraType[k - |a.name| - 1 - |d|];
      }
    }
    assert t[0] == a.name[0];
    assert t[|t| - 1] == a.oraType[|a.oraType| - 1];
  }

  /** Only word characters and blanks: none of the characters the parser
      treats specially. */
  lemma WordsAndBlanks(t: string)
    requires forall k :: 0 <= k < |t| ==> IsWord(t[k]) || t[k] == ' '
    ensures ',' !in t && '\\' !in t && '\n' !in t && ';' !in t && ')' !in t && '(' !in t
  {
  }

  /** Words and blanks, with an optional blank in front, hold no backslash. */
  lemma NoBackslashPiece(x: string, lead: string)
    requires lead == "" || lead == " "
    requires forall k :: 0 <= k < |x| ==> IsWord(x[k]) || x[k] == ' '
    ensures '\\' !in lead + x
  {
    var piece := lead + x;
    forall k | 0 <= k < |piece| ensures piece[k] != '\\' {
      if k < |lead| {
        assert piece[k] == ' ';
      } else {
        assert piece[k] == x[k - |lead|];
      }
    }
  }

  lemma StripLead(x: string, lead: string)
    requires |x| > 0 && x[0] != ' ' && x[|x| - 1] != ' ' && (lead == "" || lead == " ")
    ensures Strip(lead + x) == x
  {
    StripTrimmed(x);
    if lead == "" {
      assert lead + x == x;
    }
  }

  /** Stripping a piece of a rendered list drops the blank before it. */
  lemma StripRendered(a: ArgSpec, lead: string)
    requires WellFormedArg(a) && (lead == "" || lead == " ")
    ensures Strip(lead + RenderArg(a)) == RenderArg(a)
  {
    RenderedArgChars(a);
    StripLead(RenderArg(a), lead);
  }

  lemma BackslashFree(a: ArgSpec, lead: string)
    requires WellFormedArg(a) && (lead == "" || lead == " ")
    ensures '\\' !in lead + RenderArg(a)
  {
    RenderedArgChars(a);
    NoBackslashPiece(RenderArg(a), lead);
  }

  /** Normalizing a piece of a rendered list drops the blank before it. */
  lemma NormalizeRendered(a: ArgSpec, lead: string)
    requires WellFormedArg(a) && (lead == "" || lead == " ")
    ensures Normalize(lead + RenderArg(a)) == RenderArg(a)
  {
    StripRendered(a, lead);
    BackslashFree(a, lead);
    NormalizePlain(lead + RenderArg(a));
  }

  /** Each piece of a rendered list parses to its argument. */
  lemma PieceParses(a: ArgSpec, lead: string)
    requires WellFormedArg(a) && (lead == "" || lead == " ")
    ensures ParseArg(lead + RenderArg(a)) == Success(a)
  {
    NormalizeRendered(a, lead);
    ArgRoundTrip(a);
  }

  /** Steps that all succeed collect to their values. */
  lemma {:induction false} CollectAllSuccess<T, E>(steps: seq<Result<T, E>>, values: seq<T>)
    requires |steps| == |values|
    requires forall k :: 0 <= k < |steps| ==> steps[k] == Success(values[k])
    ensures Collect(steps) == Success(values)
  {
    if |steps| > 0 {
      CollectAllSuccess(steps[1..], values[1..]);
      assert values == [values[0]] + values[1..];
    }
  }

  /** The first failing step decides the error. */
  lemma CollectFirstFailure<T, E>(steps: seq<Result<T, E>>, n: nat, e: E)
    requires n < |steps| && steps[n] == Failure(e)
    requires forall j :: 0 <= j < n ==> steps[j].Success?
    ensures Collect(steps) == Failure(e)
  {
    var r := Collect(steps);
    if r.Failure? {
      var k :| 0 <= k < |steps| && steps[k] == Failure(r.error) && forall j :: 0 <= j < k ==> steps[j].Success?;
      assert k == n;
    }
  }

  lemma PieceFacts(args: seq<ArgSpec>, k: nat)
    requires k < |args| && WellFormedArg(args[k])
    ensures ',' !in ArgPieces(args)[k] && ParseArg(ArgPieces(args)[k]) == Success(args[k])
  {
    var lead := if k == 0 then "" else " ";
    assert ArgPieces(args)[k] == lead + RenderArg(args[k]);
    RenderedArgChars(args[k]);
    WordsAndBlanks(RenderArg(args[k]));
    PieceParses(args[k], lead);
  }

  /** A comma-separated list of well-formed arguments is read back as
      written, one argument per piece. */
  lemma ArgListRoundTrip(args: seq<ArgSpec>)
    requires |args| > 0 && forall k :: 0 <= k < |args| ==> WellFormedArg(args[k])
    ensures ParseArgList(RenderArgs(args)) == Success(args)
  {
    var pieces := ArgPieces(args);
    forall k | 0 <= k < |pieces| ensures ',' !in pieces[k] {
      PieceFacts(args, k);
    }
    SplitJoin(pieces, ',');
    var steps := ArgSteps(pieces);
    forall k | 0 <= k < |pieces| ensures steps[k] == Success(args[k]) {
      PieceFacts(args, k);
    }
    CollectAllSuccess(steps, args);
    assert ParsePieces(pieces) == Collect(steps);
  }

  // ---------------------------------------------------------------------
  // Function declarations
  // ---------------------------------------------------------------------

  predicate WellFormedArgs(args: seq<ArgSpec>) {
    forall k :: 0 <= k < |args| ==> WellFormedArg(args[k])
  }

  predicate WellFormedFunction(f: FunctionSpec) {
    IsWordText(f.name) && IsWordText(f.oraType) && WellFormedArgs(f.args)
  }

  /** The argument list in parentheses, or nothing for no arguments. */
  function ArgsText(args: seq<ArgSpec>): string {
    if |args| == 0 then "" else "(" + RenderArgs(args) + ")"
  }

  /** What the parser reports for the argument group of a declaration
      written with `ArgsText`. */
  function ArgsGroup(args: seq<ArgSpec>): Option<string> {
    if |args| == 0 then None else Some(RenderArgs(args))
  }

  /** ` return type;` */
  function ReturnText(rt: string): string {
    " return " + rt + ";"
  }

  /** `function name(args) return type;` */
  function RenderFunction(f: FunctionSpec): string {
    Keyword(FunctionKind) + " " + f.name + (ArgsText(f.args) + ReturnText(f.oraType))
  }

  /** The argument text holds word characters, blanks and commas only. */
  lemma ArgsTextChars(args: seq<ArgSpec>)
    requires |args| > 0 && WellFormedArgs(args)
    ensures var a := RenderArgs(args);
      && '\n' !in a && ';' !in a && ')' !in a && '(' !in a
  {
    var pieces := ArgPieces(args);
    forall k | 0 <= k < |pieces|
      ensures '\n' !in pieces[k] && ';' !in pieces[k] && ')' !in pieces[k] && '(' !in pieces[k]
    {
      var lead := if k == 0 then "" else " ";
      assert pieces[k] == lead + RenderArg(args[k]);
      RenderedArgChars(args[k]);
      WordsAndBlanks(RenderArg(args[k]));
    }
    JoinAvoids(pieces, ',', '\n');
    JoinAvoids(pieces, ',', ';');
    JoinAvoids(pieces, ',', ')');
    JoinAvoids(pieces, ',', '(');
  }

  lemma WordText(w: string)
    requires IsWordText(w)
    ensures forall k :: 0 <= k < |w| ==> IsWord(w[k])
    ensures '\n' !in w && ';' !in w && ')' !in w && '(' !in w && ' ' !in w
  {
    assert forall k :: 0 <= k < |w| ==> InClass(w[k], WordChar);
  }

  /** Nor does a word hold a comma or a backslash. */
  lemma WordTextPunct(w: string)
    requires IsWordText(w)
    ensures ',' !in w && '\\' !in w
  {
    assert forall k :: 0 <= k < |w| ==> InClass(w[k], WordChar);
  }

  /** `return type;` from `c` on: the return clause reads the type. */
  lemma ReturnClauseOf(t: string, c: nat, rt: string)
    requires c <= |t| && t[c..] == "return " + rt + ";" && IsWordText(rt)
    ensures ReturnClauseAt(t, c) == Some(rt)
  {
    var e := c + 7 + |rt|;
    assert t[c..c + 6] == "return" by {
      assert t[c..c + 6] == t[c..][..6];
    }
    assert EqualsNoCase("return", "return");
    assert HasAtNoCase(t, c, "return");
    assert t[c + 6] == ' ' && t[c + 7] == rt[0] && t[e] == ';' by {
      assert t[c + 6] == t[c..][6];
      assert t[c + 7] == t[c..][7];
      assert t[e] == t[c..][7 + |rt|];
    }
    WordText(rt);
    SingleBlank(t, c + 6);
    assert forall k :: c + 7 <= k < e ==> IsWord(t[k]) by {
      forall k | c + 7 <= k < e ensures IsWord(t[k]) {
        assert t[k] == t[c..][k - c];
        assert t[c..][k - c] == rt[k - c - 7];
      }
    }
    RunEndIs(t, c + 7, WordChar, e);
    assert t[c + 7..e] == rt by {
      assert ("return " + rt + ";")[7..7 + |rt|] == rt;
      assert t[c + 7..e] == t[c..][7..7 + |rt|];
    }
  }

  /** A ')' followed by ` return type;` is followed by the return clause. */
  lemma CloseThenReturn(t: string, x: nat, rt: string)
    requires x < |t| && t[x] == ')' && t[x + 1..] == ReturnText(rt) && IsWordText(rt)
    ensures ReturnAfterClose(t, x) == Some(rt)
  {
    assert t[x + 2..] == "return " + rt + ";" by {
      assert t[x + 2..] == t[x + 1..][1..];
    }
    assert t[x + 1] == ' ' && t[x + 2] == 'r' by {
      assert t[x + 1] == t[x + 1..][0];
      assert t[x + 2] == t[x + 1..][1];
    }
    SingleBlank(t, x + 1);
    ReturnClauseOf(t, x + 2, rt);
  }

  /** No ')' in what follows `x`. */
  lemma NoCloseAfter(t: string, x: nat, r: string)
    requires x < |t| && t[x + 1..] == r && ')' !in r
    ensures forall y :: x < y < |t| ==> t[y] != ')'
  {
    forall y | x < y < |t| ensures t[y] != ')' {
      assert t[y] == r[y - x - 1];
    }
  }

  /** A ')' followed by ` return type;` closes the argument group. */
  lemma CloseBeforeReturn(t: string, x: nat, rt: string)
    requires x < |t| && t[x] == ')' && t[x + 1..] == ReturnText(rt) && IsWordText(rt)
    ensures ReturnAfterClose(t, x) == Some(rt)
    ensures forall y :: x < y < |t| ==> ReturnAfterClose(t, y).None?
  {
    CloseThenReturn(t, x, rt);
    ReturnTextNoClose(rt);
    NoCloseAfter(t, x, ReturnText(rt));
    forall y | x < y < |t| ensures ReturnAfterClose(t, y).None? {
      assert t[y] != ')';
    }
  }

  lemma ReturnTextNoClose(rt: string)
    requires IsWordText(rt)
    ensures ')' !in ReturnText(rt)
  {
    WordText(rt);
  }

  /** The last marked close is the one before the return clause. */
  lemma LastCloseIs(t: string, lo: nat, x: nat)
    requires lo <= x < |t| && ReturnAfterClose(t, x).Some?
    requires forall y :: x < y < |t| ==> ReturnAfterClose(t, y).None?
    ensures LastMarked(CloseMarks(t), lo, |t|) == Some(x)
  {
    var m := CloseMarks(t);
    LastMarkedAt(m, lo, |t|, x);
  }

  /** The ')' before ` return type;` is the last one the group can end at. */
  lemma GroupCloses(t: string, lo: nat, x: nat, rt: string)
    requires lo <= x < |t| && t[x] == ')'
    requires t[x + 1..] == ReturnText(rt) && IsWordText(rt)
    ensures LastMarked(CloseMarks(t), lo, |t|) == Some(x) && ReturnAfterClose(t, x) == Some(rt)
  {
    CloseBeforeReturn(t, x, rt);
    LastCloseIs(t, lo, x);
  }

  /** The tail when the group's last qualifying ')' is at `x`. */
  lemma TailAtGroup(t: string, c: nat, x: nat, rt: string)
    requires c < |t| && t[c] == '('
    requires LastMarked(CloseMarks(t), c + 2, |t|) == Some(x)
    requires ReturnAfterClose(t, x) == Some(rt)
    ensures FunctionTailAt(t, c) == Some((Some(t[c + 1..x]), rt))
  {
  }

  /** A return clause from `c` on, with no parentheses before it. */
  lemma TailWithoutArgs(t: string, c: nat, rt: string)
    requires c < |t| && t[c] != '(' && ReturnClauseAt(t, c) == Some(rt)
    ensures FunctionTailAt(t, c) == Some((None, rt))
  {
  }

  /** After the name: ` return type;`. */
  lemma RestWithoutArgs(t: string, w: nat, rt: string)
    requires w <= |t| && t[w..] == ReturnText(rt) && IsWordText(rt)
    ensures w + 1 < |t| && RunEnd(t, w, Blank) == w + 1 && t[w + 1] != '('
    ensures ReturnClauseAt(t, w + 1) == Some(rt)
  {
    assert t[w] == ' ' && t[w + 1] == 'r' by {
      assert t[w] == t[w..][0];
      assert t[w + 1] == t[w..][1];
    }
    SingleBlank(t, w);
    assert t[w + 1..] == "return " + rt + ";" by {
      assert t[w + 1..] == t[w..][1..];
    }
    ReturnClauseOf(t, w + 1, rt);
  }

  /** After the name: `(args)` and a tail, read position by position. */
  lemma GroupShape(t: string, w: nat, a: string, tail: string)
    requires w <= |t| && t[w..] == "(" + a + ")" + tail
    ensures w + 1 + |a| < |t| && t[w] == '(' && t[w + 1 + |a|] == ')'
    ensures t[w + 1..w + 1 + |a|] == a && t[w + 2 + |a|..] == tail
  {
    var u := t[w..];
    assert u[0] == '(' && u[1 + |a|] == ')';
    assert t[w] == u[0] && t[w + 1 + |a|] == u[1 + |a|];
    assert u[1..1 + |a|] == a && u[2 + |a|..] == tail;
    assert t[w + 1..w + 1 + |a|] == u[1..1 + |a|];
    assert t[w + 2 + |a|..] == u[2 + |a|..];
  }

  /** A keyword matches itself when case is ignored. */
  lemma KeywordMatchesItself(kind: RoutineKind)
    ensures EqualsNoCase(Keyword(kind), Keyword(kind))
  {
    match kind
    case FunctionKind => assert EqualsNoCase("function", "function");
    case ProcedureKind => assert EqualsNoCase("procedure", "procedure");
  }

  /** The keyword at the start of a declaration. */
  lemma KeywordAtStart(t: string, kind: RoutineKind, r: string)
    requires t == Keyword(kind) + r
    ensures HasAtNoCase(t, 0, Keyword(kind))
  {
    KeywordMatchesItself(kind);
    assert t[0..|Keyword(kind)|] == Keyword(kind);
  }

  /** The keyword and one blank at the start of a declaration. */
  lemma KeywordThenBlank(t: string, kind: RoutineKind, name: string, rest: string)
    requires t == Keyword(kind) + " " + name + rest && IsWordText(name)
    ensures var n := |Keyword(kind)|;
      HasAtNoCase(t, 0, Keyword(kind)) && BlanksAt(t, n) == Some(n + 1)
  {
    var n := |Keyword(kind)|;
    KeywordAtStart(t, kind, " " + name + rest);
    assert t[n] == ' ' && t[n + 1] == name[0];
    WordText(name);
    SingleBlank(t, n);
  }

  /** The name after the keyword and its blank, and what follows it. */
  lemma NameAfterKeyword(t: string, n: nat, name: string, rest: string)
    requires n + 1 <= |t| && t[n + 1..] == name + rest && IsWordText(name)
    requires |rest| > 0 && !IsWord(rest[0])
    ensures n + 1 + |name| < |t| && WordAt(t, n + 1) == Some(n + 1 + |name|)
    ensures t[n + 1..n + 1 + |name|] == name && t[n + 1 + |name|..] == rest
  {
    var w := n + 1 + |name|;
    var u := t[n + 1..];
    WordText(name);
    forall k | n + 1 <= k < w ensures IsWord(t[k]) {
      assert t[k] == u[k - n - 1] == name[k - n - 1];
    }
    assert t[w] == u[|name|] == rest[0];
    RunEndIs(t, n + 1, WordChar, w);
    assert u[..|name|] == name && u[|name|..] == rest;
    assert t[n + 1..w] == u[..|name|];
    assert t[w..] == u[|name|..];
  }

  /** The keyword, one blank and a name, followed by anything that does
      not continue the name. */
  lemma KeywordWordAt(t: string, kind: RoutineKind, name: string, rest: string)
    requires t == Keyword(kind) + " " + name + rest && IsWordText(name)
    requires |rest| > 0 && !IsWord(rest[0])
    ensures var n := |Keyword(kind)|;
      && HasAtNoCase(t, 0, Keyword(kind)) && BlanksAt(t, n) == Some(n + 1)
      && n + 1 + |name| < |t| && WordAt(t, n + 1) == Some(n + 1 + |name|)
      && t[n + 1..n + 1 + |name|] == name && t[n + 1 + |name|..] == rest
  {
    var n := |Keyword(kind)|;
    KeywordThenBlank(t, kind, name, rest);
    assert t[n + 1..] == name + rest;
    NameAfterKeyword(t, n, name, rest);
  }

  /** The longest name is taken when the tail matches after it. */
  lemma FromWholeName(t: string, w: nat, tail: (Option<string>, string))
    requires 9 < w <= |t| && WordAt(t, 9) == Some(w)
    requires FunctionTailAt(t, RunEnd(t, w, Blank)) == Some(tail)
    ensures FunctionFromName(t, 9, w) == Some(FunctionHead(t[9..w], tail.0, tail.1))
  {
  }

  /** The header pattern at the start, from the keyword, the blank and the
      name taken in full. */
  lemma HeaderFromName(t: string, w: nat, h: FunctionHead)
    requires HasAtNoCase(t, 0, "function") && BlanksAt(t, 8) == Some(9)
    requires 9 < w && WordAt(t, 9) == Some(w)
    requires FunctionFromName(t, 9, w) == Some(h)
    ensures FunctionHeaderAt(t, 0) == Some(h)
  {
  }

  /** The header pattern from the positions of its parts: no group. */
  lemma HeaderWithoutGroup(t: string, w: nat, name: string, rt: string)
    requires HasAtNoCase(t, 0, "function") && BlanksAt(t, 8) == Some(9)
    requires 9 < w && WordAt(t, 9) == Some(w) && t[9..w] == name
    requires w + 1 < |t| && RunEnd(t, w, Blank) == w + 1 && t[w + 1] != '('
    requires ReturnClauseAt(t, w + 1) == Some(rt)
    ensures FunctionHeaderAt(t, 0) == Some(FunctionHead(name, None, rt))
  {
    TailWithoutArgs(t, w + 1, rt);
    FromWholeName(t, w, (None, rt));
    HeaderFromName(t, w, FunctionHead(name, None, rt));
  }

  /** The tail pattern right at a '(' that is not preceded by blanks. */
  lemma GroupTail(t: string, w: nat, x: nat, rt: string)
    requires w + 1 < x < |t| && t[w] == '('
    requires LastMarked(CloseMarks(t), w + 2, |t|) == Some(x)
    requires ReturnAfterClose(t, x) == Some(rt)
    ensures FunctionTailAt(t, RunEnd(t, w, Blank)) == Some((Some(t[w + 1..x]), rt))
  {
    NotBlankAt(t, w);
    TailAtGroup(t, w, x, rt);
  }

  /** The header pattern from the positions of its parts: a group from
      the '(' at `w` to the ')' at `x`. */
  lemma HeaderWithGroup(t: string, w: nat, x: nat, name: string, a: string, rt: string)
    requires HasAtNoCase(t, 0, "function") && BlanksAt(t, 8) == Some(9)
    requires 9 < w && WordAt(t, 9) == Some(w) && t[9..w] == name
    requires w + 1 < x < |t| && t[w] == '(' && t[w + 1..x] == a
    requires LastMarked(CloseMarks(t), w + 2, |t|) == Some(x)
    requires ReturnAfterClose(t, x) == Some(rt)
    ensures FunctionHeaderAt(t, 0) == Some(FunctionHead(name, Some(a), rt))
  {
    GroupTail(t, w, x, rt);
    FromWholeName(t, w, (Some(a), rt));
    HeaderFromName(t, w, FunctionHead(name, Some(a), rt));
  }

  /** A match at the start is the one `re.search` finds. */
  lemma FunctionSearchAtStart(t: string)
    requires FunctionHeaderAt(t, 0).Some?
    ensures FunctionHeaderSearch(t) == FunctionHeaderAt(t, 0)
  {
    var m := FunctionHeaderTable(t);
    assert m[0].Some?;
  }

  /** The keyword, the blank and the name of a rendered function, and what
      follows the name. */
  lemma FunctionPrefix(f: FunctionSpec)
    requires WellFormedFunction(f)
    ensures var t, w := RenderFunction(f), 9 + |f.name|;
      && HasAtNoCase(t, 0, "function") && BlanksAt(t, 8) == Some(9)
      && 9 < w < |t| && WordAt(t, 9) == Some(w) && t[9..w] == f.name
      && t[w..] == ArgsText(f.args) + ReturnText(f.oraType)
  {
    var rest := ArgsText(f.args) + ReturnText(f.oraType);
    FunctionRestChars(f);
    KeywordWordAt(RenderFunction(f), FunctionKind, f.name, rest);
  }

  /** The header of a rendered function without arguments. */
  lemma FunctionHeaderBare(f: FunctionSpec)
    requires WellFormedFunction(f) && |f.args| == 0
    ensures FunctionHeaderAt(RenderFunction(f), 0) == Some(FunctionHead(f.name, None, f.oraType))
  {
    var t := RenderFunction(f);
    var w := 9 + |f.name|;
    FunctionPrefix(f);
    assert t[w..] == ReturnText(f.oraType);
    RestWithoutArgs(t, w, f.oraType);
    HeaderWithoutGroup(t, w, f.name, f.oraType);
  }

  /** The header of a rendered function with arguments. */
  lemma FunctionHeaderGroup(f: FunctionSpec)
    requires WellFormedFunction(f) && |f.args| > 0
    ensures FunctionHeaderAt(RenderFunction(f), 0) == Some(FunctionHead(f.name, Some(RenderArgs(f.args)), f.oraType))
  {
    var t := RenderFunction(f);
    var w := 9 + |f.name|;
    var a := RenderArgs(f.args);
    var rt := ReturnText(f.oraType);
    assert IsWordText(f.oraType) && ArgsText(f.args) == "(" + a + ")" && |a| > 0;
    hide *;
    FunctionPrefix(f);
    GroupShape(t, w, a, rt);
    GroupCloses(t, w + 2, w + 1 + |a|, f.oraType);
    HeaderWithGroup(t, w, w + 1 + |a|, f.name, a, f.oraType);
  }

  /** The header of a rendered function: its name, its argument text, its
      return type. */
  lemma FunctionHeaderRendered(f: FunctionSpec)
    requires WellFormedFunction(f)
    ensures FunctionHeaderAt(RenderFunction(f), 0) == Some(FunctionHead(f.name, ArgsGroup(f.args), f.oraType))
  {
    if |f.args| == 0 {
      FunctionHeaderBare(f);
    } else {
      FunctionHeaderGroup(f);
    }
  }

  /** The fragment parse, given where the header pattern matches. */
  lemma FragmentFromHeader(t: string, f: FunctionSpec)
    requires '\n' !in t
    requires FunctionHeaderAt(t, 0) == Some(FunctionHead(f.name, ArgsGroup(f.args), f.oraType))
    requires |f.args| > 0 ==> ParseArgList(RenderArgs(f.args)) == Success(f.args)
    ensures ParseFunctionFragment(t) == Success(f)
  {
    RemoveAbsentChar(t, '\n');
    FunctionSearchAtStart(t);
  }

  /** A single ';', at the end. */
  predicate EndsAtSemicolon(s: string) {
    |s| > 0 && s[|s| - 1] == ';' && forall k :: 0 <= k < |s| - 1 ==> s[k] != ';'
  }

  lemma SemicolonAppend(a: string, b: string)
    requires ';' !in a && EndsAtSemicolon(b)
    ensures EndsAtSemicolon(a + b)
  {
    var s := a + b;
    forall k | 0 <= k < |s| - 1 ensures s[k] != ';' {
      if k < |a| {
        assert s[k] == a[k];
      } else {
        assert s[k] == b[k - |a|];
      }
    }
  }

  /** The text after the name of a rendered function: no newline, a single
      ';' at the end, and not a word character first. */
  lemma FunctionRestChars(f: FunctionSpec)
    requires WellFormedFunction(f)
    ensures var rest := ArgsText(f.args) + ReturnText(f.oraType);
      '\n' !in rest && EndsAtSemicolon(rest) && !IsWord(rest[0])
  {
    WordText(f.oraType);
    if |f.args| > 0 {
      ArgsTextChars(f.args);
    }
    var r := ReturnText(f.oraType);
    SemicolonAppend(" return " + f.oraType, ";");
    assert r == " return " + f.oraType + ";";
    SemicolonAppend(ArgsText(f.args), r);
  }

  /** A declaration that opens with its keyword and a name: no newline and
      a single ';' at the end when the text after the name has them. */
  lemma DeclChars(kind: RoutineKind, name: string, rest: string)
    requires IsWordText(name) && '\n' !in rest && EndsAtSemicolon(rest)
    ensures '\n' !in Keyword(kind) + " " + name + rest
    ensures EndsAtSemicolon(Keyword(kind) + " " + name + rest)
  {
    WordText(name);
    var p := Keyword(kind) + " " + name;
    assert ';' !in p && '\n' !in p;
    SemicolonAppend(p, rest);
  }

  /** The characters of a rendered function: no newline, and a single
      ';' at the end. */
  lemma RenderedFunctionChars(f: FunctionSpec)
    requires WellFormedFunction(f)
    ensures '\n' !in RenderFunction(f) && EndsAtSemicolon(RenderFunction(f))
  {
    FunctionRestChars(f);
    DeclChars(FunctionKind, f.name, ArgsText(f.args) + ReturnText(f.oraType));
  }

  /** A well-formed function written out is read back by the fragment parser. */
  lemma FunctionRoundTrip(f: FunctionSpec)
    requires WellFormedFunction(f)
    ensures ParseFunctionFragment(RenderFunction(f)) == Success(f)
  {
    RenderedFunctionChars(f);
    FunctionHeaderRendered(f);
    if |f.args| > 0 {
      ArgListRoundTrip(f.args);
    }
    FragmentFromHeader(RenderFunction(f), f);
  }

  /** `function name() return type;`: the group tried with arguments
      needs a ')' at least two past the '(', finds none, and the group is
      read as `()` — the same function as with the parentheses left out. */
  lemma EmptyParenthesesNoArguments(name: string, rt: string)
    requires IsWordText(name) && IsWordText(rt)
    ensures ParseFunctionFragment(EmptyGroupFunction(name, rt)) == Success(FunctionSpec(name, rt, []))
    ensures ParseFunctionFragment(RenderFunction(FunctionSpec(name, rt, []))) == Success(FunctionSpec(name, rt, []))
  {
    EmptyGroupHeader(name, rt);
    EmptyGroupChars(name, rt);
    hide *;
    FragmentFromHeader(EmptyGroupFunction(name, rt), FunctionSpec(name, rt, []));
    FunctionRoundTrip(FunctionSpec(name, rt, []));
  }

  /** `function name() return type;` */
  function EmptyGroupFunction(name: string, rt: string): string {
    Keyword(FunctionKind) + " " + name + ("()" + ReturnText(rt))
  }

  /** The tail right at `()` followed by ` return type;`. */
  lemma EmptyGroupTail(t: string, w: nat, rt: string)
    requires w + 1 < |t| && t[w] == '(' && t[w + 1] == ')'
    requires t[w + 2..] == ReturnText(rt) && IsWordText(rt)
    ensures FunctionTailAt(t, RunEnd(t, w, Blank)) == Some((None, rt))
  {
    CloseBeforeReturn(t, w + 1, rt);
    assert LastMarked(CloseMarks(t), w + 2, |t|).None?;
    NotBlankAt(t, w);
  }

  lemma EmptyGroupHeader(name: string, rt: string)
    requires IsWordText(name) && IsWordText(rt)
    ensures FunctionHeaderAt(EmptyGroupFunction(name, rt), 0) == Some(FunctionHead(name, None, rt))
  {
    var rest := "()" + ReturnText(rt);
    var t := EmptyGroupFunction(name, rt);
    var w := 9 + |name|;
    assert !IsWord(rest[0]);
    KeywordWordAt(t, FunctionKind, name, rest);
    GroupShape(t, w, "", ReturnText(rt));
    EmptyGroupTail(t, w, rt);
    FromWholeName(t, w, (None, rt));
    HeaderFromName(t, w, FunctionHead(name, None, rt));
  }

  lemma EmptyGroupChars(name: string, rt: string)
    requires IsWordText(name) && IsWordText(rt)
    ensures '\n' !in EmptyGroupFunction(name, rt)
  {
    WordText(rt);
    SemicolonAppend(" return " + rt, ";");
    assert ReturnText(rt) == " return " + rt + ";";
    SemicolonAppend("()", ReturnText(rt));
    DeclChars(FunctionKind, name, "()" + ReturnText(rt));
  }

  /** A text holding one declaration from its start to its end is one fragment. */
  lemma SingleDecl(t: string, kind: RoutineKind)
    requires |t| > 0 && DeclEndAt(t, 0, kind) == Some(|t|)
    ensures FindDecls(t, kind) == [Span(0, |t|)] && RoutineFragments(t, kind) == [t]
  {
    var m := DeclTable(t, kind);
    assert m[0] == Some(|t|);
    assert FindAll(m, 0) == [Span(0, |t|)] + FindAll(m, |t|);
    assert t[0..|t|] == t;
  }

  /** The declaration scan from a keyword at the start, when the only ';'
      past the name is the last character. */
  lemma DeclRunsToEnd(t: string, kind: RoutineKind, a: nat)
    requires NameStart(t, 0, kind) == Some(a) && HeadEnd(t, a) + 1 < |t|
    requires t[|t| - 1] == ';' && forall k :: HeadEnd(t, a) < k < |t| - 1 ==> t[k] != ';'
    ensures DeclEndAt(t, 0, kind) == Some(|t|)
  {
    var c := HeadEnd(t, a);
    var j := FindChar(t, c + 1, ';');
    assert j == Some(|t| - 1);
  }

  /** The name and the blanks after it stop before a later word character
      that follows a character that is not a word character. */
  lemma HeadEndBefore(t: string, a: nat, k: nat)
    requires a < k < |t| && IsWord(t[k])
    requires exists m :: a < m < k && !IsWord(t[m])
    ensures HeadEnd(t, a) <= k
  {
    var b := RunEnd(t, a, WordChar);
    RunEndSpan(t, a, WordChar);
    RunEndSpan(t, b, Blank);
  }

  /** Where the declaration scan finds the name: right after the keyword
      and its single blank. */
  lemma NameStartAt(t: string, kind: RoutineKind, w: nat)
    requires var n := |Keyword(kind)|;
      HasAtNoCase(t, 0, Keyword(kind)) && BlanksAt(t, n) == Some(n + 1) && WordAt(t, n + 1) == Some(w)
    ensures NameStart(t, 0, kind) == Some(|Keyword(kind)| + 1)
    ensures HeadEnd(t, |Keyword(kind)| + 1) == RunEnd(t, w, Blank)
  {
  }

  /** A rendered function is one declaration from its start to its end. */
  lemma FunctionIsOneDecl(f: FunctionSpec)
    requires WellFormedFunction(f)
    ensures DeclEndAt(RenderFunction(f), 0, FunctionKind) == Some(|RenderFunction(f)|)
  {
    var t := RenderFunction(f);
    FunctionNameStart(f);
    FunctionHeadEnd(f);
    RenderedFunctionChars(f);
    assert t[|t| - 1] == ';' && forall k :: 9 < k < |t| - 1 ==> t[k] != ';';
    hide *;
    DeclRunsToEnd(t, FunctionKind, 9);
  }

  /** The name of a rendered function starts after `function `. */
  lemma FunctionNameStart(f: FunctionSpec)
    requires WellFormedFunction(f)
    ensures NameStart(RenderFunction(f), 0, FunctionKind) == Some(9)
  {
    FunctionPrefix(f);
    NameStartAt(RenderFunction(f), FunctionKind, 9 + |f.name|);
  }

  /** The header of a rendered function ends before the return type's
      last character. */
  lemma FunctionHeadEnd(f: FunctionSpec)
    requires WellFormedFunction(f)
    ensures var t := RenderFunction(f); 9 < |t| - 2 && HeadEnd(t, 9) <= |t| - 2
  {
    var t := RenderFunction(f);
    var w := 9 + |f.name|;
    FunctionPrefix(f);
    FunctionRestChars(f);
    assert !IsWord(t[w]) by {
      assert t[w] == t[w..][0];
    }
    assert IsWord(t[|t| - 2]) by {
      WordText(f.oraType);
      assert t[|t| - 2] == f.oraType[|f.oraType| - 1];
    }
    assert 9 < w < |t| - 2;
    hide *;
    HeadEndBefore(t, 9, |t| - 2);
  }

  /** When every fragment parses, the function list is their results in order. */
  lemma FunctionsOf(source: string, fs: seq<FunctionSpec>)
    requires |RoutineFragments(source, FunctionKind)| == |fs|
    requires forall k :: 0 <= k < |fs| ==>
      ParseFunctionFragment(RoutineFragments(source, FunctionKind)[k]) == Success(fs[k])
    ensures GetFunctions(source) == Success(fs)
  {
    var items := RoutineFragments(source, FunctionKind);
    var steps := FunctionSteps(items);
    CollectAllSuccess(steps, fs);
  }

  /** One declaration that parses: the package's function list. */
  lemma OneFunctionFragment(t: string, f: FunctionSpec)
    requires |t| > 0 && DeclEndAt(t, 0, FunctionKind) == Some(|t|)
    requires ParseFunctionFragment(t) == Success(f)
    ensures GetFunctions(t) == Success([f])
  {
    SingleDecl(t, FunctionKind);
    assert RoutineFragments(t, FunctionKind) == [t];
    hide *;
    FunctionsOf(t, [f]);
  }

  /** A package holding one well-formed function yields that function. */
  lemma SingleFunctionPackage(f: FunctionSpec)
    requires WellFormedFunction(f)
    ensures GetFunctions(RenderFunction(f)) == Success([f])
  {
    FunctionIsOneDecl(f);
    FunctionRoundTrip(f);
    OneFunctionFragment(RenderFunction(f), f);
  }

  // ---------------------------------------------------------------------
  // Procedure declarations
  // ---------------------------------------------------------------------

  predicate WellFormedProcedure(p: ProcedureSpec) {
    IsWordText(p.name) && WellFormedArgs(p.args)
  }

  /** `procedure name(args);` */
  function RenderProcedure(p: ProcedureSpec): string {
    Keyword(ProcedureKind) + " " + p.name + (ArgsText(p.args) + ";")
  }

  lemma ProcedureRestChars(p: ProcedureSpec)
    requires WellFormedProcedure(p)
    ensures var rest := ArgsText(p.args) + ";";
      '\n' !in rest && EndsAtSemicolon(rest) && !IsWord(rest[0])
  {
    if |p.args| > 0 {
      ArgsTextChars(p.args);
    }
    SemicolonAppend(ArgsText(p.args), ";");
  }

  lemma RenderedProcedureChars(p: ProcedureSpec)
    requires WellFormedProcedure(p)
    ensures '\n' !in RenderProcedure(p) && EndsAtSemicolon(RenderProcedure(p))
  {
    ProcedureRestChars(p);
    DeclChars(ProcedureKind, p.name, ArgsText(p.args) + ";");
  }

  /** The keyword, the blank and the name of a rendered procedure, and
      what follows the name. */
  lemma ProcedurePrefix(p: ProcedureSpec)
    requires WellFormedProcedure(p)
    ensures var t, w := RenderProcedure(p), 10 + |p.name|;
      && HasAtNoCase(t, 0, "procedure") && BlanksAt(t, 9) == Some(10)
      && 10 < w < |t| && WordAt(t, 10) == Some(w) && t[10..w] == p.name
      && t[w..] == ArgsText(p.args) + ";"
  {
    var rest := ArgsText(p.args) + ";";
    ProcedureRestChars(p);
    KeywordWordAt(RenderProcedure(p), ProcedureKind, p.name, rest);
  }

  /** Blanks cannot start at a '(' or a ';'. */
  lemma NotBlankAt(t: string, w: nat)
    requires w < |t| && (t[w] == '(' || t[w] == ';')
    ensures RunEnd(t, w, Blank) == w
  {
  }

  /** The procedure header from the positions of its parts: no group. */
  lemma ProcedureHeaderBare(t: string, w: nat, name: string)
    requires HasAtNoCase(t, 0, "procedure") && BlanksAt(t, 9) == Some(10)
    requires 10 < w < |t| && WordAt(t, 10) == Some(w) && t[10..w] == name && t[w] == ';'
    ensures ProcedureHeaderAt(t, 0) == Some(ProcedureHead(name, None))
  {
    NotBlankAt(t, w);
  }

  /** The procedure header from the positions of its parts: the group
      runs to the last ')'. */
  lemma ProcedureHeaderGroup(t: string, w: nat, x: nat, name: string, a: string)
    requires HasAtNoCase(t, 0, "procedure") && BlanksAt(t, 9) == Some(10)
    requires 10 < w && w + 1 < x < |t| && WordAt(t, 10) == Some(w) && t[w] == '('
    requires t[10..w] == name && t[w + 1..x] == a
    requires t[x] == ')' && forall q :: x < q < |t| ==> t[q] != ')'
    ensures ProcedureHeaderAt(t, 0) == Some(ProcedureHead(name, Some(a)))
  {
    NotBlankAt(t, w);
    assert LastIndexFrom(t, w + 2, ')') == Some(x);
  }

  /** The header of a rendered procedure without arguments. */
  lemma ProcedureHeaderBareRendered(p: ProcedureSpec)
    requires WellFormedProcedure(p) && |p.args| == 0
    ensures ProcedureHeaderAt(RenderProcedure(p), 0) == Some(ProcedureHead(p.name, None))
  {
    var t := RenderProcedure(p);
    var w := 10 + |p.name|;
    ProcedurePrefix(p);
    assert t[w] == ';' by {
      assert t[w..] == ";";
      assert t[w] == t[w..][0];
    }
    ProcedureHeaderBare(t, w, p.name);
  }

  /** The header of a rendered procedure with arguments. */
  lemma ProcedureHeaderGroupRendered(p: ProcedureSpec)
    requires WellFormedProcedure(p) && |p.args| > 0
    ensures ProcedureHeaderAt(RenderProcedure(p), 0) == Some(ProcedureHead(p.name, Some(RenderArgs(p.args))))
  {
    var t := RenderProcedure(p);
    var w := 10 + |p.name|;
    var a := RenderArgs(p.args);
    var x := w + 1 + |a|;
    ProcedurePrefix(p);
    assert t[w..] == "(" + a + ")" + ";";
    GroupShape(t, w, a, ";");
    assert x + 2 == |t| && t[x + 1] == ';';
    ProcedureHeaderGroup(t, w, x, p.name, a);
  }

  /** The header of a rendered procedure: its name and its argument text. */
  lemma ProcedureHeaderRendered(p: ProcedureSpec)
    requires WellFormedProcedure(p)
    ensures ProcedureHeaderAt(RenderProcedure(p), 0) == Some(ProcedureHead(p.name, ArgsGroup(p.args)))
  {
    if |p.args| == 0 {
      ProcedureHeaderBareRendered(p);
    } else {
      ProcedureHeaderGroupRendered(p);
    }
  }

  lemma ProcedureSearchAtStart(t: string)
    requires ProcedureHeaderAt(t, 0).Some?
    ensures ProcedureHeaderSearch(t) == ProcedureHeaderAt(t, 0)
  {
    var m := ProcedureHeaderTable(t);
    assert m[0].Some?;
  }

  lemma ProcedureFragmentFromHeader(t: string, p: ProcedureSpec)
    requires '\n' !in t
    requires ProcedureHeaderAt(t, 0) == Some(ProcedureHead(p.name, ArgsGroup(p.args)))
    requires |p.args| > 0 ==> ParseArgList(RenderArgs(p.args)) == Success(p.args)
    ensures ParseProcedureFragment(t) == Success(p)
  {
    RemoveAbsentChar(t, '\n');
    ProcedureSearchAtStart(t);
  }

  /** A well-formed procedure written out is read back by the fragment parser. */
  lemma ProcedureRoundTrip(p: ProcedureSpec)
    requires WellFormedProcedure(p)
    ensures ParseProcedureFragment(RenderProcedure(p)) == Success(p)
  {
    RenderedProcedureChars(p);
    ProcedureHeaderRendered(p);
    if |p.args| > 0 {
      ArgListRoundTrip(p.args);
    }
    ProcedureFragmentFromHeader(RenderProcedure(p), p);
  }

  /** When every fragment parses, the procedure list is their results in order. */
  lemma ProceduresOf(source: string, ps: seq<ProcedureSpec>)
    requires |RoutineFragments(source, ProcedureKind)| == |ps|
    requires forall k :: 0 <= k < |ps| ==>
      ParseProcedureFragment(RoutineFragments(source, ProcedureKind)[k]) == Success(ps[k])
    ensures GetProcedures(source) == Success(ps)
  {
    var items := RoutineFragments(source, ProcedureKind);
    var steps := ProcedureSteps(items);
    CollectAllSuccess(steps, ps);
  }

  lemma OneProcedureFragment(t: string, p: ProcedureSpec)
    requires |t| > 0 && DeclEndAt(t, 0, ProcedureKind) == Some(|t|)
    requires ParseProcedureFragment(t) == Success(p)
    ensures GetProcedures(t) == Success([p])
  {
    SingleDecl(t, ProcedureKind);
    assert RoutineFragments(t, ProcedureKind) == [t];
    hide *;
    ProceduresOf(t, [p]);
  }

  /** The declaration scan when a ';' directly follows the name, which is
      the last character, and the name has at least two characters. */
  lemma DeclEndsAtName(t: string, kind: RoutineKind, a: nat)
    requires NameStart(t, 0, kind) == Some(a) && HeadEnd(t, a) == |t| - 1
    requires t[|t| - 1] == ';' && |t| - 1 >= a + 2
    ensures DeclEndAt(t, 0, kind) == Some(|t|)
  {
  }

  /** A rendered procedure with arguments, or with a name of two or more
      characters, is one declaration from its start to its end. */
  lemma ProcedureIsOneDecl(p: ProcedureSpec)
    requires WellFormedProcedure(p) && (|p.args| > 0 || |p.name| >= 2)
    ensures DeclEndAt(RenderProcedure(p), 0, ProcedureKind) == Some(|RenderProcedure(p)|)
  {
    var t := RenderProcedure(p);
    var w := 10 + |p.name|;
    ProcedurePrefix(p);
    RenderedProcedureChars(p);
    NameStartAt(t, ProcedureKind, w);
    ProcedureNameEnd(p);
    if |p.args| == 0 {
      DeclEndsAtName(t, ProcedureKind, 10);
    } else {
      DeclRunsToEnd(t, ProcedureKind, 10);
    }
  }

  /** No blank follows the name of a rendered procedure, and the name ends
      just before the closing ';' when there is no group. */
  lemma ProcedureNameEnd(p: ProcedureSpec)
    requires WellFormedProcedure(p)
    ensures var t, w := RenderProcedure(p), 10 + |p.name|;
      w < |t| && RunEnd(t, w, Blank) == w && (|p.args| == 0 <==> w == |t| - 1)
  {
    var t := RenderProcedure(p);
    var w := 10 + |p.name|;
    ProcedurePrefix(p);
    if |p.args| == 0 {
      assert t[w..] == ";";
      assert t[w] == t[w..][0];
    } else {
      assert t[w..] == "(" + RenderArgs(p.args) + ")" + ";";
      assert t[w] == t[w..][0];
    }
    NotBlankAt(t, w);
  }

  /** A package holding one such procedure yields that procedure. */
  lemma SingleProcedurePackage(p: ProcedureSpec)
    requires WellFormedProcedure(p) && (|p.args| > 0 || |p.name| >= 2)
    ensures GetProcedures(RenderProcedure(p)) == Success([p])
  {
    ProcedureIsOneDecl(p);
    ProcedureRoundTrip(p);
    OneProcedureFragment(RenderProcedure(p), p);
  }

  // ---------------------------------------------------------------------
  // Where the patterns read a declaration differently from PL/SQL
  // ---------------------------------------------------------------------

  /** A parameterless procedure whose name is one character long is not
      found at all: the lazy `.+?` must take a character after the name
      and its blanks, and nothing but the closing ';' is left. */
  lemma OneLetterProcedureLost(p: ProcedureSpec)
    requires WellFormedProcedure(p) && |p.name| == 1 && |p.args| == 0
    ensures FindDecls(RenderProcedure(p), ProcedureKind) == []
    ensures GetProcedures(RenderProcedure(p)) == Success([])
  {
    var t := RenderProcedure(p);
    var rest := ArgsText(p.args) + ";";
    ProcedureRestChars(p);
    KeywordWordAt(t, ProcedureKind, p.name, rest);
    assert |t| == 12 && t[11] == ';';
    assert NameStart(t, 0, ProcedureKind) == Some(10);
    assert HeadEnd(t, 10) == 11;
    var m := DeclTable(t, ProcedureKind);
    forall q | 0 <= q < |m| ensures m[q].None? {
      if q == 0 {
        assert FindChar(t, 12, ';') == None;
      }
    }
    FindAllNone(m, 0);
    ProceduresOf(t, []);
  }

  /** Past `w`, the text is one that ends at its only ';'. */
  lemma SemicolonTail(t: string, w: nat, r: string)
    requires w < |t| && t[w + 1..] == r && EndsAtSemicolon(r)
    ensures t[|t| - 1] == ';' && forall k :: w < k < |t| - 1 ==> t[k] != ';'
  {
    assert t[|t| - 1] == r[|r| - 1];
    forall k | w < k < |t| - 1 ensures t[k] != ';' {
      assert t[k] == r[k - w - 1];
    }
  }

  /** The positions in `procedure name;` followed by a text `r` that ends
      at its only ';'. */
  lemma BareThenShape(t: string, name: string, r: string)
    requires t == Keyword(ProcedureKind) + " " + name + (";" + r)
    requires IsWordText(name) && EndsAtSemicolon(r)
    ensures var w := 10 + |name|;
      && HasAtNoCase(t, 0, "procedure") && BlanksAt(t, 9) == Some(10)
      && 10 < w && w + 1 < |t| && WordAt(t, 10) == Some(w) && t[10..w] == name
      && t[w] == ';' && t[|t| - 1] == ';'
      && forall k :: w < k < |t| - 1 ==> t[k] != ';'
  {
    var w := 10 + |name|;
    var rest := ";" + r;
    KeywordWordAt(t, ProcedureKind, name, rest);
    assert t[w] == ';' && t[w + 1..] == r by {
      assert t[w..] == rest;
    }
    SemicolonTail(t, w, r);
  }

  /** The fragment parse of a procedure with no group. */
  lemma BareProcedureParses(t: string, p: ProcedureSpec, w: nat)
    requires |p.args| == 0 && '\n' !in t
    requires HasAtNoCase(t, 0, "procedure") && BlanksAt(t, 9) == Some(10)
    requires 10 < w < |t| && WordAt(t, 10) == Some(w) && t[10..w] == p.name && t[w] == ';'
    ensures ParseProcedureFragment(t) == Success(p)
  {
    ProcedureHeaderBare(t, w, p.name);
    ProcedureFragmentFromHeader(t, p);
  }

  /** The declaration scan past a ';' right after the name runs on to the
      next ';'. */
  lemma BareDeclRunsOn(t: string, w: nat)
    requires HasAtNoCase(t, 0, "procedure") && BlanksAt(t, 9) == Some(10)
    requires 10 < w && w + 1 < |t| && WordAt(t, 10) == Some(w)
    requires t[w] == ';' && t[|t| - 1] == ';'
    requires forall k :: w < k < |t| - 1 ==> t[k] != ';'
    ensures DeclEndAt(t, 0, ProcedureKind) == Some(|t|)
  {
    NameStartAt(t, ProcedureKind, w);
    assert RunEnd(t, w, Blank) == w;
    DeclRunsToEnd(t, ProcedureKind, 10);
  }

  /** A procedure with no group whose fragment runs on to the last ';'. */
  lemma BareProcedureRunsOn(t: string, p: ProcedureSpec, w: nat)
    requires |p.args| == 0
    requires HasAtNoCase(t, 0, "procedure") && BlanksAt(t, 9) == Some(10)
    requires 10 < w && w + 1 < |t| && WordAt(t, 10) == Some(w) && t[10..w] == p.name
    requires t[w] == ';' && '\n' !in t && t[|t| - 1] == ';'
    requires forall k :: w < k < |t| - 1 ==> t[k] != ';'
    ensures GetProcedures(t) == Success([p])
  {
    BareProcedureParses(t, p, w);
    BareDeclRunsOn(t, w);
    OneProcedureFragment(t, p);
  }

  /** A parameterless procedure swallows the declaration after it: the
      fragment runs on to the next ';', so the following procedure is
      never parsed on its own. */
  lemma BareProcedureSwallowsNext(p: ProcedureSpec, q: ProcedureSpec)
    requires WellFormedProcedure(p) && |p.args| == 0 && WellFormedProcedure(q)
    ensures GetProcedures(RenderProcedure(p) + RenderProcedure(q)) == Success([p])
  {
    var t := RenderProcedure(p) + RenderProcedure(q);
    RenderedProcedureChars(p);
    RenderedProcedureChars(q);
    assert '\n' !in t;
    assert t == Keyword(ProcedureKind) + " " + p.name + (";" + RenderProcedure(q));
    BareThenShape(t, p.name, RenderProcedure(q));
    BareProcedureRunsOn(t, p, 10 + |p.name|);
  }

  /** A name and one blank open the text. */
  lemma NameThenBlank(t: string, n: string, r: string)
    requires t == n + " " + r && IsWordText(n) && |r| > 0 && !IsSpace(r[0])
    ensures WordAt(t, 0) == Some(|n|) && t[0..|n|] == n
    ensures BlanksAt(t, |n|) == Some(|n| + 1) && t[|n| + 1..] == r
  {
    WordText(n);
    forall k | 0 <= k < |n| ensures IsWord(t[k]) {
      assert t[k] == n[k];
    }
    assert t[|n|] == ' ';
    RunEndIs(t, 0, WordChar, |n|);
    assert t[|n| + 1] == r[0];
    SingleBlank(t, |n|);
    assert t[0..|n|] == n;
    assert t[|n| + 1..] == r;
  }

  /** The argument search from the parts of a match at the start. */
  lemma ArgSearchFromParts(t: string, n: nat, c: nat, dt: (Option<string>, string))
    requires c <= |t| && WordAt(t, 0) == Some(n) && BlanksAt(t, n) == Some(c)
    requires DirectedTypeAt(t, c) == Some(dt)
    ensures ArgSearch(t) == Some(ArgSpec(t[0..n], dt.0, dt.1))
  {
    assert ArgTable(t)[0] == ArgAt(t, 0);
  }

  /** `IN ty` from `c` on: the direction alternatives are lower case only,
      so the upper-case word is taken as the type. */
  lemma UpperInDirection(t: string, c: nat, ty: string)
    requires c <= |t| && t[c..] == "IN " + ty
    ensures DirectedTypeAt(t, c) == Some((None, "IN"))
  {
    assert t[c] == 'I' && t[c + 1] == 'N' && t[c + 2] == ' ' by {
      assert t[c] == t[c..][0] && t[c + 1] == t[c..][1] && t[c + 2] == t[c..][2];
    }
    assert !HasAt(t, c, "in") by {
      assert t[c..c + 2][0] == t[c];
    }
    assert !HasAt(t, c, "out") by {
      if c + 3 <= |t| {
        assert t[c..c + 3][0] == t[c];
      }
    }
    RunEndIs(t, c, WordChar, c + 2);
    assert t[c..c + 2] == "IN";
  }

  /** An upper-case direction is read as the argument's type: the real
      type is ignored and no direction is recorded. */
  lemma UpperCaseDirectionIsType(n: string, ty: string)
    requires IsWordText(n)
    ensures ArgSearch(n + " IN " + ty) == Some(ArgSpec(n, None, "IN"))
  {
    var t := n + " IN " + ty;
    assert t == n + " " + ("IN " + ty);
    NameThenBlank(t, n, "IN " + ty);
    UpperInDirection(t, |n| + 1, ty);
    ArgSearchFromParts(t, |n|, |n| + 1, (None, "IN"));
  }

  /** `in out` with nothing after it: the `in\s+out` alternative needs a
      type word after it, so the engine falls back to `in` and takes
      `out` as the type. */
  lemma InOutWithoutType(n: string)
    requires IsWordText(n)
    ensures ArgSearch(n + " in out") == Some(ArgSpec(n, Some("in"), "out"))
  {
    var t := n + " in out";
    assert t == n + " " + "in out";
    NameThenBlank(t, n, "in out");
    var c := |n| + 1;
    assert t[c..] == "in out";
    assert t[c..c + 3] == "in " && t[c + 3..] == "out" by {
      assert t[c..c + 3] == t[c..][..3];
      assert t[c + 3..] == t[c..][3..];
    }
    assert IsWordText("out") by {
      assert AllIn("out", WordChar);
    }
    InDirection(t, c, "out");
    ArgSearchFromParts(t, |n|, c, (Some("in"), "out"));
  }

  /** The empty piece finds no argument. */
  lemma EmptyPieceFails()
    ensures ParseArg("") == Failure(ArgumentNotFound(""))
  {
    assert Strip("") == "";
    NormalizePlain("");
    assert ArgSearch("") == None by {
      assert WordAt("", 0) == None;
      assert ArgAt("", 0) == None;
    }
  }

  /** The first piece that fails decides the failure of the whole list. */
  lemma PiecesFailAt(pieces: seq<string>, n: nat, e: ParseError)
    requires n < |pieces| && ParseArg(pieces[n]) == Failure(e)
    requires forall j :: 0 <= j < n ==> ParseArg(pieces[j]).Success?
    ensures ParsePieces(pieces) == Failure(e)
  {
    var steps := ArgSteps(pieces);
    CollectFirstFailure(steps, n, e);
  }

  /** A trailing comma adds one empty piece to the split. */
  lemma TrailingCommaPieces(args: seq<ArgSpec>)
    requires |args| > 0 && WellFormedArgs(args)
    ensures Split(RenderArgs(args) + ",", ',') == ArgPieces(args) + [""]
  {
    var pieces := ArgPieces(args) + [""];
    JoinSnoc(ArgPieces(args), "", ',');
    assert Join(pieces, ',') == RenderArgs(args) + ",";
    forall k | 0 <= k < |pieces| ensures ',' !in pieces[k] {
      if k < |args| {
        PieceFacts(args, k);
      }
    }
    SplitJoin(pieces, ',');
  }

  /** Every piece before the empty one parses. */
  lemma PiecesBeforeEmpty(args: seq<ArgSpec>)
    requires |args| > 0 && WellFormedArgs(args)
    ensures var pieces := ArgPieces(args) + [""];
      && pieces[|args|] == ""
      && forall j :: 0 <= j < |args| ==> ParseArg(pieces[j]).Success?
  {
    var pieces := ArgPieces(args) + [""];
    forall j | 0 <= j < |args| ensures ParseArg(pieces[j]).Success? {
      assert WellFormedArg(args[j]) && pieces[j] == ArgPieces(args)[j];
      hide *;
      PieceFacts(args, j);
    }
  }

  /** A trailing comma leaves an empty last piece, and the parse fails on
      it even though every argument before it is well formed. */
  lemma TrailingCommaFails(args: seq<ArgSpec>)
    requires |args| > 0 && WellFormedArgs(args)
    ensures ParseArgList(RenderArgs(args) + ",") == Failure(ArgumentNotFound(""))
  {
    hide *;
    var pieces := ArgPieces(args) + [""];
    TrailingCommaPieces(args);
    PiecesBeforeEmpty(args);
    EmptyPieceFails();
    PiecesFailAt(pieces, |args|, ArgumentNotFound(""));
    ArgListOfPieces(RenderArgs(args) + ",", pieces);
  }

  /** The argument list parse is the parse of the comma-separated pieces. */
  lemma ArgListOfPieces(text: string, pieces: seq<string>)
    requires Split(text, ',') == pieces
    ensures ParseArgList(text) == ParsePieces(pieces)
  {
  }

  /** A piece with no blank at either end and no backslash is searched as
      it is. */
  lemma NormalizeTrimmed(piece: string)
    requires |piece| > 0 && piece[0] != ' ' && piece[|piece| - 1] != ' ' && '\\' !in piece
    ensures Normalize(piece) == piece
  {
    NormalizePlain(piece);
    StripTrimmed(piece);
  }

  /** The characters of `name type(p`. */
  lemma PrecisionHeadChars(n: string, ty: string, p: string)
    requires IsWordText(n) && IsWordText(ty) && IsWordText(p)
    ensures var t := n + " " + ty + "(" + p;
      && t == n + " " + (ty + "(" + p) && IsWord(t[|n| + 1])
      && t[0] != ' ' && t[|t| - 1] != ' ' && '\\' !in t
  {
    var t := n + " " + ty + "(" + p;
    WordText(n);
    WordText(ty);
    WordText(p);
    WordTextPunct(n);
    WordTextPunct(ty);
    WordTextPunct(p);
    assert t[0] == n[0] && t[|t| - 1] == p[|p| - 1] && t[|n| + 1] == ty[0];
  }

  /** A name, one blank and a word: the argument search succeeds. */
  lemma ArgAtStartFound(t: string, n: string, r: string)
    requires t == n + " " + r && IsWordText(n) && |r| > 0 && IsWord(r[0])
    ensures ArgSearch(t).Some?
  {
    NameThenBlank(t, n, r);
    assert t[|n| + 1] == r[0];
    assert ArgAt(t, 0).Some?;
  }

  /** `name type(p` parses: the type word stops at the '('. */
  lemma PrecisionHeadParses(n: string, ty: string, p: string)
    requires IsWordText(n) && IsWordText(ty) && IsWordText(p)
    ensures ParseArg(n + " " + ty + "(" + p).Success?
  {
    var t := n + " " + ty + "(" + p;
    PrecisionHeadChars(n, ty, p);
    NormalizeTrimmed(t);
    WordText(ty);
    ArgAtStartFound(t, n, ty + "(" + p);
  }

  /** No match of the argument pattern starts anywhere in `word)`. */
  lemma WordThenCloseAt(s: string, q: nat)
    requires IsWordText(s) && q <= |s| + 1
    ensures ArgAt(s + ")", q).None?
  {
    var t := s + ")";
    assert t[|s|] == ')';
    if q < |s| {
      WordText(s);
      forall k | q <= k < |s| ensures InClass(t[k], WordChar) {
        assert t[k] == s[k];
      }
      RunEndIs(t, q, WordChar, |s|);
    }
  }

  /** `digits)` holds no argument: after the word comes a ')', never the
      blank the pattern needs, and nothing else starts a word. */
  lemma PrecisionTailFails(s: string)
    requires IsWordText(s)
    ensures ParseArg(s + ")") == Failure(ArgumentNotFound(s + ")"))
  {
    var t := s + ")";
    WordText(s);
    WordTextPunct(s);
    assert t[|s|] == ')' && t[0] == s[0];
    assert '\\' !in t;
    NormalizeTrimmed(t);
    forall q | 0 <= q <= |t| ensures ArgAt(t, q).None? {
      WordThenCloseAt(s, q);
    }
  }

  /** A precision such as `number(10,2)` is cut at its comma: the split
      does not look at parentheses, so the second piece is `2)`, which
      holds no argument, and the whole list fails on it. */
  lemma PrecisionSplitsArgument(n: string, ty: string, p: string, s: string)
    requires IsWordText(n) && IsWordText(ty) && IsWordText(p) && IsWordText(s)
    ensures ParseArgList(n + " " + ty + "(" + p + "," + s + ")") == Failure(ArgumentNotFound(s + ")"))
  {
    var text := n + " " + ty + "(" + p + "," + s + ")";
    var pieces := [n + " " + ty + "(" + p, s + ")"];
    hide *;
    PrecisionPieces(n, ty, p, s);
    PrecisionHeadParses(n, ty, p);
    PrecisionTailFails(s);
    PiecesFailAt(pieces, 1, ArgumentNotFound(s + ")"));
    ArgListOfPieces(text, pieces);
  }

  /** The comma inside the parentheses splits the text in two. */
  lemma PrecisionPieces(n: string, ty: string, p: string, s: string)
    requires IsWordText(n) && IsWordText(ty) && IsWordText(p) && IsWordText(s)
    ensures Split(n + " " + ty + "(" + p + "," + s + ")", ',') == [n + " " + ty + "(" + p, s + ")"]
  {
    var a, b := n + " " + ty + "(" + p, s + ")";
    PrecisionPieceChars(n, ty, p, s);
    TwoPieces(a, b);
    assert n + " " + ty + "(" + p + "," + s + ")" == a + "," + b;
  }

  /** Text without a comma on either side of one comma splits in two. */
  lemma TwoPieces(a: string, b: string)
    requires ',' !in a && ',' !in b
    ensures Split(a + "," + b, ',') == [a, b]
  {
    var pieces := [a, b];
    assert pieces[1..] == [b];
    assert Join(pieces, ',') == a + "," + b;
    SplitJoin(pieces, ',');
  }

  lemma PrecisionPieceChars(n: string, ty: string, p: string, s: string)
    requires IsWordText(n) && IsWordText(ty) && IsWordText(p) && IsWordText(s)
    ensures ',' !in n + " " + ty + "(" + p && ',' !in s + ")"
  {
    WordTextPunct(n);
    WordTextPunct(ty);
    WordTextPunct(p);
    WordTextPunct(s);
  }

  /** One position where the text and the literal differ, case aside,
      rules the case-blind match out. */
  lemma {:induction false} MismatchNoCase(a: string, lit: string, k: nat)
    requires k < |a| && k < |lit| && Lower(a[k]) != lit[k]
    ensures !EqualsNoCase(a, lit)
    decreases k
  {
    if k > 0 && |a| == |lit| && Lower(a[0]) == lit[0] {
      MismatchNoCase(a[1..], lit[1..], k - 1);
    }
  }

  /** `function`, a newline and `name return type;`. */
  function NewlineFunction(name: string, rt: string): string {
    Keyword(FunctionKind) + "\n" + (name + ReturnText(rt))
  }

  /** The same text once its newline is deleted. */
  function GluedFunction(name: string, rt: string): string {
    Keyword(FunctionKind) + (name + ReturnText(rt))
  }

  /** The keyword and a newline at the start of a declaration. */
  lemma KeywordThenNewline(t: string, kind: RoutineKind, name: string, rest: string)
    requires t == Keyword(kind) + "\n" + (name + rest) && IsWordText(name)
    ensures var n := |Keyword(kind)|;
      HasAtNoCase(t, 0, Keyword(kind)) && BlanksAt(t, n) == Some(n + 1) && t[n + 1..] == name + rest
  {
    var n := |Keyword(kind)|;
    KeywordAtStart(t, kind, "\n" + (name + rest));
    AfterKeyword(t, Keyword(kind), "\n", name + rest);
    assert t[n + 1] == name[0];
    WordText(name);
    SingleBlank(t, n);
  }

  /** What follows the keyword and one separator character. */
  lemma AfterKeyword(t: string, kw: string, sep: string, r: string)
    requires |sep| == 1 && t == kw + sep + r
    ensures t[|kw|] == sep[0] && t[|kw| + 1..] == r
  {
  }

  /** The keyword, the newline and the name of `NewlineFunction`, and
      what follows the name. */
  lemma NewlineFunctionHead(name: string, rt: string)
    requires IsWordText(name) && IsWordText(rt)
    ensures var u, w := NewlineFunction(name, rt), 9 + |name|;
      && HasAtNoCase(u, 0, "function") && BlanksAt(u, 8) == Some(9)
      && w < |u| && WordAt(u, 9) == Some(w) && u[w..] == ReturnText(rt)
  {
    var u := NewlineFunction(name, rt);
    var rest := ReturnText(rt);
    FunctionRestChars(FunctionSpec(name, rt, []));
    assert rest == ArgsText([]) + ReturnText(rt);
    KeywordThenNewline(u, FunctionKind, name, rest);
    NameAfterKeyword(u, 8, name, rest);
  }

  /** `NewlineFunction` ends with the type word and its only ';'. */
  lemma NewlineFunctionEnd(name: string, rt: string)
    requires IsWordText(name) && IsWordText(rt)
    ensures var u := NewlineFunction(name, rt);
      |u| >= 2 && IsWord(u[|u| - 2]) && EndsAtSemicolon(u)
  {
    var u := NewlineFunction(name, rt);
    var rest := ReturnText(rt);
    FunctionRestChars(FunctionSpec(name, rt, []));
    assert rest == ArgsText([]) + ReturnText(rt);
    WordText(name);
    WordText(rt);
    SemicolonAppend(name, rest);
    assert ';' !in Keyword(FunctionKind) + "\n";
    SemicolonAppend(Keyword(FunctionKind) + "\n", name + rest);
    assert u[|u| - 2] == rt[|rt| - 1];
  }

  /** The declaration scan is blind to which blank follows the keyword:
      the whole text is one function declaration. */
  lemma NewlineFunctionIsOneDecl(name: string, rt: string)
    requires IsWordText(name) && IsWordText(rt)
    ensures DeclEndAt(NewlineFunction(name, rt), 0, FunctionKind) == Some(|NewlineFunction(name, rt)|)
  {
    var u := NewlineFunction(name, rt);
    var w := 9 + |name|;
    NewlineFunctionHead(name, rt);
    NewlineFunctionEnd(name, rt);
    assert u[w] == ' ' by {
      assert u[w] == u[w..][0];
    }
    NameStartAt(u, FunctionKind, w);
    HeadEndBefore(u, 9, |u| - 2);
    DeclRunsToEnd(u, FunctionKind, 9);
  }

  lemma KeywordNoNewline(kind: RoutineKind)
    ensures '\n' !in Keyword(kind)
  {
  }

  /** Deleting the newline glues the keyword to the name. */
  lemma NewlineDeleted(name: string, rt: string)
    requires IsWordText(name) && IsWordText(rt)
    ensures RemoveChar(NewlineFunction(name, rt), '\n') == GluedFunction(name, rt)
  {
    var kw := Keyword(FunctionKind);
    var rest := ReturnText(rt);
    WordText(name);
    KeywordNoNewline(FunctionKind);
    FunctionRestChars(FunctionSpec(name, rt, []));
    assert rest == ArgsText([]) + ReturnText(rt);
    RemoveCharAppend(kw + "\n", name + rest, '\n');
    RemoveCharAppend(kw, "\n", '\n');
    RemoveAbsentChar(kw, '\n');
    RemoveAbsentChar(name + rest, '\n');
    assert RemoveChar("\n", '\n') == "";
    assert kw + "" == kw;
  }

  /** The only blanks of the glued text are the two around `return`. */
  lemma GluedBlanks(name: string, rt: string, k: nat)
    requires IsWordText(name) && IsWordText(rt)
    requires k < |GluedFunction(name, rt)| && k != 8 + |name| && k != 15 + |name|
    ensures !IsSpace(GluedFunction(name, rt)[k])
  {
    var v := GluedFunction(name, rt);
    WordText(name);
    WordText(rt);
    if k < 8 {
      assert v[k] == "function"[k];
    } else if k < 8 + |name| {
      assert v[k] == name[k - 8];
    } else if k < 15 + |name| {
      assert v[k] == "return"[k - 9 - |name|];
    } else if k < |v| - 1 {
      assert v[k] == rt[k - 16 - |name|];
    } else {
      assert v[k] == ';';
    }
  }

  /** The keyword cannot end just before the blank that opens ` return`
      unless the name itself ends with `function`. */
  /** No letter of `function` after the first is an `f`, in any case. */
  lemma KeywordTailLetters(q: nat)
    requires 1 <= q < 8
    ensures Lower("function"[q]) != 'f'
  {
    assert "function"[q] in "unction" by {
      assert "function"[q] == "unction"[q - 1];
    }
  }

  lemma GluedNotBeforeReturn(name: string, rt: string)
    requires IsWordText(name) && IsWordText(rt)
    requires |name| < 8 || !HasAtNoCase(name, |name| - 8, "function")
    ensures !HasAtNoCase(GluedFunction(name, rt), |name|, "function")
  {
    var v := GluedFunction(name, rt);
    var q := |name|;
    if q < 8 {
      assert v[q..q + 8][0] == v[q] == "function"[q];
      KeywordTailLetters(q);
      MismatchNoCase(v[q..q + 8], "function", 0);
    } else {
      assert v[q..q + 8] == name[q - 8..q];
    }
  }

  /** The keyword cannot end just before the blank after `return`: the
      blank before `return` is where its `u` would have to be. */
  lemma GluedNotBeforeType(name: string, rt: string)
    requires IsWordText(name) && IsWordText(rt)
    ensures !HasAtNoCase(GluedFunction(name, rt), |name| + 7, "function")
  {
    var v := GluedFunction(name, rt);
    var q := |name| + 7;
    assert v[q + 1] == ' ';
    MismatchNoCase(v[q..q + 8], "function", 1);
  }

  /** The header pattern matches nowhere in the glued text. */
  lemma GluedHeaderMissing(name: string, rt: string)
    requires IsWordText(name) && IsWordText(rt)
    requires |name| < 8 || !HasAtNoCase(name, |name| - 8, "function")
    ensures FunctionHeaderSearch(GluedFunction(name, rt)) == None
  {
    var v := GluedFunction(name, rt);
    GluedNotBeforeReturn(name, rt);
    GluedNotBeforeType(name, rt);
    forall q | 0 <= q <= |v| ensures FunctionHeaderAt(v, q).None? {
      if q != |name| && q != |name| + 7 {
        if q + 8 < |v| {
          GluedBlanks(name, rt, q + 8);
        }
        HeaderNeedsBlank(v, q);
      }
    }
  }

  /** The function header needs a blank right after the keyword. */
  lemma HeaderNeedsBlank(t: string, q: nat)
    requires q + 8 >= |t| || !IsSpace(t[q + 8])
    ensures FunctionHeaderAt(t, q).None?
  {
  }

  /** A newline between `function` and the name is deleted before the
      header is searched, so the keyword runs into the name and the
      declaration the scan found makes the whole parse fail. */
  lemma NewlineAfterKeywordFails(name: string, rt: string)
    requires IsWordText(name) && IsWordText(rt)
    requires |name| < 8 || !HasAtNoCase(name, |name| - 8, "function")
    ensures FindDecls(NewlineFunction(name, rt), FunctionKind) == [Span(0, |NewlineFunction(name, rt)|)]
    ensures GetFunctions(NewlineFunction(name, rt)) == Failure(HeaderNotFound(GluedFunction(name, rt)))
  {
    var u := NewlineFunction(name, rt);
    var e := HeaderNotFound(GluedFunction(name, rt));
    NewlineFunctionIsOneDecl(name, rt);
    SingleDecl(u, FunctionKind);
    NewlineDeleted(name, rt);
    GluedHeaderMissing(name, rt);
    assert ParseFunctionFragment(u) == Failure(e);
    CollectFirstFailure(FunctionSteps([u]), 0, e);
  }
}
