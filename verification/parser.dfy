/** `PlSqlParser` (plsql/parser.py): from the raw text of a package
    specification to its public functions, procedures and constants.

    Each fragment found by the scans of module `Scanner` has its newlines
    deleted and is then searched with one more pattern. As in the scanner,
    every pattern is a hand-written matcher that tries the alternatives in
    the order a backtracking regex engine does, and `re.search` is the
    first start position where the matcher succeeds. */
module Parser {
  import opened Wrappers
  import opened Text
  import opened Scanner

  /** One argument as the parser reports it. `direction` is the text the
      direction group captured (`in`, `out`, or `in`, blanks, `out`) and
      `None` when the group took no part in the match. */
  datatype ArgSpec = ArgSpec(name: string, direction: Option<string>, oraType: string)

  datatype FunctionSpec = FunctionSpec(name: string, oraType: string, args: seq<ArgSpec>)

  datatype ProcedureSpec = ProcedureSpec(name: string, args: seq<ArgSpec>)

  datatype ConstantSpec = ConstantSpec(name: string, oraType: string, value: string)

  /** What `get_package_members` returns: functions, procedures, constants. */
  datatype PackageSpec = PackageSpec(
    functions: seq<FunctionSpec>,
    procedures: seq<ProcedureSpec>,
    constants: seq<ConstantSpec>)

  /** The `AttributeError` raised when `.group` is called on the `None` of a
      failed search: for a routine header, or for one argument piece. */
  datatype ParseError =
    | HeaderNotFound(fragment: string)
    | ArgumentNotFound(piece: string)

  /** A non-empty `\w+` word. */
  predicate IsWordText(s: string) {
    |s| > 0 && AllIn(s, WordChar)
  }

  // ---------------------------------------------------------------------
  // Pattern pieces
  // ---------------------------------------------------------------------

  /** `\s+` at `i` when the next item cannot start with a blank: a shorter
      run would leave a blank in that item's way, so only the longest run
      can lead to a match. Its end, when the run is not empty. */
  function BlanksAt(t: string, i: nat): (r: Option<nat>)
    requires i <= |t|
    ensures r.Some? ==> i < r.value <= |t|
    ensures r.Some? <==> i < |t| && IsSpace(t[i])
    ensures r.Some? ==> r.value == RunEnd(t, i, Blank)
  {
    var j := RunEnd(t, i, Blank);
    if j == i then None else Some(j)
  }

  /** `\w+` at `i` when nothing after it can fail: the longest word run. */
  function WordAt(t: string, i: nat): (r: Option<nat>)
    requires i <= |t|
    ensures r.Some? <==> i < |t| && IsWord(t[i])
    ensures r.Some? ==> i < r.value <= |t| && IsWordText(t[i..r.value])
    ensures r.Some? ==> r.value == |t| || !IsWord(t[r.value])
    ensures r.Some? ==> r.value == RunEnd(t, i, WordChar)
  {
    var j := RunEnd(t, i, WordChar);
    if j == i then None
    else
      RunAllIn(t, i, j, WordChar);
      Some(j)
  }

  // ---------------------------------------------------------------------
  // Arguments: (?P<name>\w+)\s+(?:(?P<type>(?:in\s+out)|(?:in)|(?:out))\s+)?(?P<oratype>\w+)
  // Case-sensitive (no re.I).
  // ---------------------------------------------------------------------

  /** The direction alternative matched `t[c..d]`; it must be followed by
      blanks and the type word. */
  function AfterDirection(t: string, c: nat, d: nat): (r: Option<(Option<string>, string)>)
    requires c <= d <= |t|
    ensures r.Some? ==> r.value.0 == Some(t[c..d]) && IsWordText(r.value.1)
  {
    match BlanksAt(t, d)
    case None => None
    case Some(e) =>
      match WordAt(t, e)
      case None => None
      case Some(f) => Some((Some(t[c..d]), t[e..f]))
  }

  /** The optional direction group and the type, from `c`: the alternatives
      `in\s+out`, `in`, `out` in that order, then the group left out. */
  function DirectedTypeAt(t: string, c: nat): (r: Option<(Option<string>, string)>)
    requires c <= |t|
    ensures r.Some? ==> IsWordText(r.value.1)
    ensures r.Some? && r.value.0.Some? ==> StartsWith(r.value.0.value, "in") || StartsWith(r.value.0.value, "out")
    ensures r.Some? <==> c < |t| && IsWord(t[c])
  {
    var inOut :=
      if !HasAt(t, c, "in") then None
      else match BlanksAt(t, c + 2)
        case None => None
        case Some(b) => if HasAt(t, b, "out") then AfterDirection(t, c, b + 3) else None;
    var inOnly := if HasAt(t, c, "in") then AfterDirection(t, c, c + 2) else None;
    var outOnly := if HasAt(t, c, "out") then AfterDirection(t, c, c + 3) else None;
    if inOut.Some? then
      assert t[c..c + 2] == "in" && t[c] == t[c..c + 2][0];
      assert StartsWith(inOut.value.0.value, "in");
      inOut
    else if inOnly.Some? then
      assert t[c..c + 2] == "in" && t[c] == t[c..c + 2][0];
      inOnly
    else if outOnly.Some? then
      assert t[c..c + 3] == "out" && t[c] == t[c..c + 3][0];
      outOnly
    else
      match WordAt(t, c)
      case Some(f) => Some((None, t[c..f]))
      case None => None
  }

  /** The argument pattern anchored at `p`. A shorter name would be
      followed by a word character where `\s+` needs a blank, so the name
      is the whole word. */
  function ArgAt(t: string, p: nat): (r: Option<ArgSpec>)
    requires p <= |t|
    ensures r.Some? ==> IsWordText(r.value.name) && IsWordText(r.value.oraType)
    ensures r.Some? ==> r.value.name == t[p..RunEnd(t, p, WordChar)]
  {
    match WordAt(t, p)
    case None => None
    case Some(w) =>
      match BlanksAt(t, w)
      case None => None
      case Some(c) =>
        match DirectedTypeAt(t, c)
        case None => None
        case Some(dt) => Some(ArgSpec(t[p..w], dt.0, dt.1))
  }

  function ArgTable(t: string): (m: seq<Option<ArgSpec>>)
    ensures |m| == |t| + 1
    ensures forall q :: 0 <= q <= |t| ==> m[q] == ArgAt(t, q)
  {
    seq(|t| + 1, q requires 0 <= q <= |t| => ArgAt(t, q))
  }

  /** `re.search` with the argument pattern. */
  function ArgSearch(t: string): (r: Option<ArgSpec>)
    ensures r.Some? ==> IsWordText(r.value.name) && IsWordText(r.value.oraType)
    ensures r.None? <==> forall q :: 0 <= q <= |t| ==> ArgAt(t, q).None?
  {
    var m := ArgTable(t);
    match FirstMatch(m, 0)
    case Some(q) => m[q]
    case None => None
  }

  /** `param.strip(' ').lstrip(' ').replace('\s+', ' ')`. The last step
      replaces the three-character literal text backslash, `s`, `+` (the
      string is not a pattern here), so it almost never changes anything. */
  function Normalize(piece: string): string {
    Replace(StripLeft(Strip(piece)), "\\s+", " ")
  }

  /** Without a backslash in the piece, normalizing is stripping. */
  lemma NormalizePlain(piece: string)
    requires '\\' !in piece
    ensures Normalize(piece) == Strip(piece)
  {
    var s := Strip(piece);
    StripKeeps(piece, '\\');
    StripLeftStripped(s);
    NoBackslashNoPattern(s);
    ReplaceAbsent(s, "\\s+", " ");
  }

  lemma NoBackslashNoPattern(s: string)
    requires '\\' !in s
    ensures forall q: nat :: !HasAt(s, q, "\\s+")
  {
    forall q: nat ensures !HasAt(s, q, "\\s+") {
      if q + 3 <= |s| {
        assert s[q] in s;
        assert s[q..q + 3][0] == s[q];
      }
    }
  }

  /** The `lstrip` after a `strip` has nothing left to remove. */
  lemma StripLeftStripped(s: string)
    requires |s| == 0 || s[0] != ' '
    ensures StripLeft(s) == s
  {
  }

  /** One piece of the argument text, or the error its failed search raises. */
  function ParseArg(piece: string): (r: Result<ArgSpec, ParseError>)
    ensures r.Success? ==> IsWordText(r.value.name) && IsWordText(r.value.oraType)
    ensures r.Failure? ==> r.error == ArgumentNotFound(Normalize(piece))
  {
    var param := Normalize(piece);
    match ArgSearch(param)
    case Some(a) => Success(a)
    case None => Failure(ArgumentNotFound(param))
  }

  /** A loop whose steps each may raise: the results in order, or the
      first error. */
  function Collect<T(==), E(==)>(steps: seq<Result<T, E>>): (r: Result<seq<T>, E>)
    ensures r.Success? ==> |r.value| == |steps|
    ensures r.Success? ==> forall k :: 0 <= k < |steps| ==> steps[k] == Success(r.value[k])
    ensures r.Failure? ==> exists k :: (0 <= k < |steps| && steps[k] == Failure(r.error)
      && forall j :: 0 <= j < k ==> steps[j].Success?)
  {
    if |steps| == 0 then Success([])
    else
      match steps[0]
      case Failure(e) => Failure(e)
      case Success(a) =>
        match Collect(steps[1..])
        case Failure(e) =>
          var k :| 0 <= k < |steps[1..]| && steps[1..][k] == Failure(e) && forall j :: 0 <= j < k ==> steps[1..][j].Success?;
          assert steps[k + 1] == Failure(e);
          Failure(e)
        case Success(rest) => Success([a] + rest)
  }

  /** The parse of each piece on its own. */
  function ArgSteps(pieces: seq<string>): (steps: seq<Result<ArgSpec, ParseError>>)
    ensures |steps| == |pieces|
    ensures forall k :: 0 <= k < |pieces| ==> steps[k] == ParseArg(pieces[k])
  {
    seq(|pieces|, k requires 0 <= k < |pieces| => ParseArg(pieces[k]))
  }

  /** The pieces in order; the first piece that fails stops the parse. */
  function ParsePieces(pieces: seq<string>): (r: Result<seq<ArgSpec>, ParseError>)
    ensures r.Success? ==> |r.value| == |pieces|
    ensures r.Success? ==> forall k :: 0 <= k < |pieces| ==> ParseArg(pieces[k]) == Success(r.value[k])
    ensures r.Failure? ==> exists k :: (0 <= k < |pieces| && ParseArg(pieces[k]) == Failure(r.error)
      && forall j :: 0 <= j < k ==> ParseArg(pieces[j]).Success?)
  {
    Collect(ArgSteps(pieces))
  }

  /** The argument text, split on every comma with no regard to
      parentheses: one argument per piece, so one more than commas. */
  function ParseArgList(text: string): (r: Result<seq<ArgSpec>, ParseError>)
    ensures r.Success? ==> |r.value| == Count(text, ',') + 1
    ensures r.Success? ==> forall k :: 0 <= k < |r.value| ==> ParseArg(Split(text, ',')[k]) == Success(r.value[k])
    ensures r.Failure? ==> exists k :: (0 <= k < |Split(text, ',')| && ParseArg(Split(text, ',')[k]) == Failure(r.error)
      && forall j :: 0 <= j < k ==> ParseArg(Split(text, ',')[j]).Success?)
  {
    ParsePieces(Split(text, ','))
  }

  // ---------------------------------------------------------------------
  // Function header: function\s+(?P<name>\w+)\s*(?:\((?P<args>.+)?\)\s*)?
  //                  return\s+(?P<return_oratype>\w+)        (re.I | re.S)
  // ---------------------------------------------------------------------

  datatype FunctionHead = FunctionHead(name: string, args: Option<string>, returnType: string)

  /** `return\s+(?P<return_oratype>\w+)` at `c`: the return type. */
  function ReturnClauseAt(t: string, c: nat): (r: Option<string>)
    ensures r.Some? ==> HasAtNoCase(t, c, "return") && ContainsNoCase(t, "return")
    ensures r.Some? ==> IsWordText(r.value)
  {
    if !HasAtNoCase(t, c, "return") then None
    else
      match BlanksAt(t, c + 6)
      case None => None
      case Some(b) =>
        match WordAt(t, b)
        case None => None
        case Some(e) => Some(t[b..e])
  }

  /** The return type, when the character at `y` is a ')' after which
      `\s*` and the return clause match. */
  function ReturnAfterClose(t: string, y: nat): (r: Option<string>)
    ensures r.Some? ==> y < |t| && t[y] == ')' && IsWordText(r.value)
  {
    if y < |t| && t[y] == ')' then ReturnClauseAt(t, RunEnd(t, y + 1, Blank)) else None
  }

  function CloseMarks(t: string): (m: seq<bool>)
    ensures |m| == |t|
    ensures forall y :: 0 <= y < |t| ==> m[y] == ReturnAfterClose(t, y).Some?
  {
    seq(|t|, y requires 0 <= y < |t| => ReturnAfterClose(t, y).Some?)
  }

  /** What follows the name and its blanks: the optional parenthesised
      group, tried first with arguments (the greedy `.+` gives characters
      back from the end of the text, so the arguments run to the last ')'
      that the return clause follows), then as `()`, then left out; and
      the return clause. */
  function FunctionTailAt(t: string, c: nat): (r: Option<(Option<string>, string)>)
    requires c <= |t|
    ensures r.Some? ==> IsWordText(r.value.1)
    ensures r.Some? && r.value.0.Some? ==> |r.value.0.value| > 0
  {
    var withArgs :=
      if c < |t| && t[c] == '(' then
        match LastMarked(CloseMarks(t), c + 2, |t|)
        case Some(x) =>
          (match ReturnAfterClose(t, x)
           case Some(rt) => Some((Some(t[c + 1..x]), rt))
           case None => None)
        case None =>
          (match ReturnAfterClose(t, c + 1)
           case Some(rt) => Some((None, rt))
           case None => None)
      else None;
    if withArgs.Some? then withArgs
    else
      match ReturnClauseAt(t, c)
      case Some(rt) => Some((None, rt))
      case None => None
  }

  /** The greedy name `\w+` gives characters back one at a time; the first
      length from the longest down for which the rest matches. The `\s*`
      after a shortened name matches nothing, since a word character follows. */
  function FunctionFromName(t: string, a: nat, e: nat): (r: Option<FunctionHead>)
    requires a <= |t| && a < e <= RunEnd(t, a, WordChar)
    ensures r.Some? ==> ContainsNoCase(t, "return") && IsWordText(r.value.name) && IsWordText(r.value.returnType)
    decreases e
  {
    match FunctionTailAt(t, RunEnd(t, e, Blank))
    case Some(tail) =>
      RunAllIn(t, a, e, WordChar);
      Some(FunctionHead(t[a..e], tail.0, tail.1))
    case None => if e == a + 1 then None else FunctionFromName(t, a, e - 1)
  }

  /** The function header pattern anchored at `p`. */
  function FunctionHeaderAt(t: string, p: nat): (r: Option<FunctionHead>)
    ensures r.Some? ==> HasAtNoCase(t, p, "function")
    ensures r.Some? ==> ContainsNoCase(t, "return") && IsWordText(r.value.name) && IsWordText(r.value.returnType)
  {
    if !HasAtNoCase(t, p, "function") then None
    else
      match BlanksAt(t, p + 8)
      case None => None
      case Some(a) =>
        match WordAt(t, a)
        case None => None
        case Some(w) => FunctionFromName(t, a, w)
  }

  function FunctionHeaderTable(t: string): (m: seq<Option<FunctionHead>>)
    ensures |m| == |t| + 1
    ensures forall q :: 0 <= q <= |t| ==> m[q] == FunctionHeaderAt(t, q)
  {
    seq(|t| + 1, q requires 0 <= q <= |t| => FunctionHeaderAt(t, q))
  }

  /** `re.search` with the function header pattern. */
  function FunctionHeaderSearch(t: string): (r: Option<FunctionHead>)
    ensures r.Some? ==> ContainsNoCase(t, "return") && IsWordText(r.value.name) && IsWordText(r.value.returnType)
    ensures r.None? <==> forall q :: 0 <= q <= |t| ==> FunctionHeaderAt(t, q).None?
  {
    var m := FunctionHeaderTable(t);
    match FirstMatch(m, 0)
    case Some(q) => m[q]
    case None => None
  }

  /** One function fragment: newlines deleted, header searched, and the
      argument text, when the group captured one, split and parsed. */
  function ParseFunctionFragment(item: string): (r: Result<FunctionSpec, ParseError>)
    ensures r.Success? ==> IsWordText(r.value.name) && IsWordText(r.value.oraType)
    ensures !ContainsNoCase(RemoveChar(item, '\n'), "return") ==> r == Failure(HeaderNotFound(RemoveChar(item, '\n')))
  {
    var t := RemoveChar(item, '\n');
    match FunctionHeaderSearch(t)
    case None => Failure(HeaderNotFound(t))
    case Some(h) =>
      match h.args
      case None => Success(FunctionSpec(h.name, h.returnType, []))
      case Some(text) =>
        match ParseArgList(text)
        case Failure(e) => Failure(e)
        case Success(args) => Success(FunctionSpec(h.name, h.returnType, args))
  }

  // ---------------------------------------------------------------------
  // Procedure header: procedure\s+(?P<name>\w+)\s*(?:\((?P<args>.+)?\)\s*)?
  // (re.I | re.S). Nothing follows the optional group, so once the name
  // matches the pattern cannot fail.
  // ---------------------------------------------------------------------

  datatype ProcedureHead = ProcedureHead(name: string, args: Option<string>)

  /** The procedure header pattern anchored at `p`: the whole name, and the
      text up to the last ')' when a '(' follows the name and its blanks
      and that ')' is two or more past it. */
  function ProcedureHeaderAt(t: string, p: nat): (r: Option<ProcedureHead>)
    ensures r.Some? <==>
      && HasAtNoCase(t, p, "procedure") && p + 9 < |t| && IsSpace(t[p + 9])
      && RunEnd(t, p + 9, Blank) < |t| && IsWord(t[RunEnd(t, p + 9, Blank)])
    ensures r.Some? ==> IsWordText(r.value.name)
    ensures r.Some? && r.value.args.Some? ==> |r.value.args.value| > 0
  {
    if !HasAtNoCase(t, p, "procedure") then None
    else
      match BlanksAt(t, p + 9)
      case None => None
      case Some(a) =>
        match WordAt(t, a)
        case None => None
        case Some(w) =>
          var c := RunEnd(t, w, Blank);
          var args :=
            if c + 2 <= |t| && t[c] == '(' then
              match LastIndexFrom(t, c + 2, ')')
              case Some(x) => Some(t[c + 1..x])
              case None => None
            else None;
          Some(ProcedureHead(t[a..w], args))
  }

  function ProcedureHeaderTable(t: string): (m: seq<Option<ProcedureHead>>)
    ensures |m| == |t| + 1
    ensures forall q :: 0 <= q <= |t| ==> m[q] == ProcedureHeaderAt(t, q)
  {
    seq(|t| + 1, q requires 0 <= q <= |t| => ProcedureHeaderAt(t, q))
  }

  /** `re.search` with the procedure header pattern. */
  function ProcedureHeaderSearch(t: string): (r: Option<ProcedureHead>)
    ensures r.Some? ==> IsWordText(r.value.name)
    ensures r.None? <==> forall q :: 0 <= q <= |t| ==> ProcedureHeaderAt(t, q).None?
  {
    var m := ProcedureHeaderTable(t);
    match FirstMatch(m, 0)
    case Some(q) => m[q]
    case None => None
  }

  /** One procedure fragment: newlines deleted, header searched, and the
      argument text, when the group captured one, split and parsed. */
  function ParseProcedureFragment(item: string): (r: Result<ProcedureSpec, ParseError>)
    ensures r.Success? ==> IsWordText(r.value.name)
  {
    var t := RemoveChar(item, '\n');
    match ProcedureHeaderSearch(t)
    case None => Failure(HeaderNotFound(t))
    case Some(h) =>
      match h.args
      case None => Success(ProcedureSpec(h.name, []))
      case Some(text) =>
        match ParseArgList(text)
        case Failure(e) => Failure(e)
        case Success(args) => Success(ProcedureSpec(h.name, args))
  }

  // ---------------------------------------------------------------------
  // Constants: (?P<name>\w+)\s*constant\s*(?P<oratype>[\w\(\)]+)\s*:=\s*(?P<value>.*);
  // (re.I, without re.S: `.` does not match a newline)
  // ---------------------------------------------------------------------

  /** `(?P<value>.*);` at `h`: `.` stops at a newline and the greedy star
      gives characters back until a ';' follows, so the value runs to the
      last ';' before the first newline. */
  function ValueAt(t: string, h: nat): (r: Option<string>)
    requires h <= |t|
    ensures r.Some? ==> '\n' !in r.value && HasAt(t, h + |r.value|, ";")
  {
    var limit := match FindChar(t, h, '\n') case Some(n) => n case None => |t|;
    match LastIndexFrom(t[..limit], h, ';')
    case Some(z) =>
      assert t[h..z] == t[..limit][h..z];
      Some(t[h..z])
    case None => None
  }

  /** `constant\s*(?P<oratype>[\w\(\)]+)\s*:=\s*(?P<value>.*);` at `c`. The
      blanks and the type are greedy; a shorter run would leave a character
      that cannot start what follows, so only the longest runs matter. */
  function ConstRestAt(t: string, c: nat): (r: Option<(string, string)>)
    ensures r.Some? ==> HasAtNoCase(t, c, "constant") && |r.value.0| > 0 && AllIn(r.value.0, TypeChar)
    ensures r.Some? ==> '\n' !in r.value.1
  {
    if !HasAtNoCase(t, c, "constant") then None
    else
      var d := RunEnd(t, c + 8, Blank);
      var f := RunEnd(t, d, TypeChar);
      if f == d then None
      else
        var g := RunEnd(t, f, Blank);
        if !HasAt(t, g, ":=") then None
        else
          match ValueAt(t, RunEnd(t, g + 2, Blank))
          case None => None
          case Some(v) =>
            RunAllIn(t, d, f, TypeChar);
            Some((t[d..f], v))
  }

  /** The greedy name gives characters back one at a time: the first
      length from the longest down for which the rest matches. */
  function ConstFromName(t: string, p: nat, e: nat): (r: Option<ConstantSpec>)
    requires p <= |t| && p < e <= RunEnd(t, p, WordChar)
    ensures r.Some? ==> IsWordText(r.value.name) && |r.value.oraType| > 0 && '\n' !in r.value.value
    decreases e
  {
    match ConstRestAt(t, RunEnd(t, e, Blank))
    case Some(rest) =>
      RunAllIn(t, p, e, WordChar);
      Some(ConstantSpec(t[p..e], rest.0, rest.1))
    case None => if e == p + 1 then None else ConstFromName(t, p, e - 1)
  }

  /** The constant pattern anchored at `p`. */
  function ConstAt(t: string, p: nat): (r: Option<ConstantSpec>)
    requires p <= |t|
    ensures r.Some? ==> IsWordText(r.value.name) && |r.value.oraType| > 0 && '\n' !in r.value.value
  {
    match WordAt(t, p)
    case None => None
    case Some(w) => ConstFromName(t, p, w)
  }

  function ConstTableOf(t: string): (m: seq<Option<ConstantSpec>>)
    ensures |m| == |t| + 1
    ensures forall q :: 0 <= q <= |t| ==> m[q] == ConstAt(t, q)
  {
    seq(|t| + 1, q requires 0 <= q <= |t| => ConstAt(t, q))
  }

  /** `re.search` with the constant pattern. */
  function ConstSearch(t: string): (r: Option<ConstantSpec>)
    ensures r.Some? ==> IsWordText(r.value.name) && |r.value.oraType| > 0 && '\n' !in r.value.value
    ensures r.None? <==> forall q :: 0 <= q <= |t| ==> ConstAt(t, q).None?
  {
    var m := ConstTableOf(t);
    match FirstMatch(m, 0)
    case Some(q) => m[q]
    case None => None
  }

  /** The constants of a list of constant fragments, in order; a fragment
      the pattern does not match is skipped without error. */
  function ConstantsOf(items: seq<string>): (r: seq<ConstantSpec>)
    ensures |r| <= |items|
    ensures (forall k :: 0 <= k < |items| ==> ConstSearch(RemoveChar(items[k], '\n')).Some?) ==> |r| == |items|
  {
    if |items| == 0 then []
    else
      match ConstSearch(RemoveChar(items[0], '\n'))
      case Some(c) => [c] + ConstantsOf(items[1..])
      case None => ConstantsOf(items[1..])
  }

  // ---------------------------------------------------------------------
  // The three scans
  // ---------------------------------------------------------------------

  /** `_get_functions`: one function per fragment, in source order, or the
      first error a fragment raises. */
  function GetFunctions(source: string): (r: Result<seq<FunctionSpec>, ParseError>)
    ensures r.Success? ==> |r.value| == |FindDecls(source, FunctionKind)|
    ensures r.Success? ==> forall k :: 0 <= k < |r.value| ==>
      ParseFunctionFragment(RoutineFragments(source, FunctionKind)[k]) == Success(r.value[k])
  {
    Collect(FunctionSteps(RoutineFragments(source, FunctionKind)))
  }

  /** The parse of each function fragment on its own. */
  function FunctionSteps(items: seq<string>): (steps: seq<Result<FunctionSpec, ParseError>>)
    ensures |steps| == |items|
    ensures forall k :: 0 <= k < |items| ==> steps[k] == ParseFunctionFragment(items[k])
  {
    seq(|items|, k requires 0 <= k < |items| => ParseFunctionFragment(items[k]))
  }

  /** `_get_procedures`: one procedure per fragment, in source order, or
      the first error a fragment raises. */
  function GetProcedures(source: string): (r: Result<seq<ProcedureSpec>, ParseError>)
    ensures r.Success? ==> |r.value| == |FindDecls(source, ProcedureKind)|
    ensures r.Success? ==> forall k :: 0 <= k < |r.value| ==>
      ParseProcedureFragment(RoutineFragments(source, ProcedureKind)[k]) == Success(r.value[k])
  {
    Collect(ProcedureSteps(RoutineFragments(source, ProcedureKind)))
  }

  /** The parse of each procedure fragment on its own. */
  function ProcedureSteps(items: seq<string>): (steps: seq<Result<ProcedureSpec, ParseError>>)
    ensures |steps| == |items|
    ensures forall k :: 0 <= k < |items| ==> steps[k] == ParseProcedureFragment(items[k])
  {
    seq(|items|, k requires 0 <= k < |items| => ParseProcedureFragment(items[k]))
  }

  /** `_get_constants`: at most one constant per fragment, in source order. */
  function GetConstants(source: string): (r: seq<ConstantSpec>)
    ensures |r| <= |FindConsts(source)|
  {
    ConstantsOf(ConstantFragments(source))
  }

  /** `get_package_members`: the three independent scans of the whole
      source. Functions are parsed first, so their error wins. */
  function GetPackageMembers(source: string): (r: Result<PackageSpec, ParseError>)
    ensures r.Success? <==> GetFunctions(source).Success? && GetProcedures(source).Success?
    ensures r.Failure? && GetFunctions(source).Failure? ==> r.error == GetFunctions(source).error
    ensures GetFunctions(source).Success? && GetProcedures(source).Failure? ==> r.error == GetProcedures(source).error
    ensures r.Success? ==> r.value.constants == GetConstants(source)
    ensures r.Success? ==> r.value.functions == GetFunctions(source).value && r.value.procedures == GetProcedures(source).value
    ensures r.Success? ==> |r.value.functions| == |FindDecls(source, FunctionKind)|
    ensures r.Success? ==> |r.value.procedures| == |FindDecls(source, ProcedureKind)|
  {
    var functions :- GetFunctions(source);
    var procedures :- GetProcedures(source);
    Success(PackageSpec(functions, procedures, GetConstants(source)))
  }
}
