/** The three `re.findall` scans of `PlSqlParser` (plsql/parser.py): each
    cuts the raw package specification into declaration fragments, in
    source order, independently of the other two scans.

    A pattern is represented by its match table: entry `p` is where the
    match starting at position `p` ends, if the pattern matches there.
    `FindAll` is `re.findall` over such a table; the matchers `DeclEndAt`
    and `ConstEndAt` fill the tables, choosing among the alternatives in
    the order a backtracking regex engine tries them. */
module Scanner {
  import opened Wrappers
  import opened Text

  /** A half-open range `[start, end)` of the source. */
  datatype Span = Span(start: nat, end: nat)

  // ---------------------------------------------------------------------
  // findall over a match table
  // ---------------------------------------------------------------------

  /** Every match ends after it starts and inside the text. */
  predicate WellFormedTable(t: seq<Option<nat>>) {
    forall q :: 0 <= q < |t| && t[q].Some? ==> q < t[q].value <= |t|
  }

  /** `re.findall` from position `p`: where a match starts it is taken and
      the scan resumes at its end; elsewhere the scan moves on by one. */
  function FindAll(t: seq<Option<nat>>, p: nat): (spans: seq<Span>)
    requires WellFormedTable(t) && p <= |t|
    ensures forall k :: 0 <= k < |spans| ==> p <= spans[k].start < spans[k].end <= |t|
    ensures forall k, l :: 0 <= k < l < |spans| ==> spans[k].end <= spans[l].start
    decreases |t| - p
  {
    if p == |t| then []
    else
      match t[p]
      case Some(e) => [Span(p, e)] + FindAll(t, e)
      case None => FindAll(t, p + 1)
  }

  /** Every reported span is a match of the pattern. */
  lemma {:induction false} FindAllSound(t: seq<Option<nat>>, p: nat, k: nat)
    requires WellFormedTable(t) && p <= |t|
    requires k < |FindAll(t, p)|
    ensures t[FindAll(t, p)[k].start] == Some(FindAll(t, p)[k].end)
    decreases |t| - p
  {
    if p < |t| {
      match t[p]
      case Some(e) =>
        if k > 0 {
          FindAllSound(t, e, k - 1);
        }
      case None =>
        FindAllSound(t, p + 1, k);
    }
  }

  /** No match is missed: every position from `p` on where the pattern
      matches lies inside a reported span (it starts one, or an earlier
      match swallowed it). */
  lemma {:induction false} FindAllComplete(t: seq<Option<nat>>, p: nat, q: nat)
    requires WellFormedTable(t) && p <= q < |t|
    requires t[q].Some?
    ensures exists k :: 0 <= k < |FindAll(t, p)| && FindAll(t, p)[k].start <= q < FindAll(t, p)[k].end
    decreases |t| - p
  {
    var spans := FindAll(t, p);
    match t[p]
    case Some(e) =>
      if q < e {
        assert spans[0] == Span(p, e);
      } else {
        FindAllComplete(t, e, q);
        var k :| 0 <= k < |FindAll(t, e)| && FindAll(t, e)[k].start <= q < FindAll(t, e)[k].end;
        assert spans[k + 1] == FindAll(t, e)[k];
      }
    case None =>
      FindAllComplete(t, p + 1, q);
  }

  /** A pattern that, once it fails, fails at every later position. */
  predicate FailsForever(t: seq<Option<nat>>) {
    forall q, q' :: 0 <= q <= q' < |t| && t[q].None? ==> t[q'].None?
  }

  /** For such a pattern the spans tile a prefix of the text: the first
      starts at `p`, each starts where the previous ended, and the pattern
      does not match where the last one ends. */
  lemma {:induction false} FindAllTiles(t: seq<Option<nat>>, p: nat)
    requires WellFormedTable(t) && FailsForever(t) && p <= |t|
    ensures var spans := FindAll(t, p);
      var rest := if |spans| == 0 then p else spans[|spans| - 1].end;
      && (|spans| > 0 ==> spans[0].start == p)
      && (forall k :: 0 <= k < |spans| - 1 ==> spans[k].end == spans[k + 1].start)
      && (rest < |t| ==> t[rest].None?)
    decreases |t| - p
  {
    if p < |t| {
      match t[p]
      case Some(e) =>
        FindAllTiles(t, e);
        assert FindAll(t, p) == [Span(p, e)] + FindAll(t, e);
      case None =>
        FindAllNone(t, p);
    }
  }

  lemma {:induction false} FindAllNone(t: seq<Option<nat>>, p: nat)
    requires WellFormedTable(t) && FailsForever(t) && p < |t| && t[p].None?
    ensures FindAll(t, p) == []
    decreases |t| - p
  {
    if p + 1 < |t| {
      FindAllNone(t, p + 1);
    }
  }

  /** `re.search` over a table of anchored matches: the first position
      from `p` where the pattern matches. */
  function FirstMatch<T>(t: seq<Option<T>>, p: nat): (r: Option<nat>)
    requires p <= |t|
    ensures r.Some? ==> p <= r.value < |t| && t[r.value].Some?
    ensures r.Some? ==> forall q :: p <= q < r.value ==> t[q].None?
    ensures r.None? ==> forall q :: p <= q < |t| ==> t[q].None?
    decreases |t| - p
  {
    if p == |t| then None
    else if t[p].Some? then Some(p)
    else FirstMatch(t, p + 1)
  }

  /** The last marked position in `[lo, hi)`: where a greedy item that
      gives characters back one at a time first lets the rest match. */
  function LastMarked(m: seq<bool>, lo: nat, hi: nat): (r: Option<nat>)
    requires hi <= |m|
    ensures r.Some? ==> lo <= r.value < hi && m[r.value]
    ensures r.Some? ==> forall y :: r.value < y < hi ==> !m[y]
    ensures r.None? ==> forall y :: lo <= y < hi ==> !m[y]
    decreases hi
  {
    if hi <= lo then None
    else if m[hi - 1] then Some(hi - 1)
    else LastMarked(m, lo, hi - 1)
  }

  /** A marked position with nothing marked after it is the last one. */
  lemma {:induction false} LastMarkedAt(m: seq<bool>, lo: nat, hi: nat, x: nat)
    requires hi <= |m| && lo <= x < hi && m[x]
    requires forall y :: x < y < hi ==> !m[y]
    ensures LastMarked(m, lo, hi) == Some(x)
    decreases hi
  {
    if hi - 1 != x {
      LastMarkedAt(m, lo, hi - 1, x);
    }
  }

  function Fragments(s: string, spans: seq<Span>): (r: seq<string>)
    requires forall k :: 0 <= k < |spans| ==> spans[k].start <= spans[k].end <= |s|
    ensures |r| == |spans|
    ensures forall k :: 0 <= k < |spans| ==> r[k] == s[spans[k].start..spans[k].end]
  {
    seq(|spans|, k requires 0 <= k < |spans| => s[spans[k].start..spans[k].end])
  }

  // ---------------------------------------------------------------------
  // Routines: `(function\s+\w+\s*.+?;)` and `(procedure\s+\w+\s*.+?;)`,
  // both with re.S | re.I.
  // ---------------------------------------------------------------------

  datatype RoutineKind = FunctionKind | ProcedureKind

  function Keyword(kind: RoutineKind): (kw: string)
    ensures |kw| >= 8
  {
    match kind
    case FunctionKind => "function"
    case ProcedureKind => "procedure"
  }

  /** Where the routine name begins when `kw\s+\w` matches at `p`. A shorter
      `\s+` would leave a blank where `\w` must match, so only the longest
      blank run matters. */
  function NameStart(s: string, p: nat, kind: RoutineKind): (r: Option<nat>)
    ensures r.Some? ==> HasAtNoCase(s, p, Keyword(kind))
    ensures r.Some? ==> p + |Keyword(kind)| < r.value < |s| && IsWord(s[r.value])
    ensures r.Some? ==> forall k :: p + |Keyword(kind)| <= k < r.value ==> IsSpace(s[k])
  {
    var kw := Keyword(kind);
    if !HasAtNoCase(s, p, kw) then None
    else
      var a := RunEnd(s, p + |kw|, Blank);
      RunEndSpan(s, p + |kw|, Blank);
      if a == p + |kw| || a == |s| || !IsWord(s[a]) then None else Some(a)
  }

  /** The position after the name and the blanks that follow it. */
  function HeadEnd(s: string, a: nat): (c: nat)
    requires a <= |s|
    ensures a <= c <= |s|
  {
    RunEnd(s, RunEnd(s, a, WordChar), Blank)
  }

  /** End of the routine fragment starting at `p`, if the pattern matches
      there. With the greedy name and blanks, the lazy `.+?` takes at least
      one character and stops at the first following ';'. Only when there is
      no such ';' does the engine give back a blank (or a name character)
      so that a ';' directly after the name and its blanks can end the match. */
  function DeclEndAt(s: string, p: nat, kind: RoutineKind): (r: Option<nat>)
    ensures r.Some? ==> p + |Keyword(kind)| + 2 < r.value <= |s| && s[r.value - 1] == ';'
    ensures r.Some? ==> HasAtNoCase(s, p, Keyword(kind))
  {
    match NameStart(s, p, kind)
    case None => None
    case Some(a) =>
      var c := HeadEnd(s, a);
      if c == |s| then None
      else
        match FindChar(s, c + 1, ';')
        case Some(j) => Some(j + 1)
        case None => if s[c] == ';' && c >= a + 2 then Some(c + 1) else None
  }

  /** A routine fragment starts exactly where `kw\s+\w` matches with some
      ';' at least two characters into the name; it ends at the first ';'
      after the name and its trailing blanks, or, when there is none, at a
      ';' directly after them. */
  lemma DeclEndAtCharacterized(s: string, p: nat, kind: RoutineKind)
    ensures DeclEndAt(s, p, kind).Some? <==>
      NameStart(s, p, kind).Some? &&
      exists j :: NameStart(s, p, kind).value + 2 <= j < |s| && s[j] == ';'
    ensures DeclEndAt(s, p, kind).Some? ==>
      var e := DeclEndAt(s, p, kind).value;
      var c := HeadEnd(s, NameStart(s, p, kind).value);
      || (c < e - 1 && forall j :: c < j < e - 1 ==> s[j] != ';')
      || (c == e - 1 && forall j :: c < j < |s| ==> s[j] != ';')
  {
    match NameStart(s, p, kind)
    case None =>
    case Some(a) =>
      var b := RunEnd(s, a, WordChar);
      var c := RunEnd(s, b, Blank);
      assert b > a;
      assert c == HeadEnd(s, a);
      RunEndSpan(s, a, WordChar);
      RunEndSpan(s, b, Blank);
  }

  function DeclTable(s: string, kind: RoutineKind): (t: seq<Option<nat>>)
    ensures |t| == |s| && WellFormedTable(t)
    ensures forall p :: 0 <= p < |s| ==> t[p] == DeclEndAt(s, p, kind)
  {
    seq(|s|, p requires 0 <= p < |s| => DeclEndAt(s, p, kind))
  }

  function FindDecls(s: string, kind: RoutineKind): seq<Span> {
    FindAll(DeclTable(s, kind), 0)
  }

  /** A span that opens with the routine keyword and closes with ';'. */
  predicate RoutineSpan(s: string, kind: RoutineKind, sp: Span) {
    && sp.start + |Keyword(kind)| + 2 < sp.end <= |s|
    && HasAtNoCase(s[sp.start..sp.end], 0, Keyword(kind))
    && s[sp.end - 1] == ';'
  }

  /** A match recorded in the routine table is such a span. */
  lemma DeclTableEntry(s: string, kind: RoutineKind, p: nat, e: nat)
    requires p < |s| && DeclTable(s, kind)[p] == Some(e)
    ensures RoutineSpan(s, kind, Span(p, e))
  {
    assert DeclEndAt(s, p, kind) == Some(e);
    HasAtNoCaseSlice(s, p, Keyword(kind), e);
  }

  /** Each routine span opens with the keyword and closes with ';'. */
  lemma RoutineSpanShape(s: string, kind: RoutineKind, k: nat)
    requires k < |FindDecls(s, kind)|
    ensures RoutineSpan(s, kind, FindDecls(s, kind)[k])
  {
    var t := DeclTable(s, kind);
    FindAllSound(t, 0, k);
    var sp := FindAll(t, 0)[k];
    DeclTableEntry(s, kind, sp.start, sp.end);
  }

  /** The routine fragments of a whole specification, in source order. */
  function RoutineFragments(s: string, kind: RoutineKind): (r: seq<string>)
    ensures |r| == |FindDecls(s, kind)|
  {
    Fragments(s, FindDecls(s, kind))
  }

  /** Each routine fragment opens with the keyword, in any letter case, and
      closes with ';'. */
  lemma RoutineFragmentShape(s: string, kind: RoutineKind, k: nat)
    requires k < |RoutineFragments(s, kind)|
    ensures var r := RoutineFragments(s, kind)[k];
      |r| > |Keyword(kind)| + 2 && HasAtNoCase(r, 0, Keyword(kind)) && r[|r| - 1] == ';'
  {
    RoutineSpanShape(s, kind, k);
  }

  /** No routine is missed: every position where the routine pattern
      matches lies inside one of the fragments. */
  lemma DeclScanComplete(s: string, kind: RoutineKind, q: nat)
    requires q < |s| && DeclEndAt(s, q, kind).Some?
    ensures exists k :: 0 <= k < |FindDecls(s, kind)| && FindDecls(s, kind)[k].start <= q < FindDecls(s, kind)[k].end
  {
    var t := DeclTable(s, kind);
    FindAllComplete(t, 0, q);
    var k :| 0 <= k < |FindAll(t, 0)| && FindAll(t, 0)[k].start <= q < FindAll(t, 0)[k].end;
    assert FindDecls(s, kind)[k] == FindAll(t, 0)[k];
  }

  // ---------------------------------------------------------------------
  // Constants: `.+?constant.*?:=.*?;` with re.I | re.S.
  // ---------------------------------------------------------------------

  /** Somewhere after position `p` (at least one character later) the text
      holds `constant`, later a `:=`, and later still a `;`. */
  ghost predicate ConstShapeFrom(s: string, p: nat) {
    exists i: nat, j: nat, k: nat ::
      p + 1 <= i && i + 8 <= j && j + 2 <= k < |s| &&
      HasAtNoCase(s, i, "constant") && HasAt(s, j, ":=") && s[k] == ';'
  }

  /** End of the constant fragment starting at `p`. Every quantifier in the
      pattern is lazy, so the match takes the first `constant` after `p`,
      the first `:=` after it and the first `;` after that; if the first
      choice fails, every later one fails too. (`:=` and `;` hold no letter,
      so ignoring case does not change them.) */
  function ConstEndAt(s: string, p: nat): (r: Option<nat>)
    ensures r.Some? ==> p + 11 < r.value <= |s| && s[r.value - 1] == ';'
  {
    match FindNoCase(s, p + 1, "constant")
    case None => None
    case Some(i) =>
      match Find(s, i + 8, ":=")
      case None => None
      case Some(j) =>
        match FindChar(s, j + 2, ';')
        case None => None
        case Some(k) => Some(k + 1)
  }

  /** The constant pattern matches at `p` exactly when some `constant`,
      `:=`, `;` follow in that order after `p`. */
  lemma ConstEndAtCharacterized(s: string, p: nat)
    ensures ConstEndAt(s, p).Some? <==> ConstShapeFrom(s, p)
  {
    match FindNoCase(s, p + 1, "constant")
    case None =>
    case Some(i) =>
      match Find(s, i + 8, ":=")
      case None =>
      case Some(j) =>
        match FindChar(s, j + 2, ';')
        case None =>
        case Some(k) =>
          assert HasAtNoCase(s, i, "constant") && HasAt(s, j, ":=") && s[k] == ';';
  }

  function ConstTable(s: string): (t: seq<Option<nat>>)
    ensures |t| == |s| && WellFormedTable(t)
    ensures forall p :: 0 <= p < |s| ==> t[p] == ConstEndAt(s, p)
  {
    seq(|s|, p requires 0 <= p < |s| => ConstEndAt(s, p))
  }

  function FindConsts(s: string): seq<Span> {
    FindAll(ConstTable(s), 0)
  }

  function ConstantFragments(s: string): seq<string> {
    Fragments(s, FindConsts(s))
  }

  /** The constant fragments tile a prefix of the source: the first starts
      at the beginning, each starts where the previous one ended, and what
      follows the last one holds no further `constant ... := ... ;`. So a
      constant fragment carries along everything between the previous
      constant's `;` and its own, routine declarations included. */
  lemma ConstFragmentsTile(s: string)
    ensures var spans := FindConsts(s);
      var rest := if |spans| == 0 then 0 else spans[|spans| - 1].end;
      && (|spans| > 0 ==> spans[0].start == 0)
      && (forall k :: 0 <= k < |spans| - 1 ==> spans[k].end == spans[k + 1].start)
      && !ConstShapeFrom(s, rest)
  {
    var t := ConstTable(s);
    assert FailsForever(t) by {
      forall q, q' | 0 <= q <= q' < |t| && t[q].None? ensures t[q'].None? {
        ConstEndAtCharacterized(s, q);
        ConstEndAtCharacterized(s, q');
      }
    }
    FindAllTiles(t, 0);
    var spans := FindConsts(s);
    var rest := if |spans| == 0 then 0 else spans[|spans| - 1].end;
    ConstEndAtCharacterized(s, rest);
  }
}
