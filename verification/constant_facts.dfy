/** Properties of the constant scan of plsql/parser.py: a constant written
    as `name constant type := value;` is read back exactly, and a fragment
    the pattern does not match is dropped without an error. */
module ConstantFacts {
  import opened Wrappers
  import opened Text
  import opened Scanner
  import opened Parser
  import opened ParserFacts

  /** What the constant pattern can read back: a `\w+` name, a `[\w()]+`
      type, and a value on one line with no ';' that does not start with
      a blank (the blanks after `:=` belong to the pattern). */
  predicate WellFormedConstant(c: ConstantSpec) {
    && IsWordText(c.name) && |c.oraType| > 0 && AllIn(c.oraType, TypeChar)
    && ';' !in c.value && '\n' !in c.value
    && (|c.value| == 0 || !IsSpace(c.value[0]))
  }

  /** `name constant type := value;` */
  function RenderConstant(c: ConstantSpec): string {
    c.name + " constant " + c.oraType + " := " + c.value + ";"
  }

  // Positions in a rendered constant: the name ends at `n`, the keyword
  // starts at `n + 1`, the type runs over `[n + 10, f)`, `:=` is at `f + 1`
  // and the value starts at `f + 4`.

  /** The name and the keyword. */
  lemma ConstantHeadChars(c: ConstantSpec)
    requires WellFormedConstant(c)
    ensures var t, n := RenderConstant(c), |c.name|;
      && n + 10 < |t| && t[..n] == c.name && t[n] == ' '
      && t[n + 1..n + 9] == "constant" && t[n + 9] == ' '
  {
    var t := RenderConstant(c);
    var n := |c.name|;
    var rest := c.oraType + " := " + c.value + ";";
    assert t == c.name + " " + "constant" + " " + rest && |rest| > 5;
    hide *;
    FiveParts(c.name, " ", "constant", " ", rest);
    assert t[n] == t[n..n + 1][0] && t[n + 9] == t[n + 9..|t| - |rest|][0];
  }

  /** The type, `:=` and the value. */
  lemma ConstantTailChars(c: ConstantSpec)
    requires WellFormedConstant(c)
    ensures var t, d := RenderConstant(c), |c.name| + 10;
      var f := d + |c.oraType|;
      && f + 4 < |t| && t[d..f] == c.oraType
      && t[f..f + 4] == " := " && t[f + 4..|t| - 1] == c.value && t[|t| - 1] == ';'
  {
    var t := RenderConstant(c);
    var n := c.name + " constant ";
    assert t == n + c.oraType + " := " + c.value + ";";
    hide *;
    FiveParts(n, c.oraType, " := ", c.value, ";");
  }

  /** Each part of a concatenation of five is the slice at its offset. */
  lemma FiveParts(n: string, ty: string, op: string, v: string, e: string)
    ensures var t, d := n + ty + op + v + e, |n|;
      var f := d + |ty|;
      && t[..d] == n && t[d..f] == ty && t[f..f + |op|] == op
      && t[f + |op|..|t| - |e|] == v && t[|t| - |e|..] == e
  {
  }

  /** The characters of a rendered constant the pattern stops at. */
  lemma ConstantChars(c: ConstantSpec)
    requires WellFormedConstant(c)
    ensures var t := RenderConstant(c);
      && '\n' !in t && (forall k :: 0 <= k < |t| - 1 ==> t[k] != ';')
      && forall k :: 0 <= k < |c.name| + 10 + |c.oraType| + 1 ==> t[k] != ':'
  {
    var t := RenderConstant(c);
    var n := |c.name|;
    var f := n + 10 + |c.oraType|;
    ConstantHeadSafe(c);
    ConstantTypeSafe(c);
    ConstantTailSafe(c);
    hide *;
    forall k | 0 <= k < |t| ensures t[k] != '\n' && (k < |t| - 1 ==> t[k] != ';') && (k <= f ==> t[k] != ':') {
      if k < n + 10 {
      } else if k < f {
      }
    }
  }

  /** Neither a newline, a ';' nor a ':'. */
  predicate Plain(x: char) {
    x != '\n' && x != ';' && x != ':'
  }

  /** The name and the keyword hold plain characters only. */
  lemma ConstantHeadSafe(c: ConstantSpec)
    requires WellFormedConstant(c)
    ensures var t, n := RenderConstant(c), |c.name|;
      n + 10 < |t| && forall k :: 0 <= k < n + 10 ==> t[k] != '\n' && t[k] != ';' && t[k] != ':'
  {
    var t := RenderConstant(c);
    var n := |c.name|;
    ConstantHeadChars(c);
    forall k | 0 <= k < n + 10 ensures Plain(t[k]) {
      if k < n {
        assert t[k] == t[..n][k];
        assert InClass(c.name[k], WordChar);
      } else if n + 1 <= k < n + 9 {
        assert t[k] == t[n + 1..n + 9][k - n - 1];
      }
    }
  }

  /** So does the type. */
  lemma ConstantTypeSafe(c: ConstantSpec)
    requires WellFormedConstant(c)
    ensures var t, d := RenderConstant(c), |c.name| + 10;
      var f := d + |c.oraType|;
      f < |t| && forall k :: d <= k < f ==> t[k] != '\n' && t[k] != ';' && t[k] != ':'
  {
    var t := RenderConstant(c);
    var d := |c.name| + 10;
    var f := d + |c.oraType|;
    ConstantTailChars(c);
    forall k | d <= k < f ensures Plain(t[k]) {
      assert t[k] == t[d..f][k - d];
      assert InClass(c.oraType[k - d], TypeChar);
    }
  }

  /** After the type: ` := `, the value and the closing ';'. Only that
      last character is a ';', and the first ':' is the operator's. */
  lemma ConstantTailSafe(c: ConstantSpec)
    requires WellFormedConstant(c)
    ensures var t, f := RenderConstant(c), |c.name| + 10 + |c.oraType|;
      && f < |t| && t[f] != ':'
      && forall k :: f <= k < |t| ==> t[k] != '\n' && (k < |t| - 1 ==> t[k] != ';')
  {
    var t := RenderConstant(c);
    var f := |c.name| + 10 + |c.oraType|;
    ConstantTailChars(c);
    assert t[f] == t[f..f + 4][0];
    forall k | f <= k < |t| ensures t[k] != '\n' && (k < |t| - 1 ==> t[k] != ';') {
      if k < f + 4 {
        assert t[k] == t[f..f + 4][k - f];
      } else if k < |t| - 1 {
        assert t[k] == t[f + 4..|t| - 1][k - f - 4];
        assert c.value[k - f - 4] in c.value;
      }
    }
  }

  /** `constant` read without regard to case matches itself. */
  lemma ConstantKeyword(t: string, i: nat)
    requires i + 8 <= |t| && t[i..i + 8] == "constant"
    ensures HasAtNoCase(t, i, "constant")
  {
    assert EqualsNoCase("constant", "constant");
  }

  /** The runs the constant pattern takes after the keyword. */
  lemma ConstantRuns(c: ConstantSpec)
    requires WellFormedConstant(c)
    ensures var t, n := RenderConstant(c), |c.name|;
      var d, f := n + 10, n + 10 + |c.oraType|;
      && RunEnd(t, n + 9, Blank) == d && RunEnd(t, d, TypeChar) == f
      && RunEnd(t, f, Blank) == f + 1 && HasAt(t, f + 1, ":=")
      && RunEnd(t, f + 3, Blank) == f + 4
  {
    ConstantBlankRun(c);
    ConstantTypeRun(c);
    ConstantAssignRuns(c);
  }

  /** The single blank between `constant` and the type. */
  lemma ConstantBlankRun(c: ConstantSpec)
    requires WellFormedConstant(c)
    ensures var t, n := RenderConstant(c), |c.name|;
      RunEnd(t, n + 9, Blank) == n + 10
  {
    var t := RenderConstant(c);
    var n := |c.name|;
    var d, f := n + 10, n + 10 + |c.oraType|;
    ConstantHeadChars(c);
    ConstantTailChars(c);
    assert t[d] == c.oraType[0] by {
      assert t[d] == t[d..f][0];
    }
    assert t[n + 9] == ' ' && !InClass(t[d], Blank);
    hide *;
    RunEndIs(t, n + 9, Blank, d);
  }

  /** The type is one `[\w()]` run, ended by the blank before `:=`. */
  lemma ConstantTypeRun(c: ConstantSpec)
    requires WellFormedConstant(c)
    ensures var t, n := RenderConstant(c), |c.name|;
      RunEnd(t, n + 10, TypeChar) == n + 10 + |c.oraType|
  {
    var t := RenderConstant(c);
    var n := |c.name|;
    var d, f := n + 10, n + 10 + |c.oraType|;
    ConstantTailChars(c);
    assert AllIn(c.oraType, TypeChar);
    forall k | d <= k < f ensures InClass(t[k], TypeChar) {
      assert t[k] == t[d..f][k - d];
    }
    assert t[f] == ' ' by {
      assert t[f] == t[f..f + 4][0];
    }
    assert f <= |t| && !InClass(t[f], TypeChar);
    hide *;
    RunEndIs(t, d, TypeChar, f);
  }

  /** ` := ` after the type: one blank, the operator, one blank. */
  lemma ConstantAssignRuns(c: ConstantSpec)
    requires WellFormedConstant(c)
    ensures var t, n := RenderConstant(c), |c.name|;
      var f := n + 10 + |c.oraType|;
      && RunEnd(t, f, Blank) == f + 1 && HasAt(t, f + 1, ":=")
      && RunEnd(t, f + 3, Blank) == f + 4
  {
    var t := RenderConstant(c);
    var n := |c.name|;
    var f := n + 10 + |c.oraType|;
    ConstantTailChars(c);
    assert t[f] == t[f..f + 4][0] && t[f + 1] == t[f..f + 4][1];
    assert t[f + 2] == t[f..f + 4][2] && t[f + 3] == t[f..f + 4][3];
    assert t[f + 1..f + 3] == ":=";
    assert !IsSpace(t[f + 4]) by {
      if |c.value| > 0 {
        assert t[f + 4] == t[f + 4..|t| - 1][0] == c.value[0];
      } else {
        assert f + 4 == |t| - 1;
      }
    }
    hide *;
    RunEndIs(t, f, Blank, f + 1);
    RunEndIs(t, f + 3, Blank, f + 4);
  }

  /** The value runs from after `:=` and its blanks to the final ';'. */
  lemma ConstantValue(c: ConstantSpec)
    requires WellFormedConstant(c)
    ensures var t := RenderConstant(c);
      ValueAt(t, |c.name| + 10 + |c.oraType| + 4) == Some(c.value)
  {
    var t := RenderConstant(c);
    var h := |c.name| + 10 + |c.oraType| + 4;
    ConstantTailChars(c);
    ConstantChars(c);
    assert FindChar(t, h, '\n') == None;
    assert t[..|t|] == t;
    assert LastIndexFrom(t, h, ';') == Some(|t| - 1);
  }

  /** The name of a rendered constant and the blank after it. */
  lemma ConstantNameRun(c: ConstantSpec)
    requires WellFormedConstant(c)
    ensures var t, n := RenderConstant(c), |c.name|;
      WordAt(t, 0) == Some(n) && RunEnd(t, n, Blank) == n + 1 && t[0..n] == c.name
  {
    var t := RenderConstant(c);
    var n := |c.name|;
    ConstantHeadChars(c);
    WordText(c.name);
    assert t[n + 1] == t[n + 1..n + 9][0];
    forall k | 0 <= k < n ensures InClass(t[k], WordChar) {
      assert t[k] == t[..n][k];
    }
    RunEndIs(t, 0, WordChar, n);
    RunEndIs(t, n, Blank, n + 1);
  }

  /** The keyword right after the name and its blank. */
  lemma ConstantKeywordAfterName(c: ConstantSpec)
    requires WellFormedConstant(c)
    ensures var t := RenderConstant(c);
      HasAtNoCase(t, |c.name| + 1, "constant") && |c.name| + 14 + |c.oraType| < |t|
  {
    ConstantHeadChars(c);
    ConstantTailChars(c);
    ConstantKeyword(RenderConstant(c), |c.name| + 1);
  }

  /** What the rest of the constant pattern needs to see from position `c`:
      the keyword, the type over `[d, f)`, `:=` after one blank, and the
      value from `h`. */
  ghost predicate RestParts(t: string, c: nat, d: nat, f: nat, h: nat, ty: string, v: string) {
    && HasAtNoCase(t, c, "constant") && d < f <= |t| && t[d..f] == ty
    && RunEnd(t, c + 8, Blank) == d && RunEnd(t, d, TypeChar) == f
    && RunEnd(t, f, Blank) == f + 1 && HasAt(t, f + 1, ":=")
    && h <= |t| && RunEnd(t, f + 3, Blank) == h && ValueAt(t, h) == Some(v)
  }

  /** A rendered constant has those parts after its name. */
  lemma ConstantRestParts(c: ConstantSpec)
    requires WellFormedConstant(c)
    ensures var n := |c.name|;
      var f := n + 10 + |c.oraType|;
      RestParts(RenderConstant(c), n + 1, n + 10, f, f + 4, c.oraType, c.value)
  {
    assert |c.oraType| > 0;
    ConstantKeywordAfterName(c);
    ConstantTailChars(c);
    ConstantRuns(c);
    ConstantValue(c);
  }

  /** After the name, the rest of the pattern reads the type and the value. */
  lemma ConstantRestMatches(c: ConstantSpec)
    requires WellFormedConstant(c)
    ensures ConstRestAt(RenderConstant(c), |c.name| + 1) == Some((c.oraType, c.value))
  {
    var t := RenderConstant(c);
    var n := |c.name|;
    var f := n + 10 + |c.oraType|;
    hide *;
    ConstantRestParts(c);
    ConstRestFromParts(t, n + 1, n + 10, f, f + 4, c.oraType, c.value);
  }

  /** The rest of the constant pattern from the ends of its runs. */
  lemma ConstRestFromParts(t: string, c: nat, d: nat, f: nat, h: nat, ty: string, v: string)
    requires RestParts(t, c, d, f, h, ty, v)
    ensures ConstRestAt(t, c) == Some((ty, v))
  {
    hide RunEnd, ValueAt, HasAt, HasAtNoCase;
  }

  /** The anchored pattern from the name and what follows it. */
  lemma ConstAtFromParts(t: string, n: nat, r: (string, string))
    requires n <= |t| && WordAt(t, 0) == Some(n) && ConstRestAt(t, RunEnd(t, n, Blank)) == Some(r)
    ensures ConstAt(t, 0) == Some(ConstantSpec(t[0..n], r.0, r.1))
  {
  }

  /** The anchored constant pattern reads the rendered constant at 0. */
  lemma ConstantAtStart(c: ConstantSpec)
    requires WellFormedConstant(c)
    ensures ConstAt(RenderConstant(c), 0) == Some(c)
  {
    ConstantNameRun(c);
    ConstantRestMatches(c);
    ConstAtFromParts(RenderConstant(c), |c.name|, (c.oraType, c.value));
  }

  /** `re.search` finds it there. */
  lemma ConstantSearch(c: ConstantSpec)
    requires WellFormedConstant(c)
    ensures ConstSearch(RenderConstant(c)) == Some(c)
  {
    ConstantAtStart(c);
    assert ConstTableOf(RenderConstant(c))[0] == Some(c);
  }

  /** The first `constant` from position 1 on is no later than the
      keyword after the name. */
  lemma FirstConstantKeyword(c: ConstantSpec)
    requires WellFormedConstant(c)
    ensures var i := FindNoCase(RenderConstant(c), 1, "constant");
      i.Some? && i.value <= |c.name| + 1
  {
    var t := RenderConstant(c);
    ConstantHeadChars(c);
    ConstantKeyword(t, |c.name| + 1);
  }

  /** `:=` is found where it first occurs. */
  lemma FindAssign(t: string, a: nat, g: nat)
    requires a <= g && HasAt(t, g, ":=") && forall k :: 0 <= k < g ==> t[k] != ':'
    ensures Find(t, a, ":=") == Some(g)
  {
    forall q: nat | a <= q < g ensures !HasAt(t, q, ":=") {
      if q + 2 <= |t| {
        assert t[q..q + 2][0] == t[q];
      }
    }
  }

  /** The lazy constant fragment pattern from its three landmarks. */
  lemma ConstEndFromParts(t: string, i: nat, g: nat, e: nat)
    requires FindNoCase(t, 1, "constant") == Some(i) && Find(t, i + 8, ":=") == Some(g)
    requires FindChar(t, g + 2, ';') == Some(e)
    ensures ConstEndAt(t, 0) == Some(e + 1)
  {
    hide FindNoCase, Find, FindChar;
  }

  /** The fragment scan takes the whole rendered constant: the first
      `constant` is no later than the keyword, no ':' comes before the
      `:=`, and the only ';' is the last character. */
  lemma ConstantIsOneFragment(c: ConstantSpec)
    requires WellFormedConstant(c)
    ensures ConstEndAt(RenderConstant(c), 0) == Some(|RenderConstant(c)|)
  {
    hide *;
    var t := RenderConstant(c);
    var f := |c.name| + 10 + |c.oraType|;
    FirstConstantKeyword(c);
    var i := FindNoCase(t, 1, "constant").value;
    ConstantRuns(c);
    ConstantChars(c);
    ConstantTailChars(c);
    FindAssign(t, i + 8, f + 1);
    FindLastSemicolon(t, f + 3);
    ConstEndFromParts(t, i, f + 1, |t| - 1);
  }

  /** The only ';' is the last character. */
  lemma FindLastSemicolon(t: string, a: nat)
    requires a < |t| && t[|t| - 1] == ';' && forall k :: 0 <= k < |t| - 1 ==> t[k] != ';'
    ensures FindChar(t, a, ';') == Some(|t| - 1)
  {
  }

  /** The constant scan of a rendered constant: exactly that constant. */
  lemma ConstantRoundTrip(c: ConstantSpec)
    requires WellFormedConstant(c)
    ensures GetConstants(RenderConstant(c)) == [c]
  {
    var t := RenderConstant(c);
    ConstantIsOneFragment(c);
    var m := ConstTable(t);
    assert m[0] == Some(|t|);
    assert FindAll(m, 0) == [Span(0, |t|)] + FindAll(m, |t|);
    assert t[0..|t|] == t;
    assert ConstantFragments(t) == [t];
    ConstantChars(c);
    RemoveAbsentChar(t, '\n');
    ConstantSearch(c);
  }

  // ---------------------------------------------------------------------
  // Fragments the pattern does not match
  // ---------------------------------------------------------------------

  /** A fragment matches when the constant pattern is found in it once its
      newlines are deleted. */
  predicate Matches(item: string) {
    ConstSearch(RemoveChar(item, '\n')).Some?
  }

  /** The constant one fragment contributes: its match, or nothing. */
  function Kept(item: string): seq<ConstantSpec> {
    match ConstSearch(RemoveChar(item, '\n'))
    case Some(c) => [c]
    case None => []
  }

  /** The first fragment's contribution, then the others'. */
  lemma ConstantsOfCons(items: seq<string>)
    requires |items| > 0
    ensures ConstantsOf(items) == Kept(items[0]) + ConstantsOf(items[1..])
  {
    hide ConstSearch, RemoveChar;
  }

  /** Each fragment is read on its own: the constants of a list are those
      of its parts, in order. */
  lemma {:induction false} ConstantsOfAppend(a: seq<string>, b: seq<string>)
    ensures ConstantsOf(a + b) == ConstantsOf(a) + ConstantsOf(b)
    decreases |a|
  {
    hide *;
    if |a| > 0 {
      ConstantsOfAppend(a[1..], b);
      ConstantsOfCons(a + b);
      ConstantsOfCons(a);
      assert (a + b)[1..] == a[1..] + b;
      assert (a + b)[0] == a[0];
    } else {
      assert a + b == b;
    }
  }

  /** So the result keeps the matching fragments' constants in order and
      drops the others: fragment `k` adds exactly `Kept(items[k])`. */
  lemma ConstantsOfSplit(items: seq<string>, k: nat)
    requires k < |items|
    ensures ConstantsOf(items) == ConstantsOf(items[..k]) + Kept(items[k]) + ConstantsOf(items[k + 1..])
  {
    var a, x, b := items[..k], items[k], items[k + 1..];
    hide *;
    AroundOne(items, k);
    ConstantsOfAppend(a + [x], b);
    ConstantsOfAppend(a, [x]);
    ConstantsOfOne(x);
  }

  lemma AroundOne<T>(s: seq<T>, k: nat)
    requires k < |s|
    ensures s == s[..k] + [s[k]] + s[k + 1..]
  {
  }

  lemma ConstantsOfOne(x: string)
    ensures ConstantsOf([x]) == Kept(x)
  {
    assert [x][1..] == [];
  }

  /** No fragment matches: no constants, and no error either. */
  lemma {:induction false} NoMatchNoConstants(items: seq<string>)
    requires forall k :: 0 <= k < |items| ==> !Matches(items[k])
    ensures ConstantsOf(items) == []
    decreases |items|
  {
    if |items| > 0 {
      NoMatchNoConstants(items[1..]);
    }
  }
}
