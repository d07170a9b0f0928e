/** `Argument` and its two subclasses in plsql/base.py: the factory that
    picks the class from the Oracle type, and the fragments of generated
    Python each class contributes to the wrapper of a package routine.

    The direction is the text the parser captured (`in`, `out`, `in` and
    `out` with blanks between) or `None`; the tests on it are Python's:
    `type == 'out'` for the default value, and `type and re.match('out',
    type)` — an anchored prefix test — for reading the value back. */
module Arguments {
  import opened Wrappers
  import opened Text
  import opened OraTypes
  import opened Snippets

  /** `Argument`, `ClobArgument`, `CursorArgument`. */
  datatype Variant = PlainArg | ClobArg | CursorArg

  datatype Argument = Argument(variant: Variant, name: string, direction: Option<string>, oraType: string)

  /** `self.type and re.match('out', self.type)`: the direction starts with
      `out` (an empty or missing direction is false). */
  predicate IsOut(direction: Option<string>) {
    direction.Some? && StartsWith(direction.value, "out")
  }

  /** `Argument.create`. The first test is a tuple membership; the second,
      `oratype in ('sys_refcursor')`, has no comma, so the parentheses hold
      a plain string and `in` asks whether `oratype` is a piece of it. */
  function Create(name: string, direction: Option<string>, oraType: string): (a: Argument)
    ensures a.name == name && a.direction == direction && a.oraType == oraType
  {
    var variant :=
      if oraType == "clob" || oraType == "nclob" then ClobArg
      else if IsSubstring(oraType, "sys_refcursor") then CursorArg
      else PlainArg;
    Argument(variant, name, direction, oraType)
  }

  /** `arg_name`: the parameter of the generated wrapper, defaulting to
      `None` exactly when the direction is the text `out`. */
  function ArgName(a: Argument): (r: string)
    ensures a.direction == Some("out") ==> |r| == |a.name| + 7 && StartsWith(r, a.name)
    ensures a.direction != Some("out") ==> r == a.name
  {
    if a.direction == Some("out") then a.name + " = None" else a.name
  }

  /** `return_statement`: the argument's name, behind a blank, for an
      argument read back after the call; nothing otherwise. */
  function ReturnStatement(a: Argument): (r: string)
    ensures r != "" <==> IsOut(a.direction)
    ensures r != "" ==> r[0] == ' ' && r[1..] == a.name
  {
    if IsOut(a.direction) then " " + a.name else ""
  }

  /** The statements `after_calling` emits, in order. */
  function AfterStatements(a: Argument): (r: seq<Stmt>)
    ensures |r| == 0 <==> !IsOut(a.direction)
    ensures |r| > 0 ==> r[0] == GetValue(a.name)
  {
    if !IsOut(a.direction) then []
    else
      match a.variant
      case PlainArg => [GetValue(a.name)]
      case ClobArg => [GetValue(a.name), ReadLob(a.name)]
      case CursorArg => [GetValue(a.name), WrapCursor(a.name)]
  }

  /** `after_calling`. The plain class returns the bare statement; the two
      subclasses return a triple-quoted template. */
  function AfterCalling(a: Argument): (r: string)
    ensures r == "" <==> !IsOut(a.direction)
  {
    if !IsOut(a.direction) then ""
    else
      var n := a.name;
      match a.variant
      case PlainArg => StmtText(GetValue(n))
      case ClobArg => Block([GetValue(n), ReadLob(n)])
      case CursorArg => Block([GetValue(n), WrapCursor(n)])
  }

  /** The statements `before_calling` emits, in order: the temporary set
      to `None`, the `cursor.var` of the argument's type, the initial
      value (not for a cursor), and the rename back to the argument's name.
      The gaps stand for the indent-only line where two templates meet. */
  function BeforeStatements(a: Argument, token: string): (r: seq<Stmt>)
    ensures |r| == (if a.variant == CursorArg then 5 else 7)
    ensures r[0] == TempNone(a.name) && r[2] == NewVar(a.name, token) && r[|r| - 1] == Restore(a.name)
  {
    var n := a.name;
    var setValue := if a.variant == CursorArg then [] else [Spacer, SetValue(n)];
    [TempNone(n), Spacer, NewVar(n, token)] + setValue + [Spacer, Restore(n)]
  }

  /** `before_calling`: four templates concatenated; the cursor class's
      third is empty. `ORATYPES[self.oratype]` is a case-sensitive lookup
      that raises `KeyError` for a type it does not list. */
  function BeforeCalling(a: Argument): (r: Result<string, KeyError>)
    ensures r.Success? <==> a.oraType in KnownTypes
    ensures r.Failure? ==> r.error == KeyError(a.oraType)
  {
    var token :- OraToken(a.oraType);
    var n := a.name;
    var setValue := if a.variant == CursorArg then "" else Block([SetValue(n)]);
    Success(Block([TempNone(n)]) + Block([NewVar(n, token)]) + setValue + Block([Restore(n)]))
  }

  // ---------------------------------------------------------------------
  // Which class `create` picks
  // ---------------------------------------------------------------------

  /** A text holding a character `b` lacks is no piece of `b`. */
  lemma AbsentCharNotSubstring(a: string, b: string, c: char)
    requires c in a && c !in b
    ensures !IsSubstring(a, b)
  {
    var k :| 0 <= k < |a| && a[k] == c;
    forall i: nat | i <= |b| ensures !HasAt(b, i, a) {
      if i + |a| <= |b| {
        assert b[i..i + |a|][k] == b[i + k] != c;
      }
    }
  }

  /** The known type names with a letter `sys_refcursor` lacks, by letter. */
  lemma NoRefCursorA(oraType: string)
    requires oraType in {"raw", "date", "char", "nchar", "varchar2", "nvarchar2", "timestamp"}
    ensures !IsSubstring(oraType, "sys_refcursor")
  {
    AbsentCharNotSubstring(oraType, "sys_refcursor", 'a');
  }

  lemma NoRefCursorB(oraType: string)
    requires oraType in {"bfile", "blob"}
    ensures !IsSubstring(oraType, "sys_refcursor")
  {
    AbsentCharNotSubstring(oraType, "sys_refcursor", 'b');
  }

  lemma NoRefCursorL(oraType: string)
    requires oraType in {"clob", "nclob", "long row"}
    ensures !IsSubstring(oraType, "sys_refcursor")
  {
    AbsentCharNotSubstring(oraType, "sys_refcursor", 'l');
  }

  lemma NoRefCursorN(oraType: string)
    requires oraType in {"number", "rowid"}
    ensures !IsSubstring(oraType, "sys_refcursor")
  {
    AbsentCharNotSubstring(oraType, "sys_refcursor", if oraType == "number" then 'n' else 'i');
  }

  /** Of the type names the tables know, only `sys_refcursor` itself is a
      piece of `sys_refcursor`. */
  lemma KnownCursorIsRefCursor(oraType: string)
    requires oraType in KnownTypes && IsSubstring(oraType, "sys_refcursor")
    ensures oraType == "sys_refcursor"
  {
    if oraType in {"raw", "date", "char", "nchar", "varchar2", "nvarchar2", "timestamp"} {
      NoRefCursorA(oraType);
    } else if oraType in {"bfile", "blob"} {
      NoRefCursorB(oraType);
    } else if oraType in {"clob", "nclob", "long row"} {
      NoRefCursorL(oraType);
    } else if oraType in {"number", "rowid"} {
      NoRefCursorN(oraType);
    }
  }

  /** On the fifteen known types the class follows the template family of
      the type, except `blob`: a lob type that gets the plain class. */
  lemma CreateOnKnownTypes(name: string, direction: Option<string>, oraType: string)
    requires oraType in KnownTypes
    ensures Create(name, direction, oraType).variant == CursorArg <==> TemplateFamily(oraType) == Success(CursorFamily)
    ensures Create(name, direction, oraType).variant == ClobArg <==> TemplateFamily(oraType) == Success(LobFamily) && oraType != "blob"
    ensures Create(name, direction, oraType).variant == PlainArg <==> TemplateFamily(oraType) == Success(GenericFamily) || oraType == "blob"
  {
    FamilyAssignment(oraType);
    if IsSubstring(oraType, "sys_refcursor") {
      KnownCursorIsRefCursor(oraType);
    }
    if oraType == "sys_refcursor" {
      assert HasAt("sys_refcursor", 0, oraType);
    }
  }

  /** The substring test makes a cursor of types the tables do not know —
      `cursor`, `ref`, even the empty name — and such an argument then
      fails in `before_calling`. */
  lemma LooseCursorTypes(name: string, direction: Option<string>)
    ensures Create(name, direction, "cursor").variant == CursorArg
    ensures Create(name, direction, "ref").variant == CursorArg
    ensures Create(name, direction, "").variant == CursorArg
    ensures BeforeCalling(Create(name, direction, "cursor")) == Failure(KeyError("cursor"))
  {
    assert HasAt("sys_refcursor", 7, "cursor");
    assert HasAt("sys_refcursor", 4, "ref");
    assert HasAt("sys_refcursor", 0, "");
  }

  // ---------------------------------------------------------------------
  // Directions
  // ---------------------------------------------------------------------

  /** An `out` argument gets a `None` default, is returned and is read back. */
  lemma OutArgument(a: Argument)
    requires a.direction == Some("out")
    ensures ArgName(a) == a.name + " = None"
    ensures ReturnStatement(a) == " " + a.name && AfterCalling(a) != ""
  {
  }

  /** Missing, `in` and `in out` directions all start otherwise than with
      `out`: the argument keeps its bare name, is not returned and is not
      read back — an `in out` argument's new value is dropped. */
  lemma NotOutArgument(a: Argument)
    requires a.direction.None? || StartsWith(a.direction.value, "in")
    ensures ArgName(a) == a.name && ReturnStatement(a) == "" && AfterCalling(a) == ""
  {
    if a.direction.Some? {
      assert a.direction.value[0] == 'i';
    }
  }

  /** A wrapper parameter defaulting to `None` is always returned; the
      converse fails for a direction that only starts with `out`. */
  lemma DefaultImpliesReturned(a: Argument)
    ensures ArgName(a) != a.name ==> ReturnStatement(a) != "" && AfterCalling(a) != ""
    ensures var b := a.(direction := Some("outer"));
      ArgName(b) == b.name && ReturnStatement(b) != ""
  {
    if ArgName(a) != a.name {
      assert StartsWith("out", "out");
    }
    assert StartsWith("outer", "out");
  }

  // ---------------------------------------------------------------------
  // The generated text, line by line
  // ---------------------------------------------------------------------

  /** The plain class reads its value back with one bare statement: no
      newline and no indent around it, unlike the two subclasses. */
  lemma PlainAfterCallingIsBare(a: Argument)
    requires a.variant == PlainArg && IsOut(a.direction) && '\n' !in a.name
    ensures AfterCalling(a) == a.name + " = " + a.name + ".getvalue()"
    ensures '\n' !in AfterCalling(a)
  {
  }

  /** The two subclasses' `after_calling` templates: `getvalue`, then
      `read()` for a lob or the `Cursor` wrapper for a cursor. */
  lemma AfterCallingLines(a: Argument)
    requires a.variant != PlainArg && IsOut(a.direction) && '\n' !in a.name
    ensures var n := a.name;
      var second := if a.variant == ClobArg then n + " = " + n + ".read()" else n + " = Cursor(" + n + ")";
      Split(AfterCalling(a), '\n') == ["", Indent + (n + " = " + n + ".getvalue()"), Indent + second, Indent]
  {
    var n := a.name;
    var stmts := AfterStatements(a);
    assert OneLineEach(stmts);
    BlockLines(stmts);
  }

  /** The four templates `before_calling` writes one after the other. */
  lemma BeforeCallingParts(a: Argument, token: string)
    requires OraToken(a.oraType) == Success(token)
    ensures var n := a.name;
      var setValue := if a.variant == CursorArg then "" else Block([SetValue(n)]);
      BeforeCalling(a) == Success(Block([TempNone(n)]) + Block([NewVar(n, token)]) + setValue + Block([Restore(n)]))
  {
  }

  /** The statements in the groups the four templates hold. */
  lemma BeforeStatementsParts(a: Argument, token: string)
    ensures var n := a.name;
      var t, v, s, r := [TempNone(n)], [NewVar(n, token)], [SetValue(n)], [Restore(n)];
      && (a.variant == CursorArg ==> BeforeStatements(a, token) == t + [Spacer] + v + [Spacer] + r)
      && (a.variant != CursorArg ==> BeforeStatements(a, token) == t + [Spacer] + v + [Spacer] + s + [Spacer] + r)
  {
  }

  /** `before_calling` is one template of its statements: where two of
      its four templates meet, an indent-only line separates them. */
  lemma BeforeCallingIsOneBlock(a: Argument, token: string)
    requires OraToken(a.oraType) == Success(token)
    ensures BeforeCalling(a) == Success(Block(BeforeStatements(a, token)))
  {
    var n := a.name;
    var t, v, s, r := [TempNone(n)], [NewVar(n, token)], [SetValue(n)], [Restore(n)];
    hide *;
    BeforeStatementsParts(a, token);
    BeforeCallingParts(a, token);
    BlockAppend(t, v);
    if a.variant == CursorArg {
      BlockAppend(t + [Spacer] + v, r);
      assert Block(t) + Block(v) + "" + Block(r) == Block(t + [Spacer] + v) + Block(r);
    } else {
      BlockAppend(t + [Spacer] + v, s);
      BlockAppend(t + [Spacer] + v + [Spacer] + s, r);
    }
  }

  /** Read line by line, `before_calling` of a known type is an empty
      line, then its statements on indented lines with an indent-only
      line between two of them, then one indent-only line. */
  lemma BeforeCallingLines(a: Argument, token: string)
    requires OraToken(a.oraType) == Success(token) && '\n' !in a.name
    ensures Split(BeforeCalling(a).value, '\n') == [""] + Indented(BeforeStatements(a, token)) + [Indent]
  {
    BeforeCallingIsOneBlock(a, token);
    var stmts := BeforeStatements(a, token);
    assert OneLineEach(stmts);
    BlockLines(stmts);
  }

  /** The cursor class leaves out exactly the `setvalue` statement and the
      gap before it; everything else is the same as for the other classes. */
  lemma CursorSkipsSetValue(a: Argument, token: string)
    ensures var plain := BeforeStatements(a.(variant := PlainArg), token);
      var cursor := BeforeStatements(a.(variant := CursorArg), token);
      && SetValue(a.name) in plain && SetValue(a.name) !in cursor
      && cursor == plain[..3] + plain[5..]
  {
    var plain := BeforeStatements(a.(variant := PlainArg), token);
    assert plain[4] == SetValue(a.name);
  }
}
