/** The members of a package in plsql/base.py — `Function`, `Procedure`
    and `Constant` — and what each hands over to produce its Python
    source. Functions and procedures call Django's `render_to_string`
    with a template name and a context; the templates themselves are not
    part of this model, so the call is represented by its two arguments.
    A constant writes its one line itself. */
module Members {
  import opened Wrappers
  import opened Text
  import opened OraTypes
  import opened Arguments
  import opened Parser
  import opened ConstantFacts

  /** The template context: `name`, `args`, `package_name`, and for a
      function `return_type` (`None` when the key is absent). */
  datatype Context = Context(name: string, args: seq<Argument>, returnType: Option<string>, packageName: string)

  /** A call `render_to_string(template, context)`. */
  datatype RenderCall = RenderCall(template: string, context: Context)

  datatype Member =
    | FunctionMember(name: string, oraType: string, args: seq<Argument>)
    | ProcedureMember(name: string, args: seq<Argument>)
    | ConstantMember(name: string, value: string)

  /** What `get_py_source` produces: a template call, or a constant's line. */
  datatype Source = Rendered(call: RenderCall) | Literal(text: string)

  /** No upper-case letter anywhere in `s`. */
  predicate LowerCase(s: string) {
    forall k :: 0 <= k < |s| ==> !IsUpper(s[k])
  }

  /** `Function.get_py_source`. The context is built first, so the return
      token `ORATYPES[oratype.lower()]` is looked up before the template
      family `TEMPLATES_MAP[oratype]`, and only the first lookup lowers
      the case: a return type written in capitals passes the first and
      fails the second. */
  function FunctionSource(name: string, oraType: string, args: seq<Argument>, packageName: string): (r: Result<RenderCall, KeyError>)
    ensures r.Success? <==> oraType in KnownTypes
    ensures r.Failure? ==> r.error == KeyError(if LowerStr(oraType) in KnownTypes then oraType else LowerStr(oraType))
    ensures r.Success? ==> r.value.context == Context(name, args, Some(OraToken(oraType).value), LowerStr(packageName))
    ensures r.Success? ==> LowerCase(r.value.context.packageName)
  {
    assert oraType in KnownTypes ==> LowerStr(oraType) == oraType by {
      if oraType in KnownTypes {
        KnownTypesAreLower(oraType);
      }
    }
    var returnType :- OraToken(LowerStr(oraType));
    var family :- TemplateFamily(oraType);
    Success(RenderCall(TemplateName(family), Context(name, args, Some(returnType), LowerStr(packageName))))
  }

  /** `function_<family>.html`. */
  function TemplateName(family: Family): string {
    "function_" + FamilyName(family) + ".html"
  }

  /** `Procedure.get_py_source`: always the procedure template, and no
      `return_type` in the context. */
  function ProcedureSource(name: string, args: seq<Argument>, packageName: string): (r: RenderCall)
    ensures r.template == "procedure.html"
    ensures r.context.returnType.None? && LowerCase(r.context.packageName)
    ensures r.context.name == name && r.context.args == args && |r.context.packageName| == |packageName|
    ensures r.context.packageName == LowerStr(packageName)
  {
    RenderCall("procedure.html", Context(name, args, None, LowerStr(packageName)))
  }

  /** A procedure and a function of the same name and arguments in the
      same package hand their templates the same context, except that the
      function's carries its return token; the templates differ. */
  lemma ProcedureAndFunctionContexts(name: string, oraType: string, args: seq<Argument>, packageName: string)
    requires oraType in KnownTypes
    ensures var p, f := ProcedureSource(name, args, packageName), FunctionSource(name, oraType, args, packageName).value;
      && f.context == p.context.(returnType := Some(OraToken(oraType).value))
      && f.template != p.template
  {
  }

  /** `Constant.get_py_source`: `name = value`, the value verbatim. */
  function ConstantSource(name: string, value: string): (r: string)
    ensures |r| == |name| + 3 + |value|
    ensures r[..|name|] == name && r[|name|..|name| + 3] == " = " && r[|name| + 3..] == value
  {
    name + " = " + value
  }

  /** `get_py_source` of any member of a package called `packageName`. */
  function PySource(m: Member, packageName: string): (r: Result<Source, KeyError>)
    ensures r.Failure? <==> m.FunctionMember? && m.oraType !in KnownTypes
    ensures r.Success? ==> (r.value.Literal? <==> m.ConstantMember?)
  {
    match m
    case FunctionMember(name, oraType, args) =>
      var call :- FunctionSource(name, oraType, args, packageName);
      Success(Rendered(call))
    case ProcedureMember(name, args) => Success(Rendered(ProcedureSource(name, args, packageName)))
    case ConstantMember(name, value) => Success(Literal(ConstantSource(name, value)))
  }

  // ---------------------------------------------------------------------
  // Template selection
  // ---------------------------------------------------------------------

  /** For a known return type the template is `function_<family>.html`:
      the cursor template for `sys_refcursor`, the lob template for the
      three large-object types, the generic one otherwise; the context's
      return type is the type's `cx_Oracle` token. */
  lemma FunctionTemplate(name: string, oraType: string, args: seq<Argument>, packageName: string)
    requires oraType in KnownTypes
    ensures var call := FunctionSource(name, oraType, args, packageName).value;
      && (call.template == "function_cursor.html" <==> oraType == "sys_refcursor")
      && (call.template == "function_lob.html" <==> oraType in {"blob", "clob", "nclob"})
      && (call.template == "function_generic.html" <==> oraType !in {"sys_refcursor", "blob", "clob", "nclob"})
      && StartsWith(call.context.returnType.value, "cx_Oracle.")
  {
    var call := FunctionSource(name, oraType, args, packageName).value;
    KnownTypesAreLower(oraType);
    assert call.template == TemplateName(TemplateFamily(oraType).value);
    hide *;
    FamilyAssignment(oraType);
    TemplateNames();
  }

  /** The three function templates. */
  lemma TemplateNames()
    ensures TemplateName(CursorFamily) == "function_cursor.html"
    ensures TemplateName(LobFamily) == "function_lob.html"
    ensures TemplateName(GenericFamily) == "function_generic.html"
  {
  }

  /** A return type that differs from a known type only in case finds its
      token but not its template: the call fails with `KeyError` on the
      type as written. */
  lemma MixedCaseReturnType(name: string, oraType: string, args: seq<Argument>, packageName: string)
    requires LowerStr(oraType) in KnownTypes && oraType != LowerStr(oraType)
    ensures OraToken(LowerStr(oraType)).Success?
    ensures FunctionSource(name, oraType, args, packageName) == Failure(KeyError(oraType))
  {
    if oraType in KnownTypes {
      KnownTypesAreLower(oraType);
    }
  }

  /** `NUMBER`, as PL/SQL sources often write it, is such a type. */
  lemma UpperCaseNumber(name: string, args: seq<Argument>, packageName: string)
    ensures FunctionSource(name, "NUMBER", args, packageName) == Failure(KeyError("NUMBER"))
  {
    var u := "NUMBER";
    assert LowerStr(u) == "number" by {
      var l := LowerStr(u);
      assert l[0] == Lower('N') == 'n' && l[1] == Lower('U') == 'u' && l[2] == Lower('M') == 'm';
      assert l[3] == Lower('B') == 'b' && l[4] == Lower('E') == 'e' && l[5] == Lower('R') == 'r';
    }
    MixedCaseReturnType(name, u, args, packageName);
  }

  // ---------------------------------------------------------------------
  // Constants
  // ---------------------------------------------------------------------

  /** The name of a constant is a `\w` word, so the first ` = ` of its
      line is the one after the name: name and value can be read back. */
  lemma ConstantSourceReadBack(name: string, value: string)
    requires IsWordText(name)
    ensures Find(ConstantSource(name, value), 0, " = ") == Some(|name|)
  {
    var r := ConstantSource(name, value);
    assert HasAt(r, |name|, " = ");
    forall q: nat | q < |name| ensures !HasAt(r, q, " = ") {
      if q + 3 <= |r| {
        assert r[q..q + 3][0] == r[q] == name[q];
        assert InClass(name[q], WordChar);
      }
    }
    FindFirst(r, " = ", |name|);
  }

  /** A `Find` result is the first position the literal is at. */
  lemma FindFirst(s: string, lit: string, p: nat)
    requires HasAt(s, p, lit)
    requires forall q: nat :: q < p ==> !HasAt(s, q, lit)
    ensures Find(s, 0, lit) == Some(p)
  {
  }

  /** A constant declared `name constant type := value;` becomes the
      Python line `name = value`: the type is dropped, the value copied. */
  lemma DeclaredConstantSource(c: ConstantSpec)
    requires WellFormedConstant(c)
    ensures var parsed := GetConstants(RenderConstant(c));
      |parsed| == 1 && ConstantSource(parsed[0].name, parsed[0].value) == c.name + " = " + c.value
  {
    ConstantRoundTrip(c);
  }
}
