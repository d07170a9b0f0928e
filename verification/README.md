# django-plsql core, modelled in Dafny

django-plsql reads the specification of an Oracle PL/SQL package and
generates a Python class whose methods call the package's functions and
procedures through cx_Oracle. This project models the pure core of that
pipeline and proves properties of it:

- **The specification parser** (`PlSqlParser` in plsql/parser.py).
  - Three independent scans of the whole specification find function
    declarations, procedure declarations and constants.
  - Each scan is a `re.findall`. Each fragment is read with a
    `re.search`. An argument list is split on every comma and each piece
    is read as `name [in out|in|out] type`.
  - Every pattern is modelled as a hand-written matcher that takes the
    same choices as Python's backtracking engine. Greedy items give
    characters back from the end, lazy ones take as little as they can,
    and alternatives are tried in their written order.
  - Python 2's character classes are ASCII. `re.I` folds ASCII letters
    only.
  - Modules: `Text` (string helpers), `Scanner` (the fragment scans),
    `Parser` (fragment and argument parsing), `ParserFacts` and
    `ConstantFacts` (what the parser reads back and where it goes wrong).
- **The marshalling tables and code generator** (plsql/base.py).
  - `OraTypes` holds the `ORATYPES` and `TEMPLATES_MAP` tables.
  - `Arguments` holds the `Argument` factory and the three argument
    classes with the Python snippets they emit. `Snippets` holds the
    statements and the triple-quoted layout those snippets use.
  - `Members` covers template and context selection for functions and
    procedures, and a constant's source line.
  - `Schema` covers the assembly of package members from a parsed
    specification, with the parser as a parameter.
- **The `tnsnames.ora` reader** (`TnsOra` in plsql/dbgate.py).
  - The line loop of `initialize` is a fold of one step function over the
    file's lines. `InitializeLoop` is the loop as written, proved equal
    to the fold.
  - Also modelled: the `get` lookup and the connection string of
    `OraConnection.connect`.

Python's exceptions in this core become `Result` failures:

- an `AttributeError` on a failed search, as `HeaderNotFound` or
  `ArgumentNotFound`;
- a `KeyError` on a table lookup;
- `SIDNotFound`.

The payloads of `HeaderNotFound`, `ArgumentNotFound` and `SIDNotFound`
(the text searched, the argument piece, the service name) are labels the
model adds. The program raises a bare `AttributeError` from `None.group`
and `SIDNotFound()` with no argument, so it cannot tell apart failures
that these labels distinguish. Only the `KeyError` payload, the key
looked up, is the program's own.

Where the code behaves unlike the usual PL/SQL reading of a declaration,
the model keeps the code's behaviour and a lemma states the difference.
Examples are the split on every comma, the lower-case-only direction
keywords, the substring test against `'sys_refcursor'` and the
case-sensitive template lookup.

Three readings a PL/SQL user might expect do not hold:

- The argument list is split on every comma, parentheses included.
  `ParserFacts.PrecisionSplitsArgument` shows `number(10,2)` failing.
- An unknown type is not rejected when the argument is built.
  `Arguments.Create` accepts any type, and the type surfaces only as a
  `KeyError` when a table is read.
- When no direction is written, none is recorded: the unmatched group
  gives `None` (an `Option` of `None` in the model) rather than a
  default of `in`.

## Model

| member | source | states |
|---|---|---|
| Parser.GetPackageMembers | plsql/parser.py:16-20 | The triple is the three independent scans: on success its functions, procedures and constants are exactly what `_get_functions`, `_get_procedures` and `_get_constants` return for the whole source. It exists exactly when both routine scans succeed. The function scan's error wins, and when only the procedure scan fails its error is the result. There is one function and one procedure per declaration fragment found. |
| Parser.GetFunctions | plsql/parser.py:80-121 | On success there is one function per fragment of the `function\s+\w+\s*.+?;` scan. Entry k is what fragment k parses to, in source order. |
| Parser.ParseFunctionFragment | plsql/parser.py:85-119 | A parsed function has a `\w+` name and a `\w+` return type. A fragment with no `return` once its newlines are deleted fails with `HeaderNotFound` on the newline-free text. |
| Parser.GetProcedures | plsql/parser.py:142-182 | On success there is one procedure per fragment of the `procedure\s+\w+\s*.+?;` scan. Entry k is what fragment k parses to, in source order. |
| Parser.ParseProcedureFragment | plsql/parser.py:147-180 | A parsed procedure has a `\w+` name. |
| Parser.ProcedureHeaderAt | plsql/parser.py:151-155 | The procedure header pattern matches at a position exactly when the keyword (any case), a blank run and a word character follow. |
| Parser.GetConstants | plsql/parser.py:37-58 | There is at most one constant per fragment of the lazy `.+?constant.*?:=.*?;` scan. |
| Parser.ConstantsOf | plsql/parser.py:42-56 | A fragment the constant pattern does not match is skipped, not an error. When every fragment matches, there is one constant per fragment. |
| Parser.ConstSearch | plsql/parser.py:44-50 | A found constant has a `\w+` name, a non-empty type and a value without newline. The search fails exactly when the pattern matches at no position. |
| Parser.ParseArgList | plsql/parser.py:102-104 | A parsed argument text yields one argument per comma-separated piece, one more than its commas. Entry k is the parse of piece k, in order. When a piece fails, the list fails with the error of the first piece that fails. |
| Parser.ParseArg | plsql/parser.py:105-118 | A parsed piece has a `\w+` name and type. A piece without a match fails with `ArgumentNotFound` on the piece as stripped of blanks. |
| Parser.ArgSearch | plsql/parser.py:108-113 | A found argument has word-character name and type. The search fails exactly when the pattern matches nowhere in the piece. |
| Parser.DirectedTypeAt | plsql/parser.py:111-112 | A direction group is recorded only as text starting with `in` or `out`. The rest of the pattern matches exactly when a word character is next. |
| Parser.Collect | plsql/parser.py:104-118 | A loop whose steps can raise: all values in order, or the error of the first step that fails with all earlier steps succeeding. |
| Scanner.FindAll | plsql/parser.py:83 | `re.findall` spans lie inside the text, in increasing order, without overlap. |
| Scanner.FindAllSound | plsql/parser.py:83 | Every span `findall` reports is a match of the pattern at its start. |
| Scanner.FindAllComplete | plsql/parser.py:83 | Every position where the pattern matches lies inside some reported span: no match is lost, only swallowed by an earlier one. |
| Scanner.DeclEndAtCharacterized | plsql/parser.py:83 | A routine fragment starts exactly where `kw\s+\w` is followed by a ';' at least two characters into the name. It ends at the first ';' after the name and its blanks, or at a ';' right after them when there is no later one. |
| Scanner.RoutineFragmentShape | plsql/parser.py:83 | Each routine fragment opens with its keyword in any letter case and closes with ';'. This holds for the function scan here and for the procedure scan of parser.py:145. |
| Scanner.DeclScanComplete | plsql/parser.py:83 | Every position where the routine pattern matches lies inside a reported fragment. This holds for the function scan here and for the procedure scan of parser.py:145. |
| Scanner.ConstEndAtCharacterized | plsql/parser.py:40 | The constant pattern matches at p exactly when some `constant`, then `:=`, then `;` follow in that order after p. |
| Scanner.ConstFragmentsTile | plsql/parser.py:40 | Constant fragments tile a prefix of the source from position 0, each starting where the previous ended. No constant shape is left after the last. |
| ParserFacts.ArgRoundTrip | plsql/parser.py:108-118 | `name [in\|out\|in out] type` with word name and type is read back as the same argument. |
| ParserFacts.ArgListRoundTrip | plsql/parser.py:102-118 | A comma-separated list of well-formed arguments is read back as the same list. |
| ParserFacts.FunctionRoundTrip | plsql/parser.py:85-119 | `function name(args) return type;` is read back as the same function. Omitted parentheses give no arguments. |
| ParserFacts.EmptyParenthesesNoArguments | plsql/parser.py:92 | `function name() return type;` parses to the function with no arguments, as with the parentheses left out. |
| ParserFacts.SingleFunctionPackage | plsql/parser.py:80-121 | A specification holding one well-formed function yields exactly that function. |
| ParserFacts.FunctionsOf | plsql/parser.py:85-121 | When every function fragment parses, the result is their parses in order. |
| ParserFacts.ProcedureRoundTrip | plsql/parser.py:147-180 | `procedure name(args);` is read back as the same procedure. |
| ParserFacts.SingleProcedurePackage | plsql/parser.py:142-182 | A specification holding one well-formed procedure yields exactly that procedure, provided it has arguments or a name of two or more characters. |
| ParserFacts.ProceduresOf | plsql/parser.py:147-182 | When every procedure fragment parses, the result is their parses in order. |
| ParserFacts.OneLetterProcedureLost | plsql/parser.py:145 | `procedure p;` with a one-letter name and no arguments is not found at all: the scan yields no fragment and no procedure. |
| ParserFacts.BareProcedureSwallowsNext | plsql/parser.py:145 | A procedure without arguments runs on to the next ';'. The procedure declared after it is never parsed. |
| ParserFacts.UpperCaseDirectionIsType | plsql/parser.py:111-113 | `name IN type` records no direction and the type `IN`: direction keywords are matched in lower case only. |
| ParserFacts.InOutWithoutType | plsql/parser.py:111-112 | `name in out` reads as direction `in` and type `out`. |
| ParserFacts.TrailingCommaFails | plsql/parser.py:104-113 | A trailing comma adds an empty piece, and the whole argument list fails with `ArgumentNotFound("")`. |
| ParserFacts.PrecisionSplitsArgument | plsql/parser.py:104-113 | `name type(p,s)` is cut at the comma inside the parentheses. The list fails on the piece `s)`. |
| ParserFacts.NewlineFunctionIsOneDecl | plsql/parser.py:83 | The scan accepts a newline between `function` and the name: the whole text is one fragment. |
| ParserFacts.NewlineAfterKeywordFails | plsql/parser.py:83-94 | Deleting that newline glues the keyword to the name. The header is not found and the whole function scan fails. |
| ConstantFacts.ConstantRoundTrip | plsql/parser.py:37-58 | `name constant type := value;` yields exactly that constant: the name, the type and the value verbatim. |
| ConstantFacts.ConstantIsOneFragment | plsql/parser.py:40 | The fragment scan takes a written constant whole, up to its final ';'. |
| ConstantFacts.ConstantSearch | plsql/parser.py:44-50 | The constant search finds the written constant. |
| ConstantFacts.ConstantsOfAppend | plsql/parser.py:42-56 | Fragments are read independently: the constants of two lists of fragments are the constants of each, in order. |
| ConstantFacts.ConstantsOfSplit | plsql/parser.py:42-56 | Fragment k contributes exactly its own match, or nothing, at its place in the order. |
| ConstantFacts.NoMatchNoConstants | plsql/parser.py:51 | Fragments that do not match give no constants and no error. |
| OraTypes.OraToken | plsql/base.py:17-33 | `ORATYPES[t]` succeeds exactly for the fifteen listed types and raises `KeyError(t)` otherwise. A token starts with `cx_Oracle.`, names an attribute and holds no newline. |
| OraTypes.TemplateFamily | plsql/base.py:35-51 | `TEMPLATES_MAP[t]` succeeds exactly for the fifteen listed types and raises `KeyError(t)` otherwise. |
| OraTypes.SameKeys | plsql/base.py:17-51 | Both tables have the same fifteen keys. |
| OraTypes.FamilyAssignment | plsql/base.py:35-51 | `sys_refcursor` is the only cursor type, `blob`, `clob` and `nclob` are the lob family, and every other key is generic. |
| OraTypes.KnownTypesAreLower | plsql/base.py:17-33 | Every key is in lower case: lower-casing a known type gives it back. |
| OraTypes.LongRowIsNotAWord | plsql/base.py:26 | The key `long row` holds a blank, so no parsed `\w+` type can ever name it. |
| Arguments.Create | plsql/base.py:182-187 | The factory keeps name, direction and type unchanged. |
| Arguments.KnownCursorIsRefCursor | plsql/base.py:184-185 | Among the known types, only `sys_refcursor` passes the substring test that picks the cursor class. |
| Arguments.CreateOnKnownTypes | plsql/base.py:182-187 | On known types the class follows the template family, except `blob`: a lob type that gets the plain class. |
| Arguments.LooseCursorTypes | plsql/base.py:184-185 | `cursor`, `ref` and the empty type also make cursor arguments. Such an argument then fails `before_calling` with `KeyError`. |
| Arguments.ArgName | plsql/base.py:198-201 | The wrapper parameter gets ` = None` exactly when the direction is the text `out`. Otherwise it is the bare name. |
| Arguments.ReturnStatement | plsql/base.py:203-206 | The return fragment is non-empty exactly when the direction starts with `out`. It is then a blank and the name. |
| Arguments.AfterCalling | plsql/base.py:208-212 | The read-back code is empty exactly when the direction does not start with `out`, for all three classes. |
| Arguments.OutArgument | plsql/base.py:198-212 | An `out` argument defaults to `None`, is returned and is read back. |
| Arguments.NotOutArgument | plsql/base.py:198-212 | A missing, `in` or `in out` direction gives the bare name, no return and no read-back. The new value of an `in out` argument is dropped. |
| Arguments.DefaultImpliesReturned | plsql/base.py:198-206 | A `None` default implies the argument is returned. The converse fails for a direction such as `outer`. |
| Arguments.PlainAfterCallingIsBare | plsql/base.py:208-210 | The plain class reads back with one bare `name = name.getvalue()` statement, without newline or indent. |
| Arguments.AfterCallingLines | plsql/base.py:258-279 | The lob class emits `getvalue` then `read()`. The cursor class emits `getvalue` then the `Cursor(...)` wrap. Each is on its own indented line of a triple-quoted template. |
| Arguments.BeforeCalling | plsql/base.py:214-250 | `before_calling` succeeds exactly when `ORATYPES` lists the argument's type, case as written, and otherwise raises `KeyError` on that type. |
| Arguments.BeforeCallingIsOneBlock | plsql/base.py:214-250 | The four concatenated templates form one template: temporary set to `None`, `cursor.var(token)`, initial value, rename back, with an indent-only line where two meet. |
| Arguments.BeforeCallingLines | plsql/base.py:228-250 | Read line by line: an empty line, each statement on an indented line, then an indent-only line. |
| Arguments.CursorSkipsSetValue | plsql/base.py:268-271 | The cursor class leaves out exactly the `setvalue` statement and the gap before it. Everything else is the same. |
| Snippets.BlockLines | plsql/base.py:228-250 | A triple-quoted template reads back as an empty first line, one indented line per statement and an indent-only last line. |
| Snippets.BlockAppend | plsql/base.py:218-224 | Two templates written one after the other read as one template with an indent-only line between their statements. |
| Members.FunctionSource | plsql/base.py:123-138 | Template selection succeeds exactly for a type the tables list as written. On failure, the `KeyError` names the lower-cased type when the token lookup fails first, and the type as written otherwise. The context holds the token and the lower-cased package name. |
| Members.FunctionTemplate | plsql/base.py:135-136 | The template is `function_cursor.html` exactly for `sys_refcursor`, `function_lob.html` exactly for the three lob types, and `function_generic.html` otherwise. The return type is a `cx_Oracle.` token. |
| Members.MixedCaseReturnType | plsql/base.py:131-136 | A return type that differs from a known type only in case finds its token but fails the template lookup with `KeyError` on the type as written. |
| Members.UpperCaseNumber | plsql/base.py:131-136 | `NUMBER` is such a type. |
| Members.ProcedureSource | plsql/base.py:154-162 | A procedure always uses `procedure.html`, with no return type in the context and the package name in lower case. The context's package name is exactly `self.parent.name.lower()`, and name and arguments are passed through. |
| Members.ProcedureAndFunctionContexts | plsql/base.py:123-162 | For a known return type, a function's context is the context a procedure of the same name, arguments and package gets, plus the return token. The two templates differ. |
| Members.ConstantSource | plsql/base.py:286-287 | A constant's line is its name, ` = ` and the value verbatim. |
| Members.ConstantSourceReadBack | plsql/base.py:286-287 | For a `\w+` name, the first ` = ` of the line is the one after the name, so the line splits back into name and value. |
| Members.DeclaredConstantSource | plsql/base.py:281-287 | A declared constant becomes `name = value`: the type is dropped and the value is copied. |
| Members.PySource | plsql/base.py:123-138 | A member's `get_py_source` fails only for a function whose return type the tables do not list. This is `Function.get_py_source` here, with `Procedure.get_py_source` (base.py:154-162) and `Constant.get_py_source` (base.py:286-287) for the other kinds. A constant gives literal text, and the others give a template call. |
| Schema.PackageMembers | plsql/base.py:322-355 | Parse errors propagate unchanged. Otherwise the members are the parsed procedures, then functions, then constants. |
| Schema.BuildArguments | plsql/base.py:337-340 | The argument loop keeps each parsed argument's name, direction and type, in order. |
| Schema.BuildMembers | plsql/base.py:333-355 | The three loops give the procedures, then the functions, then the constants, each built as `_get_package_members` builds it. |
| Schema.MembersInOrder | plsql/base.py:333-355 | Along the member list, procedures come before functions, which come before constants. |
| Schema.MembersByRank | plsql/base.py:333-355 | Read back by kind, the members name the parser's procedures, functions and constants, each group whole and in order. |
| Schema.WithPlSqlParser | plsql/base.py:329-331 | With the repository's parser, members exist exactly when both routine scans succeed. There is one member per procedure, function and constant. |
| TnsNames.HeaderName | plsql/dbgate.py:48 | A header is found only for a line holding `=`. The name is a non-empty `\w+` word. |
| TnsNames.HeaderOf | plsql/dbgate.py:48 | `NAME =`, with blanks around the name, is a header for `NAME` whatever follows. |
| TnsNames.Save | plsql/dbgate.py:54-56 | A pending description is stored under its name only when it has body lines. Every other entry is unchanged. |
| TnsNames.InitializeLoop | plsql/dbgate.py:33-66 | The loop as written computes the fold of the step function, with the last pending service saved. |
| TnsNames.SkippedLineIgnored | plsql/dbgate.py:42-43 | A comment or empty line anywhere in the file changes nothing. |
| TnsNames.JunkBeforeFirstHeader | plsql/dbgate.py:61-62 | Lines before the first header are discarded. |
| TnsNames.BegunCollectsBody | plsql/dbgate.py:45-62 | Once a service has begun, body lines are collected in order with newlines removed. |
| TnsNames.FoldOneService | plsql/dbgate.py:48-62 | A header saves the pending service and starts a new one. The header line's text is never part of a description. |
| TnsNames.FoldServices | plsql/dbgate.py:33-62 | After a list of services, the last is pending and the earlier ones are saved as expected. |
| TnsNames.InitializeServices | plsql/dbgate.py:33-66 | A file of services yields exactly the expected map: each service with a body, described by its joined newline-free lines, with a later name overriding an earlier one. |
| TnsNames.EmptyServiceDropped | plsql/dbgate.py:54 | A header directly followed by another header leaves no entry. |
| TnsNames.DuplicateOverwrites | plsql/dbgate.py:53-66 | A later service of the same name replaces the earlier one. |
| TnsNames.Get | plsql/dbgate.py:70-79 | `get` returns the stored description exactly for a known name, and `SIDNotFound` otherwise. |
| TnsNames.Connect | plsql/dbgate.py:83-88 | A connection string exists exactly when the file lists the service. It is built from that service's description. |
| TnsNames.ConnectStringReadBack | plsql/dbgate.py:86 | For a login without `/` and a password without `@`, the first `/` and the next `@` split the string back into login, password and description. |

## Left out

- File and environment access in `TnsOra.initialize`: the `ORACLE_HOME` check, the existence test, opening, `readlines` and closing (plsql/dbgate.py:25-31, 40, 68). The lines are a parameter, and `OracleHomeError` and `FileNotFoundError` are not modelled.
- `OraConnection` as a live `cx_Oracle.Connection`, and the `DBA` queries. `Connect` returns the connection string that would be opened.
- `render_to_string` and the Django templates it reads. A template call is its template name and context. The templates' text is not part of this model.
- `Package.get_py_source` and `Package` itself, which render the package template. `Schema.generate_packages`, `_save_packages` and `SchemaIO` fetch packages from the database and write files. The `PLSQL_PACKAGES` filter and plsql/settings.py are left out as configuration.
- The specification source that `_get_package_members` fetches from the database is a parameter, and so is the parser.
- The runtime `Cursor` class named in generated code is not part of this model. Only the text `Cursor(name)` is.
- `__str__` and `__unicode__` methods, which only format descriptions.
- A general regular-expression engine. Each pattern is one specific matcher.
- Parser.GetConstants: its own contract only bounds the count. What each fragment contributes is stated by `ConstantFacts.ConstantsOfSplit` and `ConstantFacts.ConstantRoundTrip`.
- Parser.ParseProcedureFragment: its own contract states only the name's shape. The full reading is stated by `ParserFacts.ProcedureRoundTrip` and the corner-case lemmas.
- ParserFacts.SingleProcedurePackage: stated only for procedures with arguments or a name of two or more characters, because a shorter parameterless procedure is not found at all (`ParserFacts.OneLetterProcedureLost`).
- ParserFacts.ArgRoundTrip: stated only for the four lower-case direction spellings with one blank between words. Other spellings are covered by the corner-case lemmas.
