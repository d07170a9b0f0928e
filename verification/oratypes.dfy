/** The two static tables of plsql/base.py: `ORATYPES`, from an Oracle
    type name to the cx_Oracle variable type the generated code passes to
    `cursor.var`, and `TEMPLATES_MAP`, from the same names to the template
    family used for a function returning that type. Both lookups are plain
    Python dictionary subscripts: case-sensitive, raising `KeyError` on a
    missing key. */
module OraTypes {
  import opened Wrappers
  import opened Text

  /** A Python `KeyError`, carrying the key that was looked up. */
  datatype KeyError = KeyError(key: string)

  /** The template families named by `TEMPLATES_MAP`. */
  datatype Family = CursorFamily | LobFamily | GenericFamily

  function FamilyName(f: Family): (name: string)
    ensures |name| > 0 && LowerStr(name) == name
  {
    match f
    case CursorFamily => "cursor"
    case LobFamily => "lob"
    case GenericFamily => "generic"
  }

  /** The `cx_Oracle` variable types `ORATYPES` names. */
  datatype CxType =
    | CURSOR | BINARY | BFILE | BLOB | CLOB | DATETIME | FIXED_CHAR | FIXED_UNICODE
    | LONG_BINARY | NCLOB | NUMBER | ROWID | STRING | TIMESTAMP | UNICODE

  /** The attribute name of a `cx_Oracle` type. */
  function CxName(x: CxType): (name: string)
    ensures |name| > 0 && '\n' !in name
  {
    match x
    case CURSOR => "CURSOR"
    case BINARY => "BINARY"
    case BFILE => "BFILE"
    case BLOB => "BLOB"
    case CLOB => "CLOB"
    case DATETIME => "DATETIME"
    case FIXED_CHAR => "FIXED_CHAR"
    case FIXED_UNICODE => "FIXED_UNICODE"
    case LONG_BINARY => "LONG_BINARY"
    case NCLOB => "NCLOB"
    case NUMBER => "NUMBER"
    case ROWID => "ROWID"
    case STRING => "STRING"
    case TIMESTAMP => "TIMESTAMP"
    case UNICODE => "UNICODE"
  }

  /** How a `cx_Oracle` type is written in generated code. */
  function CxToken(x: CxType): (token: string)
    ensures StartsWith(token, "cx_Oracle.") && |token| > |"cx_Oracle."| && '\n' !in token
  {
    "cx_Oracle." + CxName(x)
  }

  /** `ORATYPES`. */
  const OraTokens: map<string, CxType> := map[
    "sys_refcursor" := CURSOR,
    "raw" := BINARY,
    "bfile" := BFILE,
    "blob" := BLOB,
    "clob" := CLOB,
    "date" := DATETIME,
    "char" := FIXED_CHAR,
    "nchar" := FIXED_UNICODE,
    "long row" := LONG_BINARY,
    "nclob" := NCLOB,
    "number" := NUMBER,
    "rowid" := ROWID,
    "varchar2" := STRING,
    "timestamp" := TIMESTAMP,
    "nvarchar2" := UNICODE
  ]

  /** `TEMPLATES_MAP`, with the family names as the datatype above. */
  const TemplateFamilies: map<string, Family> := map[
    "sys_refcursor" := CursorFamily,
    "raw" := GenericFamily,
    "bfile" := GenericFamily,
    "blob" := LobFamily,
    "clob" := LobFamily,
    "date" := GenericFamily,
    "char" := GenericFamily,
    "nchar" := GenericFamily,
    "long row" := GenericFamily,
    "nclob" := LobFamily,
    "number" := GenericFamily,
    "rowid" := GenericFamily,
    "varchar2" := GenericFamily,
    "timestamp" := GenericFamily,
    "nvarchar2" := GenericFamily
  ]

  /** The type names both tables know. */
  const KnownTypes: set<string> := {
    "sys_refcursor", "raw", "bfile", "blob", "clob", "date", "char", "nchar",
    "long row", "nclob", "number", "rowid", "varchar2", "timestamp", "nvarchar2"
  }

  /** `ORATYPES[oratype]`, as written in generated code. */
  function OraToken(oratype: string): (r: Result<string, KeyError>)
    ensures r.Success? <==> oratype in KnownTypes
    ensures r.Failure? ==> r.error == KeyError(oratype)
    ensures r.Success? ==> StartsWith(r.value, "cx_Oracle.") && |r.value| > |"cx_Oracle."| && '\n' !in r.value
  {
    SameKeys();
    if oratype in OraTokens then Success(CxToken(OraTokens[oratype])) else Failure(KeyError(oratype))
  }

  /** `TEMPLATES_MAP[oratype]`. */
  function TemplateFamily(oratype: string): (r: Result<Family, KeyError>)
    ensures r.Success? <==> oratype in KnownTypes
    ensures r.Failure? ==> r.error == KeyError(oratype)
  {
    SameKeys();
    if oratype in TemplateFamilies then Success(TemplateFamilies[oratype]) else Failure(KeyError(oratype))
  }

  /** The two tables have the same fifteen keys. */
  lemma SameKeys()
    ensures OraTokens.Keys == KnownTypes && TemplateFamilies.Keys == KnownTypes
  {
  }

  /** No known type name holds an upper-case letter. */
  predicate NoUpper(s: string) {
    forall k :: 0 <= k < |s| ==> !IsUpper(s[k])
  }

  lemma LowerStrNoUpper(s: string)
    requires NoUpper(s)
    ensures LowerStr(s) == s
  {
  }

  /** Every key is already in lower case, so lower-casing a known type
      name gives it back. */
  lemma KnownTypesAreLower(oratype: string)
    requires oratype in KnownTypes
    ensures LowerStr(oratype) == oratype
  {
    assert NoUpper(oratype);
    LowerStrNoUpper(oratype);
  }

  /** The family assignment: `sys_refcursor` is the only cursor type, the
      three large-object types form the lob family, the rest are generic. */
  lemma FamilyAssignment(oratype: string)
    requires oratype in KnownTypes
    ensures TemplateFamily(oratype) == Success(CursorFamily) <==> oratype == "sys_refcursor"
    ensures TemplateFamily(oratype) == Success(LobFamily) <==> oratype in {"blob", "clob", "nclob"}
    ensures TemplateFamily(oratype) == Success(GenericFamily) <==> oratype !in {"sys_refcursor", "blob", "clob", "nclob"}
  {
  }

  /** `long row` holds a blank, so it is never a single `\w+` word and no
      parsed declaration can name it. */
  lemma LongRowIsNotAWord()
    ensures "long row" in KnownTypes && !AllIn("long row", WordChar)
  {
    assert !InClass("long row"[4], WordChar);
  }
}
