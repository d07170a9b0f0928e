/** `Schema._get_package_members` (plsql/base.py): the parsed package
    specification turned into the package's members — every procedure,
    then every function, then every constant, each group in the order
    the parser reported it, with the arguments built by `Argument.create`.
    The specification's text comes from the database; here it is a
    parameter, and so is the parser. */
module Schema {
  import opened Wrappers
  import opened Parser
  import opened Arguments
  import opened Members

  /** `Argument.create` on one parsed argument. */
  function ArgumentOf(a: ArgSpec): Argument {
    Create(a.name, a.direction, a.oraType)
  }

  /** The arguments of one routine, in the parser's order. */
  function ArgumentsOf(specs: seq<ArgSpec>): (r: seq<Argument>)
    ensures |r| == |specs|
  {
    seq(|specs|, k requires 0 <= k < |specs| => ArgumentOf(specs[k]))
  }

  function ProcedureOf(p: ProcedureSpec): Member {
    ProcedureMember(p.name, ArgumentsOf(p.args))
  }

  function FunctionOf(f: FunctionSpec): Member {
    FunctionMember(f.name, f.oraType, ArgumentsOf(f.args))
  }

  /** A constant member keeps the name and the value; the type is dropped. */
  function ConstantOf(c: ConstantSpec): Member {
    ConstantMember(c.name, c.value)
  }

  /** The members, described group by group. */
  function Assemble(spec: PackageSpec): seq<Member> {
    Procedures(spec) + Functions(spec) + Constants(spec)
  }

  /** The loop over one routine's arguments: `add_argument` of
      `Argument.create` for each, in order. */
  method BuildArguments(specs: seq<ArgSpec>) returns (args: seq<Argument>)
    ensures |args| == |specs|
    ensures forall k :: 0 <= k < |specs| ==>
      args[k].name == specs[k].name && args[k].direction == specs[k].direction && args[k].oraType == specs[k].oraType
    ensures args == ArgumentsOf(specs)
  {
    args := [];
    for i := 0 to |specs|
      invariant |args| == i
      invariant forall k :: 0 <= k < i ==> args[k] == ArgumentOf(specs[k])
    {
      args := args + [Create(specs[i].name, specs[i].direction, specs[i].oraType)];
    }
  }

  /** `_get_package_members` after the parse: three loops appending to
      one list. */
  method BuildMembers(spec: PackageSpec) returns (members: seq<Member>)
    ensures members == Assemble(spec)
  {
    var ps, fs, cs := spec.procedures, spec.functions, spec.constants;
    members := [];
    for i := 0 to |ps|
      invariant |members| == i
      invariant forall k :: 0 <= k < i ==> members[k] == ProcedureOf(ps[k])
    {
      var args := BuildArguments(ps[i].args);
      members := members + [ProcedureMember(ps[i].name, args)];
    }
    for i := 0 to |fs|
      invariant |members| == |ps| + i
      invariant forall k :: 0 <= k < |ps| ==> members[k] == ProcedureOf(ps[k])
      invariant forall k :: 0 <= k < i ==> members[|ps| + k] == FunctionOf(fs[k])
    {
      var args := BuildArguments(fs[i].args);
      members := members + [FunctionMember(fs[i].name, fs[i].oraType, args)];
    }
    for i := 0 to |cs|
      invariant |members| == |ps| + |fs| + i
      invariant forall k :: 0 <= k < |ps| ==> members[k] == ProcedureOf(ps[k])
      invariant forall k :: 0 <= k < |fs| ==> members[|ps| + k] == FunctionOf(fs[k])
      invariant forall k :: 0 <= k < i ==> members[|ps| + |fs| + k] == ConstantOf(cs[k])
    {
      members := members + [ConstantMember(cs[i].name, cs[i].value)];
    }
    assert members == Assemble(spec);
  }

  /** `_get_package_members`, with the specification's source and the
      parser given. A parse error propagates; nothing else can fail. */
  function PackageMembers(parse: string -> Result<PackageSpec, ParseError>, source: string): (r: Result<seq<Member>, ParseError>)
    ensures r.Success? <==> parse(source).Success?
    ensures r.Failure? ==> r.error == parse(source).error
    ensures r.Success? ==> r.value == Assemble(parse(source).value)
  {
    var spec :- parse(source);
    Success(Assemble(spec))
  }

  // ---------------------------------------------------------------------
  // The order of the members
  // ---------------------------------------------------------------------

  /** Procedures come first, then functions, then constants. */
  function Rank(m: Member): nat {
    match m
    case ProcedureMember(_, _) => 0
    case FunctionMember(_, _, _) => 1
    case ConstantMember(_, _) => 2
  }

  /** The names of the members of one rank, in order. */
  function NamesOfRank(ms: seq<Member>, rank: nat): (r: seq<string>)
    ensures |r| <= |ms|
  {
    if |ms| == 0 then []
    else (if Rank(ms[0]) == rank then [ms[0].name] else []) + NamesOfRank(ms[1..], rank)
  }

  lemma {:induction false} NamesOfRankAppend(a: seq<Member>, b: seq<Member>, rank: nat)
    ensures NamesOfRank(a + b, rank) == NamesOfRank(a, rank) + NamesOfRank(b, rank)
    decreases |a|
  {
    if |a| > 0 {
      NamesOfRankAppend(a[1..], b, rank);
      assert (a + b)[1..] == a[1..] + b;
    } else {
      assert a + b == b;
    }
  }

  /** The names of all members, in order. */
  function Names(ms: seq<Member>): (r: seq<string>)
    ensures |r| == |ms|
  {
    seq(|ms|, k requires 0 <= k < |ms| => ms[k].name)
  }

  /** A group whose members all have the rank gives all its names. */
  lemma {:induction false} NamesAllOfRank(ms: seq<Member>, rank: nat)
    requires forall k :: 0 <= k < |ms| ==> Rank(ms[k]) == rank
    ensures NamesOfRank(ms, rank) == Names(ms)
    decreases |ms|
  {
    if |ms| > 0 {
      NamesAllOfRank(ms[1..], rank);
      assert Names(ms) == [ms[0].name] + Names(ms[1..]);
    }
  }

  /** A group with no member of the rank gives no names. */
  lemma {:induction false} NamesNoneOfRank(ms: seq<Member>, rank: nat)
    requires forall k :: 0 <= k < |ms| ==> Rank(ms[k]) != rank
    ensures NamesOfRank(ms, rank) == []
    decreases |ms|
  {
    if |ms| > 0 {
      NamesNoneOfRank(ms[1..], rank);
    }
  }

  /** Ranks never decrease along the member list. */
  lemma MembersInOrder(spec: PackageSpec)
    ensures var ms := Assemble(spec);
      forall i, j :: 0 <= i <= j < |ms| ==> Rank(ms[i]) <= Rank(ms[j])
  {
    var ms := Assemble(spec);
    var p, f := |spec.procedures|, |spec.functions|;
    forall i | 0 <= i < |ms| ensures Rank(ms[i]) == if i < p then 0 else if i < p + f then 1 else 2 {
    }
  }

  /** The three groups of `Assemble`. */
  function Procedures(spec: PackageSpec): seq<Member> {
    seq(|spec.procedures|, k requires 0 <= k < |spec.procedures| => ProcedureOf(spec.procedures[k]))
  }

  function Functions(spec: PackageSpec): seq<Member> {
    seq(|spec.functions|, k requires 0 <= k < |spec.functions| => FunctionOf(spec.functions[k]))
  }

  function Constants(spec: PackageSpec): seq<Member> {
    seq(|spec.constants|, k requires 0 <= k < |spec.constants| => ConstantOf(spec.constants[k]))
  }

  /** The names of one rank come from the three groups in turn. */
  lemma NamesOfRankGroups(spec: PackageSpec, rank: nat)
    ensures NamesOfRank(Assemble(spec), rank)
         == NamesOfRank(Procedures(spec), rank) + NamesOfRank(Functions(spec), rank) + NamesOfRank(Constants(spec), rank)
  {
    var ps, fs, cs := Procedures(spec), Functions(spec), Constants(spec);
    assert Assemble(spec) == ps + fs + cs;
    hide *;
    NamesOfRankAppend(ps + fs, cs, rank);
    NamesOfRankAppend(ps, fs, rank);
  }

  /** Read back by rank, the members name the parser's procedures,
      functions and constants, each group whole and in order. */
  lemma MembersByRank(spec: PackageSpec)
    ensures NamesOfRank(Assemble(spec), 0) == seq(|spec.procedures|, k requires 0 <= k < |spec.procedures| => spec.procedures[k].name)
    ensures NamesOfRank(Assemble(spec), 1) == seq(|spec.functions|, k requires 0 <= k < |spec.functions| => spec.functions[k].name)
    ensures NamesOfRank(Assemble(spec), 2) == seq(|spec.constants|, k requires 0 <= k < |spec.constants| => spec.constants[k].name)
  {
    ProcedureNames(spec);
    FunctionNames(spec);
    ConstantNames(spec);
  }

  lemma ProcedureNames(spec: PackageSpec)
    ensures NamesOfRank(Assemble(spec), 0) == seq(|spec.procedures|, k requires 0 <= k < |spec.procedures| => spec.procedures[k].name)
  {
    var ps, fs, cs := Procedures(spec), Functions(spec), Constants(spec);
    NamesAllOfRank(ps, 0);
    NamesNoneOfRank(fs, 0);
    NamesNoneOfRank(cs, 0);
    assert Names(ps) == seq(|spec.procedures|, k requires 0 <= k < |spec.procedures| => spec.procedures[k].name);
    hide *;
    NamesOfRankGroups(spec, 0);
  }

  lemma FunctionNames(spec: PackageSpec)
    ensures NamesOfRank(Assemble(spec), 1) == seq(|spec.functions|, k requires 0 <= k < |spec.functions| => spec.functions[k].name)
  {
    var ps, fs, cs := Procedures(spec), Functions(spec), Constants(spec);
    NamesNoneOfRank(ps, 1);
    NamesAllOfRank(fs, 1);
    NamesNoneOfRank(cs, 1);
    assert Names(fs) == seq(|spec.functions|, k requires 0 <= k < |spec.functions| => spec.functions[k].name);
    hide *;
    NamesOfRankGroups(spec, 1);
  }

  lemma ConstantNames(spec: PackageSpec)
    ensures NamesOfRank(Assemble(spec), 2) == seq(|spec.constants|, k requires 0 <= k < |spec.constants| => spec.constants[k].name)
  {
    var ps, fs, cs := Procedures(spec), Functions(spec), Constants(spec);
    NamesNoneOfRank(ps, 2);
    NamesNoneOfRank(fs, 2);
    NamesAllOfRank(cs, 2);
    assert Names(cs) == seq(|spec.constants|, k requires 0 <= k < |spec.constants| => spec.constants[k].name);
    hide *;
    NamesOfRankGroups(spec, 2);
  }

  /** With the repository's parser: the members exist exactly when the
      function and procedure scans both succeed, and there is one member
      per declaration and per matched constant. */
  lemma WithPlSqlParser(source: string)
    ensures PackageMembers(GetPackageMembers, source).Success?
        <==> GetFunctions(source).Success? && GetProcedures(source).Success?
    ensures PackageMembers(GetPackageMembers, source).Success? ==>
      |PackageMembers(GetPackageMembers, source).value|
        == |GetProcedures(source).value| + |GetFunctions(source).value| + |GetConstants(source)|
  {
  }
}
