/** `TnsOra` (plsql/dbgate.py): reading service descriptions out of the
    lines of a `tnsnames.ora` file, looking one up by name, and the
    connection string built from it.

    `initialize` is a loop over the file's lines with three variables —
    whether a service has begun, the body lines collected so far, and
    the current service's name — and the map of services found. Here the
    loop is a fold of one step function over the lines; finding and
    opening the file is left to the caller. */
module TnsNames {
  import opened Wrappers
  import opened Text

  datatype TnsError = SIDNotFound(sid: string)

  /** The loop's variables: `service_begin`, `service`, `service_name`,
      and `self.services`. */
  datatype TnsState = TnsState(begun: bool, body: seq<string>, name: string, services: map<string, string>)

  const Start: TnsState := TnsState(false, [], "", map[])

  /** `re.match('^#', line) or re.match('\n', line)`: a comment, or an
      empty line (one that is only its newline). */
  predicate Skipped(line: string) {
    StartsWith(line, "#") || StartsWith(line, "\n")
  }

  /** `line.replace('\n', '')`. */
  function Clean(line: string): string {
    RemoveChar(line, '\n')
  }

  /** `re.match('\s*(\w+)\s*=', line).group(1)`: the word at the start of
      the line, after blanks, when blanks and `=` follow it. A shorter
      word would leave a word character where `\s*=` needs a blank or
      `=`, so the word is the whole run. */
  function HeaderName(line: string): (r: Option<string>)
    ensures r.Some? ==> |r.value| > 0 && AllIn(r.value, WordChar)
    ensures r.Some? ==> '=' in line
  {
    var a := RunEnd(line, 0, Blank);
    var b := RunEnd(line, a, WordChar);
    if b == a then None
    else
      var c := RunEnd(line, b, Blank);
      if c < |line| && line[c] == '=' then
        RunAllIn(line, a, b, WordChar);
        Some(line[a..b])
      else None
  }

  /** `self.services[service_name] = ''.join(service)`, done only when
      the service has at least one body line. */
  function Save(services: map<string, string>, name: string, body: seq<string>): (m: map<string, string>)
    ensures |body| > 0 ==> name in m && m[name] == Concat(body)
    ensures forall k :: k != name ==> (k in m <==> k in services)
    ensures forall k :: k in services && k != name ==> m[k] == services[k]
    ensures |body| == 0 ==> m == services
  {
    if |body| > 0 then services[name := Concat(body)] else services
  }

  /** One pass of the loop body. A header saves the previous service and
      names the next; any other line, once a service has begun, is a body
      line, kept without its newline. */
  function Step(st: TnsState, line: string): (r: TnsState)
    ensures st.begun ==> r.begun
    ensures !r.begun ==> r == st
    ensures r.services == st.services || r.services == Save(st.services, st.name, st.body)
    ensures r.body == [] || r.body == st.body || r.body == st.body + [Clean(line)]
  {
    if Skipped(line) then st
    else
      var l := Clean(line);
      match HeaderName(l)
      case Some(n) => TnsState(true, [], n, Save(st.services, st.name, st.body))
      case None => if st.begun then st.(body := st.body + [l]) else st
  }

  function Fold(st: TnsState, lines: seq<string>): TnsState
    decreases |lines|
  {
    if |lines| == 0 then st else Fold(Step(st, lines[0]), lines[1..])
  }

  /** `initialize` on the file's lines: the fold, then the last service
      saved. */
  function Initialize(lines: seq<string>): map<string, string> {
    var st := Fold(Start, lines);
    Save(st.services, st.name, st.body)
  }

  /** The loop as the source writes it, with the fold as its invariant. */
  method InitializeLoop(lines: seq<string>) returns (services: map<string, string>)
    ensures services == Initialize(lines)
  {
    var begun, body, name := false, [], "";
    services := map[];
    for i := 0 to |lines|
      invariant Fold(TnsState(begun, body, name, services), lines[i..]) == Fold(Start, lines)
    {
      var line := lines[i];
      assert lines[i..] == [line] + lines[i + 1..];
      if Skipped(line) {
        continue;
      }
      line := Clean(line);
      var header := HeaderName(line);
      if header.Some? {
        begun := true;
        if |body| > 0 {
          services := services[name := Concat(body)];
          body := [];
        }
        name := header.value;
      } else if begun {
        body := body + [line];
      }
    }
    assert lines[|lines|..] == [];
    if |body| > 0 {
      services := services[name := Concat(body)];
    }
  }

  /** `get`: the stored description, or `SIDNotFound`. */
  function Get(services: map<string, string>, sid: string): (r: Result<string, TnsError>)
    ensures r.Success? <==> sid in services
    ensures r.Success? ==> r.value == services[sid]
    ensures r.Failure? ==> r.error == SIDNotFound(sid)
  {
    if sid in services then Success(services[sid]) else Failure(SIDNotFound(sid))
  }

  /** `"{0}/{1}@{2}".format(login, password, service_description)`. */
  function ConnectString(login: string, password: string, description: string): (r: string)
    ensures |r| == |login| + |password| + |description| + 2
  {
    login + "/" + password + "@" + description
  }

  /** The connection string `OraConnection.connect` opens for `sid`, with
      the file's lines given. */
  function Connect(lines: seq<string>, sid: string, login: string, password: string): (r: Result<string, TnsError>)
    ensures r.Success? <==> sid in Initialize(lines)
    ensures r.Success? ==> r.value == ConnectString(login, password, Initialize(lines)[sid])
  {
    var description :- Get(Initialize(lines), sid);
    Success(ConnectString(login, password, description))
  }

  // ---------------------------------------------------------------------
  // The fold
  // ---------------------------------------------------------------------

  lemma {:induction false} FoldAppend(st: TnsState, a: seq<string>, b: seq<string>)
    ensures Fold(st, a + b) == Fold(Fold(st, a), b)
    decreases |a|
  {
    if |a| > 0 {
      FoldAppend(Step(st, a[0]), a[1..], b);
      assert (a + b)[1..] == a[1..] + b;
    } else {
      assert a + b == b;
    }
  }

  /** A comment or empty line anywhere in the file changes nothing. */
  lemma SkippedLineIgnored(a: seq<string>, line: string, b: seq<string>)
    requires Skipped(line)
    ensures Initialize(a + [line] + b) == Initialize(a + b)
  {
    FoldAppend(Start, a + [line], b);
    FoldAppend(Start, a, [line]);
    FoldAppend(Start, a, b);
  }

  /** A line that is neither skipped nor a header. */
  predicate BodyLine(line: string) {
    !Skipped(line) && HeaderName(Clean(line)).None?
  }

  /** Before any header, body lines leave the state as it is. */
  lemma {:induction false} UnbegunIgnoresBody(st: TnsState, lines: seq<string>)
    requires !st.begun
    requires forall k :: 0 <= k < |lines| ==> BodyLine(lines[k]) || Skipped(lines[k])
    ensures Fold(st, lines) == st
    decreases |lines|
  {
    if |lines| > 0 {
      UnbegunIgnoresBody(st, lines[1..]);
    }
  }

  /** Lines before the first header are discarded. */
  lemma JunkBeforeFirstHeader(junk: seq<string>, rest: seq<string>)
    requires forall k :: 0 <= k < |junk| ==> BodyLine(junk[k]) || Skipped(junk[k])
    ensures Initialize(junk + rest) == Initialize(rest)
  {
    FoldAppend(Start, junk, rest);
    UnbegunIgnoresBody(Start, junk);
  }

  /** The newline-free body lines. */
  function CleanAll(lines: seq<string>): (r: seq<string>)
    ensures |r| == |lines|
  {
    seq(|lines|, k requires 0 <= k < |lines| => Clean(lines[k]))
  }

  /** Once a service has begun, body lines are collected in order. */
  lemma {:induction false} BegunCollectsBody(st: TnsState, lines: seq<string>)
    requires st.begun
    requires forall k :: 0 <= k < |lines| ==> BodyLine(lines[k])
    ensures Fold(st, lines) == st.(body := st.body + CleanAll(lines))
    decreases |lines|
  {
    if |lines| > 0 {
      var next := st.(body := st.body + [Clean(lines[0])]);
      BegunCollectsBody(next, lines[1..]);
      assert CleanAll(lines) == [Clean(lines[0])] + CleanAll(lines[1..]);
    } else {
      assert CleanAll(lines) == [];
    }
  }

  // ---------------------------------------------------------------------
  // A file as a list of services
  // ---------------------------------------------------------------------

  /** A service in the file: its header line and the lines after it. */
  datatype Service = Service(header: string, body: seq<string>)

  predicate WellFormedService(s: Service) {
    !Skipped(s.header) && HeaderName(Clean(s.header)).Some?
    && forall k :: 0 <= k < |s.body| ==> BodyLine(s.body[k])
  }

  function ServiceName(s: Service): string
    requires WellFormedService(s)
  {
    HeaderName(Clean(s.header)).value
  }

  /** The lines of a list of services. */
  function Lines(services: seq<Service>): seq<string> {
    if |services| == 0 then []
    else
      var last := services[|services| - 1];
      Lines(services[..|services| - 1]) + ([last.header] + last.body)
  }

  /** What the file should yield: each service with a body, named by its
      header and described by its body lines joined without newlines; a
      later service overrides an earlier one of the same name. */
  function Expected(services: seq<Service>): map<string, string>
    requires forall k :: 0 <= k < |services| ==> WellFormedService(services[k])
  {
    if |services| == 0 then map[]
    else
      var last := services[|services| - 1];
      Save(Expected(services[..|services| - 1]), ServiceName(last), CleanAll(last.body))
  }

  /** The state after the lines of a non-empty list of services: the last
      one is pending, the others are saved. */
  lemma {:induction false} FoldServices(services: seq<Service>)
    requires |services| > 0
    requires forall k :: 0 <= k < |services| ==> WellFormedService(services[k])
    ensures var last := services[|services| - 1];
      Fold(Start, Lines(services))
        == TnsState(true, CleanAll(last.body), ServiceName(last), Expected(services[..|services| - 1]))
    decreases |services|
  {
    var n := |services|;
    var init, last := services[..n - 1], services[n - 1];
    assert Lines(services) == Lines(init) + ([last.header] + last.body);
    assert forall k :: 0 <= k < n - 1 ==> init[k] == services[k];
    var before := Fold(Start, Lines(init));
    assert WellFormedService(last);
    if n == 1 {
      assert Lines(init) == [] && before == Start && Expected(init) == map[];
    }
    hide *;
    FoldAppend(Start, Lines(init), [last.header] + last.body);
    FoldOneService(before, last);
    if n > 1 {
      FoldServices(init);
      SavePending(init);
    }
  }

  /** One service read from any state: the header saves what was pending
      and the body is collected under the new name. */
  lemma FoldOneService(before: TnsState, s: Service)
    requires WellFormedService(s)
    ensures Fold(before, [s.header] + s.body)
      == TnsState(true, CleanAll(s.body), ServiceName(s), Save(before.services, before.name, before.body))
  {
    var afterHeader := Step(before, s.header);
    assert afterHeader == TnsState(true, [], ServiceName(s), Save(before.services, before.name, before.body));
    assert Fold(before, [s.header] + s.body) == Fold(afterHeader, s.body);
    BegunCollectsBody(afterHeader, s.body);
  }

  /** Saving the pending last service of a list gives its expected map. */
  lemma SavePending(services: seq<Service>)
    requires |services| > 0
    requires forall k :: 0 <= k < |services| ==> WellFormedService(services[k])
    ensures var n := |services|;
      Save(Expected(services[..n - 1]), ServiceName(services[n - 1]), CleanAll(services[n - 1].body))
        == Expected(services)
  {
  }

  /** The services `initialize` finds in a file made of well-formed
      services are exactly the expected ones. */
  lemma InitializeServices(services: seq<Service>)
    requires forall k :: 0 <= k < |services| ==> WellFormedService(services[k])
    ensures Initialize(Lines(services)) == Expected(services)
  {
    if |services| > 0 {
      FoldServices(services);
    }
  }

  /** A header with no body before the next header leaves no entry, and
      the next service is read as usual. */
  lemma EmptyServiceDropped(first: Service, second: Service)
    requires WellFormedService(first) && WellFormedService(second)
    requires |first.body| == 0 && |second.body| > 0 && ServiceName(first) != ServiceName(second)
    ensures Initialize(Lines([first, second])) == map[ServiceName(second) := Concat(CleanAll(second.body))]
  {
    TwoServices(first, second);
    assert Expected([first]) == map[];
  }

  /** A later service of the same name replaces the earlier one. */
  lemma DuplicateOverwrites(first: Service, second: Service)
    requires WellFormedService(first) && WellFormedService(second)
    requires |first.body| > 0 && |second.body| > 0 && ServiceName(first) == ServiceName(second)
    ensures Initialize(Lines([first, second])) == map[ServiceName(second) := Concat(CleanAll(second.body))]
  {
    TwoServices(first, second);
    var n := ServiceName(second);
    var m := Expected([first, second]);
    assert m.Keys == {n};
  }

  /** The expected services of a two-service file, one at a time. */
  lemma TwoServices(first: Service, second: Service)
    requires WellFormedService(first) && WellFormedService(second)
    ensures Initialize(Lines([first, second])) == Expected([first, second])
    ensures Expected([first, second]) == Save(Expected([first]), ServiceName(second), CleanAll(second.body))
    ensures Expected([first]) == Save(map[], ServiceName(first), CleanAll(first.body))
  {
    InitializeServices([first, second]);
    assert [first, second][..1] == [first];
    assert [first][..0] == [];
  }

  // ---------------------------------------------------------------------
  // Headers and the connection string
  // ---------------------------------------------------------------------

  /** `NAME =`, with blanks anywhere around the name, is a header for
      `NAME`, whatever follows the `=`. */
  lemma HeaderOf(lead: string, name: string, gap: string, rest: string)
    requires AllIn(lead, Blank) && AllIn(gap, Blank)
    requires |name| > 0 && AllIn(name, WordChar)
    ensures HeaderName(lead + name + gap + "=" + rest) == Some(name)
  {
    var line := lead + name + gap + "=" + rest;
    var a, b, c := |lead|, |lead| + |name|, |lead| + |name| + |gap|;
    assert line[..a] == lead && line[a..b] == name && line[b..c] == gap && line[c] == '=';
    forall k | 0 <= k < a ensures InClass(line[k], Blank) {
      assert line[k] == lead[k];
    }
    assert line[a] == name[0];
    RunEndIs(line, 0, Blank, a);
    forall k | a <= k < b ensures InClass(line[k], WordChar) {
      assert line[k] == name[k - a];
    }
    RunEndIs(line, a, WordChar, b);
    forall k | b <= k < c ensures InClass(line[k], Blank) {
      assert line[k] == gap[k - b];
    }
    RunEndIs(line, b, Blank, c);
  }

  /** A login without `/` and a password without `@`: the connection
      string splits back into login, password and description. */
  lemma ConnectStringReadBack(login: string, password: string, description: string)
    requires '/' !in login && '@' !in password
    ensures var r, p := ConnectString(login, password, description), |login|;
      var q := p + 1 + |password|;
      && FindChar(r, 0, '/') == Some(p)
      && FindChar(r, p + 1, '@') == Some(q)
      && r[..p] == login && r[p + 1..q] == password && r[q + 1..] == description
  {
    var r := ConnectString(login, password, description);
    var p := |login|;
    var q := p + 1 + |password|;
    ConnectStringParts(login, password, description);
    forall k | 0 <= k < p ensures r[k] != '/' {
      assert r[k] == r[..p][k] == login[k];
    }
    forall k | p + 1 <= k < q ensures r[k] != '@' {
      assert r[k] == r[p + 1..q][k - p - 1] == password[k - p - 1];
    }
    hide *;
    FindCharAt(r, 0, '/', p);
    FindCharAt(r, p + 1, '@', q);
  }


  /** Where the login, the separators, the password and the description
      sit in a connection string. */
  lemma ConnectStringParts(login: string, password: string, description: string)
    requires '/' !in login && '@' !in password
    ensures var r := ConnectString(login, password, description);
      var p := |login|;
      var q := p + 1 + |password|;
      && q < |r| && r[p] == '/' && r[q] == '@'
      && r[..p] == login && r[p + 1..q] == password && r[q + 1..] == description
  {
    var r := ConnectString(login, password, description);
    var p := |login|;
    var q := p + 1 + |password|;
    assert r == login + ("/" + (password + ("@" + description)));
    assert r[..p] == login;
    assert r[p + 1..] == password + ("@" + description);
    assert r[p + 1..q] == password;
    assert r[q + 1..] == description;
  }

  /** `FindChar` from `i` gives `j` when `j` holds the character and the
      text between does not. */
  lemma FindCharAt(s: string, i: nat, c: char, j: nat)
    requires i <= j < |s| && s[j] == c
    requires forall k :: i <= k < j ==> s[k] != c
    ensures FindChar(s, i, c) == Some(j)
  {
    match FindChar(s, i, c)
    case None =>
    case Some(x) =>
  }
}
