/** Character classes and string operations shared by the parser, the code
    generator and the tnsnames reader. The classes are those of Python 2's
    `re` module without the UNICODE flag, which is how the repository's
    patterns are compiled: `\s` and `\w` are ASCII-only and `re.I` folds
    ASCII letters only. */
module Text {
  import opened Wrappers

  /** `\s`: space, tab, newline, carriage return, vertical tab, form feed. */
  predicate IsSpace(c: char) {
    c == ' ' || c == '\t' || c == '\n' || c == '\r' || c == '\U{000B}' || c == '\U{000C}'
  }

  predicate IsUpper(c: char) { 'A' <= c <= 'Z' }

  /** `\w`: ASCII letters, digits and the underscore. */
  predicate IsWord(c: char) {
    'a' <= c <= 'z' || IsUpper(c) || '0' <= c <= '9' || c == '_'
  }

  /** The character classes that the repository's patterns repeat with `*` or `+`. */
  datatype CharClass =
    | Blank     // \s
    | WordChar  // \w
    | TypeChar  // [\w\(\)], the constant type pattern

  predicate InClass(c: char, cls: CharClass) {
    match cls
    case Blank => IsSpace(c)
    case WordChar => IsWord(c)
    case TypeChar => IsWord(c) || c == '(' || c == ')'
  }

  predicate AllIn(s: string, cls: CharClass) {
    forall k :: 0 <= k < |s| ==> InClass(s[k], cls)
  }

  /** End of the longest run of `cls` characters starting at `i`: where a
      greedy `cls*` starting at `i` stops. */
  function RunEnd(s: string, i: nat, cls: CharClass): (j: nat)
    requires i <= |s|
    ensures i <= j <= |s|
    ensures j == |s| || !InClass(s[j], cls)
    decreases |s| - i
  {
    if i == |s| || !InClass(s[i], cls) then i else RunEnd(s, i + 1, cls)
  }

  /** Every character the run passes over is of the class. */
  lemma {:induction false} RunEndSpan(s: string, i: nat, cls: CharClass)
    requires i <= |s|
    ensures forall k :: i <= k < RunEnd(s, i, cls) ==> InClass(s[k], cls)
    decreases |s| - i
  {
    if i < |s| && InClass(s[i], cls) {
      RunEndSpan(s, i + 1, cls);
    }
  }

  /** Any stretch from the start of a run is all of the class. */
  lemma RunAllIn(s: string, i: nat, j: nat, cls: CharClass)
    requires i <= j <= |s| && j <= RunEnd(s, i, cls)
    ensures AllIn(s[i..j], cls)
  {
    RunEndSpan(s, i, cls);
    forall k | 0 <= k < j - i ensures InClass(s[i..j][k], cls) {
      assert s[i..j][k] == s[i + k];
    }
  }

  /** A run is determined by its two ends. */
  lemma {:induction false} RunEndIs(s: string, i: nat, cls: CharClass, j: nat)
    requires i <= j <= |s|
    requires forall k :: i <= k < j ==> InClass(s[k], cls)
    requires j == |s| || !InClass(s[j], cls)
    ensures RunEnd(s, i, cls) == j
    decreases j - i
  {
    if i < j {
      assert InClass(s[i], cls);
      RunEndIs(s, i + 1, cls, j);
    }
  }

  /** ASCII lower-casing, as `re.I` and `str.lower` do on a byte string. */
  function Lower(c: char): (d: char)
    ensures !IsUpper(d)
    ensures !IsUpper(c) ==> d == c
    ensures IsWord(c) <==> IsWord(d)
  {
    if IsUpper(c) then (c as int + 32) as char else c
  }

  function LowerStr(s: string): (r: string)
    ensures |r| == |s|
    ensures forall k :: 0 <= k < |s| ==> r[k] == Lower(s[k])
  {
    seq(|s|, k requires 0 <= k < |s| => Lower(s[k]))
  }

  /** `lit` occurs at position `i` of `s`, character for character. */
  predicate HasAt(s: string, i: nat, lit: string) {
    i + |lit| <= |s| && s[i..i + |lit|] == lit
  }

  /** `a` equals `lit` (written in lower case) when ASCII case is ignored. */
  predicate EqualsNoCase(a: string, lit: string)
    decreases |lit|
  {
    |a| == |lit| && (|a| == 0 || (Lower(a[0]) == lit[0] && EqualsNoCase(a[1..], lit[1..])))
  }

  /** `lit` (written in lower case) occurs at position `i` of `s` when
      ASCII case is ignored, as a pattern compiled with `re.I` sees it. */
  predicate HasAtNoCase(s: string, i: nat, lit: string) {
    i + |lit| <= |s| && EqualsNoCase(s[i..i + |lit|], lit)
  }

  /** A case-blind occurrence survives cutting the text around it. */
  lemma HasAtNoCaseSlice(s: string, i: nat, lit: string, j: nat)
    requires HasAtNoCase(s, i, lit)
    requires i + |lit| <= j <= |s|
    ensures HasAtNoCase(s[i..j], 0, lit)
  {
    assert s[i..j][0..|lit|] == s[i..i + |lit|];
  }

  ghost predicate ContainsNoCase(s: string, lit: string) {
    exists i: nat :: HasAtNoCase(s, i, lit)
  }

  /** The first position at or after `i` where `lit` occurs, ignoring case. */
  function FindNoCase(s: string, i: nat, lit: string): (r: Option<nat>)
    ensures r.Some? ==> i <= r.value && HasAtNoCase(s, r.value, lit)
    ensures r.Some? ==> forall q: nat :: i <= q < r.value ==> !HasAtNoCase(s, q, lit)
    ensures r.None? ==> forall q: nat :: i <= q ==> !HasAtNoCase(s, q, lit)
    decreases if i <= |s| then |s| + 1 - i else 0
  {
    if i > |s| then None
    else if HasAtNoCase(s, i, lit) then Some(i)
    else FindNoCase(s, i + 1, lit)
  }

  /** The first position at or after `i` holding `c`. */
  function FindChar(s: string, i: nat, c: char): (r: Option<nat>)
    ensures r.Some? ==> i <= r.value < |s| && s[r.value] == c
    ensures r.Some? ==> forall q :: i <= q < r.value ==> s[q] != c
    ensures r.None? ==> forall q :: i <= q < |s| ==> s[q] != c
    decreases if i <= |s| then |s| - i else 0
  {
    if i >= |s| then None
    else if s[i] == c then Some(i)
    else FindChar(s, i + 1, c)
  }

  /** The first position at or after `i` where `lit` occurs exactly. */
  function Find(s: string, i: nat, lit: string): (r: Option<nat>)
    ensures r.Some? ==> i <= r.value && HasAt(s, r.value, lit)
    ensures r.Some? ==> forall q: nat :: i <= q < r.value ==> !HasAt(s, q, lit)
    ensures r.None? ==> forall q: nat :: i <= q ==> !HasAt(s, q, lit)
    decreases if i <= |s| then |s| + 1 - i else 0
  {
    if i > |s| then None
    else if HasAt(s, i, lit) then Some(i)
    else Find(s, i + 1, lit)
  }

  /** The last position at or after `i` holding `c`. */
  function LastIndexFrom(s: string, i: nat, c: char): (r: Option<nat>)
    requires i <= |s|
    ensures r.Some? ==> i <= r.value < |s| && s[r.value] == c
    ensures r.Some? ==> forall q :: r.value < q < |s| ==> s[q] != c
    ensures r.None? ==> forall q :: i <= q < |s| ==> s[q] != c
    decreases |s| - i
  {
    if i == |s| then None
    else
      match LastIndexFrom(s, i + 1, c)
      case Some(q) => Some(q)
      case None => if s[i] == c then Some(i) else None
  }

  /** Number of occurrences of `c` in `s`. */
  function Count(s: string, c: char): nat {
    if |s| == 0 then 0 else (if s[0] == c then 1 else 0) + Count(s[1..], c)
  }

  /** `sep.join(parts)`. */
  function Join(parts: seq<string>, sep: char): string
    requires |parts| > 0
  {
    if |parts| == 1 then parts[0] else parts[0] + [sep] + Join(parts[1..], sep)
  }

  /** `''.join(parts)`. */
  function Concat(parts: seq<string>): string {
    if |parts| == 0 then "" else parts[0] + Concat(parts[1..])
  }

  /** `s.split(sep)` for a one-character separator: every separator cuts,
      so empty pieces are kept and there is one piece more than separators. */
  function Split(s: string, sep: char): (r: seq<string>)
    ensures |r| == Count(s, sep) + 1
    ensures forall k :: 0 <= k < |r| ==> sep !in r[k]
  {
    if |s| == 0 then [""]
    else
      var rest := Split(s[1..], sep);
      if s[0] == sep then [""] + rest else [[s[0]] + rest[0]] + rest[1..]
  }

  /** Splitting and joining with the same separator gives the text back. */
  lemma {:induction false} JoinSplit(s: string, sep: char)
    ensures Join(Split(s, sep), sep) == s
  {
    if |s| > 0 {
      var rest := Split(s[1..], sep);
      JoinSplit(s[1..], sep);
      if s[0] == sep {
        assert Split(s, sep) == [""] + rest;
        assert Join([""] + rest, sep) == "" + [sep] + Join(rest, sep) by {
          assert ([""] + rest)[1..] == rest;
        }
        assert s == [s[0]] + s[1..];
      } else {
        var r := [[s[0]] + rest[0]] + rest[1..];
        assert Split(s, sep) == r;
        if |rest| == 1 {
          assert Join(r, sep) == [s[0]] + rest[0];
        } else {
          assert r[1..] == rest[1..];
          assert Join(r, sep) == [s[0]] + rest[0] + [sep] + Join(rest[1..], sep);
          assert Join(rest, sep) == rest[0] + [sep] + Join(rest[1..], sep);
        }
        assert s == [s[0]] + s[1..];
      }
    }
  }

  /** A text without the separator is a single piece. */
  lemma {:induction false} SplitNoSep(s: string, sep: char)
    requires sep !in s
    ensures Split(s, sep) == [s]
  {
    if |s| > 0 {
      SplitNoSep(s[1..], sep);
      assert s == [s[0]] + s[1..];
    }
  }

  /** The first separator ends the first piece. */
  lemma {:induction false} SplitAppend(a: string, b: string, sep: char)
    requires sep !in a
    ensures Split(a + [sep] + b, sep) == [a] + Split(b, sep)
  {
    if |a| == 0 {
      assert a + [sep] + b == [sep] + b;
      assert ([sep] + b)[1..] == b;
    } else {
      SplitAppend(a[1..], b, sep);
      assert (a + [sep] + b)[1..] == a[1..] + [sep] + b;
      assert a == [a[0]] + a[1..];
    }
  }

  /** Joining pieces that hold no separator and splitting again gives the
      pieces back: the other half of `JoinSplit`. */
  lemma {:induction false} SplitJoin(parts: seq<string>, sep: char)
    requires |parts| > 0
    requires forall k :: 0 <= k < |parts| ==> sep !in parts[k]
    ensures Split(Join(parts, sep), sep) == parts
    decreases |parts|
  {
    if |parts| == 1 {
      SplitNoSep(parts[0], sep);
    } else {
      SplitJoin(parts[1..], sep);
      SplitAppend(parts[0], Join(parts[1..], sep), sep);
      assert parts == [parts[0]] + parts[1..];
    }
  }

  /** Joining one more part adds the separator and the part at the end. */
  lemma {:induction false} JoinSnoc(parts: seq<string>, x: string, sep: char)
    requires |parts| > 0
    ensures Join(parts + [x], sep) == Join(parts, sep) + [sep] + x
    decreases |parts|
  {
    if |parts| > 1 {
      JoinSnoc(parts[1..], x, sep);
      assert (parts + [x])[1..] == parts[1..] + [x];
    }
  }

  /** A character that is neither the separator nor in any piece is not
      in the joined text. */
  lemma {:induction false} JoinAvoids(parts: seq<string>, sep: char, c: char)
    requires |parts| > 0 && c != sep
    requires forall k :: 0 <= k < |parts| ==> c !in parts[k]
    ensures c !in Join(parts, sep)
    decreases |parts|
  {
    if |parts| > 1 {
      JoinAvoids(parts[1..], sep, c);
    }
  }

  /** `s.replace(c, '')`: every occurrence of `c` deleted, nothing else touched. */
  function RemoveChar(s: string, c: char): (r: string)
    ensures c !in r
    ensures forall x :: x in r <==> x in s && x != c
    ensures |r| == |s| - Count(s, c)
  {
    if |s| == 0 then "" else (if s[0] == c then "" else [s[0]]) + RemoveChar(s[1..], c)
  }

  /** Deleting a character that does not occur changes nothing. */
  lemma {:induction false} RemoveAbsentChar(s: string, c: char)
    requires c !in s
    ensures RemoveChar(s, c) == s
  {
    if |s| > 0 {
      RemoveAbsentChar(s[1..], c);
      assert s == [s[0]] + s[1..];
    }
  }

  /** Deletion distributes over concatenation. */
  lemma {:induction false} RemoveCharAppend(a: string, b: string, c: char)
    ensures RemoveChar(a + b, c) == RemoveChar(a, c) + RemoveChar(b, c)
  {
    if |a| > 0 {
      RemoveCharAppend(a[1..], b, c);
      assert (a + b)[1..] == a[1..] + b;
    } else {
      assert a + b == b;
    }
  }

  /** `s.lstrip(' ')`. */
  function StripLeft(s: string): (r: string)
    ensures |r| <= |s| && r == s[|s| - |r|..]
    ensures forall k :: 0 <= k < |s| - |r| ==> s[k] == ' '
    ensures |r| == 0 || r[0] != ' '
  {
    if |s| > 0 && s[0] == ' ' then StripLeft(s[1..]) else s
  }

  /** `s.rstrip(' ')`. */
  function StripRight(s: string): (r: string)
    ensures |r| <= |s| && r == s[..|r|]
    ensures forall k :: |r| <= k < |s| ==> s[k] == ' '
    ensures |r| == 0 || r[|r| - 1] != ' '
  {
    if |s| > 0 && s[|s| - 1] == ' ' then StripRight(s[..|s| - 1]) else s
  }

  /** `s.strip(' ')`: spaces (only the space character) removed at both ends. */
  function Strip(s: string): (r: string)
    ensures |r| == 0 || (r[0] != ' ' && r[|r| - 1] != ' ')
  {
    StripRight(StripLeft(s))
  }

  /** What `strip` keeps is a piece of the text. */
  lemma StripKeeps(s: string, c: char)
    requires c !in s
    ensures c !in Strip(s)
  {
    var l := StripLeft(s);
    var r := StripRight(l);
    assert r == s[|s| - |l|..|s| - |l| + |r|];
    forall k | 0 <= k < |r| ensures r[k] != c {
      assert r[k] == s[|s| - |l| + k];
    }
  }

  /** `strip(' ')` leaves a text without edge spaces alone, and removes
      one leading space from it. */
  lemma StripTrimmed(s: string)
    requires |s| > 0 && s[0] != ' ' && s[|s| - 1] != ' '
    ensures Strip(s) == s && Strip(" " + s) == s
  {
    var u := " " + s;
    assert u[0] == ' ' && u[1..] == s;
    assert StripLeft(u) == StripLeft(s);
    assert StripLeft(s) == s;
    assert StripRight(s) == s;
  }

  /** `s.replace(pat, rep)`: leftmost, non-overlapping occurrences replaced. */
  function Replace(s: string, pat: string, rep: string): (r: string)
    requires |pat| > 0
    decreases |s|
  {
    if |s| < |pat| then s
    else if s[..|pat|] == pat then rep + Replace(s[|pat|..], pat, rep)
    else [s[0]] + Replace(s[1..], pat, rep)
  }

  /** With no occurrence of the pattern, nothing is replaced. */
  lemma {:induction false} ReplaceAbsent(s: string, pat: string, rep: string)
    requires |pat| > 0 && forall q: nat :: !HasAt(s, q, pat)
    ensures Replace(s, pat, rep) == s
    decreases |s|
  {
    if |s| >= |pat| {
      assert !HasAt(s, 0, pat);
      forall q: nat ensures !HasAt(s[1..], q, pat) {
        if q + |pat| <= |s[1..]| {
          assert !HasAt(s, q + 1, pat);
          assert s[1..][q..q + |pat|] == s[q + 1..q + 1 + |pat|];
        }
      }
      ReplaceAbsent(s[1..], pat, rep);
      assert [s[0]] + s[1..] == s;
    }
  }


  predicate StartsWith(s: string, prefix: string) {
    |prefix| <= |s| && s[..|prefix|] == prefix
  }

  /** Python's `a in b` for two strings: `a` is a contiguous piece of `b`. */
  predicate IsSubstring(a: string, b: string) {
    exists i: nat :: i <= |b| && HasAt(b, i, a)
  }
}
