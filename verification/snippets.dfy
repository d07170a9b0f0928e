/** The Python statements plsql/base.py emits around a call, and the
    triple-quoted templates that lay them out: each template starts with
    a newline, puts every statement on its own line behind an eight-blank
    indent, and ends with a newline and the same indent. */
module Snippets {
  import opened Text

  const Indent: string := "        "

  /** One emitted statement, for an argument called `name`. */
  datatype Stmt =
    | Spacer
    | TempNone(name: string)
    | NewVar(name: string, token: string)
    | SetValue(name: string)
    | Restore(name: string)
    | GetValue(name: string)
    | ReadLob(name: string)
    | WrapCursor(name: string)

  /** The Python text of a statement. */
  function StmtText(s: Stmt): string {
    match s
    case Spacer => ""
    case TempNone(n) => n + "_tmp = None"
    case NewVar(n, token) => n + "_tmp = cursor.var(" + token + ")"
    case SetValue(n) => n + "_tmp.setvalue(0, " + n + ")"
    case Restore(n) => n + " = " + n + "_tmp"
    case GetValue(n) => n + " = " + n + ".getvalue()"
    case ReadLob(n) => n + " = " + n + ".read()"
    case WrapCursor(n) => n + " = Cursor(" + n + ")"
  }

  /** The argument names and the token a statement mentions. */
  predicate Mentions(s: Stmt, c: char) {
    match s
    case Spacer => false
    case NewVar(n, token) => c in n || c in token
    case _ => c in s.name
  }

  /** A statement stays on one line when nothing it mentions holds a newline. */
  lemma StmtOneLine(s: Stmt)
    requires !Mentions(s, '\n')
    ensures '\n' !in StmtText(s)
  {
  }

  /** The indented lines of a template, one per statement. */
  function Indented(stmts: seq<Stmt>): (r: seq<string>)
    ensures |r| == |stmts|
    ensures forall k :: 0 <= k < |stmts| ==> r[k] == Indent + StmtText(stmts[k])
  {
    seq(|stmts|, k requires 0 <= k < |stmts| => Indent + StmtText(stmts[k]))
  }

  /** A triple-quoted template holding `stmts`. */
  function Block(stmts: seq<Stmt>): string {
    "\n" + Join(Indented(stmts) + [Indent], '\n')
  }

  predicate OneLineEach(stmts: seq<Stmt>) {
    forall k :: 0 <= k < |stmts| ==> !Mentions(stmts[k], '\n')
  }

  /** Read back line by line, a template is an empty first line, one
      indented line per statement, and a last line of indent only. */
  lemma BlockLines(stmts: seq<Stmt>)
    requires OneLineEach(stmts)
    ensures Split(Block(stmts), '\n') == [""] + Indented(stmts) + [Indent]
  {
    var parts := Indented(stmts) + [Indent];
    forall k | 0 <= k < |parts| ensures '\n' !in parts[k] {
      if k < |stmts| {
        StmtOneLine(stmts[k]);
      }
    }
    SplitJoin(parts, '\n');
    SplitAppend("", Join(parts, '\n'), '\n');
    assert "" + ['\n'] + Join(parts, '\n') == Block(stmts);
  }

  /** Joining two lists is joining each and the separator between. */
  lemma {:induction false} JoinAppend(p: seq<string>, q: seq<string>, sep: char)
    requires |p| > 0 && |q| > 0
    ensures Join(p + q, sep) == Join(p, sep) + [sep] + Join(q, sep)
    decreases |p|
  {
    if |p| == 1 {
      assert (p + q)[1..] == q;
    } else {
      JoinAppend(p[1..], q, sep);
      assert (p + q)[1..] == p[1..] + q;
    }
  }

  /** The lines of two statement lists with a gap between them. */
  lemma IndentedAppend(a: seq<Stmt>, b: seq<Stmt>)
    ensures Indented(a + [Spacer] + b) + [Indent] == (Indented(a) + [Indent]) + (Indented(b) + [Indent])
  {
    var s := a + [Spacer] + b;
    var l, r := Indented(s) + [Indent], (Indented(a) + [Indent]) + (Indented(b) + [Indent]);
    forall k | 0 <= k < |l| ensures l[k] == r[k] {
      if k < |a| {
        assert s[k] == a[k];
      } else if k == |a| {
        assert Indent + StmtText(Spacer) == Indent;
      } else if k < |s| {
        assert s[k] == b[k - |a| - 1];
      }
    }
    assert l == r;
  }

  /** Two templates written one after the other read as one template with
      an indent-only line between their statements. */
  lemma BlockAppend(a: seq<Stmt>, b: seq<Stmt>)
    ensures Block(a) + Block(b) == Block(a + [Spacer] + b)
  {
    var p, q := Indented(a) + [Indent], Indented(b) + [Indent];
    hide Indented, Join;
    IndentedAppend(a, b);
    JoinAppend(p, q, '\n');
  }
}
