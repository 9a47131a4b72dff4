/**
 What the comment remover does to a text, from the shape of the text alone: how
 comments and literals begin and end, and what is left of each. Together the
 laws say what becomes of any text, one comment or literal after another.
 */
module CommentText {
  import opened Common
  import opened Comments

  function Spaces(n: nat): (s: string)
    ensures |s| == n && forall k :: 0 <= k < n ==> s[k] == ' '
  {
    seq(n, _ => ' ')
  }

  /** No quote and no slash. */
  predicate Plain(s: string) {
    forall k :: 0 <= k < |s| ==> s[k] != '\'' && s[k] != '"' && s[k] != '/'
  }

  /** No two adjacent characters close a block comment. */
  predicate NoClose(s: string) {
    forall k :: 0 <= k < |s| - 1 ==> !(s[k] == '*' && s[k + 1] == '/')
  }

  /** The inside of a string literal: plain characters, and pairs that start with a backslash. */
  predicate Escapes(s: string) {
    || s == []
    || (s[0] != '"' && s[0] != '\\' && Escapes(s[1..]))
    || (s[0] == '\\' && 2 <= |s| && Escapes(s[2..]))
  }

  /** The inside of a character constant; an escaped quote can only come first. */
  predicate Constant(s: string) {
    || ('\'' !in s && s != "\\")
    || (2 <= |s| && s[0] == '\\' && s[1] == '\'' && '\'' !in s[2..])
  }

  // ----- a scan does not depend on what lies before it

  function Moved(m: Mode, d: nat): Mode
    requires d <= Low(m, d)
  {
    match m
    case Code => Code
    case Single(st) => Single(st - d)
    case Double(st) => Double(st - d)
    case Line(st) => Line(st - d)
    case Block(st) => Block(st - d)
  }

  lemma {:induction false} MovedBackslashes(s: seq<char>, d: nat, st: nat, k: nat)
    requires d <= st < k <= |s| && s[st] == '"'
    ensures OddBackslashes(s, k) == OddBackslashes(s[d..], k - d)
  {
    if st + 1 < k {
      MovedBackslashes(s, d, st, k - 1);
    } else {
      assert s[d..][k - 1 - d] == s[st];
    }
  }

  lemma MovedStep(s: seq<char>, d: nat, i: nat, m: Mode)
    requires d <= i < |s| && ModeOk(s, i, m) && d <= Low(m, d)
    ensures var mv, mv' := Step(s, i, m), Step(s[d..], i - d, Moved(m, d));
            && d <= mv.next && d <= Low(mv.mode, d) && mv'.next == mv.next - d && mv'.mode == Moved(mv.mode, d)
            && (mv.lo < mv.hi <==> mv'.lo < mv'.hi)
            && (mv.lo < mv.hi ==> d <= mv.lo && mv'.lo == mv.lo - d && mv'.hi == mv.hi - d)
  {
    var t := s[d..];
    assert t[i - d] == s[i] && CharAt(t, i - d + 1) == CharAt(s, i + 1);
    if m.Double? { MovedBackslashes(s, d, m.start, i); }
    if m.Line? { assert t[i - d - 1] == s[i - 1]; }
    if m.Single? && i == m.start + 2 { assert t[m.start + 1 - d] == s[m.start + 1]; }
  }

  lemma NextWithin(s: seq<char>, i: nat, m: Mode)
    requires i < |s|
    ensures i < Step(s, i, m).next <= |s|
  {
  }

  lemma {:induction false} MovedErases(s: seq<char>, d: nat, i: nat, m: Mode, k: nat)
    requires d <= i <= |s| && ModeOk(s, i, m) && d <= Low(m, d) && d <= k
    ensures Erases(s, i, m, k) <==> Erases(s[d..], i - d, Moved(m, d), k - d)
    decreases |s| - i
  {
    if i < |s| {
      hide Step, ModeOk;
      MovedStep(s, d, i, m);
      StepOk(s, i, m);
      var mv := Step(s, i, m);
      NextWithin(s, i, m);
      MovedErases(s, d, mv.next, mv.mode, k);
    }
  }

  /** From code on, a text is cleaned as if it began there. */
  lemma Afterwards(s: seq<char>, d: nat, k: nat)
    requires d <= |s|
    ensures Erases(s, d, Code, k) <==> d <= k && Erases(s[d..], 0, Code, k - d)
  {
    if d <= k {
      MovedErases(s, d, d, Code, k);
    } else {
      LiteralKept(s, d, Code, k);
    }
  }

  // ----- stretches of text in one mode

  lemma {:induction false} PlainRun(s: seq<char>, i: nat, j: nat, k: nat)
    requires i <= j <= |s| && Plain(s[i..j])
    ensures Erases(s, i, Code, k) <==> Erases(s, j, Code, k)
    decreases j - i
  {
    if i < j {
      assert s[i] == s[i..j][0] && s[i + 1..j] == s[i..j][1..];
      PlainRun(s, i + 1, j, k);
    }
  }

  lemma {:induction false} LineRun(s: seq<char>, i: nat, j: nat, st: nat, k: nat)
    requires i <= j <= |s| && '\n' !in s[i..j]
    ensures Erases(s, i, Line(st), k) <==> Erases(s, j, Line(st), k)
    decreases j - i
  {
    if i < j {
      assert s[i] == s[i..j][0] && s[i + 1..j] == s[i..j][1..];
      LineRun(s, i + 1, j, st, k);
    }
  }

  lemma {:induction false} BlockRun(s: seq<char>, i: nat, j: nat, st: nat, k: nat)
    requires i <= j <= |s| && forall p :: i <= p < j ==> !(s[p] == '*' && CharAt(s, p + 1) == '/')
    ensures Erases(s, i, Block(st), k) <==> Erases(s, j, Block(st), k)
    decreases j - i
  {
    if i < j {
      BlockRun(s, i + 1, j, st, k);
    }
  }

  lemma {:induction false} SingleRun(s: seq<char>, i: nat, j: nat, st: nat, k: nat)
    requires i <= j <= |s| && '\'' !in s[i..j]
    ensures Erases(s, i, Single(st), k) <==> Erases(s, j, Single(st), k)
    decreases j - i
  {
    if i < j {
      assert s[i] == s[i..j][0] && s[i + 1..j] == s[i..j][1..];
      SingleRun(s, i + 1, j, st, k);
    }
  }

  /** After whole pairs, an even number of backslashes precedes. */
  lemma {:induction false} StringRun(s: seq<char>, i: nat, j: nat, st: nat, k: nat)
    requires i <= j <= |s| && Escapes(s[i..j]) && !OddBackslashes(s, i)
    ensures Erases(s, i, Double(st), k) <==> Erases(s, j, Double(st), k)
    ensures !OddBackslashes(s, j)
    decreases j - i
  {
    if i < j {
      assert s[i] == s[i..j][0];
      if s[i] == '\\' {
        assert s[i + 2..j] == s[i..j][2..];
        StringRun(s, i + 2, j, st, k);
      } else {
        assert s[i + 1..j] == s[i..j][1..];
        StringRun(s, i + 1, j, st, k);
      }
    }
  }

  // ----- the laws

  /** The scan blanks `lo` to `hi` on its way to `n`, where it is in code again. */
  ghost predicate Blanks(s: seq<char>, lo: nat, hi: nat, n: nat) {
    forall k: nat :: Erases(s, 0, Code, k) <==> lo <= k < hi || Erases(s, n, Code, k)
  }

  lemma Assemble(s: seq<char>, lo: nat, hi: nat, n: nat)
    requires lo <= hi <= n <= |s| && Blanks(s, lo, hi, n)
    ensures Clean(s) == s[..lo] + Spaces(hi - lo) + s[hi..n] + Clean(s[n..])
  {
    var t := s[..lo] + Spaces(hi - lo) + s[hi..n] + Clean(s[n..]);
    forall k | 0 <= k < |s| ensures Clean(s)[k] == t[k] {
      Afterwards(s, n, k);
      hide Erases;
    }
  }

  /** Where the scan is after a plain text that is followed by a quote or a slash. */
  lemma AfterPlain(s: seq<char>, pre: string, k: nat)
    requires Plain(pre) && pre <= s
    ensures Erases(s, 0, Code, k) <==> Erases(s, |pre|, Code, k)
  {
    assert s[0..|pre|] == pre;
    PlainRun(s, 0, |pre|, k);
  }

  /** A text without quotes and slashes is kept. */
  lemma PlainText(pre: string)
    requires Plain(pre)
    ensures Clean(pre) == pre
  {
    var n := |pre|;
    forall k: nat ensures Erases(pre, 0, Code, k) <==> n <= k < n || Erases(pre, n, Code, k) {
      AfterPlain(pre, pre, k);
    }
    Assemble(pre, n, n, n);
  }

  /** A slash that starts no comment is kept. */
  lemma LoneSlash(pre: string, post: string)
    requires Plain(pre) && CharAt(post, 0) != '/' && CharAt(post, 0) != '*'
    ensures Clean(pre + "/" + post) == pre + "/" + Clean(post)
  {
    var s, n := pre + "/" + post, |pre|;
    assert s[n] == '/' && CharAt(s, n + 1) == CharAt(post, 0) && s[n + 1..] == post;
    forall k: nat ensures Erases(s, 0, Code, k) <==> n + 1 <= k < n + 1 || Erases(s, n + 1, Code, k) {
      AfterPlain(s, pre, k);
    }
    Assemble(s, n + 1, n + 1, n + 1);
    assert s[..n + 1] == pre + "/";
  }

  /** What becomes of a line comment: spaces, except for a carriage return before the newline. */
  function LineLeft(body: string): string {
    if body != [] && body[|body| - 1] == '\r' then Spaces(|body| + 1) + "\r" else Spaces(|body| + 2)
  }

  lemma LineScan(s: seq<char>, pre: string, e: nat, hi: nat)
    requires Plain(pre) && pre <= s && |pre| + 2 <= e < |s| && s[|pre|] == s[|pre| + 1] == '/'
    requires '\n' !in s[|pre| + 2..e] && s[e] == '\n' && hi == if s[e - 1] == '\r' then e - 1 else e
    ensures Blanks(s, |pre|, hi, e + 1)
  {
    var n := |pre|;
    forall k: nat ensures Erases(s, 0, Code, k) <==> n <= k < hi || Erases(s, e + 1, Code, k) {
      AfterPlain(s, pre, k);
      LineRun(s, n + 2, e, n, k);
    }
  }

  lemma LineComment(pre: string, body: string, post: string)
    requires Plain(pre) && '\n' !in body
    ensures Clean(pre + "//" + body + "\n" + post) == pre + LineLeft(body) + "\n" + Clean(post)
  {
    var s, n, e := pre + "//" + body + "\n" + post, |pre|, |pre| + 2 + |body|;
    assert s[n] == '/' && s[n + 1] == '/' && s[n + 2..e] == body && s[e] == '\n' && s[e + 1..] == post;
    assert body != [] ==> s[e - 1] == body[|body| - 1];
    var hi := if s[e - 1] == '\r' then e - 1 else e;
    hide Blanks, Clean;
    LineScan(s, pre, e, hi);
    Assemble(s, n, hi, e + 1);
    assert s[..n] == pre && Spaces(hi - n) + s[hi..e + 1] == LineLeft(body) + "\n";
  }

  /** A line comment that the text ends in. */
  lemma LastLine(pre: string, body: string)
    requires Plain(pre) && '\n' !in body
    ensures Clean(pre + "//" + body) == pre + Spaces(|body| + 2)
  {
    var s, n, e := pre + "//" + body, |pre|, |pre| + 2 + |body|;
    assert s[n] == '/' && s[n + 1] == '/' && s[n + 2..e] == body;
    forall k: nat ensures Erases(s, 0, Code, k) <==> n <= k < e || Erases(s, e, Code, k) {
      AfterPlain(s, pre, k);
      LineRun(s, n + 2, e, n, k);
    }
    Assemble(s, n, e, e);
    assert s[..n] == pre;
  }

  lemma BlockScan(s: seq<char>, pre: string, e: nat)
    requires Plain(pre) && pre <= s && |pre| + 2 <= e < |s| - 1 && s[|pre|] == '/' && s[|pre| + 1] == '*'
    requires forall p :: |pre| + 2 <= p < e ==> !(s[p] == '*' && s[p + 1] == '/')
    requires s[e] == '*' && s[e + 1] == '/'
    ensures Blanks(s, |pre|, e + 2, e + 2)
  {
    var n := |pre|;
    forall k: nat ensures Erases(s, 0, Code, k) <==> n <= k < e + 2 || Erases(s, e + 2, Code, k) {
      AfterPlain(s, pre, k);
      BlockRun(s, n + 2, e, n, k);
    }
  }

  lemma BlockComment(pre: string, body: string, post: string)
    requires Plain(pre) && NoClose(body)
    ensures Clean(pre + "/*" + body + "*/" + post) == pre + Spaces(|body| + 4) + Clean(post)
  {
    var s, n, e := pre + "/*" + body + "*/" + post, |pre|, |pre| + 2 + |body|;
    assert s[n] == '/' && s[n + 1] == '*' && s[e] == '*' && s[e + 1] == '/' && s[e + 2..] == post;
    assert forall p :: n + 2 <= p < e ==> s[p] == body[p - n - 2];
    hide Blanks, Clean;
    BlockScan(s, pre, e);
    Assemble(s, n, e + 2, e + 2);
    assert s[..n] == pre;
  }

  /** A block comment that is not closed is kept, and so is all that follows. */
  lemma OpenBlock(pre: string, body: string)
    requires Plain(pre) && NoClose(body)
    ensures Clean(pre + "/*" + body) == pre + "/*" + body
  {
    var s, n, e := pre + "/*" + body, |pre|, |pre| + 2 + |body|;
    assert s[n] == '/' && s[n + 1] == '*';
    assert forall p :: n + 2 <= p < e ==> s[p] == body[p - n - 2];
    forall k: nat ensures Erases(s, 0, Code, k) <==> e <= k < e || Erases(s, e, Code, k) {
      AfterPlain(s, pre, k);
      BlockRun(s, n + 2, e, n, k);
    }
    Assemble(s, e, e, e);
  }

  lemma StringScan(s: seq<char>, pre: string, e: nat)
    requires Plain(pre) && pre <= s && |pre| + 1 <= e < |s| && s[|pre|] == s[e] == '"'
    requires Escapes(s[|pre| + 1..e])
    ensures Blanks(s, e + 1, e + 1, e + 1)
  {
    var n := |pre|;
    forall k: nat ensures Erases(s, 0, Code, k) <==> e + 1 <= k < e + 1 || Erases(s, e + 1, Code, k) {
      AfterPlain(s, pre, k);
      StringRun(s, n + 1, e, n, k);
    }
  }

  /** A string literal is kept, whatever it contains, and an escaped quote does not end it. */
  lemma StringLiteral(pre: string, lit: string, post: string)
    requires Plain(pre) && Escapes(lit)
    ensures Clean(pre + "\"" + lit + "\"" + post) == pre + "\"" + lit + "\"" + Clean(post)
  {
    var s, n, e := pre + "\"" + lit + "\"" + post, |pre|, |pre| + 1 + |lit|;
    assert s[n] == '"' && s[n + 1..e] == lit && s[e] == '"' && s[e + 1..] == post;
    hide Blanks, Clean, Escapes;
    StringScan(s, pre, e);
    Assemble(s, e + 1, e + 1, e + 1);
    assert s[..e + 1] == pre + "\"" + lit + "\"";
  }

  /** A string literal that is not closed, with or without a lone backslash at the end. */
  lemma OpenString(pre: string, lit: string, end: string)
    requires Plain(pre) && Escapes(lit) && (end == "" || end == "\\")
    ensures Clean(pre + "\"" + lit + end) == pre + "\"" + lit + end
  {
    var s, n, e := pre + "\"" + lit + end, |pre|, |pre| + 1 + |lit|;
    assert s[n] == '"' && s[n + 1..e] == lit;
    forall k: nat ensures Erases(s, 0, Code, k) <==> |s| <= k < |s| || Erases(s, |s|, Code, k) {
      AfterPlain(s, pre, k);
      StringRun(s, n + 1, e, n, k);
    }
    Assemble(s, |s|, |s|, |s|);
  }

  lemma ConstantRun(s: seq<char>, n: nat, e: nat, k: nat)
    requires n < e <= |s| && s[n] == '\''
    requires '\'' !in s[n + 1..e] || (n + 3 <= e && s[n + 1] == '\\' && s[n + 2] == '\'' && '\'' !in s[n + 3..e])
    ensures Erases(s, n, Code, k) <==> Erases(s, e, Single(n), k)
  {
    if '\'' !in s[n + 1..e] {
      SingleRun(s, n + 1, e, n, k);
    } else {
      ErasesStep(s, n, Code, k);
      ErasesStep(s, n + 1, Single(n), k);
      ErasesStep(s, n + 2, Single(n), k);
      SingleRun(s, n + 3, e, n, k);
    }
  }

  /** A character constant is kept, `'\''` included, and code follows it. */
  lemma CharConstant(pre: string, lit: string, post: string)
    requires Plain(pre) && Constant(lit)
    ensures Clean(pre + "'" + lit + "'" + post) == pre + "'" + lit + "'" + Clean(post)
  {
    var s, n, e := pre + "'" + lit + "'" + post, |pre|, |pre| + 1 + |lit|;
    assert s[n] == '\'' && s[n + 1..e] == lit && s[e] == '\'' && s[e + 1..] == post;
    assert 2 <= |lit| ==> s[n + 1] == lit[0] && s[n + 2] == lit[1] && s[n + 3..e] == lit[2..];
    assert e == n + 2 ==> lit == [s[n + 1]];
    forall k: nat ensures Erases(s, 0, Code, k) <==> e + 1 <= k < e + 1 || Erases(s, e + 1, Code, k) {
      AfterPlain(s, pre, k);
      ConstantRun(s, n, e, k);
    }
    Assemble(s, e + 1, e + 1, e + 1);
    assert s[..e + 1] == pre + "'" + lit + "'";
  }

  /** A character constant that is not closed is kept, and so is all that follows. */
  lemma OpenConstant(pre: string, lit: string)
    requires Plain(pre)
    requires '\'' !in lit || (2 <= |lit| && lit[0] == '\\' && lit[1] == '\'' && '\'' !in lit[2..])
    ensures Clean(pre + "'" + lit) == pre + "'" + lit
  {
    var s, n, e := pre + "'" + lit, |pre|, |pre| + 1 + |lit|;
    assert s[n] == '\'' && s[n + 1..e] == lit;
    assert 2 <= |lit| ==> s[n + 1] == lit[0] && s[n + 2] == lit[1] && s[n + 3..e] == lit[2..];
    forall k: nat ensures Erases(s, 0, Code, k) <==> e <= k < e || Erases(s, e, Code, k) {
      AfterPlain(s, pre, k);
      ConstantRun(s, n, e, k);
    }
    Assemble(s, e, e, e);
  }
}
