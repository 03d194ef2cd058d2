/**
 What sanitise_line of TP_01/EXO-01/checkpatch.pl does to comments, strings and the rest of a text, position by
 position, and to the two kinds of lines that it masks. Nothing here goes by the machine's states and marks.
 */
module SanitiseMeaning {
  import opened Options
  import opened Sanitise

  // ---------- comments ----------

  /** Up to position `n`, tabs and newlines are kept, and all else is the character that Perl writes as `$;`. */
  ghost predicate BlottedTo(s: string, r: string, n: nat) {
    && n <= |s| && n <= |r|
    && forall i | 0 <= i < n :: r[i] == if s[i] == '\t' || s[i] == '\n' then s[i] else 0x1C as char
  }

  /** The text holds no end of a comment, not even one that the text after it completes. */
  ghost predicate Unclosed(t: string, u: string) {
    && (forall i | 0 <= i < |t| - 1 :: t[i] == '*' ==> t[i + 1] != '/')
    && (t != "" && t[|t| - 1] == '*' ==> !StartsWith(u, '/'))
  }

  /** Within a comment. */
  lemma {:induction false} CommentRuns(t: string, u: string)
    requires Unclosed(t, u)
    ensures BlottedTo(t, Output(Comment, t + u), |t|)
    ensures Output(Comment, t + u)[|t|..] == Output(Comment, u) && Final(Comment, t + u) == Final(Comment, u)
    decreases |t|
  {
    if t == "" {
      assert t + u == u;
    } else {
      var s := t + u;
      assert s[1..] == t[1..] + u && s[0] == t[0];
      assert t[0] == '*' ==> !StartsWith(s[1..], '/');
      CommentRuns(t[1..], u);
      BlottedOneMore(t, Output(Comment, s), Output(Comment, s[1..]));
    }
  }

  lemma BlottedOneMore(t: string, r: string, rest: string)
    requires t != "" && r != "" && r[1..] == rest && BlottedTo(t[1..], rest, |t| - 1)
    requires r[0] == if t[0] == '\t' || t[0] == '\n' then t[0] else 0x1C as char
    ensures BlottedTo(t, r, |t|)
  {
    forall i | 0 < i < |t| ensures r[i] == if t[i] == '\t' || t[i] == '\n' then t[i] else 0x1C as char {
      assert t[i] == t[1..][i - 1] && r[i] == rest[i - 1];
    }
  }

  /** Two characters that are read together. */
  lemma TwoRead(m: Mode, a: char, b: char, x: string)
    ensures var h := Step(m, a, [b] + x); var s := [a, b] + x;
      && Output(m, s) == [Mark(m, a, [b] + x), Mark(h, b, x)] + Output(Step(h, b, x), x)
      && Final(m, s) == Final(Step(h, b, x), x)
  {
    var s := [a, b] + x;
    assert s[1..] == [b] + x && ([b] + x)[1..] == x;
  }

  /** A comment up to its end, or to that of the text. */
  lemma CommentBegins(t: string, u: string)
    requires Unclosed(t, u)
    ensures var s := "/*" + (t + u); var r := Output(Code, s);
      && BlottedTo(s, r, |t| + 2) && r[|t| + 2..] == Output(Comment, u) && Final(Code, s) == Final(Comment, u)
  {
    var x := t + u;
    TwoRead(Code, '/', '*', x);
    CommentRuns(t, u);
    Behind("/*", x, [0x1C as char, 0x1C as char], Output(Comment, x), t, u);
  }

  lemma Behind(mark: string, x: string, blots: string, y: string, t: string, u: string)
    requires x == t + u && |mark| == |blots| == 2 && BlottedTo(mark, blots, 2)
    requires |t| <= |y| && BlottedTo(t, y, |t|)
    ensures BlottedTo(mark + x, blots + y, |t| + 2) && (blots + y)[|t| + 2..] == y[|t|..]
  {
    var s, r := mark + x, blots + y;
    forall i | 0 <= i < |t| + 2 ensures r[i] == if s[i] == '\t' || s[i] == '\n' then s[i] else 0x1C as char {
      if i >= 2 {
        assert s[i] == x[i - 2] == t[i - 2] && r[i] == y[i - 2];
      } else {
        assert s[i] == mark[i] && r[i] == blots[i];
      }
    }
  }

  lemma CommentEnds(u: string)
    ensures var s := "*/" + u; var r := Output(Comment, s);
      && BlottedTo(s, r, 2) && r[2..] == Output(Code, u) && Final(Comment, s) == Final(Code, u)
  {
    TwoRead(Comment, '*', '/', u);
  }

  /** A comment, its two marks included, is blotted out, and the code after it is code. */
  lemma BlockComment(t: string, u: string)
    requires forall i | 0 <= i < |t| - 1 :: t[i] == '*' ==> t[i + 1] != '/'
    ensures var s := "/*" + (t + ("*/" + u)); var r := Output(Code, s);
      && |r| == |s| && Final(Code, s) == Final(Code, u) && r[|t| + 4..] == Output(Code, u)
      && forall i | 0 <= i < |t| + 4 :: r[i] == if s[i] == '\t' || s[i] == '\n' then s[i] else 0x1C as char
  {
    CommentBegins(t, "*/" + u);
    CommentEnds(u);
    var s, r, y := "/*" + (t + ("*/" + u)), Output(Code, "/*" + (t + ("*/" + u))), Output(Comment, "*/" + u);
    assert r[|t| + 4..] == r[|t| + 2..][2..];
    forall i | |t| + 2 <= i < |t| + 4 ensures s[i] == ("*/" + u)[i - |t| - 2] && r[i] == y[i - |t| - 2] {
      assert r[i] == r[|t| + 2..][i - |t| - 2];
    }
  }

  /** A comment that is not closed is blotted out to the end, and what follows is in the comment. */
  lemma OpenComment(t: string)
    requires forall i | 0 <= i < |t| - 1 :: t[i] == '*' ==> t[i + 1] != '/'
    ensures var s := "/*" + t; var r := Output(Code, s);
      && |r| == |s| && Final(Code, s) == Comment
      && forall i | 0 <= i < |s| :: r[i] == if s[i] == '\t' || s[i] == '\n' then s[i] else 0x1C as char
  {
    CommentBegins(t, "");
    assert t + "" == t;
  }

  /** Within a line comment. */
  lemma {:induction false} LineRuns(t: string, u: string)
    requires '\n' !in t
    ensures BlottedTo(t, Output(LineComment, t + u), |t|)
    ensures Output(LineComment, t + u)[|t|..] == Output(LineComment, u)
    ensures Final(LineComment, t + u) == Final(LineComment, u)
    decreases |t|
  {
    if t == "" {
      assert t + u == u;
    } else {
      var s := t + u;
      assert s[1..] == t[1..] + u && s[0] == t[0];
      LineRuns(t[1..], u);
      BlottedOneMore(t, Output(LineComment, s), Output(LineComment, s[1..]));
    }
  }

  /** The text of a line comment is blotted out, but not its mark. */
  lemma LineCommentIs(t: string)
    requires '\n' !in t
    ensures var r := Output(Code, "//" + t);
      && |r| == |t| + 2 && r[..2] == "//" && Final(Code, "//" + t) == LineComment
      && forall i | 0 <= i < |t| :: r[2 + i] == if t[i] == '\t' then '\t' else 0x1C as char
  {
    TwoRead(Code, '/', '/', t);
    LineRuns(t, "");
    assert t + "" == t;
  }

  /** It ends with its line. */
  lemma LineCommentEnds(t: string, u: string)
    requires '\n' !in t
    ensures var s := "//" + (t + ("\n" + u)); var r := Output(Code, s);
      && |r| == |s| && r[..2] == "//" && Final(Code, s) == Final(Code, u)
      && r[|t| + 2..] == "\n" + Output(Code, u)
      && forall i | 0 <= i < |t| :: r[2 + i] == if t[i] == '\t' then '\t' else 0x1C as char
  {
    var x := t + ("\n" + u);
    TwoRead(Code, '/', '/', x);
    LineRuns(t, "\n" + u);
    assert ("\n" + u)[1..] == u;
    var r := Output(Code, "//" + x);
    assert r[2..] == Output(LineComment, x) && r[|t| + 2..] == r[2..][|t|..];
  }

  // ---------- code ----------

  /** No quote, and no mark of a comment, not even one that the text after it completes. */
  ghost predicate Plain(t: string, u: string) {
    && (forall i | 0 <= i < |t| :: t[i] != '\'' && t[i] != '"')
    && (forall i | 0 <= i < |t| - 1 :: t[i] == '/' ==> t[i + 1] != '/' && t[i + 1] != '*')
    && (t != "" && t[|t| - 1] == '/' ==> !StartsWith(u, '/') && !StartsWith(u, '*'))
  }

  /** Code is kept as it is. */
  lemma {:induction false} CodeRuns(t: string, u: string)
    requires Plain(t, u)
    ensures Output(Code, t + u) == t + Output(Code, u) && Final(Code, t + u) == Final(Code, u)
    decreases |t|
  {
    if t == "" {
      assert t + u == u && t + Output(Code, u) == Output(Code, u);
    } else {
      var s := t + u;
      assert s[1..] == t[1..] + u && s[0] == t[0];
      assert t[0] == '/' ==> !StartsWith(s[1..], '/') && !StartsWith(s[1..], '*');
      CodeRuns(t[1..], u);
      assert t + Output(Code, u) == [t[0]] + (t[1..] + Output(Code, u));
    }
  }

  // ---------- strings ----------

  /** How many backslashes stand right before position `i`. */
  function Slashes(t: string, i: nat): (n: nat)
    requires i <= |t|
    ensures n <= i && (forall k | i - n <= k < i :: t[k] == '\\') && (n < i ==> t[i - n - 1] != '\\')
  {
    if i == 0 || t[i - 1] != '\\' then 0 else 1 + Slashes(t, i - 1)
  }

  /** The character at position `i` is escaped by the one before. */
  predicate IsEscaped(t: string, i: nat)
    requires i <= |t|
  {
    Slashes(t, i) % 2 == 1
  }

  /** All in a string becomes an X, but for tabs and newlines that are not escaped. */
  function Xed(t: string, i: nat): char
    requires i < |t|
  {
    if (t[i] == '\t' || t[i] == '\n') && !IsEscaped(t, i) then t[i] else 'X'
  }

  ghost predicate XedTo(t: string, r: string, n: nat) {
    n <= |t| && n <= |r| && forall i | 0 <= i < n :: r[i] == Xed(t, i)
  }

  function Inside(q: char, t: string, i: nat): Mode
    requires i <= |t|
  {
    if IsEscaped(t, i) then Escaped(q) else Quoted(q)
  }

  /** One character of a string that does not end it. */
  lemma OneInside(q: char, t: string, i: nat, rest: string)
    requires i < |t| && (t[i] == q ==> IsEscaped(t, i))
    ensures Step(Inside(q, t, i), t[i], rest) == Inside(q, t, i + 1)
    ensures Mark(Inside(q, t, i), t[i], rest) == Xed(t, i)
  {
    assert Slashes(t, i + 1) == if t[i] == '\\' then 1 + Slashes(t, i) else 0;
  }

  /** Within a string, from any position on: only the same quote, not escaped, could end it. */
  lemma {:induction false} StringRuns(q: char, t: string, u: string, i: nat)
    requires i <= |t| && forall k | i <= k < |t| :: t[k] == q ==> IsEscaped(t, k)
    ensures var r := Output(Inside(q, t, i), t[i..] + u);
      && (forall k | 0 <= k < |t| - i :: r[k] == Xed(t, i + k))
      && r[|t| - i..] == Output(Inside(q, t, |t|), u)
    ensures Final(Inside(q, t, i), t[i..] + u) == Final(Inside(q, t, |t|), u)
    decreases |t| - i
  {
    var m, s := Inside(q, t, i), t[i..] + u;
    if i == |t| {
      assert s == u;
    } else {
      var rest := t[i + 1..] + u;
      assert s[0] == t[i] && s[1..] == rest;
      OneInside(q, t, i, rest);
      StringRuns(q, t, u, i + 1);
      StringStep(Output(m, s), Output(Inside(q, t, i + 1), rest), t, i);
    }
  }

  lemma StringStep(r: string, y: string, t: string, i: nat)
    requires i < |t| && |t| - i - 1 <= |y| && r == [Xed(t, i)] + y
    requires forall k | 0 <= k < |t| - i - 1 :: y[k] == Xed(t, i + 1 + k)
    ensures forall k | 0 <= k < |t| - i :: r[k] == Xed(t, i + k)
    ensures r[|t| - i..] == y[|t| - i - 1..]
  {
    forall k | 0 < k < |t| - i ensures r[k] == Xed(t, i + k) {
      assert r[k] == y[k - 1];
    }
  }

  lemma StringBegins(q: char, t: string, u: string)
    requires (q == '\'' || q == '"') && forall k | 0 <= k < |t| :: t[k] == q ==> IsEscaped(t, k)
    ensures var s := [q] + (t + u); var r := Output(Code, s);
      && r[0] == q && XedTo(t, r[1..], |t|)
      && r[|t| + 1..] == Output(Inside(q, t, |t|), u) && Final(Code, s) == Final(Inside(q, t, |t|), u)
  {
    var x := t + u;
    assert ([q] + x)[1..] == x && t[0..] + u == x;
    StringRuns(q, t, u, 0);
    QuoteKept(q, x);
    var r, y := Output(Code, [q] + x), Output(Quoted(q), x);
    assert r[|t| + 1..] == y[|t|..];
    assert forall k | 0 <= k < |t| :: y[k] == Xed(t, 0 + k);
  }

  lemma QuoteKept(q: char, x: string)
    requires q == '\'' || q == '"'
    ensures Output(Code, [q] + x) == [q] + Output(Quoted(q), x) && Final(Code, [q] + x) == Final(Quoted(q), x)
    ensures Output(Quoted(q), [q] + x) == [q] + Output(Code, x) && Final(Quoted(q), [q] + x) == Final(Code, x)
  {
    assert ([q] + x)[1..] == x;
  }

  /** A string keeps its quotes and is made X between them; no other quote, and no escaped one, ends it. */
  lemma StringIs(q: char, t: string, u: string)
    requires (q == '\'' || q == '"') && Slashes(t, |t|) % 2 == 0
    requires forall k | 0 <= k < |t| :: t[k] == q ==> Slashes(t, k) % 2 == 1
    ensures var s := [q] + (t + ([q] + u)); var r := Output(Code, s);
      && |r| == |s| && r[0] == q && r[|t| + 1..] == [q] + Output(Code, u) && Final(Code, s) == Final(Code, u)
      && forall i | 0 <= i < |t| ::
        r[1 + i] == if (t[i] == '\t' || t[i] == '\n') && Slashes(t, i) % 2 == 0 then t[i] else 'X'
  {
    StringBegins(q, t, [q] + u);
    QuoteKept(q, u);
  }

  /** A string that is not closed is made X to the end, and what follows is in the string, escaped or not. */
  lemma OpenString(q: char, t: string)
    requires q == '\'' || q == '"'
    requires forall k | 0 <= k < |t| :: t[k] == q ==> Slashes(t, k) % 2 == 1
    ensures var r := Output(Code, [q] + t);
      && |r| == |t| + 1 && r[0] == q
      && (Final(Code, [q] + t) == if Slashes(t, |t|) % 2 == 1 then Escaped(q) else Quoted(q))
      && forall i | 0 <= i < |t| ::
        r[1 + i] == if (t[i] == '\t' || t[i] == '\n') && Slashes(t, i) % 2 == 0 then t[i] else 'X'
  {
    StringBegins(q, t, "");
    assert t + "" == t;
  }

  // ---------- every text is made of these ----------

  /** What can follow code: nothing, a string, or a comment of one kind or the other. */
  predicate EndsCode(u: string) {
    u == "" || u[0] == '\'' || u[0] == '"' || (|u| >= 2 && u[0] == '/' && (u[1] == '/' || u[1] == '*'))
  }

  /** Every text is code as far as it goes, and then one of these. */
  lemma {:induction false} CodeSplits(s: string) returns (t: string, u: string)
    ensures s == t + u && Plain(t, u) && EndsCode(u)
  {
    if EndsCode(s) {
      t, u := "", s;
    } else {
      var t1, u1 := CodeSplits(s[1..]);
      t, u := [s[0]] + t1, u1;
      assert s == [s[0]] + s[1..];
      assert |s| >= 2 ==> s[1] == (t1 + u1)[0];
      assert forall i | 0 < i < |t| :: t[i] == t1[i - 1];
    }
  }

  predicate ClosesAt(s: string, i: nat) {
    i + 1 < |s| && s[i] == '*' && s[i + 1] == '/'
  }

  /** Within a comment, every text closes it somewhere or not at all. */
  lemma {:induction false} CommentSplits(s: string, n: nat) returns (i: nat)
    requires n <= |s| && forall k | 0 <= k < n :: !ClosesAt(s, k)
    ensures n <= i <= |s| && (i < |s| ==> ClosesAt(s, i)) && forall k | 0 <= k < i :: !ClosesAt(s, k)
    decreases |s| - n
  {
    if n == |s| || ClosesAt(s, n) {
      i := n;
    } else {
      i := CommentSplits(s, n + 1);
    }
  }

  /** Within a string, every text closes it at the first such quote that is not escaped, or not at all. */
  lemma {:induction false} StringSplits(q: char, s: string, n: nat) returns (i: nat)
    requires n <= |s| && forall k | 0 <= k < n :: s[k] == q ==> Slashes(s, k) % 2 == 1
    ensures n <= i <= |s| && forall k | 0 <= k < i :: s[k] == q ==> Slashes(s, k) % 2 == 1
    ensures i < |s| ==> s[i] == q && Slashes(s, i) % 2 == 0
    decreases |s| - n
  {
    if n == |s| || (s[n] == q && Slashes(s, n) % 2 == 0) {
      i := n;
    } else {
      i := StringSplits(q, s, n + 1);
    }
  }

  // ---------- lines ----------

  /** A line keeps its side marker, and code with a line comment at the end is kept up to the comment's text. */
  lemma LineWithComment(q: char, code: string, t: string)
    requires Plain(code, "//" + t) && '\n' !in t
    ensures var line := [q] + (code + ("//" + t)); var r := Scanned(Code, line);
      && |r| == |line| && r[..1 + |code| + 2] == [q] + (code + "//") && Carried(Code, line) == Code
      && forall i | 0 <= i < |t| :: r[|code| + 3 + i] == if t[i] == '\t' then '\t' else 0x1C as char
  {
    CodeRuns(code, "//" + t);
    LineCommentIs(t);
    var body := code + ("//" + t);
    assert ([q] + body)[1..] == body;
    assert Final(Code, body) == LineComment;
    assert Scanned(Code, [q] + body) == [q] + (code + Output(Code, "//" + t)) + "";
  }

  // ---------- the lines that are masked ----------

  ghost predicate Blanks(s: string, i: nat, j: nat) {
    i <= j <= |s| && forall k | i <= k < j :: IsBlank(s[k])
  }

  /**
     The line up to position `j` is a side marker, a hash at `h`, the word at `k`, and at least one blank, with any
     blanks before the hash and before the word.
   */
  ghost predicate Directive(s: string, w: string, h: nat, k: nat, j: nat) {
    && 1 <= h < k && k + |w| < j <= |s|
    && Blanks(s, 1, h) && s[h] == '#' && Blanks(s, h + 1, k) && s[k..k + |w|] == w && Blanks(s, k + |w|, j)
  }

  lemma {:induction false} SkipIs(s: string, i: nat, j: nat)
    requires Blanks(s, i, j) && (j < |s| ==> !IsBlank(s[j]))
    ensures SkipBlanks(s, i) == j
    decreases j - i
  {
    if i < j {
      SkipIs(s, i + 1, j);
    }
  }

  lemma DirectiveFound(s: string, w: string, h: nat, k: nat, j: nat)
    requires Directive(s, w, h, k, j) && (j < |s| ==> !IsBlank(s[j]))
    requires w != "" && !IsBlank(w[0]) && '<' !in w
    ensures AfterDirective(s, w) == Some(j)
  {
    SkipIs(s, 1, h);
    assert s[k] == s[k..k + |w|][0] == w[0];
    SkipIs(s, h + 1, k);
    SkipIs(s, k + |w|, j);
  }

  lemma FoundDirective(s: string, w: string) returns (h: nat, k: nat)
    requires '<' !in w && AfterDirective(s, w).Some?
    ensures Directive(s, w, h, k, AfterDirective(s, w).value)
    ensures AfterDirective(s, w).value < |s| ==> !IsBlank(s[AfterDirective(s, w).value])
  {
    h := SkipBlanks(s, 1);
    k := SkipBlanks(s, h + 1);
  }

  /** An include: after the blanks an angle bracket at `j`, and another that closes it further on. */
  ghost predicate IsInclude(s: string, h: nat, k: nat, j: nat, c: nat) {
    Directive(s, "include", h, k, j) && j < c < |s| && s[j] == '<' && s[c] == '>'
  }

  /** An error or a warning: something follows the blanks, at `j`, and a letter there or further on is at `c`. */
  ghost predicate IsMessage(s: string, h: nat, k: nat, j: nat, c: nat) {
    && (Directive(s, "error", h, k, j) || Directive(s, "warning", h, k, j))
    && j <= c < |s| && !IsBlank(s[j]) && IsWord(s[c])
  }

  lemma MaskingOfInclude(s: string, h: nat, k: nat, j: nat, c: nat)
    requires IsInclude(s, h, k, j, c) && forall i | c < i < |s| :: s[i] != '>'
    ensures MaskingOf(s) == Include(j, c)
  {
    DirectiveFound(s, "include", h, k, j);
    assert LastOf(s, '>') == c;
  }

  /** What stands between an include's bracket and the last one that closes it becomes X, and nothing else changes. */
  lemma IncludeIsMasked(s: string, h: nat, k: nat, j: nat, c: nat)
    requires IsInclude(s, h, k, j, c) && (forall i | c < i < |s| :: s[i] != '>') && s[0] != '<'
    ensures |Masked(s)| == |s| && forall i | 0 <= i < |s| :: Masked(s)[i] == if j < i < c then 'X' else s[i]
  {
    MaskingOfInclude(s, h, k, j, c);
    MaskedLength(s);
    forall i | 0 <= i < |s| ensures Masked(s)[i] == if j < i < c then 'X' else s[i] {
      IncludeMaskedAt(s, i);
    }
  }

  /** With a bracket as side marker, all from there to the include's own is lost. */
  lemma IncludeLosesItsStart(s: string, h: nat, k: nat, j: nat, c: nat)
    requires IsInclude(s, h, k, j, c) && (forall i | c < i < |s| :: s[i] != '>') && s[0] == '<'
    ensures |Masked(s)| == |s| - j && Masked(s)[0] == '<' && Masked(s)[c - j..] == s[c..]
    ensures forall i | 0 < i < c - j :: Masked(s)[i] == 'X'
  {
    MaskingOfInclude(s, h, k, j, c);
    FirstBracket(s);
    var blots := Blotted(c - j - 1);
    assert Masked(s) == "<" + (blots + s[c..]);
    assert forall i | 0 < i < c - j :: Masked(s)[i] == blots[i - 1];
  }

  lemma NotTheWord(s: string, w: string, v: string, h: nat, k: nat, j: nat)
    requires Directive(s, v, h, k, j) && v != "" && w != "" && v[0] != w[0] && !IsBlank(v[0]) && '<' !in w
    ensures AfterDirective(s, w) == None
  {
    SkipIs(s, 1, h);
    assert s[k] == s[k..k + |v|][0] == v[0];
    SkipIs(s, h + 1, k);
  }

  lemma MessageStarts(s: string, h: nat, k: nat, j: nat)
    requires Directive(s, "error", h, k, j) || Directive(s, "warning", h, k, j)
    requires j < |s| && !IsBlank(s[j])
    ensures MessageStart(s) == j && BracketAt(s) == None
  {
    if Directive(s, "error", h, k, j) {
      DirectiveFound(s, "error", h, k, j);
      NotTheWord(s, "include", "error", h, k, j);
    } else {
      DirectiveFound(s, "warning", h, k, j);
      NotTheWord(s, "error", "warning", h, k, j);
      NotTheWord(s, "include", "warning", h, k, j);
    }
  }

  /** The text of a message becomes X up to its last letter, and what comes after that is lost. */
  lemma MessageIsMasked(s: string, h: nat, k: nat, j: nat, c: nat)
    requires IsMessage(s, h, k, j, c) && forall i | c < i < |s| :: !IsWord(s[i])
    ensures |Masked(s)| == c + 1 && forall i | 0 <= i <= c :: Masked(s)[i] == if i >= j then 'X' else s[i]
  {
    MessageStarts(s, h, k, j);
    assert LastWord(s) == c;
    assert MaskingOf(s) == Message(j, c + 1);
  }

  lemma FoundInclude(s: string) returns (h: nat, k: nat)
    requires BracketAt(s).Some?
    ensures IsInclude(s, h, k, BracketAt(s).value, LastOf(s, '>'))
  {
    h, k := FoundDirective(s, "include");
  }

  lemma FoundMessage(s: string) returns (h: nat, k: nat)
    requires MessageStart(s) < |s|
    ensures Directive(s, "error", h, k, MessageStart(s)) || Directive(s, "warning", h, k, MessageStart(s))
    ensures !IsBlank(s[MessageStart(s)])
  {
    if AfterDirective(s, "error").Some? {
      h, k := FoundDirective(s, "error");
    } else {
      h, k := FoundDirective(s, "warning");
    }
  }

  /** What is masked is an include or a message. */
  lemma MaskedIsOne(s: string) returns (h: nat, k: nat, j: nat, c: nat)
    requires BracketAt(s).Some? || LastWord(s) >= MessageStart(s)
    ensures IsInclude(s, h, k, j, c) || IsMessage(s, h, k, j, c)
  {
    if BracketAt(s).Some? {
      h, k := FoundInclude(s);
      j, c := BracketAt(s).value, LastOf(s, '>');
    } else {
      h, k := FoundMessage(s);
      j, c := MessageStart(s), LastWord(s);
    }
  }

  /** Every other line is left as it is. */
  lemma OthersAreKept(s: string)
    requires forall h: nat, k: nat, j: nat, c: nat :: !IsInclude(s, h, k, j, c) && !IsMessage(s, h, k, j, c)
    ensures Masked(s) == s
  {
    if BracketAt(s).Some? || LastWord(s) >= MessageStart(s) {
      var h, k, j, c := MaskedIsOne(s);
    }
  }
}
