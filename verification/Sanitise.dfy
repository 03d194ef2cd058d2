/**
 sanitise_line of TP_01/EXO-01/checkpatch.pl: the comments and strings of a patch's positive lines are
 blotted out, character for character, with the state of comments and strings carried from line to line.
 The reference is a machine that reads a whole file one character at a time.
 */
module Sanitise {
  import opened Options

  /** What `$;` stands for. */
  const BLOT := 0x1C as char

  /**
     Where a character stands. The first five are the states of `$sanitise_quote`; in the others the
     character is the second of two that belong together.
   */
  datatype Mode =
    | Code
    | Comment
    | LineComment
    | Quoted(quote: char)
    | CommentOpens
    | CommentCloses
    | LineCommentOpens
    | Escaped(quote: char)

  predicate IsQuote(c: char) {
    c == '\'' || c == '"'
  }

  predicate ValidMode(m: Mode) {
    (m.Quoted? || m.Escaped?) ==> IsQuote(m.quote)
  }

  /** A state that `$sanitise_quote` can be in. */
  predicate IsState(m: Mode) {
    ValidMode(m) && (m.Code? || m.Comment? || m.LineComment? || m.Quoted?)
  }

  predicate StartsWith(s: string, c: char) {
    s != "" && s[0] == c
  }

  // ---------- the machine ----------

  /** Where the next character stands, given the one at hand and those that follow. */
  function Step(m: Mode, c: char, rest: string): (n: Mode)
    ensures ValidMode(m) ==> ValidMode(n)
  {
    match m
    case Code =>
      if c == '/' && StartsWith(rest, '*') then CommentOpens
      else if c == '/' && StartsWith(rest, '/') then LineCommentOpens
      else if IsQuote(c) then Quoted(c)
      else Code
    case Comment => if c == '*' && StartsWith(rest, '/') then CommentCloses else Comment
    case LineComment => if c == '\n' then Code else LineComment
    case Quoted(q) => if c == '\\' then Escaped(q) else if c == q then Code else Quoted(q)
    case CommentOpens => Comment
    case CommentCloses => Code
    case LineCommentOpens => LineComment
    case Escaped(q) => Quoted(q)
  }

  /** What the character at hand becomes. */
  function Mark(m: Mode, c: char, rest: string): char {
    match m
    case Code => if c == '/' && StartsWith(rest, '*') then BLOT else c
    case Comment => if c == '\t' || c == '\n' then c else BLOT
    case LineComment => if c == '\t' || c == '\n' then c else BLOT
    case Quoted(q) => if c == q || c == '\t' || c == '\n' then c else 'X'
    case CommentOpens => BLOT
    case CommentCloses => BLOT
    case LineCommentOpens => c
    case Escaped(q) => 'X'
  }

  function Output(m: Mode, s: string): (r: string)
    ensures |r| == |s|
    decreases |s|
  {
    if s == "" then "" else [Mark(m, s[0], s[1..])] + Output(Step(m, s[0], s[1..]), s[1..])
  }

  function Final(m: Mode, s: string): (n: Mode)
    ensures ValidMode(m) ==> ValidMode(n)
    decreases |s|
  {
    if s == "" then m else Final(Step(m, s[0], s[1..]), s[1..])
  }

  // ---------- one line ----------

  /** What the loop makes of a line; the first character only says which side of the patch it is on. */
  function Scanned(q: Mode, line: string): string {
    if line == "" then ""
    else [line[0]] + Output(q, line[1..]) + if EndsEscaped(q, line) then "X" else ""
  }

  /** The line ends in a backslash that would escape the next character of a string. */
  predicate EndsEscaped(q: Mode, line: string) {
    line != "" && Final(q, line[1..]).Escaped?
  }

  /** The state the next line starts in. */
  function Carried(q: Mode, line: string): Mode {
    if line == "" then (if q.LineComment? then Code else q)
    else Step(Final(q, line[1..]), '\n', "")
  }

  /** One turn of the loop: what it appends, the new state, and by how much it moves on. */
  method Turn(line: string, off: nat, q: Mode) returns (piece: string, quote: Mode, width: nat)
    requires IsState(q) && off < |line| && '\n' !in line
    ensures IsState(quote) && |piece| == width && (width == 1 || width == 2)
    ensures width == 1 ==> Reads(q, line[off..], piece, quote)
    ensures width == 2 && off + 1 < |line| ==> ReadsTwo(q, line[off..], piece, quote)
    ensures width == 2 && off + 1 == |line| ==> q.Quoted? && line[off] == '\\' && quote == q && piece == "XX"
  {
    var c := line[off];
    assert line[off..][0] == c && line[off..][1..] == line[off + 1..];
    assert off + 1 < |line| ==> line[off + 1..][0] == line[off + 1];
    var two := if off + 1 < |line| then line[off..off + 2] else [c];
    quote := q;
    if quote == Code && two == "/*" {
      return [BLOT, BLOT], Comment, 2;
    }
    if quote == Comment && two == "*/" {
      return [BLOT, BLOT], Code, 2;
    }
    if quote == Code && two == "//" {
      return "//", LineComment, 2;
    }
    if quote.Quoted? && c == '\\' {
      return "XX", quote, 2;
    }
    if IsQuote(c) {
      if quote == Code {
        return [c], Quoted(c), 1;
      } else if quote == Quoted(c) {
        quote := Code;
      }
    }
    if quote == Comment && c != '\t' {
      piece := [BLOT];
    } else if quote == LineComment && c != '\t' {
      piece := [BLOT];
    } else if quote != Code && c != '\t' {
      piece := "X";
    } else {
      piece := [c];
    }
    width := 1;
  }

  predicate Reads(m: Mode, s: string, piece: string, n: Mode)
    requires s != ""
  {
    piece == [Mark(m, s[0], s[1..])] && n == Step(m, s[0], s[1..])
  }

  predicate ReadsTwo(m: Mode, s: string, piece: string, n: Mode)
    requires |s| >= 2
  {
    var h := Step(m, s[0], s[1..]);
    piece == [Mark(m, s[0], s[1..]), Mark(h, s[1], s[2..])] && n == Step(h, s[1], s[2..])
  }

  method Scan(line: string, q: Mode) returns (res: string, quote: Mode)
    requires IsState(q) && '\n' !in line
    ensures res == Scanned(q, line) && quote == Carried(q, line) && IsState(quote)
  {
    res, quote := if line == "" then "" else [line[0]], q;
    var off := 1;
    while off < |line|
      invariant IsState(quote) && 1 <= off
      invariant if line == "" then res == "" && quote == q else Onward(q, line, res, quote, off)
      decreases |line| - off
    {
      var piece, next, width := Turn(line, off, quote);
      if width == 1 {
        OneMore(q, line, res, quote, off, piece, next);
      } else {
        TwoMore(q, line, res, quote, off, piece, next);
      }
      res, quote, off := res + piece, next, off + width;
    }
    if line != "" {
      TheEnd(q, line, res, quote, off);
    }
    if quote == LineComment {
      quote := Code;
    }
  }

  /**
     The loop's invariant: what was written and what is left make up the line. Past the end, the line ended
     in an escape, which wrote one character too many.
   */
  ghost predicate Onward(q: Mode, line: string, res: string, m: Mode, off: nat)
    requires line != "" && off >= 1
  {
    if off <= |line| then
      && [line[0]] + Output(q, line[1..]) == res + Output(m, line[off..])
      && Final(q, line[1..]) == Final(m, line[off..])
    else
      && off == |line| + 1 && m.Quoted?
      && [line[0]] + Output(q, line[1..]) + "X" == res
      && Final(q, line[1..]) == Escaped(m.quote)
  }

  lemma OutputOne(m: Mode, s: string, piece: string, n: Mode)
    requires s != "" && Reads(m, s, piece, n)
    ensures Output(m, s) == piece + Output(n, s[1..]) && Final(m, s) == Final(n, s[1..])
  {
  }

  lemma OneMore(q: Mode, line: string, res: string, m: Mode, off: nat, piece: string, n: Mode)
    requires 1 <= off < |line| && Onward(q, line, res, m, off) && Reads(m, line[off..], piece, n)
    ensures Onward(q, line, res + piece, n, off + 1)
  {
    assert line[off..][1..] == line[off + 1..];
    OutputOne(m, line[off..], piece, n);
    assert res + (piece + Output(n, line[off + 1..])) == res + piece + Output(n, line[off + 1..]);
  }

  lemma TwoMore(q: Mode, line: string, res: string, m: Mode, off: nat, piece: string, n: Mode)
    requires 1 <= off < |line| && Onward(q, line, res, m, off)
    requires IsState(m) && (off + 1 < |line| ==> ReadsTwo(m, line[off..], piece, n))
    requires off + 1 == |line| ==> m.Quoted? && line[off] == '\\' && n == m && piece == "XX"
    ensures Onward(q, line, res + piece, n, off + 2)
  {
    var s := line[off..];
    assert s[1..] == line[off + 1..];
    var h, mark := Step(m, s[0], s[1..]), Mark(m, s[0], s[1..]);
    OneMore(q, line, res, m, off, [mark], h);
    if off + 1 < |line| {
      assert line[off + 1..][1..] == line[off + 2..] && s[2..] == line[off + 2..] && s[1] == line[off + 1..][0];
      OneMore(q, line, res + [mark], h, off + 1, [piece[1]], n);
      assert res + [mark] + [piece[1]] == res + piece;
    } else {
      assert line[off + 1..] == "";
      assert res + [mark] + "" == res + [mark] && res + [mark] + "X" == res + piece;
    }
  }

  lemma TheEnd(q: Mode, line: string, res: string, m: Mode, off: nat)
    requires IsState(m) && line != "" && off >= |line| && off >= 1 && Onward(q, line, res, m, off)
    ensures res == Scanned(q, line) && Carried(q, line) == if m.LineComment? then Code else m
  {
    if off == |line| {
      assert line[off..] == "";
      assert res + "" == res;
    }
  }

  // ---------- whole texts ----------

  /** A line's text, without the character that says which side of the patch it is on. */
  function Body(line: string): string {
    if line == "" then "" else line[1..]
  }

  /** The text the lines stand for. */
  function Joined(lines: seq<string>): string {
    if lines == [] then "" else Body(lines[0]) + ("\n" + Joined(lines[1..]))
  }

  /**
     The lines sanitised one after another, put together again. A line that ends in an escape came out one
     character longer, and that character stands where the newline was.
   */
  function SanitisedJoined(q: Mode, lines: seq<string>): string
    decreases |lines|
  {
    if lines == [] then "" else
    Body(Scanned(q, lines[0])) +
      (EndOf(q, lines[0]) + SanitisedJoined(Carried(q, lines[0]), lines[1..]))
  }

  function EndOf(q: Mode, line: string): string {
    if EndsEscaped(q, line) then "" else "\n"
  }

  function CarriedOver(q: Mode, lines: seq<string>): Mode
    decreases |lines|
  {
    if lines == [] then q else CarriedOver(Carried(q, lines[0]), lines[1..])
  }

  /** Text that cannot be the second half of a comment mark. */
  predicate Separate(t: string) {
    !StartsWith(t, '*') && !StartsWith(t, '/')
  }

  lemma {:induction false} OutputConcat(m: Mode, s: string, t: string)
    requires Separate(t)
    ensures Output(m, s + t) == Output(m, s) + Output(Final(m, s), t)
    ensures Final(m, s + t) == Final(Final(m, s), t)
    decreases |s|
  {
    if s == "" {
      assert s + t == t;
    } else {
      assert (s + t)[1..] == s[1..] + t;
      SameTurn(m, s[0], s[1..], t);
      OutputConcat(Step(m, s[0], s[1..]), s[1..], t);
    }
  }

  lemma SameTurn(m: Mode, c: char, s: string, t: string)
    requires Separate(t)
    ensures Step(m, c, s + t) == Step(m, c, s) && Mark(m, c, s + t) == Mark(m, c, s)
  {
    if s == "" {
      assert s + t == t;
    } else {
      assert (s + t)[0] == s[0];
    }
  }

  /** The mode's other half is there to be read. */
  predicate Fits(m: Mode, s: string) {
    && (m.CommentOpens? ==> StartsWith(s, '*'))
    && (m.CommentCloses? ==> StartsWith(s, '/'))
    && (m.LineCommentOpens? ==> StartsWith(s, '/'))
  }

  /** A line never stops halfway through a comment mark. */
  lemma {:induction false} FinalIsWhole(m: Mode, s: string)
    requires ValidMode(m) && Fits(m, s)
    ensures IsState(Final(m, s)) || Final(m, s).Escaped?
    decreases |s|
  {
    if s != "" {
      FinalIsWhole(Step(m, s[0], s[1..]), s[1..]);
    }
  }

  /**
     The main theorem: sanitising line by line does to a text what the machine does to the whole of it. A
     line comment ends with its line; comments and strings run on.
   */
  lemma {:induction false} LinesAreText(q: Mode, lines: seq<string>)
    requires IsState(q)
    ensures SanitisedJoined(q, lines) == Output(q, Joined(lines))
    ensures CarriedOver(q, lines) == Final(q, Joined(lines)) && IsState(CarriedOver(q, lines))
    decreases |lines|
  {
    if lines != [] {
      FirstLine(q, lines[0], Joined(lines[1..]));
      LinesAreText(Carried(q, lines[0]), lines[1..]);
    }
  }

  lemma FirstLine(q: Mode, line: string, rest: string)
    requires IsState(q)
    ensures IsState(Carried(q, line))
    ensures Final(q, Body(line) + ("\n" + rest)) == Final(Carried(q, line), rest)
    ensures Output(q, Body(line) + ("\n" + rest)) ==
      Body(Scanned(q, line)) + (EndOf(q, line) + Output(Carried(q, line), rest))
  {
    var m := Final(q, Body(line));
    FinalIsWhole(q, Body(line));
    OutputConcat(q, Body(line), "\n" + rest);
    NewlineTurn(m, rest);
    BodyScanned(q, line);
    assert Carried(q, line) == Step(m, '\n', "");
    Reassociate(Output(q, Body(line)), "X", Output(Carried(q, line), rest));
    if !EndsEscaped(q, line) {
      assert !m.Escaped?;
    }
  }

  lemma Reassociate(a: string, b: string, c: string)
    ensures a + b + ("" + c) == a + (b + c) && a + "" == a
  {
  }

  lemma BodyScanned(q: Mode, line: string)
    requires IsState(q)
    ensures Body(Scanned(q, line)) == Output(q, Body(line)) + (if EndsEscaped(q, line) then "X" else "")
  {
  }

  lemma NewlineTurn(m: Mode, rest: string)
    requires IsState(m) || m.Escaped?
    ensures Output(m, "\n" + rest) == (if m.Escaped? then "X" else "\n") + Output(Step(m, '\n', ""), rest)
    ensures Final(m, "\n" + rest) == Final(Step(m, '\n', ""), rest)
  {
    assert ("\n" + rest)[1..] == rest;
  }

  // ---------- once is enough ----------

  /** Where the machine is on its own output, when it is at `m` on the input. */
  function Second(m: Mode): Mode {
    match m
    case Comment => Code
    case CommentOpens => Code
    case CommentCloses => Code
    case Escaped(q) => Quoted(q)
    case _ => m
  }

  /** Sanitising text that is already sanitised changes nothing. */
  lemma {:induction false} OutputTwice(m: Mode, s: string)
    requires ValidMode(m)
    ensures Output(Second(m), Output(m, s)) == Output(m, s)
    ensures Final(Second(m), Output(m, s)) == Second(Final(m, s))
    decreases |s|
  {
    if s != "" {
      var c, rest := s[0], s[1..];
      var n, mark, out := Step(m, c, rest), Mark(m, c, rest), Output(Step(m, c, rest), rest);
      OutputTwice(n, rest);
      assert Output(m, s)[0] == mark && Output(m, s)[1..] == out;
      if m == Code && c == '/' && rest != "" {
        assert out[0] == Mark(n, rest[0], rest[1..]);
      }
    }
  }

  /** The same for a line that starts outside comments and strings, the extra character included. */
  lemma ScannedTwice(line: string)
    ensures Scanned(Code, Scanned(Code, line)) == Scanned(Code, line)
    ensures !EndsEscaped(Code, Scanned(Code, line))
  {
    if line != "" {
      var s := line[1..];
      OutputTwice(Code, s);
      FinalIsWhole(Code, s);
      var r := Output(Code, s);
      if Final(Code, s).Escaped? {
        OutputConcat(Code, r, "X");
        assert Final(Code, r).Quoted?;
        assert "X"[1..] == "" && Output(Final(Code, r), "X") == "X";
        assert Scanned(Code, line)[1..] == r + "X";
      } else {
        assert Scanned(Code, line)[1..] == r;
      }
    }
  }

  // ---------- when a line ends in an escape ----------

  lemma {:induction false} EscapedLast(m: Mode, s: string)
    requires s != "" && Final(m, s).Escaped?
    ensures s[|s| - 1] == '\\'
    decreases |s|
  {
    if |s| > 1 {
      EscapedLast(Step(m, s[0], s[1..]), s[1..]);
    } else {
      assert s[1..] == "";
    }
  }

  /** Exactly when the last character is a backslash and the text before it leaves a string open. */
  lemma EndsEscapedWhen(q: Mode, line: string)
    requires IsState(q)
    ensures EndsEscaped(q, line) <==>
      |line| >= 2 && line[|line| - 1] == '\\' && Final(q, line[1..|line| - 1]).Quoted?
  {
    if |line| >= 2 {
      var s := line[1..];
      var front, c := line[1..|line| - 1], line[|line| - 1];
      assert s == front + [c];
      if Final(q, s).Escaped? {
        EscapedLast(q, s);
      }
      if c == '\\' {
        OutputConcat(q, front, [c]);
        assert [c][1..] == "";
      }
    }
  }

  // ---------- the two masks ----------

  predicate IsBlank(c: char) {
    c == ' ' || 0x09 <= c as int <= 0x0D
  }

  predicate IsWord(c: char) {
    'a' <= c <= 'z' || 'A' <= c <= 'Z' || '0' <= c <= '9' || c == '_'
  }

  function SkipBlanks(s: string, i: nat): (j: nat)
    requires i <= |s|
    ensures i <= j <= |s| && forall k | i <= k < j :: IsBlank(s[k])
    ensures j < |s| ==> !IsBlank(s[j])
    decreases |s| - i
  {
    if i < |s| && IsBlank(s[i]) then SkipBlanks(s, i + 1) else i
  }

  predicate WordAt(s: string, i: nat, w: string) {
    i + |w| <= |s| && s[i..i + |w|] == w
  }

  /** Where the text after `^.\s*\#\s*w\s+` starts. */
  function AfterDirective(s: string, w: string): (r: Option<nat>)
    requires '<' !in w
    ensures r.Some? ==> |w| + 2 < r.value <= |s| && forall i | 0 < i < r.value :: s[i] != '<'
  {
    if s == "" then None else
    var h := SkipBlanks(s, 1);
    if h == |s| || s[h] != '#' then None else
    var k := SkipBlanks(s, h + 1);
    if !WordAt(s, k, w) then None else
    var j := SkipBlanks(s, k + |w|);
    if j == k + |w| then None else
    assert forall i | k <= i < k + |w| :: s[i] == w[i - k];
    Some(j)
  }

  /** The last position of `c`, or -1. */
  function LastOf(s: string, c: char): (i: int)
    ensures -1 <= i < |s| && (i >= 0 ==> s[i] == c) && forall k | i < k < |s| :: s[k] != c
  {
    if s == "" then -1 else if s[|s| - 1] == c then |s| - 1 else LastOf(s[..|s| - 1], c)
  }

  function FirstOf(s: string, c: char): (i: nat)
    requires c in s
    ensures i < |s| && s[i] == c && forall k | 0 <= k < i :: s[k] != c
  {
    if s[0] == c then 0 else 1 + FirstOf(s[1..], c)
  }

  function LastWord(s: string): (i: int)
    ensures -1 <= i < |s| && (i >= 0 ==> IsWord(s[i])) && forall k | i < k < |s| :: !IsWord(s[k])
  {
    if s == "" then -1 else if IsWord(s[|s| - 1]) then |s| - 1 else LastWord(s[..|s| - 1])
  }

  datatype Masking =
    | NoMask
    | Include(open: nat, close: nat)
    | Message(from: nat, to: nat)

  /** Where the text of an error or a warning starts, or the end if the line is neither. */
  function MessageStart(s: string): (from: nat)
    ensures from <= |s| && (from < |s| ==> from > 0)
  {
    var error, warning := AfterDirective(s, "error"), AfterDirective(s, "warning");
    if error.Some? then error.value else if warning.Some? then warning.value else |s|
  }

  /** Where the angle bracket of an include opens, if another closes it. */
  function BracketAt(s: string): (r: Option<nat>)
    ensures r.Some? ==> 9 < r.value < LastOf(s, '>') && s[r.value] == '<'
    ensures r.Some? ==> forall i | 0 < i < r.value :: s[i] != '<'
  {
    var at := AfterDirective(s, "include");
    if at.Some? && at.value < |s| && s[at.value] == '<' && LastOf(s, '>') > at.value then at else None
  }

  /**
     Which of the two patterns a line matches: the angle brackets of an include, or the text of an error or
     warning up to its last word boundary.
   */
  function MaskingOf(s: string): (m: Masking)
    ensures m.Include? ==> 9 < m.open < m.close < |s| && s[m.open] == '<' && s[m.close] == '>'
    ensures m.Include? ==> forall i | 0 < i < m.open :: s[i] != '<'
    ensures m.Message? ==> 0 < m.from < m.to <= |s| && IsWord(s[m.to - 1])
    ensures m.Message? ==> forall i | m.to <= i < |s| :: !IsWord(s[i])
  {
    var open := BracketAt(s);
    if open.Some? then Include(open.value, LastOf(s, '>'))
    else if LastWord(s) >= MessageStart(s) then Message(MessageStart(s), LastWord(s) + 1) else NoMask
  }

  function Blotted(n: nat): (r: string)
    ensures |r| == n && forall i | 0 <= i < n :: r[i] == 'X'
  {
    if n == 0 then "" else Blotted(n - 1) + "X"
  }

  function Masked(s: string): string {
    match MaskingOf(s)
    case NoMask => s
    case Include(open, close) =>
      s[..FirstOf(s, '<')] + ("<" + (Blotted(close - open - 1) + s[close..]))
    case Message(from, to) => s[..from] + Blotted(to - from)
  }

  /** What a caller can check: the side marker is no bracket, and a message ends in a word. */
  predicate MaskFits(s: string) {
    match MaskingOf(s)
    case NoMask => true
    case Include(open, close) => s[0] != '<'
    case Message(from, to) => IsWord(s[|s| - 1])
  }

  lemma FirstBracket(s: string)
    requires MaskingOf(s).Include?
    ensures '<' in s && FirstOf(s, '<') == if s[0] == '<' then 0 else MaskingOf(s).open
  {
    var open := MaskingOf(s).open;
    assert s[open] == '<';
  }

  lemma IncludeMasked(s: string)
    requires MaskingOf(s).Include?
    ensures var m := MaskingOf(s);
      && |Masked(s)| == |s| - (if s[0] == '<' then m.open else 0)
      && (s[0] != '<' ==> Masked(s) == s[..m.open] + ("<" + (Blotted(m.close - m.open - 1) + s[m.close..])))
  {
    FirstBracket(s);
  }

  lemma IncludeMaskedAt(s: string, i: nat)
    requires MaskingOf(s).Include? && s[0] != '<' && i < |s|
    ensures |Masked(s)| == |s| && Masked(s)[i] == if InMask(s, i) then 'X' else s[i]
  {
    IncludeMasked(s);
    var m := MaskingOf(s);
    var tail := Blotted(m.close - m.open - 1) + s[m.close..];
    if i > m.open {
      assert Masked(s)[i] == tail[i - m.open - 1];
    }
  }

  /** Masking keeps the length exactly then, and then it changes only what it masks. */
  lemma MaskedLength(s: string)
    ensures |Masked(s)| == |s| <==> MaskFits(s)
    ensures |Masked(s)| <= |s|
    ensures MaskFits(s) ==> forall i {:trigger Masked(s)[i]} | 0 <= i < |s| ::
      Masked(s)[i] == if InMask(s, i) then 'X' else s[i]
  {
    match MaskingOf(s)
    case NoMask =>
    case Include(open, close) =>
      IncludeMasked(s);
      if s[0] != '<' {
        forall i | 0 <= i < |s| ensures Masked(s)[i] == if InMask(s, i) then 'X' else s[i] {
          IncludeMaskedAt(s, i);
        }
      }
    case Message(from, to) =>
      assert |Masked(s)| == to;
  }

  predicate InMask(s: string, i: nat) {
    match MaskingOf(s)
    case NoMask => false
    case Include(open, close) => open < i < close
    case Message(from, to) => from <= i < to
  }

  method SanitiseLine(line: string, q: Mode) returns (res: string, quote: Mode)
    requires IsState(q) && '\n' !in line
    ensures res == Masked(Scanned(q, line)) && quote == Carried(q, line) && IsState(quote)
    ensures |res| == |line| <==> !EndsEscaped(q, line) && MaskFits(Scanned(q, line))
    ensures if line == "" then res == "" else res != "" && res[0] == line[0]
  {
    res, quote := Scan(line, q);
    LengthKept(q, line);
    res := Masked(res);
  }

  /** A line keeps its length exactly if it does not end in an escape and its mask fits. */
  lemma LengthKept(q: Mode, line: string)
    ensures |Masked(Scanned(q, line))| == |line| <==> !EndsEscaped(q, line) && MaskFits(Scanned(q, line))
  {
    var s := Scanned(q, line);
    MaskedLength(s);
    if EndsEscaped(q, line) {
      assert |s| == |line| + 1 && s[|s| - 1] == 'X';
      if MaskingOf(s).Include? {
        IncludeMasked(s);
      } else {
        assert MaskFits(s);
      }
    }
  }

  /** The lines checkpatch sanitises start with a plus or a blank, so that an include always keeps its length. */
  lemma IncludeKeepsLength(q: Mode, line: string)
    ensures line != "" && (line[0] == '+' || line[0] == ' ') && MaskingOf(Scanned(q, line)).Include? ==>
      (|Masked(Scanned(q, line))| == |line| <==> !EndsEscaped(q, line))
  {
    LengthKept(q, line);
  }

  lemma ErrorLine(line: string)
    requires line == "+#error a."
    ensures AfterDirective(line, "error") == Some(8) && AfterDirective(line, "include") == None
  {
    assert line[2..7] == "error";
    assert SkipBlanks(line, 1) == 1 && SkipBlanks(line, 2) == 2;
    assert SkipBlanks(line, 8) == 8;
    assert SkipBlanks(line, 7) == 8;
    assert line[2..9][0] != "include"[0];
  }

  lemma ErrorLineMask(line: string)
    requires line == "+#error a."
    ensures MaskingOf(line) == Message(8, 9)
  {
    ErrorLine(line);
    assert line[8] == 'a' && line[9] == '.';
  }

  lemma ErrorLineScan(line: string)
    requires line == "+#error a."
    ensures Scanned(Code, line) == line
  {
    var body := line[1..];
    assert forall i | 0 <= i < |body| :: body[i] == line[i + 1] && body[i] != '/' && !IsQuote(body[i]);
    PlainIsKept(body);
  }

  /** A message that ends in a full stop loses it. */
  lemma MessageLosesItsEnd(line: string)
    requires line == "+#error a."
    ensures |Masked(Scanned(Code, line))| == |line| - 1
  {
    ErrorLineScan(line);
    ErrorLineMask(line);
  }

  lemma {:induction false} PlainIsKept(s: string)
    requires forall i | 0 <= i < |s| :: s[i] != '/' && !IsQuote(s[i])
    ensures Output(Code, s) == s && Final(Code, s) == Code
    decreases |s|
  {
    if s != "" {
      PlainIsKept(s[1..]);
    }
  }
}