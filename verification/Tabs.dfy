/**
 expand_tabs and tabify of TP_01/EXO-01/checkpatch.pl. Tabify rewrites the start of a string in two
 loops; the string must look the same once tabs are expanded.
 */
module Tabs {

  function Copies(c: char, n: nat): (r: string)
    ensures |r| == n && forall i | 0 <= i < n :: r[i] == c
  {
    if n == 0 then "" else Copies(c, n - 1) + [c]
  }

  function Spaces(n: nat): string {
    Copies(' ', n)
  }

  /** The text as it looks from column `col` on, with tab stops every eight columns. */
  function ExpandFrom(col: nat, s: string): string
    decreases |s|
  {
    if s == "" then ""
    else if s[0] == '\t' then Spaces(8 - col % 8) + ExpandFrom(col + 8 - col % 8, s[1..])
    else [s[0]] + ExpandFrom(col + 1, s[1..])
  }

  function Expand(s: string): string {
    ExpandFrom(0, s)
  }

  /** A tab: one blank, and more up to a multiple of eight. */
  method ToNextStop(before: string, col: nat) returns (res: string, n: nat)
    ensures n == col + 8 - col % 8 && res == before + Spaces(n - col)
  {
    res := before + " ";
    n := col + 1;
    while n % 8 != 0
      invariant col < n <= col + 8 - col % 8 && res == before + Spaces(n - col)
      decreases col + 8 - n
    {
      assert Spaces(n - col) + " " == Spaces(n + 1 - col);
      res := res + " ";
      n := n + 1;
    }
    NextStop(col, n);
  }

  method ExpandTabs(str: string) returns (res: string)
    ensures res == Expand(str)
  {
    res := "";
    var n, i := 0, 0;
    assert str[0..] == str;
    while i < |str|
      invariant 0 <= i <= |str| && n == |res|
      invariant res + ExpandFrom(n, str[i..]) == Expand(str)
    {
      ghost var before, col := res, n;
      var c := str[i];
      if c == '\t' {
        res, n := ToNextStop(res, n);
      } else {
        res := res + [c];
        n := n + 1;
      }
      OneMore(str, i, before, res, n);
      i := i + 1;
    }
  }

  lemma OneMore(str: string, i: nat, before: string, res: string, n: nat)
    requires i < |str| && n == |res|
    requires str[i] == '\t' ==> n == |before| + 8 - |before| % 8 && res == before + Spaces(n - |before|)
    requires str[i] != '\t' ==> res == before + [str[i]]
    ensures before + ExpandFrom(|before|, str[i..]) == res + ExpandFrom(n, str[i + 1..])
  {
    assert str[i..][0] == str[i] && str[i..][1..] == str[i + 1..];
    var now := if str[i] == '\t' then Spaces(n - |before|) else [str[i]];
    assert before + (now + ExpandFrom(n, str[i + 1..])) == before + now + ExpandFrom(n, str[i + 1..]);
  }

  lemma NextStop(col: nat, n: nat)
    requires col < n <= col + 8 - col % 8 && n % 8 == 0
    ensures n == col + 8 - col % 8
  {
  }

  lemma {:induction false} ExpandConcat(col: nat, s: string, t: string)
    ensures ExpandFrom(col, s + t) == ExpandFrom(col, s) + ExpandFrom(col + |ExpandFrom(col, s)|, t)
    decreases |s|
  {
    if s == "" {
      assert s + t == t;
    } else {
      assert (s + t)[1..] == s[1..] + t;
      ExpandConcat(if s[0] == '\t' then col + 8 - col % 8 else col + 1, s[1..], t);
    }
  }

  /** The column at which character `i` of a string stands. */
  function Column(s: string, i: nat): nat
    requires i <= |s|
  {
    |Expand(s[..i])|
  }

  lemma SplitAt(s: string, i: nat)
    requires i < |s|
    ensures s == s[..i] + ([s[i]] + s[i + 1..]) && s[..i + 1] == s[..i] + [s[i]]
  {
  }

  lemma ExpandOne(col: nat, c: char)
    ensures ExpandFrom(col, [c]) == if c == '\t' then Spaces(8 - col % 8) else [c]
  {
    assert [c][1..] == "";
  }

  lemma ExpandAround(s: string, i: nat)
    requires i < |s|
    ensures var one := if s[i] == '\t' then Spaces(8 - Column(s, i) % 8) else [s[i]];
      && Column(s, i + 1) == Column(s, i) + |one|
      && Expand(s) == Expand(s[..i]) + (one + ExpandFrom(Column(s, i + 1), s[i + 1..]))
  {
    var a, rest := Column(s, i), s[i + 1..];
    SplitAt(s, i);
    ExpandConcat(0, s[..i], [s[i]] + rest);
    ExpandConcat(a, [s[i]], rest);
    ExpandConcat(0, s[..i], [s[i]]);
    ExpandOne(a, s[i]);
  }

  /**
     What expansion means: a tab reaches to the next multiple of eight and is blank on the way, and any other
     character takes one column and is found there.
   */
  lemma ExpandMeans(s: string, i: nat)
    requires i < |s|
    ensures var a, b := Column(s, i), Column(s, i + 1);
      && (i == 0 ==> a == 0) && b <= |Expand(s)| && (i + 1 == |s| ==> b == |Expand(s)|)
      && (s[i] != '\t' ==> b == a + 1 && Expand(s)[a] == s[i])
      && (s[i] == '\t' ==> b % 8 == 0 && a < b <= a + 8 && forall k | a <= k < b :: Expand(s)[k] == ' ')
  {
    ExpandAround(s, i);
    if i + 1 == |s| {
      assert s[..i + 1] == s;
    }
  }

  lemma {:induction false} ExpandHasNoTabs(col: nat, s: string)
    ensures '\t' !in ExpandFrom(col, s)
    decreases |s|
  {
    if s != "" {
      ExpandHasNoTabs(if s[0] == '\t' then col + 8 - col % 8 else col + 1, s[1..]);
    }
  }

  lemma {:induction false} ExpandNoTabs(col: nat, s: string)
    requires '\t' !in s
    ensures ExpandFrom(col, s) == s
    decreases |s|
  {
    if s != "" {
      ExpandNoTabs(col + 1, s[1..]);
    }
  }

  lemma ExpandTwice(s: string)
    ensures Expand(Expand(s)) == Expand(s)
  {
    ExpandHasNoTabs(0, s);
    ExpandNoTabs(0, Expand(s));
  }

  // ---------- the two rewritings ----------

  /** How many times `c` stands in a row from position `i` on. */
  function RunLength(s: string, i: nat, c: char): (n: nat)
    requires i <= |s|
    ensures i + n <= |s| && forall k | i <= k < i + n :: s[k] == c
    ensures i + n < |s| ==> s[i + n] != c
    decreases |s| - i
  {
    if i < |s| && s[i] == c then 1 + RunLength(s, i + 1, c) else 0
  }

  function LeadingTabs(s: string): (n: nat)
    ensures n <= |s| && forall k | 0 <= k < n :: s[k] == '\t'
    ensures n < |s| ==> s[n] != '\t'
  {
    RunLength(s, 0, '\t')
  }

  function SpacesAfterTabs(s: string): (k: nat)
    ensures LeadingTabs(s) + k <= |s|
  {
    RunLength(s, LeadingTabs(s), ' ')
  }

  /** The first pattern: tabs, then eight spaces. */
  predicate Wide(s: string) {
    SpacesAfterTabs(s) >= 8
  }

  function OneWide(s: string): (r: string)
    requires Wide(s)
    ensures |r| == |s| - 7
  {
    s[..LeadingTabs(s)] + ("\t" + s[LeadingTabs(s) + 8..])
  }

  /** The second pattern: tabs, then one to seven spaces, then a tab. */
  predicate Narrow(s: string) {
    var n, k := LeadingTabs(s), SpacesAfterTabs(s);
    1 <= k <= 7 && n + k < |s| && s[n + k] == '\t'
  }

  function OneNarrow(s: string): (r: string)
    requires Narrow(s)
    ensures |r| < |s|
  {
    s[..LeadingTabs(s)] + ("\t" + s[LeadingTabs(s) + SpacesAfterTabs(s) + 1..])
  }

  function AllWide(s: string): (r: string)
    ensures !Wide(r) && |r| <= |s|
    decreases |s|
  {
    if Wide(s) then AllWide(OneWide(s)) else s
  }

  function AllNarrow(s: string): (r: string)
    ensures !Narrow(r) && |r| <= |s|
    decreases |s|
  {
    if Narrow(s) then AllNarrow(OneNarrow(s)) else s
  }

  method Tabify(str: string) returns (leading: string)
    ensures leading == AllNarrow(AllWide(str))
    ensures Expand(leading) == Expand(str)
    ensures |leading| <= |str| && !Narrow(leading)
  {
    leading := str;
    while Wide(leading)
      invariant AllWide(leading) == AllWide(str) && Expand(leading) == Expand(str) && |leading| <= |str|
      decreases |leading|
    {
      OneWideLooksSame(leading);
      leading := OneWide(leading);
    }
    while Narrow(leading)
      invariant AllNarrow(leading) == AllNarrow(AllWide(str)) && Expand(leading) == Expand(str) && |leading| <= |str|
      decreases |leading|
    {
      OneNarrowLooksSame(leading);
      leading := OneNarrow(leading);
    }
  }

  lemma {:induction false} TabsEndOnAStop(col: nat, s: string)
    requires col % 8 == 0 && forall k | 0 <= k < |s| :: s[k] == '\t'
    ensures |ExpandFrom(col, s)| % 8 == 0
    decreases |s|
  {
    if s != "" {
      TabsEndOnAStop(col + 8, s[1..]);
    }
  }

  lemma {:induction false} ExpandBlanks(col: nat, n: nat, rest: string)
    ensures ExpandFrom(col, Spaces(n) + rest) == Spaces(n) + ExpandFrom(col + n, rest)
    decreases n
  {
    if n == 0 {
      assert Spaces(n) + rest == rest;
    } else {
      BlanksPeel(n, rest);
      ExpandBlanks(col + 1, n - 1, rest);
      BlanksPeel(n, ExpandFrom(col + n, rest));
    }
  }

  lemma BlanksPeel(n: nat, rest: string)
    requires n > 0
    ensures var s := Spaces(n) + rest; s[0] == ' ' && s[1..] == Spaces(n - 1) + rest
    ensures Spaces(n) + rest == [' '] + (Spaces(n - 1) + rest)
  {
  }

  lemma TabExpands(col: nat, rest: string)
    ensures ExpandFrom(col, "\t" + rest) == Spaces(8 - col % 8) + ExpandFrom(col + 8 - col % 8, rest)
  {
    assert ("\t" + rest)[1..] == rest;
  }

  /** Eight blanks from a tab stop look like a tab. */
  lemma EightLookLikeTab(col: nat, rest: string)
    requires col % 8 == 0
    ensures ExpandFrom(col, Spaces(8) + rest) == ExpandFrom(col, "\t" + rest)
  {
    TabExpands(col, rest);
    ExpandBlanks(col, 8, rest);
  }

  /** Fewer blanks and then a tab look like the tab. */
  lemma BlanksBeforeTabVanish(col: nat, n: nat, rest: string)
    requires col % 8 == 0 && n < 8
    ensures ExpandFrom(col, Spaces(n) + ("\t" + rest)) == ExpandFrom(col, "\t" + rest)
  {
    TabExpands(col, rest);
    ExpandBlanks(col, n, "\t" + rest);
    TabExpands(col + n, rest);
    assert (col + n) % 8 == n;
    BlanksAdd(n, 8 - n, ExpandFrom(col + 8, rest));
  }

  lemma BlanksAdd(n: nat, m: nat, rest: string)
    ensures Spaces(n) + (Spaces(m) + rest) == Spaces(n + m) + rest
  {
  }

  lemma SameAfterTabs(tabs: string, a: string, b: string)
    requires forall k | 0 <= k < |tabs| :: tabs[k] == '\t'
    requires forall col: nat | col % 8 == 0 :: ExpandFrom(col, a) == ExpandFrom(col, b)
    ensures Expand(tabs + a) == Expand(tabs + b)
  {
    ExpandConcat(0, tabs, a);
    ExpandConcat(0, tabs, b);
    TabsEndOnAStop(0, tabs);
  }

  lemma BlanksAre(s: string, i: nat, j: nat)
    requires i <= j <= |s| && forall k | i <= k < j :: s[k] == ' '
    ensures s == s[..i] + (Spaces(j - i) + s[j..])
  {
    assert s[i..j] == Spaces(j - i);
    assert s == s[..i] + (s[i..j] + s[j..]);
  }

  lemma WideParts(s: string)
    requires Wide(s)
    ensures var n := LeadingTabs(s);
      s == s[..n] + (Spaces(8) + s[n + 8..])
  {
    BlanksAre(s, LeadingTabs(s), LeadingTabs(s) + 8);
  }

  lemma OneWideLooksSame(s: string)
    requires Wide(s)
    ensures Expand(OneWide(s)) == Expand(s)
  {
    var n := LeadingTabs(s);
    var rest := s[n + 8..];
    WideParts(s);
    forall col: nat | col % 8 == 0 ensures ExpandFrom(col, Spaces(8) + rest) == ExpandFrom(col, "\t" + rest) {
      EightLookLikeTab(col, rest);
    }
    SameAfterTabs(s[..n], Spaces(8) + rest, "\t" + rest);
  }

  lemma BlanksThenTab(s: string, i: nat, j: nat)
    requires i <= j < |s| && s[j] == '\t' && forall k | i <= k < j :: s[k] == ' '
    ensures s == s[..i] + (Spaces(j - i) + ("\t" + s[j + 1..]))
  {
    BlanksAre(s, i, j);
    assert s[j..] == "\t" + s[j + 1..];
  }

  lemma OneNarrowLooksSame(s: string)
    requires Narrow(s)
    ensures Expand(OneNarrow(s)) == Expand(s)
  {
    var n, k := LeadingTabs(s), SpacesAfterTabs(s);
    var rest := s[n + k + 1..];
    BlanksThenTab(s, n, n + k);
    forall col: nat | col % 8 == 0
      ensures ExpandFrom(col, Spaces(k) + ("\t" + rest)) == ExpandFrom(col, "\t" + rest)
    {
      BlanksBeforeTabVanish(col, k, rest);
    }
    SameAfterTabs(s[..n], Spaces(k) + ("\t" + rest), "\t" + rest);
  }

  // ---------- plain indentation ----------

  /** `a` tabs, `n` spaces and a text that does not start with a blank. */
  function Indented(a: nat, n: nat, rest: string): string {
    Copies('\t', a) + Spaces(n) + rest
  }

  predicate NoBlank(rest: string) {
    rest != "" ==> rest[0] != ' ' && rest[0] != '\t'
  }

  lemma {:induction false} RunLengthIs(s: string, i: nat, n: nat, c: char)
    requires i + n <= |s| && (forall k | i <= k < i + n :: s[k] == c) && (i + n < |s| ==> s[i + n] != c)
    ensures RunLength(s, i, c) == n
    decreases n
  {
    if n > 0 {
      RunLengthIs(s, i + 1, n - 1, c);
    }
  }

  lemma IndentedRuns(a: nat, n: nat, rest: string)
    requires NoBlank(rest)
    ensures LeadingTabs(Indented(a, n, rest)) == a && SpacesAfterTabs(Indented(a, n, rest)) == n
  {
    var s := Indented(a, n, rest);
    assert a + n < |s| ==> s[a + n] == rest[0];
    RunLengthIs(s, 0, a, '\t');
    RunLengthIs(s, a, n, ' ');
  }

  lemma OneWideIndent(a: nat, n: nat, rest: string)
    requires n >= 8 && LeadingTabs(Indented(a, n, rest)) == a && Wide(Indented(a, n, rest))
    ensures OneWide(Indented(a, n, rest)) == Indented(a + 1, n - 8, rest)
  {
  }

  lemma NoTabFollows(a: nat, n: nat, rest: string)
    requires NoBlank(rest) && LeadingTabs(Indented(a, n, rest)) == a && SpacesAfterTabs(Indented(a, n, rest)) == n
    ensures !Narrow(Indented(a, n, rest))
  {
    var s := Indented(a, n, rest);
    assert a + n < |s| ==> s[a + n] == rest[0];
  }

  lemma AllWideStep(s: string)
    ensures AllWide(s) == if Wide(s) then AllWide(OneWide(s)) else s
  {
  }

  lemma AllWideMore(a: nat, n: nat, rest: string, wide: string)
    requires NoBlank(rest) && n >= 8 && wide == AllWide(Indented(a, n, rest))
    ensures wide == AllWide(Indented(a + 1, n - 8, rest))
  {
    IndentedRuns(a, n, rest);
    AllWideStep(Indented(a, n, rest));
    OneWideIndent(a, n, rest);
  }

  lemma AllWideDone(a: nat, n: nat, b: nat, m: nat, rest: string, wide: string)
    requires NoBlank(rest) && n < 8 && a == b && n == m && wide == AllWide(Indented(a, n, rest))
    ensures wide == Indented(b, m, rest)
  {
    IndentedRuns(a, n, rest);
    AllWideStep(Indented(a, n, rest));
  }

  lemma {:induction false} AllWideIndent(q: nat, a: nat, b: nat, n: nat, m: nat, rest: string, wide: string)
    requires NoBlank(rest) && m < 8 && b == a + q && n == 8 * q + m && wide == AllWide(Indented(a, n, rest))
    ensures wide == Indented(b, m, rest)
    decreases q
  {
    if q == 0 {
      AllWideDone(a, n, b, m, rest, wide);
    } else {
      AllWideMore(a, n, rest, wide);
      AllWideIndent(q - 1, a + 1, b, n - 8, m, rest, wide);
    }
  }

  /** Indentation by tabs and then spaces comes out in normal form. */
  lemma TabifyIndent(a: nat, n: nat, rest: string)
    requires NoBlank(rest)
    ensures AllNarrow(AllWide(Indented(a, n, rest))) == Indented(a + n / 8, n % 8, rest)
  {
    var b, m := a + n / 8, n % 8;
    AllWideIndent(n / 8, a, b, n, m, rest, AllWide(Indented(a, n, rest)));
    IndentedRuns(b, m, rest);
    NoTabFollows(b, m, rest);
  }

  // ---------- what each loop does, on any text ----------

  lemma {:induction false} RunIsLong(s: string, i: nat, n: nat, c: char)
    requires i + n <= |s| && forall k | i <= k < i + n :: s[k] == c
    ensures RunLength(s, i, c) >= n
    decreases n
  {
    if n > 0 {
      RunIsLong(s, i + 1, n - 1, c);
    }
  }

  lemma OneWideIs(a: nat, rest: string)
    ensures var s := Indented(a, 8, rest); Wide(s) && OneWide(s) == Indented(a + 1, 0, rest)
  {
    var s := Indented(a, 8, rest);
    RunLengthIs(s, 0, a, '\t');
    RunIsLong(s, a, 8, ' ');
  }

  /** The first loop makes a tab of eight spaces behind the leading tabs, whatever follows, and goes on. */
  lemma WideTurn(a: nat, rest: string)
    ensures AllWide(Indented(a, 8, rest)) == AllWide(Indented(a + 1, 0, rest))
  {
    OneWideIs(a, rest);
    AllWideStep(Indented(a, 8, rest));
  }

  /** Nothing more can be added to these tabs and spaces from what follows them. */
  predicate EndsIndent(n: nat, rest: string) {
    rest != "" ==> rest[0] != ' ' && (n == 0 ==> rest[0] != '\t')
  }

  lemma IndentRuns(a: nat, n: nat, rest: string)
    requires EndsIndent(n, rest)
    ensures LeadingTabs(Indented(a, n, rest)) == a && SpacesAfterTabs(Indented(a, n, rest)) == n
  {
    var s := Indented(a, n, rest);
    assert a + n < |s| ==> s[a + n] == rest[0];
    RunLengthIs(s, 0, a, '\t');
    RunLengthIs(s, a, n, ' ');
  }

  /** It stops at fewer than eight spaces. */
  lemma WideStops(a: nat, n: nat, rest: string)
    requires EndsIndent(n, rest) && n < 8
    ensures AllWide(Indented(a, n, rest)) == Indented(a, n, rest)
  {
    IndentRuns(a, n, rest);
    AllWideStep(Indented(a, n, rest));
  }

  lemma AllNarrowStep(s: string)
    ensures AllNarrow(s) == if Narrow(s) then AllNarrow(OneNarrow(s)) else s
  {
  }

  lemma OneNarrowIs(a: nat, n: nat, rest: string)
    requires 1 <= n <= 7
    ensures var s := Indented(a, n, "\t" + rest); Narrow(s) && OneNarrow(s) == Indented(a + 1, 0, rest)
  {
    var s := Indented(a, n, "\t" + rest);
    IndentRuns(a, n, "\t" + rest);
    assert s[a + n] == '\t' && s[a + n + 1..] == rest;
  }

  /** The second loop drops one to seven spaces between the leading tabs and another tab, and goes on. */
  lemma NarrowTurn(a: nat, n: nat, rest: string)
    requires 1 <= n <= 7
    ensures AllNarrow(Indented(a, n, "\t" + rest)) == AllNarrow(Indented(a + 1, 0, rest))
  {
    OneNarrowIs(a, n, rest);
    AllNarrowStep(Indented(a, n, "\t" + rest));
  }

  /** It stops at no space, at eight or more, and where no tab follows. */
  lemma NarrowStops(a: nat, n: nat, rest: string)
    requires EndsIndent(n, rest) && (n == 0 || n >= 8 || rest == "" || rest[0] != '\t')
    ensures AllNarrow(Indented(a, n, rest)) == Indented(a, n, rest)
  {
    var s := Indented(a, n, rest);
    IndentRuns(a, n, rest);
    assert a + n < |s| ==> s[a + n] == rest[0];
    AllNarrowStep(s);
  }

  // ---------- what is left in front of a tab ----------

  predicate IsBlank(c: char) {
    c == ' ' || c == '\t'
  }

  /** The length of the indentation: all blanks and tabs a string starts with. */
  function Indent(s: string): (n: nat)
    ensures n <= |s| && forall k | 0 <= k < n :: IsBlank(s[k])
    ensures n < |s| ==> !IsBlank(s[n])
  {
    if s == "" || !IsBlank(s[0]) then 0 else 1 + Indent(s[1..])
  }

  lemma {:induction false} IndentIs(s: string, n: nat)
    requires n <= |s| && (forall k | 0 <= k < n :: IsBlank(s[k])) && (n < |s| ==> !IsBlank(s[n]))
    ensures Indent(s) == n
  {
    if n > 0 {
      IndentIs(s[1..], n - 1);
    }
  }

  /** Eight spaces of the indentation start at position `i`. */
  ghost predicate EightAt(s: string, i: nat) {
    i + 8 <= Indent(s) && forall k | i <= k < i + 8 :: s[k] == ' '
  }

  lemma EightHas(s: string, i: nat, j: nat)
    requires EightAt(s, i) && j < |s|
    ensures i <= j < i + 8 ==> s[j] == ' '
    ensures LeadingTabs(s) <= i && s[i] == ' '
  {
    assert s[i] == ' ';
  }

  /** No run of eight or more spaces stands in the indentation. */
  ghost predicate NoEight(s: string) {
    forall i: nat :: !EightAt(s, i)
  }

  /** No run of eight or more spaces in the indentation ends in a tab. */
  ghost predicate NoEightBeforeTab(s: string) {
    forall i: nat :: EightAt(s, i) ==> i + 8 == Indent(s) || s[i + 8] != '\t'
  }

  /** Somewhere in the indentation a space stands before a tab. */
  ghost predicate SpaceBeforeTab(s: string) {
    exists i, j :: 0 <= i < j < Indent(s) && s[i] == ' ' && s[j] == '\t'
  }

  lemma OneNarrowAt(s: string)
    requires Narrow(s)
    ensures var n, k, r := LeadingTabs(s), SpacesAfterTabs(s), OneNarrow(s);
      && |r| == |s| - k
      && (forall i | 0 <= i <= n :: r[i] == '\t')
      && forall i {:trigger r[i]} | n < i < |r| :: r[i] == s[i + k]
  {
  }

  lemma NarrowIndent(s: string)
    requires Narrow(s)
    ensures LeadingTabs(s) + SpacesAfterTabs(s) < Indent(s)
  {
    var m := LeadingTabs(s) + SpacesAfterTabs(s);
    assert forall i | 0 <= i <= m :: IsBlank(s[i]);
  }

  /** What one turn of the second loop does to positions: it takes away the `k` spaces after the tabs. */
  lemma NarrowShifts(s: string)
    requires Narrow(s)
    ensures var n, k, r := LeadingTabs(s), SpacesAfterTabs(s), OneNarrow(s);
      && n + k < Indent(s) && Indent(r) == Indent(s) - k && |r| == |s| - k
      && (forall i | 0 <= i <= n :: r[i] == '\t')
      && forall i {:trigger r[i]} | n < i < |r| :: r[i] == s[i + k]
  {
    OneNarrowAt(s);
    NarrowIndent(s);
    ShiftedIndent(s, OneNarrow(s), LeadingTabs(s), SpacesAfterTabs(s));
  }

  lemma ShiftedIndent(s: string, r: string, n: nat, k: nat)
    requires n + k < Indent(s) && |r| == |s| - k
    requires forall i | 0 <= i <= n :: r[i] == '\t'
    requires forall i {:trigger r[i]} | n < i < |r| :: r[i] == s[i + k]
    ensures Indent(r) == Indent(s) - k
  {
    IndentIs(r, Indent(s) - k);
  }

  lemma NarrowKeepsEight(s: string, i: nat)
    requires Narrow(s)
    ensures var n, k := LeadingTabs(s), SpacesAfterTabs(s);
      && (EightAt(OneNarrow(s), i) ==> EightAt(s, i + k))
      && (EightAt(s, i) ==> i > n + k && EightAt(OneNarrow(s), i - k))
  {
    var n, k, r := LeadingTabs(s), SpacesAfterTabs(s), OneNarrow(s);
    NarrowShifts(s);
    if EightAt(r, i) {
      assert r[i] == ' ';
      forall j | i + k <= j < i + k + 8 ensures s[j] == ' ' {
        assert r[j - k] == ' ';
      }
    }
    if EightAt(s, i) {
      EightHas(s, i, n + k);
      forall j | i - k <= j < i - k + 8 ensures r[j] == ' ' {
        assert r[j] == s[j + k];
      }
    }
  }

  lemma NarrowKeeps(s: string)
    requires Narrow(s)
    ensures NoEight(OneNarrow(s)) == NoEight(s) && NoEightBeforeTab(OneNarrow(s)) == NoEightBeforeTab(s)
  {
    var n, k, r := LeadingTabs(s), SpacesAfterTabs(s), OneNarrow(s);
    NarrowShifts(s);
    forall i: nat ensures EightAt(r, i) ==> EightAt(s, i + k) && i > n {
      NarrowKeepsEight(s, i);
      if EightAt(r, i) {
        assert r[i] == ' ';
      }
    }
    forall i: nat ensures EightAt(s, i) ==> i > n + k && EightAt(r, i - k) {
      NarrowKeepsEight(s, i);
    }
    if !NoEight(r) {
      var i: nat :| EightAt(r, i);
      assert EightAt(s, i + k);
    }
    if !NoEightBeforeTab(r) {
      var i: nat :| EightAt(r, i) && !(i + 8 == Indent(r) || r[i + 8] != '\t');
      assert EightAt(s, i + k) && r[i + 8] == s[i + k + 8];
    }
    if !NoEightBeforeTab(s) {
      var i: nat :| EightAt(s, i) && !(i + 8 == Indent(s) || s[i + 8] != '\t');
      assert EightAt(r, i - k) && r[i - k + 8] == s[i + 8];
    }
  }

  lemma {:induction false} AllNarrowKeeps(s: string)
    ensures NoEight(AllNarrow(s)) == NoEight(s) && NoEightBeforeTab(AllNarrow(s)) == NoEightBeforeTab(s)
    decreases |s|
  {
    if Narrow(s) {
      NarrowKeeps(s);
      AllNarrowKeeps(OneNarrow(s));
    }
  }

  /** Where the second loop stops: at the end of the indentation, or before eight spaces and a tab. */
  lemma WhereItStops(r: string)
    requires !Narrow(r)
    ensures var n, k := LeadingTabs(r), SpacesAfterTabs(r);
      || n + k == Indent(r)
      || (k >= 8 && n + k < Indent(r) && r[n + k] == '\t' && EightAt(r, n + k - 8))
  {
    var n, k := LeadingTabs(r), SpacesAfterTabs(r);
    assert forall i | 0 <= i < n + k :: IsBlank(r[i]);
    if n + k == |r| || !IsBlank(r[n + k]) {
      IndentIs(r, n + k);
    } else {
      assert n + k < Indent(r);
    }
  }

  /** Where no space stands before a tab, the indentation is tabs and then spaces. */
  lemma OrderedIs(r: string)
    requires !Narrow(r)
    ensures SpaceBeforeTab(r) <==> LeadingTabs(r) + SpacesAfterTabs(r) < Indent(r)
    ensures LeadingTabs(r) + SpacesAfterTabs(r) < Indent(r) ==> !NoEightBeforeTab(r)
    ensures LeadingTabs(r) + SpacesAfterTabs(r) == Indent(r) ==> NoEightBeforeTab(r)
    ensures LeadingTabs(r) + SpacesAfterTabs(r) == Indent(r) ==> (NoEight(r) <==> SpacesAfterTabs(r) < 8)
  {
    var n, k := LeadingTabs(r), SpacesAfterTabs(r);
    WhereItStops(r);
    if n + k == Indent(r) {
      forall i: nat | EightAt(r, i) ensures i >= n && k >= 8 && (i + 8 == Indent(r) || r[i + 8] != '\t') {
        EightHas(r, i, i);
      }
      assert k >= 8 ==> EightAt(r, n);
    } else {
      assert r[n] == ' ' && r[n + k] == '\t';
      assert EightAt(r, n + k - 8) && r[n + k - 8 + 8] == '\t';
    }
  }

  /**
     Spaces are removed before a tab, as the source says, exactly if no eight spaces in a row stand before a
     tab once the leading spaces are converted.
   */
  lemma SpacesBeforeTabs(str: string)
    ensures !SpaceBeforeTab(AllNarrow(AllWide(str))) <==> NoEightBeforeTab(AllWide(str))
  {
    AllNarrowKeeps(AllWide(str));
    OrderedIs(AllNarrow(AllWide(str)));
  }

  /** And the result is tabs and then at most seven spaces exactly if no eight stand there in a row at all. */
  lemma NormalForm(str: string)
    ensures var r := AllNarrow(AllWide(str));
      LeadingTabs(r) + SpacesAfterTabs(r) == Indent(r) && SpacesAfterTabs(r) < 8 <==> NoEight(AllWide(str))
  {
    var r := AllNarrow(AllWide(str));
    AllNarrowKeeps(AllWide(str));
    OrderedIs(r);
    WhereItStops(r);
    if LeadingTabs(r) + SpacesAfterTabs(r) < Indent(r) {
      assert EightAt(r, LeadingTabs(r) + SpacesAfterTabs(r) - 8);
    }
  }

  lemma EightStayInPlace(r: string, rest: string)
    requires r == "\t        \t" + rest
    ensures AllNarrow(r) == r && SpaceBeforeTab(r)
  {
    RunLengthIs(r, 0, 1, '\t');
    RunLengthIs(r, 1, 8, ' ');
    assert Indent(r) >= 10 by {
      assert forall k | 0 <= k < 10 :: IsBlank(r[k]);
    }
    assert r[1] == ' ' && r[9] == '\t';
  }

  /** Two spaces, a tab and eight spaces before another tab: those eight stay where they are. */
  lemma EightStay(str: string, rest: string)
    requires str == "  \t        \t" + rest
    ensures AllNarrow(AllWide(str)) == "\t        \t" + rest && SpaceBeforeTab(AllNarrow(AllWide(str)))
  {
    RunLengthIs(str, 0, 0, '\t');
    RunLengthIs(str, 0, 2, ' ');
    assert AllWide(str) == str;
    assert OneNarrow(str) == "\t        \t" + rest;
    EightStayInPlace(OneNarrow(str), rest);
  }

  // ---------- the fewest characters ----------

  ghost predicate AllBlank(s: string) {
    forall k | 0 <= k < |s| :: IsBlank(s[k])
  }

  /** No blank string of the same width is shorter. */
  ghost predicate Shortest(r: string) {
    forall u: string | AllBlank(u) && |Expand(u)| == |Expand(r)| :: |r| <= |u|
  }

  /** A width takes at least its eighth part in tabs, and the rest in spaces. */
  lemma {:induction false} WidthBound(u: string)
    requires AllBlank(u)
    ensures |u| >= |Expand(u)| / 8 + |Expand(u)| % 8
    decreases |u|
  {
    if u != "" {
      var front := u[..|u| - 1];
      WidthBound(front);
      ExpandAround(u, |u| - 1);
      assert u[..|u| - 1 + 1] == u;
    }
  }

  lemma NormalIs(r: string)
    requires AllBlank(r) && LeadingTabs(r) + SpacesAfterTabs(r) == |r|
    ensures r == Copies('\t', LeadingTabs(r)) + Spaces(SpacesAfterTabs(r))
  {
  }

  lemma NormalWidth(r: string)
    requires AllBlank(r) && LeadingTabs(r) + SpacesAfterTabs(r) == |r| && SpacesAfterTabs(r) < 8
    ensures |r| == |Expand(r)| / 8 + |Expand(r)| % 8
  {
    var n, k := LeadingTabs(r), SpacesAfterTabs(r);
    NormalIs(r);
    TabsThenSpaces(n, k);
    assert |Expand(r)| == 8 * n + k;
  }

  lemma TabsThenSpaces(n: nat, k: nat)
    ensures |Expand(Copies('\t', n) + Spaces(k))| == 8 * n + k
  {
    ExpandConcat(0, Copies('\t', n), Spaces(k));
    TabsWidth(0, n);
    ExpandNoTabs(8 * n, Spaces(k));
  }

  lemma {:induction false} TabsWidth(col: nat, n: nat)
    requires col % 8 == 0
    ensures |ExpandFrom(col, Copies('\t', n))| == 8 * n
    decreases n
  {
    if n > 0 {
      var s := Copies('\t', n);
      assert s[1..] == Copies('\t', n - 1);
      TabsWidth(col + 8, n - 1);
    }
  }

  lemma {:induction false} AllWideBlank(s: string)
    requires AllBlank(s)
    ensures AllBlank(AllWide(s)) && Expand(AllWide(s)) == Expand(s)
    decreases |s|
  {
    if Wide(s) {
      OneWideLooksSame(s);
      assert AllBlank(OneWide(s));
      AllWideBlank(OneWide(s));
    }
  }

  lemma {:induction false} AllNarrowBlank(s: string)
    requires AllBlank(s)
    ensures AllBlank(AllNarrow(s)) && Expand(AllNarrow(s)) == Expand(s)
    decreases |s|
  {
    if Narrow(s) {
      OneNarrowLooksSame(s);
      assert AllBlank(OneNarrow(s));
      AllNarrowBlank(OneNarrow(s));
    }
  }

  /**
     A string of blanks comes out as short as any of its width exactly if no eight spaces stand in a row once
     the leading spaces are converted.
   */
  lemma TabifyShortest(w: string)
    requires AllBlank(w)
    ensures Expand(AllNarrow(AllWide(w))) == Expand(w)
    ensures Shortest(AllNarrow(AllWide(w))) <==> NoEight(AllWide(w))
  {
    var r := AllNarrow(AllWide(w));
    AllWideBlank(w);
    AllNarrowBlank(AllWide(w));
    IndentIs(r, |r|);
    NormalForm(w);
    if NoEight(AllWide(w)) {
      NormalWidth(r);
      forall u: string | AllBlank(u) && |Expand(u)| == |Expand(r)| ensures |r| <= |u| {
        WidthBound(u);
      }
    } else {
      NotShortest(r);
    }
  }

  /** Eight spaces anywhere can be written with fewer characters. */
  lemma NotShortest(r: string)
    requires AllBlank(r) && !(LeadingTabs(r) + SpacesAfterTabs(r) == |r| && SpacesAfterTabs(r) < 8) && !Narrow(r)
    ensures !Shortest(r)
  {
    IndentIs(r, |r|);
    WhereItStops(r);
    assert Wide(r);
    OneWideLooksSame(r);
    assert AllBlank(OneWide(r)) && |OneWide(r)| < |r|;
  }
}
