/** Texts of lines with numbers after labels: how numbers are printed, and a reader that gets them back. */
module Reports {
  import opened Options

  // ---------- numbers ----------

  const DIGITS := "0123456789"

  function Decimal(n: nat): string {
    if n < 10 then [DIGITS[n]] else Decimal(n / 10) + [DIGITS[n % 10]]
  }

  function Number(s: string): int {
    if s == "" then 0 else 10 * Number(s[..|s| - 1]) + (s[|s| - 1] as int - '0' as int)
  }

  lemma {:induction false} DecimalReadsBack(n: nat)
    ensures Number(Decimal(n)) == n
  {
    var d := DIGITS[n % 10];
    assert d as int == '0' as int + n % 10;
    if n < 10 {
      assert [d][..0] == "";
    } else {
      DecimalReadsBack(n / 10);
      assert (Decimal(n / 10) + [d])[..|Decimal(n / 10)|] == Decimal(n / 10);
    }
  }

  predicate IsDigit(c: char) {
    '0' <= c <= '9'
  }

  /** A number is printed in digits only, and without zeros in front. */
  lemma {:induction false} DecimalIsDigits(n: nat)
    ensures Decimal(n) != "" && (forall i | 0 <= i < |Decimal(n)| :: '0' <= Decimal(n)[i] <= '9')
    ensures n > 0 ==> Decimal(n)[0] != '0'
  {
    if n >= 10 {
      DecimalIsDigits(n / 10);
    }
  }

  /** Each digit counts ten times the next. */
  lemma NumberOneMore(s: string, d: nat)
    requires d < 10
    ensures Number(s + ['0' + d as char]) == 10 * Number(s) + d
  {
    var t := s + ['0' + d as char];
    assert t[..|t| - 1] == s;
  }

  // ---------- lines ----------

  function FirstNewline(s: string): (n: nat)
    requires '\n' in s
    ensures n < |s| && s[n] == '\n' && forall i | 0 <= i < n :: s[i] != '\n'
  {
    if s[0] == '\n' then 0 else 1 + FirstNewline(s[1..])
  }

  /** The lines of a text, without the newlines that end them. */
  function SplitLines(s: string): seq<string>
    decreases |s|
  {
    if '\n' in s then [s[..FirstNewline(s)]] + SplitLines(s[FirstNewline(s) + 1..])
    else if s == "" then [] else [s]
  }

  /** The last line of the text is ended. */
  predicate Whole(s: string) {
    s == "" || s[|s| - 1] == '\n'
  }

  lemma SplitAt(s: string, n: nat)
    requires n < |s| && s[n] == '\n' && forall i | 0 <= i < n :: s[i] != '\n'
    ensures SplitLines(s) == [s[..n]] + SplitLines(s[n + 1..])
  {
    assert FirstNewline(s) == n;
  }

  /** A line that is added to whole lines is one line more. */
  lemma {:induction false} SplitOneMore(before: string, line: string, last: string)
    requires Whole(before) && '\n' !in line && last == line + "\n"
    ensures SplitLines(before + last) == SplitLines(before) + [line]
    decreases |before|
  {
    if before == "" {
      OnlyLine(line);
      assert before + last == last;
    } else {
      assert before[|before| - 1] == '\n';
      var n := FirstNewline(before);
      SplitOneMore(before[n + 1..], line, last);
      SplitMore(before, line, last, n);
    }
  }

  lemma SplitMore(before: string, line: string, last: string, n: nat)
    requires n < |before| && before[n] == '\n' && forall i | 0 <= i < n :: before[i] != '\n'
    requires SplitLines(before[n + 1..] + last) == SplitLines(before[n + 1..]) + [line]
    ensures SplitLines(before + last) == SplitLines(before) + [line]
  {
    SplitAt(before, n);
    SplitFront(before, last, n);
  }

  lemma OnlyLine(line: string)
    requires '\n' !in line
    ensures SplitLines(line + "\n") == [line]
  {
    var s := line + "\n";
    SplitAt(s, |line|);
    assert s[..|line|] == line && s[|line| + 1..] == "";
  }

  lemma SplitFront(before: string, last: string, n: nat)
    requires n < |before| && before[n] == '\n' && forall i | 0 <= i < n :: before[i] != '\n'
    ensures SplitLines(before + last) == [before[..n]] + SplitLines(before[n + 1..] + last)
  {
    var all := before + last;
    SplitAt(all, n);
    assert all[..n] == before[..n] && all[n + 1..] == before[n + 1..] + last;
  }

  // ---------- the numbers of a line ----------

  function DigitRun(s: string): (n: nat)
    ensures n <= |s| && (forall i | 0 <= i < n :: '0' <= s[i] <= '9')
    ensures n < |s| ==> !('0' <= s[n] <= '9')
  {
    if s == "" || !IsDigit(s[0]) then 0 else 1 + DigitRun(s[1..])
  }

  /** The numbers that stand in a line after these labels, one after the other and with nothing else in between. */
  function ReadFields(s: string, labels: seq<string>): Option<seq<int>>
    decreases |labels|
  {
    if labels == [] then (if s == "" then Some([]) else None)
    else if !(labels[0] <= s) then None
    else
      var rest := s[|labels[0]|..];
      var n := DigitRun(rest);
      if n == 0 then None
      else
        match ReadFields(rest[n..], labels[1..])
        case None => None
        case Some(v) => Some([Number(rest[..n])] + v)
  }

  lemma DigitRunIs(d: string, rest: string)
    requires (forall i | 0 <= i < |d| :: '0' <= d[i] <= '9') && (rest != "" ==> !('0' <= rest[0] <= '9'))
    ensures DigitRun(d + rest) == |d|
  {
    var s := d + rest;
    assert forall i | 0 <= i < |d| :: s[i] == d[i];
    assert rest != "" ==> s[|d|] == rest[0];
  }

  /** A label, a number, and what follows. */
  function Field(name: string, n: nat, rest: string): string {
    name + Decimal(n) + rest
  }

  predicate NoDigitFirst(s: string) {
    s != "" ==> !('0' <= s[0] <= '9')
  }

  /** One label and one number are read, if no digit follows. */
  lemma FieldReads(s: string, name: string, n: nat, rest: string, names: seq<string>, v: seq<int>)
    requires s == Field(name, n, rest) && NoDigitFirst(rest)
    requires names != [] && v != [] && names[0] == name && v[0] == n && ReadFields(rest, names[1..]) == Some(v[1..])
    ensures ReadFields(s, names) == Some(v) && (name != "" ==> s[0] == name[0])
  {
    var d := Decimal(n);
    DecimalIsDigits(n);
    DecimalReadsBack(n);
    DigitRunIs(d, rest);
    assert s[|name|..] == d + rest && (d + rest)[|d|..] == rest && (d + rest)[..|d|] == d;
    assert s[..|name|] == name;
    assert [n] + v[1..] == v;
  }

  lemma FourFieldsRead(s: string, p: string, a: nat, q: string, b: nat, r: string, c: nat, t: string, d: nat)
    requires q != "" && !IsDigit(q[0]) && r != "" && !IsDigit(r[0]) && t != "" && !IsDigit(t[0])
    requires s == Field(p, a, Field(q, b, Field(r, c, Field(t, d, ""))))
    ensures ReadFields(s, [p, q, r, t]) == Some([a, b, c, d])
  {
    var s4 := Field(t, d, "");
    var s3 := Field(r, c, s4);
    var s2 := Field(q, b, s3);
    Tails(t, "", "", "");
    Tails<int>(d, 0, 0, 0);
    FieldReads(s4, t, d, "", [t], [d]);
    Tails(r, t, "", "");
    Tails<int>(c, d, 0, 0);
    FieldReads(s3, r, c, s4, [r, t], [c, d]);
    Tails(q, r, t, "");
    Tails<int>(b, c, d, 0);
    FieldReads(s2, q, b, s3, [q, r, t], [b, c, d]);
    Tails(p, q, r, t);
    Tails<int>(a, b, c, d);
    FieldReads(s, p, a, s2, [p, q, r, t], [a, b, c, d]);
  }

  lemma Tails<T>(a: T, b: T, c: T, d: T)
    ensures [a][1..] == [] && [a, b][1..] == [b] && [a, b, c][1..] == [b, c] && [a, b, c, d][1..] == [b, c, d]
  {
  }

  // ---------- how many lines ----------

  function Newlines(s: string): nat {
    if s == "" then 0 else Newlines(s[..|s| - 1]) + if s[|s| - 1] == '\n' then 1 else 0
  }

  lemma {:induction false} NewlinesConcat(s: string, t: string)
    ensures Newlines(s + t) == Newlines(s) + Newlines(t)
    decreases |t|
  {
    if t == "" {
      assert s + t == s;
    } else {
      NewlinesConcat(s, t[..|t| - 1]);
      assert (s + t)[..|s + t| - 1] == s + t[..|t| - 1];
    }
  }

  lemma {:induction false} NoNewlines(s: string)
    requires '\n' !in s
    ensures Newlines(s) == 0
  {
    if s != "" {
      NoNewlines(s[..|s| - 1]);
    }
  }

  lemma OneLine(line: string)
    requires '\n' !in line
    ensures Newlines(line + "\n") == 1
  {
    NoNewlines(line);
    NewlinesConcat(line, "\n");
    assert "\n"[..0] == "" && Newlines("\n") == 1;
  }
}
