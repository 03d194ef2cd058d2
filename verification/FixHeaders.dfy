/**
 The hunk headers that the merge of FixLines repairs: which edits find their header, and when the repaired
 length counts the lines of the repaired hunk.
 */
module FixHeaders {
  import opened FixLines

  // ---------- changes to a header ----------

  /** What one call of fixup_current_range adds to a header's start and to its length. */
  datatype Change = Change(offset: int, length: int)

  /** A header after some calls. */
  function Bumped(l: Line, cs: seq<Change>): Line {
    if cs == [] then l
    else Bump(Bumped(l, cs[..|cs| - 1]), cs[|cs| - 1].offset, cs[|cs| - 1].length)
  }

  function Offsets(cs: seq<Change>): int {
    if cs == [] then 0 else Offsets(cs[..|cs| - 1]) + cs[|cs| - 1].offset
  }

  function Lengths(cs: seq<Change>): int {
    if cs == [] then 0 else Lengths(cs[..|cs| - 1]) + cs[|cs| - 1].length
  }

  /** By plain addition from the numbers in the input, start and length are negative at no point. */
  ghost predicate Stays(l: Line, cs: seq<Change>)
    requires l.Hunk?
  {
    forall i | 0 <= i <= |cs| :: l.newStart + Offsets(cs[..i]) >= 0 && l.newLen + Lengths(cs[..i]) >= 0
  }

  lemma Prefixes(cs: seq<Change>, i: nat)
    requires cs != [] && i <= |cs|
    ensures i == |cs| ==> cs[..i] == cs
    ensures i < |cs| ==> cs[..|cs| - 1][..i] == cs[..i]
  {
  }

  lemma StaysOneMore(l: Line, cs: seq<Change>)
    requires l.Hunk? && cs != []
    ensures Stays(l, cs) <==>
      Stays(l, cs[..|cs| - 1]) && l.newStart + Offsets(cs) >= 0 && l.newLen + Lengths(cs) >= 0
  {
    var front := cs[..|cs| - 1];
    Prefixes(cs, |cs|);
    if Stays(l, cs) {
      forall i | 0 <= i <= |front|
        ensures l.newStart + Offsets(front[..i]) >= 0 && l.newLen + Lengths(front[..i]) >= 0
      {
        Prefixes(cs, i);
      }
    }
    if Stays(l, front) && l.newStart + Offsets(cs) >= 0 && l.newLen + Lengths(cs) >= 0 {
      forall i | 0 <= i <= |cs| ensures l.newStart + Offsets(cs[..i]) >= 0 && l.newLen + Lengths(cs[..i]) >= 0 {
        Prefixes(cs, i);
      }
    }
  }

  /**
     A header is still recognised after some calls exactly if plain addition never went negative; and then it
     holds the sums.
   */
  lemma {:induction false} FoundExactly(l: Line, cs: seq<Change>)
    requires l.Hunk?
    ensures Bumped(l, cs).Hunk? && (IsHeader(Bumped(l, cs)) <==> Stays(l, cs))
    ensures Stays(l, cs) ==>
      Bumped(l, cs) == l.(newStart := l.newStart + Offsets(cs), newLen := l.newLen + Lengths(cs))
    decreases |cs|
  {
    if cs == [] {
      assert cs[..0] == cs;
    } else {
      FoundExactly(l, cs[..|cs| - 1]);
      StaysOneMore(l, cs);
    }
  }

  /** What the calls add to the length that come after plain addition has gone negative. */
  ghost function Missed(l: Line, cs: seq<Change>): int
    requires l.Hunk?
    decreases |cs|
  {
    if cs == [] then 0
    else Missed(l, cs[..|cs| - 1]) + if Stays(l, cs[..|cs| - 1]) then 0 else cs[|cs| - 1].length
  }

  /** The header's length is the sum, but for the calls that come too late. */
  lemma {:induction false} BumpedLength(l: Line, cs: seq<Change>)
    requires l.Hunk?
    ensures Bumped(l, cs).Hunk? && Bumped(l, cs).newLen == l.newLen + Lengths(cs) - Missed(l, cs)
    decreases |cs|
  {
    if cs != [] {
      BumpedLength(l, cs[..|cs| - 1]);
      FoundExactly(l, cs[..|cs| - 1]);
    }
  }

  /** The calls that come too late are all those after the first negative sum. */
  lemma {:induction false} MissedIsTail(l: Line, cs: seq<Change>, m: nat)
    requires l.Hunk? && m <= |cs| && (m > 0 ==> Stays(l, cs[..m - 1])) && (m < |cs| ==> !Stays(l, cs[..m]))
    ensures Missed(l, cs) == Lengths(cs) - Lengths(cs[..m])
    decreases |cs|
  {
    if m < |cs| {
      var front := cs[..|cs| - 1];
      assert front[..m] == cs[..m] && (m > 0 ==> front[..m - 1] == cs[..m - 1]);
      MissedIsTail(l, front, m);
      if m < |cs| - 1 {
        NotAgain(l, cs[..m], front);
      } else {
        assert cs[..m] == front;
      }
    } else {
      assert cs[..m] == cs;
      if cs != [] {
        NothingMissed(l, cs[..m - 1]);
      }
    }
  }

  lemma NotAgain(l: Line, a: seq<Change>, b: seq<Change>)
    requires l.Hunk? && a <= b && !Stays(l, a)
    ensures !Stays(l, b)
  {
    assert forall i | 0 <= i <= |a| :: a[..i] == b[..i];
  }

  lemma {:induction false} NothingMissed(l: Line, cs: seq<Change>)
    requires l.Hunk? && Stays(l, cs)
    ensures Missed(l, cs) == 0
    decreases |cs|
  {
    if cs != [] {
      StaysOneMore(l, cs);
      NothingMissed(l, cs[..|cs| - 1]);
    }
  }

  lemma {:induction false} BumpedConcat(l: Line, a: seq<Change>, b: seq<Change>)
    ensures Bumped(l, a + b) == Bumped(Bumped(l, a), b)
    decreases |b|
  {
    if b == [] {
      assert a + b == a;
    } else {
      assert (a + b)[..|a + b| - 1] == a + b[..|b| - 1];
      BumpedConcat(l, a, b[..|b| - 1]);
    }
  }

  lemma {:induction false} LengthsConcat(a: seq<Change>, b: seq<Change>)
    ensures Lengths(a + b) == Lengths(a) + Lengths(b)
    decreases |b|
  {
    if b == [] {
      assert a + b == a;
    } else {
      assert (a + b)[..|a + b| - 1] == a + b[..|b| - 1];
      LengthsConcat(a, b[..|b| - 1]);
    }
  }

  // ---------- the changes that the edits make ----------

  /** The running offset when the edits at line `k` are met: the edits since the last file name. */
  function Delta(lines: seq<Line>, edits: seq<Edits>, k: nat): int
    requires |edits| == |lines| && k < |lines|
  {
    if lines[k].FileName? || k == 0 then 0
    else Delta(lines, edits, k - 1) + |edits[k - 1].ins| - edits[k - 1].dels
  }

  /** The offset counts the edits since the last file name, or since the start of the patch. */
  lemma {:induction false} DeltaSinceFile(lines: seq<Line>, edits: seq<Edits>, f: nat, k: nat)
    requires |edits| == |lines| && f <= k < |lines| && (f == 0 || lines[f].FileName?)
    requires forall j | f < j <= k :: !lines[j].FileName?
    ensures Delta(lines, edits, k) == Net(edits, f, k)
    decreases k
  {
    if f < k {
      DeltaSinceFile(lines, edits, f, k - 1);
    }
  }

  function Drops(delta: int, n: nat): (r: seq<Change>)
    ensures |r| == n && forall i {:trigger r[i]} | 0 <= i < n :: r[i] == Change(delta - i, -1)
    ensures Lengths(r) == -(n as int)
  {
    if n == 0 then [] else
    var front := Drops(delta, n - 1);
    assert (front + [Change(delta - (n - 1), -1)])[..n - 1] == front;
    front + [Change(delta - (n - 1), -1)]
  }

  function Adds(delta: int, n: nat): (r: seq<Change>)
    ensures |r| == n && forall i {:trigger r[i]} | 0 <= i < n :: r[i] == Change(delta + i, 1)
    ensures Lengths(r) == n
  {
    if n == 0 then [] else
    var front := Adds(delta, n - 1);
    assert (front + [Change(delta + (n - 1), 1)])[..n - 1] == front;
    front + [Change(delta + (n - 1), 1)]
  }

  function ChangesAt(delta: int, e: Edits): seq<Change> {
    Drops(delta, e.dels) + Adds(delta - e.dels, |e.ins|)
  }

  /** All changes to the header of line `h` before line `k`: one for itself, and one for each edit. */
  function Changes(lines: seq<Line>, edits: seq<Edits>, h: nat, k: nat): seq<Change>
    requires |edits| == |lines| && h < k <= |lines|
  {
    if k == h + 1 then [Change(Delta(lines, edits, h), 0)]
    else Changes(lines, edits, h, k - 1) + ChangesAt(Delta(lines, edits, k - 1), edits[k - 1])
  }

  function Net(edits: seq<Edits>, lo: nat, hi: nat): int
    requires lo <= hi <= |edits|
  {
    if lo == hi then 0 else Net(edits, lo, hi - 1) + |edits[hi - 1].ins| - edits[hi - 1].dels
  }

  lemma {:induction false} ChangesNet(lines: seq<Line>, edits: seq<Edits>, h: nat, k: nat)
    requires |edits| == |lines| && h < k <= |lines|
    ensures Lengths(Changes(lines, edits, h, k)) == Net(edits, h + 1, k)
    decreases k
  {
    if k == h + 1 {
      assert [Change(Delta(lines, edits, h), 0)][..0] == [];
    } else {
      var delta, e := Delta(lines, edits, k - 1), edits[k - 1];
      ChangesNet(lines, edits, h, k - 1);
      ChangesAtNet(delta, e);
      LengthsConcat(Changes(lines, edits, h, k - 1), ChangesAt(delta, e));
    }
  }

  lemma ChangesAtNet(delta: int, e: Edits)
    ensures Lengths(ChangesAt(delta, e)) == |e.ins| - e.dels
  {
    LengthsConcat(Drops(delta, e.dels), Adds(delta - e.dels, |e.ins|));
  }

  // ---------- the header in the output ----------

  lemma DropsOneMore(delta: int, n: nat)
    requires n > 0
    ensures Drops(delta, n) == Drops(delta, n - 1) + [Change(delta - (n - 1), -1)]
    ensures Drops(delta, n)[..n - 1] == Drops(delta, n - 1)
  {
  }

  lemma AddsOneMore(delta: int, n: nat)
    requires n > 0
    ensures Adds(delta, n) == Adds(delta, n - 1) + [Change(delta + (n - 1), 1)]
    ensures Adds(delta, n)[..n - 1] == Adds(delta, n - 1)
  {
  }

  lemma {:induction false} DeletesAt(st: State, n: nat, i: nat)
    requires InBounds(st) && st.last < |st.out| && i < |st.out|
    ensures |Deletes(st, n).out| == |st.out|
    ensures Deletes(st, n).out[i] == if i == st.last then Bumped(st.out[i], Drops(st.delta, n)) else st.out[i]
  {
    if n > 0 {
      DeletesAt(st, n - 1, i);
      DropsOneMore(st.delta, n);
    }
  }

  lemma {:induction false} InsertsAt(st: State, ins: seq<Line>, i: nat)
    requires InBounds(st) && st.last < |st.out| && i < |st.out|
    ensures |Inserts(st, ins).out| == |st.out| + |ins|
    ensures Inserts(st, ins).out[i] == if i == st.last then Bumped(st.out[i], Adds(st.delta, |ins|)) else st.out[i]
    decreases |ins|
  {
    if ins != [] {
      InsertsAt(st, ins[..|ins| - 1], i);
      AddsOneMore(st.delta, |ins|);
    }
  }

  /** The edits of one line: the header in force is changed by them, and nothing else before them. */
  lemma EditsAtLine(a: State, e: Edits, i: nat)
    requires InBounds(a) && a.last < |a.out| && i < |a.out|
    ensures var c := Inserts(Deletes(a, e.dels), e.ins);
      i < |c.out| && c.out[i] == if i == a.last then Bumped(a.out[i], ChangesAt(a.delta, e)) else a.out[i]
  {
    var b := Deletes(a, e.dels);
    DeletesAt(a, e.dels, i);
    DeletesAt(a, e.dels, a.last);
    InsertsAt(b, e.ins, i);
    BumpedConcat(a.out[i], Drops(a.delta, e.dels), Adds(a.delta - e.dels, |e.ins|));
  }

  /** One line that is no header. */
  lemma OneLineAt(st: State, line: Line, e: Edits, i: nat)
    requires InBounds(st) && !IsHeader(line) && st.last < |st.out| && i < |st.out|
    ensures var r, delta := OneLine(st, line, e), if line.FileName? then 0 else st.delta;
      && r.last == st.last && r.delta == delta - e.dels + |e.ins| && i < |r.out|
      && r.out[i] == if i == st.last then Bumped(st.out[i], ChangesAt(delta, e)) else st.out[i]
  {
    EditsAtLine(Starts(st, line), e, i);
  }

  lemma {:induction false} DeltaIs(lines: seq<Line>, edits: seq<Edits>, k: nat)
    requires |edits| == |lines| && k < |lines|
    ensures Delta(lines, edits, k) == if lines[k].FileName? then 0 else After(lines, edits, k).delta
  {
    if k > 0 {
      DeltaIs(lines, edits, k - 1);
    }
  }

  /** Line `h` is a header, and up to line `k` there is no other. */
  ghost predicate InHunk(lines: seq<Line>, h: nat, k: nat) {
    h < k <= |lines| && IsHeader(lines[h]) && forall j | h < j < k :: !IsHeader(lines[j])
  }

  /** The hunk ends at line `e`. */
  ghost predicate WholeHunk(lines: seq<Line>, h: nat, e: nat) {
    InHunk(lines, h, e) && (e == |lines| || IsHeader(lines[e]))
  }

  predicate NoEdits(e: Edits) {
    e.dels == 0 && e.ins == []
  }

  lemma HeaderStarts(lines: seq<Line>, edits: seq<Edits>, h: nat)
    requires |edits| == |lines| && h < |lines| && IsHeader(lines[h]) && NoEdits(edits[h])
    requires DeletesPlaced(lines, edits, |lines|)
    ensures Holds(After(lines, edits, h + 1), Position(edits, h), lines[h], Changes(lines, edits, h, h + 1))
  {
    StaysOnCourse(lines, edits, h);
    DeltaIs(lines, edits, h);
    var cs := [Change(Delta(lines, edits, h), 0)];
    assert cs[..0] == [] && Bumped(lines[h], cs[..0]) == lines[h];
  }

  /** The output position `p` is in force and holds the header `l`, changed by `cs`. */
  ghost predicate Holds(st: State, p: nat, l: Line, cs: seq<Change>) {
    InBounds(st) && st.last == p < |st.out| && st.out[p] == Bumped(l, cs)
  }

  lemma HoldsOneMore(st: State, p: nat, l: Line, cs: seq<Change>, line: Line, e: Edits)
    requires Holds(st, p, l, cs) && !IsHeader(line)
    ensures var delta := if line.FileName? then 0 else st.delta;
      Holds(OneLine(st, line, e), p, l, cs + ChangesAt(delta, e))
  {
    OneLineAt(st, line, e, p);
    BumpedConcat(l, cs, ChangesAt(if line.FileName? then 0 else st.delta, e));
  }

  lemma HunkGoesOn(lines: seq<Line>, edits: seq<Edits>, k: nat, p: nat, l: Line, cs: seq<Change>)
    requires |edits| == |lines| && k < |lines| && !IsHeader(lines[k]) && Holds(After(lines, edits, k), p, l, cs)
    ensures Holds(After(lines, edits, k + 1), p, l, cs + ChangesAt(Delta(lines, edits, k), edits[k]))
  {
    DeltaIs(lines, edits, k);
    HoldsOneMore(After(lines, edits, k), p, l, cs, lines[k], edits[k]);
  }

  /** Within its hunk a header is changed by the edits, one after the other. */
  lemma {:induction false} HeaderInHunk(lines: seq<Line>, edits: seq<Edits>, h: nat, k: nat)
    requires |edits| == |lines| && InHunk(lines, h, k) && NoEdits(edits[h]) && DeletesPlaced(lines, edits, |lines|)
    ensures Holds(After(lines, edits, k), Position(edits, h), lines[h], Changes(lines, edits, h, k))
    decreases k
  {
    if k == h + 1 {
      HeaderStarts(lines, edits, h);
    } else {
      HeaderInHunk(lines, edits, h, k - 1);
      HunkGoesOn(lines, edits, k - 1, Position(edits, h), lines[h], Changes(lines, edits, h, k - 1));
    }
  }

  /** A header further on leaves all that was put out before it alone. */
  lemma OneHeaderAt(st: State, line: Line, e: Edits, i: nat)
    requires InBounds(st) && st.newNr == |st.out| && IsHeader(line) && e.dels == 0 && i < |st.out|
    ensures var r := OneLine(st, line, e);
      r.last == |st.out| < |r.out| && r.out[i] == st.out[i]
  {
    var a := Starts(st, line);
    InsertsBefore(a, e.ins, i);
  }

  lemma {:induction false} InsertsBefore(st: State, ins: seq<Line>, i: nat)
    requires InBounds(st) && i < st.last == |st.out|
    ensures |Inserts(st, ins).out| == |st.out| + |ins| && Inserts(st, ins).out[i] == st.out[i]
    decreases |ins|
  {
    if ins != [] {
      InsertsBefore(st, ins[..|ins| - 1], i);
    }
  }

  /** The output position `p` is behind the one in force and holds the line `l`. */
  ghost predicate Rests(st: State, p: nat, l: Line) {
    InBounds(st) && p < st.last < |st.out| && st.out[p] == l
  }

  lemma RestsOneMore(st: State, p: nat, l: Line, line: Line, e: Edits)
    requires InBounds(st) && st.newNr == |st.out| && p < |st.out| && st.out[p] == l
    requires if IsHeader(line) then e.dels == 0 else Rests(st, p, l)
    ensures Rests(OneLine(st, line, e), p, l)
  {
    if IsHeader(line) {
      OneHeaderAt(st, line, e, p);
    } else {
      OneLineAt(st, line, e, p);
      OneLineAt(st, line, e, st.last);
    }
  }

  /** Once its hunk is over, a header is not touched any more. */
  lemma {:induction false} StillRests(lines: seq<Line>, edits: seq<Edits>, p: nat, l: Line, j: nat, k: nat)
    requires |edits| == |lines| && j <= k <= |lines| && DeletesPlaced(lines, edits, |lines|)
    requires Rests(After(lines, edits, j), p, l)
    ensures Rests(After(lines, edits, k), p, l)
    decreases k
  {
    if j < k {
      StillRests(lines, edits, p, l, j, k - 1);
      StaysOnCourse(lines, edits, k - 1);
      RestsOneMore(After(lines, edits, k - 1), p, l, lines[k - 1], edits[k - 1]);
    }
  }

  lemma NextHeaderStarts(lines: seq<Line>, edits: seq<Edits>, p: nat, l: Line, cs: seq<Change>, e: nat)
    requires |edits| == |lines| && e < |lines| && IsHeader(lines[e]) && DeletesPlaced(lines, edits, |lines|)
    requires Holds(After(lines, edits, e), p, l, cs)
    ensures Rests(After(lines, edits, e + 1), p, Bumped(l, cs))
  {
    StaysOnCourse(lines, edits, e);
    RestsOneMore(After(lines, edits, e), p, Bumped(l, cs), lines[e], edits[e]);
  }

  /** So a header is changed by the edits of its own hunk, in order, and by nothing else. */
  lemma HeaderStays(lines: seq<Line>, edits: seq<Edits>, h: nat, e: nat)
    requires |edits| == |lines| && WholeHunk(lines, h, e) && NoEdits(edits[h]) && DeletesPlaced(lines, edits, |lines|)
    ensures var out, p := After(lines, edits, |lines|).out, Position(edits, h);
      p < |out| && out[p] == Bumped(lines[h], Changes(lines, edits, h, e))
  {
    HeaderInHunk(lines, edits, h, e);
    if e < |lines| {
      var p, cs := Position(edits, h), Changes(lines, edits, h, e);
      NextHeaderStarts(lines, edits, p, lines[h], cs, e);
      StillRests(lines, edits, p, Bumped(lines[h], cs), e + 1, |lines|);
    }
  }

  // ---------- what the lengths should be ----------

  /** A line of the new file. */
  predicate IsNew(l: Line) {
    l.Context? || l.Added?
  }

  function NewLines(ls: seq<Line>): nat {
    if ls == [] then 0 else NewLines(ls[..|ls| - 1]) + if IsNew(ls[|ls| - 1]) then 1 else 0
  }

  /** Deletions of a line that was deleted already. */
  function Repeated(edits: seq<Edits>, lo: nat, hi: nat): nat
    requires lo <= hi <= |edits|
  {
    if lo == hi then 0
    else Repeated(edits, lo, hi - 1) + if edits[hi - 1].dels > 1 then edits[hi - 1].dels - 1 else 0
  }

  lemma {:induction false} PositionsGrow(edits: seq<Edits>, j: nat, k: nat)
    requires j <= k <= |edits|
    ensures Position(edits, j) <= Position(edits, k)
    decreases k
  {
    if j < k {
      PositionsGrow(edits, j, k - 1);
    }
  }

  lemma {:induction false} NewLinesConcat(a: seq<Line>, b: seq<Line>)
    ensures NewLines(a + b) == NewLines(a) + NewLines(b)
    decreases |b|
  {
    if b == [] {
      assert a + b == a;
    } else {
      assert (a + b)[..|a + b| - 1] == a + b[..|b| - 1];
      NewLinesConcat(a, b[..|b| - 1]);
    }
  }

  lemma {:induction false} AllNew(ls: seq<Line>)
    requires forall i | 0 <= i < |ls| :: IsNew(ls[i])
    ensures NewLines(ls) == |ls|
  {
    if ls != [] {
      AllNew(ls[..|ls| - 1]);
    }
  }

  lemma {:induction false} SameCount(a: seq<Line>, b: seq<Line>)
    requires SameFaces(a, b)
    ensures NewLines(a) == NewLines(b)
    decreases |a|
  {
    if a != [] {
      assert Face(a[|a| - 1]) == Face(b[|b| - 1]);
      SameCount(a[..|a| - 1], b[..|b| - 1]);
    }
  }

  /** Only lines of the new file are inserted or deleted. */
  ghost predicate EditsNewLines(lines: seq<Line>, edits: seq<Edits>) {
    && |edits| == |lines|
    && forall k | 0 <= k < |lines| ::
      (edits[k].dels > 0 ==> IsNew(lines[k])) && forall i | 0 <= i < |edits[k].ins| :: IsNew(edits[k].ins[i])
  }

  lemma PieceCount(lines: seq<Line>, edits: seq<Edits>, k: nat)
    requires EditsNewLines(lines, edits) && k < |lines|
    ensures NewLines(Piece(lines, edits, k)) ==
      |edits[k].ins| + NewLines([lines[k]]) - if edits[k].dels > 0 then 1 else 0
  {
    AllNew(edits[k].ins);
    NewLinesConcat(edits[k].ins, if edits[k].dels == 0 then [lines[k]] else []);
    assert [lines[k]][..0] == [];
  }

  /** The new lines among the output of lines `lo` to `hi`. */
  lemma {:induction false} MergedCount(lines: seq<Line>, edits: seq<Edits>, lo: nat, hi: nat)
    requires EditsNewLines(lines, edits) && lo <= hi <= |lines|
    ensures Position(edits, lo) <= Position(edits, hi)
    ensures NewLines(Merged(lines, edits, hi)[Position(edits, lo)..])
      == NewLines(lines[lo..hi]) + Net(edits, lo, hi) + Repeated(edits, lo, hi)
    decreases hi
  {
    var p := Position(edits, lo);
    PositionsGrow(edits, lo, hi);
    if lo < hi {
      MergedCount(lines, edits, lo, hi - 1);
      PieceCount(lines, edits, hi - 1);
      PositionsGrow(edits, lo, hi - 1);
      MergedGrows(lines, edits, hi, p);
      OneMoreCounted(lines, lo, hi);
    }
  }

  lemma OneMoreCounted(lines: seq<Line>, lo: nat, hi: nat)
    requires lo < hi <= |lines|
    ensures NewLines(lines[lo..hi]) == NewLines(lines[lo..hi - 1]) + NewLines([lines[hi - 1]])
  {
    assert lines[lo..hi] == lines[lo..hi - 1] + [lines[hi - 1]];
    NewLinesConcat(lines[lo..hi - 1], [lines[hi - 1]]);
  }

  lemma MergedGrows(lines: seq<Line>, edits: seq<Edits>, k: nat, p: nat)
    requires |edits| == |lines| && 0 < k <= |lines| && p <= Position(edits, k - 1)
    ensures NewLines(Merged(lines, edits, k)[p..])
      == NewLines(Merged(lines, edits, k - 1)[p..]) + NewLines(Piece(lines, edits, k - 1))
  {
    var m, piece := Merged(lines, edits, k - 1), Piece(lines, edits, k - 1);
    assert (m + piece)[p..] == m[p..] + piece;
    NewLinesConcat(m[p..], piece);
  }

  lemma {:induction false} MergedPrefix(lines: seq<Line>, edits: seq<Edits>, j: nat, k: nat)
    requires |edits| == |lines| && j <= k <= |lines|
    ensures Position(edits, j) <= Position(edits, k)
    ensures Merged(lines, edits, k)[..Position(edits, j)] == Merged(lines, edits, j)
    decreases k
  {
    if j < k {
      MergedPrefix(lines, edits, j, k - 1);
    }
  }

  lemma SliceCount(a: seq<Line>, b: seq<Line>, p: nat, q: nat)
    requires p <= q <= |a| && SameFaces(a, b)
    ensures NewLines(a[p..q]) == NewLines(b[p..q])
  {
    SameCount(a[p..q], b[p..q]);
  }

  lemma OutputCount(lines: seq<Line>, edits: seq<Edits>, lo: nat, hi: nat)
    requires EditsNewLines(lines, edits) && DeletesPlaced(lines, edits, |lines|) && lo <= hi <= |lines|
    ensures Position(edits, lo) <= Position(edits, hi) <= |After(lines, edits, |lines|).out|
    ensures NewLines(After(lines, edits, |lines|).out[Position(edits, lo)..Position(edits, hi)])
      == NewLines(lines[lo..hi]) + Net(edits, lo, hi) + Repeated(edits, lo, hi)
  {
    var p, q, n := Position(edits, lo), Position(edits, hi), |lines|;
    PositionsGrow(edits, lo, hi);
    PositionsGrow(edits, hi, n);
    StaysOnCourse(lines, edits, n);
    var out, merged := After(lines, edits, n).out, Merged(lines, edits, n);
    SliceCount(out, merged, p, q);
    assert merged[p..q] == merged[..q][p..];
    MergedPrefix(lines, edits, hi, n);
    MergedCount(lines, edits, lo, hi);
  }

  /**
     The main theorem. If a header counted the new lines of its hunk, the repaired header counts those of the
     repaired hunk exactly if the edits after the first negative sum, and the repeated deletions, come to
     nothing.
   */
  lemma HeadersCount(lines: seq<Line>, edits: seq<Edits>, h: nat, e: nat)
    requires EditsNewLines(lines, edits) && WholeHunk(lines, h, e)
    requires NoEdits(edits[h]) && DeletesPlaced(lines, edits, |lines|)
    requires lines[h].newLen == NewLines(lines[h + 1..e])
    ensures Position(edits, h) < Position(edits, e) <= |After(lines, edits, |lines|).out|
    ensures var out, p := After(lines, edits, |lines|).out, Position(edits, h);
      && Face(out[p]) == Face(lines[h])
      && (out[p].newLen == NewLines(out[p + 1..Position(edits, e)])
          <==> Missed(lines[h], Changes(lines, edits, h, e)) + Repeated(edits, h + 1, e) == 0)
  {
    HeaderLength(lines, edits, h, e);
    OutputCount(lines, edits, h + 1, e);
  }

  /** The length of a repaired header: the old one and the edits that found it. */
  lemma HeaderLength(lines: seq<Line>, edits: seq<Edits>, h: nat, e: nat)
    requires |edits| == |lines| && WholeHunk(lines, h, e) && NoEdits(edits[h]) && DeletesPlaced(lines, edits, |lines|)
    ensures Position(edits, h) < |After(lines, edits, |lines|).out|
    ensures var r := After(lines, edits, |lines|).out[Position(edits, h)];
      && r.Hunk? && Face(r) == Face(lines[h])
      && r.newLen == lines[h].newLen + Net(edits, h + 1, e) - Missed(lines[h], Changes(lines, edits, h, e))
    ensures Position(edits, h + 1) == Position(edits, h) + 1
  {
    HeaderStays(lines, edits, h, e);
    BumpedLength(lines[h], Changes(lines, edits, h, e));
    ChangesNet(lines, edits, h, e);
    BumpedFace(lines[h], Changes(lines, edits, h, e));
  }

  lemma {:induction false} BumpedFace(l: Line, cs: seq<Change>)
    ensures Face(Bumped(l, cs)) == Face(l)
    decreases |cs|
  {
    if cs != [] {
      BumpedFace(l, cs[..|cs| - 1]);
    }
  }

  // ---------- the start ----------

  lemma {:induction false} OffsetsConcat(a: seq<Change>, b: seq<Change>)
    ensures Offsets(a + b) == Offsets(a) + Offsets(b)
    decreases |b|
  {
    if b == [] {
      assert a + b == a;
    } else {
      assert (a + b)[..|a + b| - 1] == a + b[..|b| - 1];
      OffsetsConcat(a, b[..|b| - 1]);
    }
  }

  /** The offset as it is at each of `n` deletions, added up; and at each of `m` insertions. */
  function Falling(delta: int, n: nat): int {
    if n == 0 then 0 else Falling(delta, n - 1) + delta - (n - 1)
  }

  function Rising(delta: int, m: nat): int {
    if m == 0 then 0 else Rising(delta, m - 1) + delta + (m - 1)
  }

  lemma {:induction false} FallingIs(delta: int, n: nat)
    ensures 2 * Falling(delta, n) == 2 * (delta * n) - n * (n - 1)
  {
    if n > 0 {
      FallingIs(delta, n - 1);
      OneMoreProduct(delta, n);
    }
  }

  lemma {:induction false} RisingIs(delta: int, m: nat)
    ensures 2 * Rising(delta, m) == 2 * (delta * m) + m * (m - 1)
  {
    if m > 0 {
      RisingIs(delta, m - 1);
      OneMoreProduct(delta, m);
    }
  }

  lemma OneMoreProduct(delta: int, n: nat)
    requires n > 0
    ensures delta * n == delta * (n - 1) + delta && n * (n - 1) == (n - 1) * (n - 1 - 1) + 2 * (n - 1)
  {
  }

  lemma {:induction false} DropsOffsets(delta: int, n: nat)
    ensures Offsets(Drops(delta, n)) == Falling(delta, n)
  {
    if n > 0 {
      DropsOffsets(delta, n - 1);
      DropsOneMore(delta, n);
    }
  }

  lemma {:induction false} AddsOffsets(delta: int, m: nat)
    ensures Offsets(Adds(delta, m)) == Rising(delta, m)
  {
    if m > 0 {
      AddsOffsets(delta, m - 1);
      AddsOneMore(delta, m);
    }
  }

  lemma OffsetsOfEdits(delta: int, n: nat, after: int, m: nat)
    ensures Offsets(Drops(delta, n) + Adds(after, m)) == Falling(delta, n) + Rising(after, m)
  {
    OffsetsConcat(Drops(delta, n), Adds(after, m));
    DropsOffsets(delta, n);
    AddsOffsets(after, m);
  }

  /** Of all lines after `h` and before `k`, only `j` is edited. */
  ghost predicate OnlyEdited(edits: seq<Edits>, h: nat, j: nat, k: nat) {
    k <= |edits| && forall i | h < i < k && i != j :: NoEdits(edits[i])
  }

  lemma NothingChanged(cs: seq<Change>, delta: int, e: Edits)
    requires NoEdits(e)
    ensures cs + ChangesAt(delta, e) == cs
  {
    assert Drops(delta, 0) + Adds(delta - 0, 0) == [];
  }

  lemma {:induction false} NoChanges(lines: seq<Line>, edits: seq<Edits>, h: nat, j: nat, k: nat)
    requires |edits| == |lines| && h < k <= j && k <= |lines| && OnlyEdited(edits, h, j, k)
    ensures Changes(lines, edits, h, k) == [Change(Delta(lines, edits, h), 0)]
    decreases k
  {
    if k > h + 1 {
      NoChanges(lines, edits, h, j, k - 1);
      NothingChanged(Changes(lines, edits, h, k - 1), Delta(lines, edits, k - 1), edits[k - 1]);
    }
  }

  lemma ChangesPeel(lines: seq<Line>, edits: seq<Edits>, h: nat, j: nat, before: seq<Change>)
    requires |edits| == |lines| && h < j < |lines| && before == Changes(lines, edits, h, j)
    ensures Changes(lines, edits, h, j + 1) == before + ChangesAt(Delta(lines, edits, j), edits[j])
  {
  }

  lemma {:induction false} OnlyChanges(lines: seq<Line>, edits: seq<Edits>, h: nat, i: nat, k: nat, cs: seq<Change>)
    requires |edits| == |lines| && h < i <= k <= |lines| && forall j | i <= j < k :: NoEdits(edits[j])
    requires AreChanges(lines, edits, h, i, cs)
    ensures AreChanges(lines, edits, h, k, cs)
    decreases k - i
  {
    if i < k {
      SameChanges(lines, edits, h, i, i + 1, cs);
      OnlyChanges(lines, edits, h, i + 1, k, cs);
    }
  }

  ghost predicate AreChanges(lines: seq<Line>, edits: seq<Edits>, h: nat, k: nat, cs: seq<Change>) {
    |edits| == |lines| && h < k <= |lines| && cs == Changes(lines, edits, h, k)
  }

  lemma SameChanges(lines: seq<Line>, edits: seq<Edits>, h: nat, i: nat, k: nat, cs: seq<Change>)
    requires |edits| == |lines| && h < i < k <= |lines| && k == i + 1 && NoEdits(edits[i])
    requires cs == Changes(lines, edits, h, i)
    ensures Changes(lines, edits, h, k) == cs
  {
    ChangesPeel(lines, edits, h, i, cs);
    NothingChanged(cs, Delta(lines, edits, i), edits[i]);
  }

  lemma ChangesOfOne(lines: seq<Line>, edits: seq<Edits>, h: nat, j: nat, k: nat)
    requires |edits| == |lines| && h < j < k <= |lines| && OnlyEdited(edits, h, j, k)
    ensures Changes(lines, edits, h, k) ==
      [Change(Delta(lines, edits, h), 0)] + ChangesAt(Delta(lines, edits, j), edits[j])
  {
    var first := [Change(Delta(lines, edits, h), 0)];
    NoChanges(lines, edits, h, j, j);
    ChangesPeel(lines, edits, h, j, first);
    OnlyChanges(lines, edits, h, j + 1, k, first + ChangesAt(Delta(lines, edits, j), edits[j]));
  }

  /** One change that only moves, and then those of one line. */
  lemma SumsOfOne(cs: seq<Change>, first: int, delta: int, e: Edits)
    requires cs == [Change(first, 0)] + ChangesAt(delta, e)
    ensures Lengths(cs) == |e.ins| - e.dels
    ensures Offsets(cs) == first + Falling(delta, e.dels) + Rising(delta - e.dels, |e.ins|)
  {
    var one := [Change(first, 0)];
    assert one[..0] == [] && Offsets(one) == first && Lengths(one) == 0;
    OffsetsConcat(one, ChangesAt(delta, e));
    LengthsConcat(one, ChangesAt(delta, e));
    OffsetsOfEdits(delta, e.dels, delta - e.dels, |e.ins|);
    ChangesAtNet(delta, e);
  }

  /**
     The header `r` is `l` after `n` deletions and `m` insertions, with the offset `first` when it came and `d` when
     the edits did: d, d - 1, ... were added to its start for the deletions, and d - n, d - n + 1, ... after that.
   */
  ghost predicate Moved(r: Line, l: Line, first: int, d: int, n: nat, m: nat) {
    && l.Hunk? && r.Hunk? && r.newLen == l.newLen - n + m
    && 2 * (r.newStart - l.newStart - first) == 2 * (d * n) - n * (n - 1) + 2 * ((d - n) * m) + m * (m - 1)
  }

  lemma EditedHeader(l: Line, cs: seq<Change>, first: int, d: int, e: Edits)
    requires l.Hunk? && Stays(l, cs) && cs == [Change(first, 0)] + ChangesAt(d, e)
    ensures Moved(Bumped(l, cs), l, first, d, e.dels, |e.ins|)
  {
    FoundExactly(l, cs);
    SumsOfOne(cs, first, d, e);
    FallingIs(d, e.dels);
    RisingIs(d - e.dels, |e.ins|);
  }

  /**
     The repaired header of a hunk of which one line is edited, as long as it is found: its length is right, and
     its start is moved by the offset at the header, and again by the offset as it is at each deletion and then
     at each insertion.
   */
  lemma OneLineEdited(lines: seq<Line>, edits: seq<Edits>, h: nat, e: nat, j: nat)
    requires |edits| == |lines| && WholeHunk(lines, h, e) && h < j < e && OnlyEdited(edits, h, j, e)
    requires NoEdits(edits[h]) && DeletesPlaced(lines, edits, |lines|)
    requires Stays(lines[h], Changes(lines, edits, h, e))
    ensures Position(edits, h) < |After(lines, edits, |lines|).out|
    ensures Moved(After(lines, edits, |lines|).out[Position(edits, h)], lines[h],
      Delta(lines, edits, h), Delta(lines, edits, j), edits[j].dels, |edits[j].ins|)
  {
    var cs, d := Changes(lines, edits, h, e), Delta(lines, edits, j);
    HeaderStays(lines, edits, h, e);
    ChangesOfOne(lines, edits, h, j, e);
    EditedHeader(lines[h], cs, Delta(lines, edits, h), d, edits[j]);
  }

  // ---------- when nothing is missed ----------

  /**
     Nothing is missed in a hunk that starts far enough from the top for its offsets: each call but the last
     moves the start by at most `most`.
   */
  lemma {:induction false} NothingLost(l: Line, cs: seq<Change>, most: nat)
    requires IsHeader(l) && cs != [] && l.newStart >= (|cs| - 1) * most
    requires forall i | 0 <= i < |cs| - 1 :: cs[i].offset + most >= 0
    requires forall i | 0 <= i < |cs| :: l.newLen + Lengths(cs[..i]) >= 0
    ensures Missed(l, cs) == 0
  {
    var front := cs[..|cs| - 1];
    forall i | 0 <= i <= |front| ensures l.newStart + Offsets(front[..i]) >= 0 && l.newLen + Lengths(front[..i]) >= 0 {
      assert front[..i] == cs[..i];
      OffsetsBound(front[..i], most);
      MulGrows(i, |front|, most);
    }
    NothingMissed(l, front);
  }

  lemma MulGrows(i: nat, n: nat, most: nat)
    requires i <= n
    ensures i * most <= n * most
  {
  }

  lemma {:induction false} OffsetsBound(cs: seq<Change>, most: nat)
    requires forall i | 0 <= i < |cs| :: cs[i].offset + most >= 0
    ensures Offsets(cs) + |cs| * most >= 0
  {
    if cs != [] {
      OffsetsBound(cs[..|cs| - 1], most);
      assert |cs| * most == (|cs| - 1) * most + most;
    }
  }

  /** In a patch to which lines are only added nothing is missed or repeated. */
  lemma NothingLostByInserting(lines: seq<Line>, edits: seq<Edits>, h: nat, k: nat)
    requires |edits| == |lines| && h < k <= |lines| && IsHeader(lines[h])
    requires forall j | 0 <= j < |edits| :: edits[j].dels == 0
    ensures Missed(lines[h], Changes(lines, edits, h, k)) == 0 && Repeated(edits, h + 1, k) == 0
  {
    var cs := Changes(lines, edits, h, k);
    InsertingGrows(lines, edits, h, k);
    forall i | 0 <= i < |cs| ensures Lengths(cs[..i]) >= 0 {
      LengthsGrow(cs[..i]);
    }
    NothingLost(lines[h], cs, 0);
    NoneRepeated(edits, h + 1, k);
  }

  lemma {:induction false} LengthsGrow(cs: seq<Change>)
    requires forall i | 0 <= i < |cs| :: cs[i].length >= 0
    ensures Lengths(cs) >= 0
  {
    if cs != [] {
      LengthsGrow(cs[..|cs| - 1]);
    }
  }

  lemma {:induction false} DeltaGrows(lines: seq<Line>, edits: seq<Edits>, k: nat)
    requires |edits| == |lines| && k < |lines| && forall j | 0 <= j < |edits| :: edits[j].dels == 0
    ensures Delta(lines, edits, k) >= 0
  {
    if k > 0 {
      DeltaGrows(lines, edits, k - 1);
    }
  }

  /** No change lowers a start or a length. */
  ghost predicate OnlyUp(cs: seq<Change>) {
    forall i | 0 <= i < |cs| :: cs[i].offset >= 0 && cs[i].length >= 0
  }

  lemma InsertsGoUp(cs: seq<Change>, delta: int, e: Edits)
    requires OnlyUp(cs) && delta >= 0 && e.dels == 0
    ensures OnlyUp(cs + ChangesAt(delta, e))
  {
    assert ChangesAt(delta, e) == Adds(delta, |e.ins|);
  }

  lemma {:induction false} InsertingGrows(lines: seq<Line>, edits: seq<Edits>, h: nat, k: nat)
    requires |edits| == |lines| && h < k <= |lines| && forall j | 0 <= j < |edits| :: edits[j].dels == 0
    ensures Changes(lines, edits, h, k) != [] && OnlyUp(Changes(lines, edits, h, k))
    decreases k
  {
    DeltaGrows(lines, edits, k - 1);
    if k > h + 1 {
      InsertingGrows(lines, edits, h, k - 1);
      InsertsGoUp(Changes(lines, edits, h, k - 1), Delta(lines, edits, k - 1), edits[k - 1]);
    }
  }

  lemma {:induction false} NoneRepeated(edits: seq<Edits>, lo: nat, hi: nat)
    requires lo <= hi <= |edits| && forall j | lo <= j < hi :: edits[j].dels <= 1
    ensures Repeated(edits, lo, hi) == 0
    decreases hi
  {
    if lo < hi {
      NoneRepeated(edits, lo, hi - 1);
    }
  }

  // ---------- a hunk that is deleted as a whole ----------

  /** The changes when the first edits after a file name delete `n` lines, one after the other. */
  function Deleting(n: nat): seq<Change> {
    [Change(0, 0)] + Drops(0, n)
  }

  lemma {:induction false} DeletingSums(n: nat, i: nat)
    requires i <= n
    ensures Lengths(Deleting(n)[..i + 1]) + i == 0 && 2 * Offsets(Deleting(n)[..i + 1]) + i * (i - 1) == 0
  {
    var cs := Deleting(n)[..i + 1];
    if i == 0 {
      assert cs == [Change(0, 0)] && cs[..0] == [];
    } else {
      DeletingSums(n, i - 1);
      assert cs[..i] == Deleting(n)[..i] && cs[i] == Change(1 - i, -1);
      assert i * (i - 1) == (i - 1) * (i - 2) + 2 * (i - 1);
    }
  }

  lemma Products(i: nat, n: nat)
    requires 0 < i <= n
    ensures i * (i - 1) <= n * (n - 1)
  {
    if i < n {
      assert n * (n - 1) - i * (i - 1) == (n - i) * (n + i - 1);
    }
  }

  /** All calls but the last find their header exactly if the start is at least half of (n - 1) * (n - 2). */
  lemma DeletingStays(l: Line, n: nat)
    requires IsHeader(l) && n > 0 && l.newLen >= n
    ensures Stays(l, Deleting(n)[..n]) <==> 2 * l.newStart >= (n - 1) * (n - 2)
  {
    var cs := Deleting(n)[..n];
    if 2 * l.newStart >= (n - 1) * (n - 2) {
      forall i | 0 <= i <= |cs| ensures l.newStart + Offsets(cs[..i]) >= 0 && l.newLen + Lengths(cs[..i]) >= 0 {
        if i > 0 {
          assert cs[..i] == Deleting(n)[..i - 1 + 1];
          DeletingSums(n, i - 1);
          if i > 1 {
            Products(i - 1, n - 1);
          }
        }
      }
    } else {
      DeletingSums(n, n - 1);
      assert cs[..n] == Deleting(n)[..n - 1 + 1];
    }
  }

  lemma {:induction false} MissedDrops(l: Line, cs: seq<Change>)
    requires l.Hunk? && forall i | 0 <= i < |cs| :: cs[i].length <= 0
    ensures Missed(l, cs) <= 0
    decreases |cs|
  {
    if cs != [] {
      MissedDrops(l, cs[..|cs| - 1]);
    }
  }

  /** Something is missed when a hunk of n lines is deleted as a whole exactly if it starts nearer to the top. */
  lemma DeletingMissed(l: Line, n: nat)
    requires IsHeader(l) && n > 0 && l.newLen >= n
    ensures Missed(l, Deleting(n)) == 0 <==> 2 * l.newStart >= (n - 1) * (n - 2)
  {
    var cs := Deleting(n);
    DeletingStays(l, n);
    assert cs[..|cs| - 1] == cs[..n];
    if Stays(l, cs[..n]) {
      NothingMissed(l, cs[..n]);
    } else {
      MissedDrops(l, cs[..n]);
    }
  }

  lemma OneDrop(delta: int)
    ensures ChangesAt(delta, Edits(1, [])) == [Change(delta, -1)]
  {
    assert Drops(delta, 1) == [Change(delta, -1)] && Adds(delta - 1, 0) == [];
  }

  /** Each line after `h` and before `k` is deleted, once, and is no file name. */
  ghost predicate AllDeleted(lines: seq<Line>, edits: seq<Edits>, h: nat, k: nat)
    requires |edits| == |lines| && h < k <= |lines|
  {
    forall j | h < j < k :: edits[j] == Edits(1, []) && !lines[j].FileName?
  }

  lemma {:induction false} DeletingDelta(lines: seq<Line>, edits: seq<Edits>, h: nat, e: nat, k: nat)
    requires |edits| == |lines| && h < k < e <= |lines| && Delta(lines, edits, h) == 0 && NoEdits(edits[h])
    requires AllDeleted(lines, edits, h, e)
    ensures Delta(lines, edits, k) == h + 1 - k
    decreases k
  {
    if k > h + 1 {
      DeletingDelta(lines, edits, h, e, k - 1);
      assert edits[k - 1] == Edits(1, []);
    }
  }

  /** One deletion after another lowers the offset by one each time. */
  ghost predicate CountsDown(cs: seq<Change>, n: nat)
    decreases n
  {
    if n == 0 then cs == [Change(0, 0)]
    else cs != [] && cs[|cs| - 1] == Change(1 - n, -1) && CountsDown(cs[..|cs| - 1], n - 1)
  }

  lemma CountsDownOnce(cs: seq<Change>, n: nat, delta: int, e: Edits)
    requires n > 0 && CountsDown(cs, n - 1) && delta == 1 - n && e == Edits(1, [])
    ensures CountsDown(cs + ChangesAt(delta, e), n)
  {
    OneDrop(delta);
    assert (cs + [Change(delta, -1)])[..|cs|] == cs;
  }

  lemma CountsDownThere(lines: seq<Line>, edits: seq<Edits>, h: nat, e: nat, k: nat, n: nat)
    requires |edits| == |lines| && h + 1 < k <= e <= |lines| && n == k - h - 1
    requires Delta(lines, edits, h) == 0 && NoEdits(edits[h]) && AllDeleted(lines, edits, h, e)
    requires CountsDown(Changes(lines, edits, h, k - 1), n - 1)
    ensures CountsDown(Changes(lines, edits, h, k), n)
  {
    DeletingDelta(lines, edits, h, e, k - 1);
    assert edits[k - 1] == Edits(1, []);
    CountsDownOnce(Changes(lines, edits, h, k - 1), n, Delta(lines, edits, k - 1), edits[k - 1]);
  }

  lemma {:induction false} DeletingChanges(lines: seq<Line>, edits: seq<Edits>, h: nat, e: nat, k: nat, n: nat)
    requires |edits| == |lines| && h < k <= e <= |lines| && n == k - h - 1
    requires Delta(lines, edits, h) == 0 && NoEdits(edits[h]) && AllDeleted(lines, edits, h, e)
    ensures CountsDown(Changes(lines, edits, h, k), n)
    decreases n
  {
    if k == h + 1 {
      NoneDeleted(lines, edits, h, k, n);
    } else {
      DeletingChanges(lines, edits, h, e, k - 1, n - 1);
      CountsDownThere(lines, edits, h, e, k, n);
    }
  }

  lemma NoneDeleted(lines: seq<Line>, edits: seq<Edits>, h: nat, k: nat, n: nat)
    requires |edits| == |lines| && k == h + 1 <= |lines| && Delta(lines, edits, h) == 0 && n == 0
    ensures CountsDown(Changes(lines, edits, h, k), n)
  {
  }

  lemma {:induction false} CountsDownIs(cs: seq<Change>, n: nat)
    requires CountsDown(cs, n)
    ensures cs == Deleting(n)
  {
    if n > 0 {
      CountsDownIs(cs[..|cs| - 1], n - 1);
      LastOne(cs);
      DeletingOneMore(n);
    }
  }

  lemma LastOne(cs: seq<Change>)
    requires cs != []
    ensures cs == cs[..|cs| - 1] + [cs[|cs| - 1]]
  {
  }

  lemma DeletingOneMore(n: nat)
    requires n > 0
    ensures Deleting(n) == Deleting(n - 1) + [Change(1 - n, -1)]
  {
    DropsOneMore(0, n);
  }

  /** A header of n lines that is changed by the deletion of all of them. */
  lemma DeletedLength(l: Line, n: nat)
    requires IsHeader(l) && n > 0 && l.newLen == n
    ensures Bumped(l, Deleting(n)).Hunk?
    ensures Bumped(l, Deleting(n)).newLen == 0 <==> 2 * l.newStart >= (n - 1) * (n - 2)
  {
    BumpedLength(l, Deleting(n));
    DeletingSums(n, n);
    assert Deleting(n)[..n + 1] == Deleting(n);
    DeletingMissed(l, n);
  }

  /**
     A hunk of n new lines, the first that is edited in its file, of which all lines are deleted: the repaired
     header says 0 exactly if the hunk started at half of (n - 1) * (n - 2) or further down.
   */
  lemma DeletedHunk(lines: seq<Line>, edits: seq<Edits>, h: nat, e: nat)
    requires EditsNewLines(lines, edits) && WholeHunk(lines, h, e) && Delta(lines, edits, h) == 0
    requires NoEdits(edits[h]) && DeletesPlaced(lines, edits, |lines|)
    requires e - h - 1 > 0 && forall j | h < j < e :: edits[j] == Edits(1, [])
    requires lines[h].newLen == e - h - 1
    ensures Position(edits, h) < |After(lines, edits, |lines|).out|
    ensures After(lines, edits, |lines|).out[Position(edits, h)].Hunk?
    ensures After(lines, edits, |lines|).out[Position(edits, h)].newLen == 0
      <==> 2 * lines[h].newStart >= (e - h - 2) * (e - h - 3)
  {
    HeaderStays(lines, edits, h, e);
    DeletingChanges(lines, edits, h, e, e, e - h - 1);
    CountsDownIs(Changes(lines, edits, h, e), e - h - 1);
    DeletedLength(lines[h], e - h - 1);
  }

  /** Four added lines at the top of a file, all deleted: the header keeps a length. */
  lemma LostAtTheTop(text: string, tail: string)
    ensures var a, gone := Added(text), Edits(1, []);
      var lines, edits := [Hunk(0, 0, 1, 4, tail), a, a, a, a], [Edits(0, []), gone, gone, gone, gone];
      var out := After(lines, edits, 5).out;
      && SameFaces(out, [Hunk(0, 0, 1, 4, tail)])
      && out[0].newLen != 0
  {
    var a, gone := Added(text), Edits(1, []);
    var lines, edits := [Hunk(0, 0, 1, 4, tail), a, a, a, a], [Edits(0, []), gone, gone, gone, gone];
    assert WholeHunk(lines, 0, 5) && DeletesPlaced(lines, edits, 5);
    DeletedHunk(lines, edits, 0, 5);
    StaysOnCourse(lines, edits, 5);
    OnlyTheHeader(lines, edits);
  }

  lemma OnlyTheHeader(lines: seq<Line>, edits: seq<Edits>)
    requires |edits| == |lines| == 5 && NoEdits(edits[0]) && forall j | 0 < j < 5 :: edits[j] == Edits(1, [])
    ensures Merged(lines, edits, 5) == [lines[0]] && Position(edits, 0) == 0
  {
    assert Merged(lines, edits, 0) == [] && Merged(lines, edits, 1) == [lines[0]];
    assert Merged(lines, edits, 2) == [lines[0]] && Merged(lines, edits, 3) == [lines[0]];
    assert Merged(lines, edits, 4) == [lines[0]];
  }
}
