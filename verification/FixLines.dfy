/**
 fix_inserted_deleted_lines and fixup_current_range of TP_01/EXO-01/checkpatch.pl: edits, kept apart until
 the end, are merged into the lines of a patch, and the hunk headers are repaired on the way.
 */
module FixLines {

  /** The lines of a patch, as far as the merge looks at them. */
  datatype Line =
    | FileName(text: string)
    | Hunk(oldStart: nat, oldLen: nat, newStart: int, newLen: int, tail: string)
    | Context(text: string)
    | Added(text: string)
    | Removed(text: string)
    | Other(text: string)
    /** What Perl puts where a reference was taken to an element that was not there. */
    | Undefined

  datatype Insert = Insert(nr: nat, line: Line)

  /** A header is recognised by its digits, so that a negative number hides it. */
  predicate IsHeader(l: Line) {
    l.Hunk? && l.newStart >= 0 && l.newLen >= 0
  }

  /** fixup_current_range */
  function Bump(l: Line, offset: int, length: int): Line {
    if IsHeader(l) then l.(newStart := l.newStart + offset, newLen := l.newLen + length) else l
  }

  // ---------- which edits are met at which line ----------

  /** The edits that are met at one line. */
  datatype Edits = Edits(dels: nat, ins: seq<Line>)

  function Numbers(ins: seq<Insert>): (r: seq<nat>)
    ensures |r| == |ins| && forall i | 0 <= i < |r| :: r[i] == ins[i].nr
  {
    seq(|ins|, i requires 0 <= i < |ins| => ins[i].nr)
  }

  function LinesOf(ins: seq<Insert>): (r: seq<Line>)
    ensures |r| == |ins| && forall i | 0 <= i < |r| :: r[i] == ins[i].line
  {
    seq(|ins|, i requires 0 <= i < |ins| => ins[i].line)
  }

  /** Past all edits from `p` on that are for line `k`. */
  function Past(nrs: seq<nat>, p: nat, k: nat): (q: nat)
    requires p <= |nrs|
    ensures p <= q <= |nrs| && (forall i | p <= i < q :: nrs[i] == k) && (q < |nrs| ==> nrs[q] != k)
    decreases |nrs| - p
  {
    if p < |nrs| && nrs[p] == k then Past(nrs, p + 1, k) else p
  }

  /** How many edits the merge has used up when it comes to line `k`. */
  function Used(nrs: seq<nat>, k: nat): (q: nat)
    ensures q <= |nrs|
  {
    if k == 0 then 0 else Past(nrs, Used(nrs, k - 1), k - 1)
  }

  function EditsAt(inserted: seq<Insert>, deleted: seq<nat>, k: nat): Edits {
    var nrs := Numbers(inserted);
    Edits(Used(deleted, k + 1) - Used(deleted, k), LinesOf(inserted)[Used(nrs, k)..Used(nrs, k + 1)])
  }

  function Resolve(inserted: seq<Insert>, deleted: seq<nat>, n: nat): (r: seq<Edits>)
    ensures |r| == n
    ensures forall k {:trigger EditsAt(inserted, deleted, k)} | 0 <= k < n :: r[k] == EditsAt(inserted, deleted, k)
  {
    if n == 0 then [] else Resolve(inserted, deleted, n - 1) + [EditsAt(inserted, deleted, n - 1)]
  }

  // ---------- the merge ----------

  /** What the merge carries from line to line: the output, and its three running numbers. */
  datatype State = State(out: seq<Line>, last: nat, delta: int, newNr: nat)

  predicate InBounds(st: State) {
    st.last <= st.newNr <= |st.out|
  }

  /** fixup_current_range on an element of the output, which appears if it is not there. */
  function Fixed(out: seq<Line>, last: nat, offset: int, length: int): (r: seq<Line>)
    requires last <= |out|
    ensures |r| == if last < |out| then |out| else |out| + 1
  {
    var there := if last < |out| then out else out + [Undefined];
    there[last := Bump(there[last], offset, length)]
  }

  function Deletes(st: State, n: nat): (r: State)
    requires InBounds(st)
    ensures InBounds(r) && r.last == st.last && r.newNr == st.newNr && r.delta == st.delta - n
  {
    if n == 0 then st else
    var s := Deletes(st, n - 1);
    s.(out := Fixed(s.out, s.last, s.delta, -1), delta := s.delta - 1)
  }

  /** One turn of the loop over the insertions. */
  function OneInsert(st: State, line: Line): (r: State)
    requires InBounds(st)
    ensures InBounds(r) && r.last == st.last && r.newNr == st.newNr + 1 && r.delta == st.delta + 1
  {
    st.(out := Fixed(st.out + [line], st.last, st.delta, 1), delta := st.delta + 1, newNr := st.newNr + 1)
  }

  function Inserts(st: State, ins: seq<Line>): (r: State)
    requires InBounds(st)
    ensures InBounds(r) && r.last == st.last && r.newNr == st.newNr + |ins| && r.delta == st.delta + |ins|
  {
    if ins == [] then st else
    OneInsert(Inserts(st, ins[..|ins| - 1]), ins[|ins| - 1])
  }

  /** A file name restarts the offset, and a header becomes the one in force. */
  function Starts(st: State, line: Line): (r: State)
    requires InBounds(st)
    ensures InBounds(r)
  {
    if line.FileName? then st.(delta := 0) else if IsHeader(line) then st.(last := st.newNr) else st
  }

  function Kept(line: Line, delta: int): Line {
    if line.FileName? then line else Bump(line, delta, 0)
  }

  function OneLine(st: State, line: Line, e: Edits): (r: State)
    requires InBounds(st)
    ensures InBounds(r)
  {
    var a := Starts(st, line);
    var b := Inserts(Deletes(a, e.dels), e.ins);
    if e.dels == 0 then b.(out := b.out + [Kept(line, a.delta)], newNr := b.newNr + 1) else b
  }

  const EMPTY := State([], 0, 0, 0)

  function After(lines: seq<Line>, edits: seq<Edits>, k: nat): (r: State)
    requires |edits| == |lines| && k <= |lines|
    ensures InBounds(r)
  {
    if k == 0 then EMPTY else OneLine(After(lines, edits, k - 1), lines[k - 1], edits[k - 1])
  }

  /** The edits of line `k` are those that the two loops meet there. */
  ghost predicate Met(inserted: seq<Insert>, deleted: seq<nat>, k: nat, e: Edits) {
    var d, i := Used(deleted, k), Used(Numbers(inserted), k);
    && e.dels == Past(deleted, d, k) - d && Used(deleted, k + 1) == Past(deleted, d, k)
    && e.ins == LinesOf(inserted)[i..Past(Numbers(inserted), i, k)]
    && Used(Numbers(inserted), k + 1) == Past(Numbers(inserted), i, k)
  }

  lemma EditsMet(inserted: seq<Insert>, deleted: seq<nat>, n: nat, k: nat)
    requires k < n
    ensures Met(inserted, deleted, k, Resolve(inserted, deleted, n)[k])
  {
    assert Resolve(inserted, deleted, n)[k] == EditsAt(inserted, deleted, k);
  }

  /** The loop over the deletions for line `k`. */
  method DeleteHere(ghost inserted: seq<Insert>, deleted: seq<nat>, first: nat, k: nat, ghost e: Edits, st: State)
    returns (nextDelete: nat, r: State, save: bool)
    requires Met(inserted, deleted, k, e) && first == Used(deleted, k) && InBounds(st)
    ensures nextDelete == Used(deleted, k + 1) && r == Deletes(st, e.dels) && (save <==> e.dels == 0)
  {
    nextDelete, r, save := first, st, true;
    while nextDelete < |deleted| && deleted[nextDelete] == k
      invariant first <= nextDelete <= |deleted| && Past(deleted, nextDelete, k) == Past(deleted, first, k)
      invariant r == Deletes(st, nextDelete - first) && (save <==> nextDelete == first)
    {
      nextDelete := nextDelete + 1;
      save := false;
      r := r.(out := Fixed(r.out, r.last, r.delta, -1), delta := r.delta - 1);
    }
  }

  lemma InsertsOneMore(st: State, ins: seq<Line>, line: Line)
    requires InBounds(st)
    ensures Inserts(st, ins + [line]) == OneInsert(Inserts(st, ins), line)
  {
    assert (ins + [line])[..|ins|] == ins;
  }

  /** What the next insertion for line `k` adds to those already made. */
  lemma NextInsert(inserted: seq<Insert>, first: nat, next: nat, k: nat, st: State, done: seq<Line>)
    requires InBounds(st) && first <= next < |inserted| && inserted[next].nr == k
    requires done == LinesOf(inserted)[first..next]
    ensures var line := inserted[next].line;
      && done + [line] == LinesOf(inserted)[first..next + 1]
      && Inserts(st, done + [line]) == OneInsert(Inserts(st, done), line)
    ensures Past(Numbers(inserted), next + 1, k) == Past(Numbers(inserted), next, k)
  {
    InsertsOneMore(st, done, inserted[next].line);
  }

  /** The loop ends where the edits for line `k` end. */
  lemma InsertsEnd(inserted: seq<Insert>, next: nat, k: nat)
    requires next <= |inserted| && (next < |inserted| ==> inserted[next].nr != k)
    ensures Past(Numbers(inserted), next, k) == next
  {
  }

  /** The loop over the insertions for line `k`. */
  method InsertHere(inserted: seq<Insert>, ghost deleted: seq<nat>, first: nat, k: nat, ghost e: Edits, st: State)
    returns (nextInsert: nat, r: State)
    requires Met(inserted, deleted, k, e) && first == Used(Numbers(inserted), k) && InBounds(st)
    ensures nextInsert == Used(Numbers(inserted), k + 1) && r == Inserts(st, e.ins)
  {
    nextInsert, r := first, st;
    ghost var nrs, ls, done := Numbers(inserted), LinesOf(inserted), [];
    while nextInsert < |inserted| && inserted[nextInsert].nr == k
      invariant first <= nextInsert <= |inserted| && Past(nrs, nextInsert, k) == Past(nrs, first, k)
      invariant done == ls[first..nextInsert] && InBounds(r) && r == Inserts(st, done)
    {
      NextInsert(inserted, first, nextInsert, k, st, done);
      var line := inserted[nextInsert].line;
      done := done + [line];
      r := OneInsert(r, line);
      nextInsert := nextInsert + 1;
    }
    InsertsEnd(inserted, nextInsert, k);
  }

  method FixInsertedDeletedLines(lines: seq<Line>, inserted: seq<Insert>, deleted: seq<nat>) returns (out: seq<Line>)
    ensures out == After(lines, Resolve(inserted, deleted, |lines|), |lines|).out
  {
    ghost var edits := Resolve(inserted, deleted, |lines|);
    var st, oldNr, nextInsert, nextDelete := EMPTY, 0, 0, 0;
    while oldNr < |lines|
      invariant 0 <= oldNr <= |lines| && st == After(lines, edits, oldNr)
      invariant nextInsert == Used(Numbers(inserted), oldNr) && nextDelete == Used(deleted, oldNr)
    {
      EditsMet(inserted, deleted, |lines|, oldNr);
      st, nextInsert, nextDelete :=
        MergeLine(lines[oldNr], inserted, deleted, edits[oldNr], oldNr, st, nextInsert, nextDelete);
      oldNr := oldNr + 1;
    }
    out := st.out;
  }

  /** The loop's body, for one line. */
  method MergeLine(oldLine: Line, inserted: seq<Insert>, deleted: seq<nat>, ghost e: Edits, oldNr: nat, st: State,
    firstInsert: nat, firstDelete: nat)
    returns (r: State, nextInsert: nat, nextDelete: nat)
    requires Met(inserted, deleted, oldNr, e) && InBounds(st)
    requires firstInsert == Used(Numbers(inserted), oldNr) && firstDelete == Used(deleted, oldNr)
    ensures r == OneLine(st, oldLine, e)
    ensures nextInsert == Used(Numbers(inserted), oldNr + 1) && nextDelete == Used(deleted, oldNr + 1)
  {
    var line, save;
    line, r := oldLine, st;
    if line.FileName? {
      r := r.(delta := 0);
    } else if IsHeader(line) {
      r := r.(last := r.newNr);
      line := Bump(line, r.delta, 0);
    }
    nextDelete, r, save := DeleteHere(inserted, deleted, firstDelete, oldNr, e, r);
    nextInsert, r := InsertHere(inserted, deleted, firstInsert, oldNr, e, r);
    if save {
      r := r.(out := r.out + [line], newNr := r.newNr + 1);
    }
  }

  // ---------- every edit in its place ----------

  ghost predicate Sorted(nrs: seq<nat>) {
    forall i, j | 0 <= i < j < |nrs| :: nrs[i] <= nrs[j]
  }

  lemma {:induction false} UsedSorted(nrs: seq<nat>, k: nat)
    requires Sorted(nrs)
    ensures forall i | 0 <= i < Used(nrs, k) :: nrs[i] < k
    ensures forall i | Used(nrs, k) <= i < |nrs| :: nrs[i] >= k
  {
    if k > 0 {
      UsedSorted(nrs, k - 1);
    }
  }

  /** With sorted edits, the ones met at a line are the ones for that line. */
  lemma MetWhereMeant(nrs: seq<nat>, k: nat, i: nat)
    requires Sorted(nrs) && i < |nrs|
    ensures Used(nrs, k) <= i < Used(nrs, k + 1) <==> nrs[i] == k
  {
    UsedSorted(nrs, k);
    UsedSorted(nrs, k + 1);
  }

  lemma {:induction false} UsedIsSorted(nrs: seq<nat>, k: nat)
    ensures forall i | 0 <= i < Used(nrs, k) :: nrs[i] < k
    ensures Sorted(nrs[..Used(nrs, k)])
  {
    if k > 0 {
      UsedIsSorted(nrs, k - 1);
      var p, q := Used(nrs, k - 1), Used(nrs, k);
      forall i, j | 0 <= i < j < q ensures nrs[i] <= nrs[j] {
        if j < p {
          assert nrs[..p][i] <= nrs[..p][j];
        }
      }
    }
  }

  /** The merge uses every edit exactly if they come sorted and lie within the lines. */
  lemma AllUsed(nrs: seq<nat>, n: nat)
    ensures Used(nrs, n) == |nrs| <==> Sorted(nrs) && forall i | 0 <= i < |nrs| :: nrs[i] < n
  {
    UsedIsSorted(nrs, n);
    assert nrs[..|nrs|] == nrs;
    if Sorted(nrs) {
      UsedSorted(nrs, n);
    }
  }

  // ---------- the merged text ----------

  /** Where the output has got to when the merge comes to line `k`. */
  function Position(edits: seq<Edits>, k: nat): nat
    requires k <= |edits|
  {
    if k == 0 then 0
    else Position(edits, k - 1) + |edits[k - 1].ins| + if edits[k - 1].dels == 0 then 1 else 0
  }

  /** For one line the insertions that are for it, and then the line itself unless it is deleted. */
  function Piece(lines: seq<Line>, edits: seq<Edits>, k: nat): seq<Line>
    requires |edits| == |lines| && k < |lines|
  {
    edits[k].ins + (if edits[k].dels == 0 then [lines[k]] else [])
  }

  /** The patch with its edits made. */
  function Merged(lines: seq<Line>, edits: seq<Edits>, k: nat): (r: seq<Line>)
    requires |edits| == |lines| && k <= |lines|
    ensures |r| == Position(edits, k)
  {
    if k == 0 then []
    else Merged(lines, edits, k - 1) + Piece(lines, edits, k - 1)
  }

  /** A line without the numbers that the merge repairs. */
  function Face(l: Line): Line {
    if l.Hunk? then l.(newStart := 0, newLen := 0) else l
  }

  ghost predicate SameFaces(a: seq<Line>, b: seq<Line>) {
    |a| == |b| && forall i | 0 <= i < |a| :: Face(a[i]) == Face(b[i])
  }

  lemma {:induction false} DeletesFaces(st: State, n: nat)
    requires InBounds(st) && (st.last < |st.out| || n == 0)
    ensures SameFaces(Deletes(st, n).out, st.out)
  {
    if n > 0 {
      DeletesFaces(st, n - 1);
    }
  }

  lemma {:induction false} InsertsFaces(st: State, ins: seq<Line>)
    requires InBounds(st)
    ensures SameFaces(Inserts(st, ins).out, st.out + ins)
    decreases |ins|
  {
    if ins != [] {
      InsertsFaces(st, ins[..|ins| - 1]);
    } else {
      assert st.out + ins == st.out;
    }
  }

  /** No deletion is for the first line or for a hunk header. */
  ghost predicate DeletesPlaced(lines: seq<Line>, edits: seq<Edits>, k: nat)
    requires |edits| == |lines| && k <= |lines|
  {
    forall j | 0 <= j < k :: edits[j].dels > 0 ==> j > 0 && !IsHeader(lines[j])
  }

  /** The merge is at line `k`, and its output so far is what it should be. */
  ghost predicate OnCourse(lines: seq<Line>, edits: seq<Edits>, k: nat)
    requires |edits| == |lines| && k <= |lines|
  {
    var st := After(lines, edits, k);
    && st.newNr == |st.out| && (k > 0 ==> st.last < |st.out|)
    && SameFaces(st.out, Merged(lines, edits, k))
  }

  lemma OneLineFaces(st: State, line: Line, e: Edits)
    requires InBounds(st) && st.newNr == |st.out|
    requires e.dels > 0 ==> st.last < |st.out| && !IsHeader(line)
    requires st.last < |st.out| || st == EMPTY
    ensures var r := OneLine(st, line, e);
      && r.newNr == |r.out| && r.last < |r.out|
      && SameFaces(r.out, st.out + (e.ins + if e.dels == 0 then [line] else []))
  {
    var a := Starts(st, line);
    var b := Deletes(a, e.dels);
    var c := Inserts(b, e.ins);
    DeletesFaces(a, e.dels);
    InsertsFaces(b, e.ins);
    assert SameFaces(c.out, st.out + e.ins) by {
      assert forall i | 0 <= i < |st.out| :: Face(b.out[i]) == Face(a.out[i]);
    }
  }

  lemma {:induction false} StaysOnCourse(lines: seq<Line>, edits: seq<Edits>, k: nat)
    requires |edits| == |lines| && k <= |lines| && DeletesPlaced(lines, edits, k)
    ensures OnCourse(lines, edits, k)
    decreases k
  {
    if k > 0 {
      StaysOnCourse(lines, edits, k - 1);
      var st := After(lines, edits, k - 1);
      OneLineFaces(st, lines[k - 1], edits[k - 1]);
      JoinedFaces(OneLine(st, lines[k - 1], edits[k - 1]).out, st.out, Merged(lines, edits, k - 1),
        Piece(lines, edits, k - 1));
    }
  }

  lemma JoinedFaces(out: seq<Line>, a: seq<Line>, b: seq<Line>, more: seq<Line>)
    requires SameFaces(out, a + more) && SameFaces(a, b)
    ensures SameFaces(out, b + more)
  {
    forall i | 0 <= i < |out| ensures Face(out[i]) == Face((b + more)[i]) {
      assert Face(out[i]) == Face((a + more)[i]);
    }
  }

  lemma {:induction false} DeletesKeepUndefined(st: State, n: nat)
    requires InBounds(st) && (Undefined in st.out || (n > 0 && st.last == |st.out|))
    ensures Undefined in Deletes(st, n).out
  {
    if n == 1 && st.last == |st.out| {
      assert Deletes(st, 0) == st;
      assert Deletes(st, 1).out[st.last] == Undefined;
    } else if n > 0 {
      DeletesKeepUndefined(st, n - 1);
      FixedKeepsUndefined(Deletes(st, n - 1).out, st.last, Deletes(st, n - 1).delta, -1);
    }
  }

  lemma FixedKeepsUndefined(out: seq<Line>, last: nat, offset: int, length: int)
    requires last <= |out| && Undefined in out
    ensures Undefined in Fixed(out, last, offset, length)
  {
    var i :| 0 <= i < |out| && out[i] == Undefined;
    assert Fixed(out, last, offset, length)[i] == Undefined;
  }

  lemma {:induction false} InsertsKeepUndefined(st: State, ins: seq<Line>)
    requires InBounds(st) && Undefined in st.out
    ensures Undefined in Inserts(st, ins).out
    decreases |ins|
  {
    if ins != [] {
      InsertsKeepUndefined(st, ins[..|ins| - 1]);
      var s := Inserts(st, ins[..|ins| - 1]);
      FixedKeepsUndefined(s.out + [ins[|ins| - 1]], s.last, s.delta, 1);
    }
  }

  lemma OneLineKeepsUndefined(st: State, line: Line, e: Edits)
    requires InBounds(st)
    requires Undefined in st.out || (e.dels > 0 && st.newNr == |st.out| && (IsHeader(line) || st == EMPTY))
    ensures Undefined in OneLine(st, line, e).out
  {
    var a := Starts(st, line);
    DeletesKeepUndefined(a, e.dels);
    InsertsKeepUndefined(Deletes(a, e.dels), e.ins);
  }

  /** A deletion for the first line or a header leaves an undefined line in the output for good. */
  lemma {:induction false} Misplaced(lines: seq<Line>, edits: seq<Edits>, k: nat)
    requires |edits| == |lines| && k <= |lines| && !DeletesPlaced(lines, edits, k)
    ensures Undefined in After(lines, edits, k).out
    decreases k
  {
    var st := After(lines, edits, k - 1);
    if DeletesPlaced(lines, edits, k - 1) {
      StaysOnCourse(lines, edits, k - 1);
    } else {
      Misplaced(lines, edits, k - 1);
    }
    OneLineKeepsUndefined(st, lines[k - 1], edits[k - 1]);
  }

  ghost predicate AllDefined(lines: seq<Line>, edits: seq<Edits>) {
    Undefined !in lines && forall k | 0 <= k < |edits| :: Undefined !in edits[k].ins
  }

  lemma {:induction false} MergedIsDefined(lines: seq<Line>, edits: seq<Edits>, k: nat)
    requires |edits| == |lines| && k <= |lines| && AllDefined(lines, edits)
    ensures Undefined !in Merged(lines, edits, k)
    decreases k
  {
    if k > 0 {
      MergedIsDefined(lines, edits, k - 1);
    }
  }

  /**
     The content theorem: up to the numbers in the headers, the output is for each line the insertions for it
     and then the line unless deleted, exactly if no deletion is for the first line or for a header.
   */
  lemma MergesExactly(lines: seq<Line>, edits: seq<Edits>)
    requires |edits| == |lines| && AllDefined(lines, edits)
    ensures SameFaces(After(lines, edits, |lines|).out, Merged(lines, edits, |lines|))
      <==> DeletesPlaced(lines, edits, |lines|)
  {
    var n := |lines|;
    if DeletesPlaced(lines, edits, n) {
      StaysOnCourse(lines, edits, n);
    } else {
      Misplaced(lines, edits, n);
      MergedIsDefined(lines, edits, n);
      var out, merged := After(lines, edits, n).out, Merged(lines, edits, n);
      var i :| 0 <= i < |out| && out[i] == Undefined;
      assert i < |merged| ==> Face(merged[i]) != Face(out[i]);
    }
  }

  // ---------- from the edits as they come ----------

  /** The lines to insert at line `k`, in the order they come. */
  function InsertsFor(inserted: seq<Insert>, k: nat): seq<Line> {
    if inserted == [] then []
    else
      var rest := InsertsFor(inserted[..|inserted| - 1], k);
      if inserted[|inserted| - 1].nr == k then rest + [inserted[|inserted| - 1].line] else rest
  }

  /** The patch with its edits made, straight from the two lists. */
  function Edited(lines: seq<Line>, inserted: seq<Insert>, deleted: seq<nat>, k: nat): seq<Line>
    requires k <= |lines|
  {
    if k == 0 then [] else
    Edited(lines, inserted, deleted, k - 1)
      + (InsertsFor(inserted, k - 1) + if k - 1 in deleted then [] else [lines[k - 1]])
  }

  lemma {:induction false} NoneFor(inserted: seq<Insert>, k: nat)
    requires forall i | 0 <= i < |inserted| :: inserted[i].nr != k
    ensures InsertsFor(inserted, k) == []
  {
    if inserted != [] {
      NoneFor(inserted[..|inserted| - 1], k);
    }
  }

  lemma LastSlice(front: seq<Line>, ls: seq<Line>, p: nat)
    requires p < |ls| && front == ls[..|ls| - 1]
    ensures ls[p..|ls|] == front[p..|ls| - 1] + [ls[|ls| - 1]]
  {
  }

  lemma {:induction false} ForThatLine(inserted: seq<Insert>, k: nat, p: nat, q: nat)
    requires p <= q <= |inserted|
    requires forall i | 0 <= i < |inserted| :: inserted[i].nr == k <==> p <= i < q
    ensures InsertsFor(inserted, k) == LinesOf(inserted)[p..q]
    decreases |inserted|
  {
    var n := |inserted|;
    if p == q {
      NoneFor(inserted, k);
    } else if q < n {
      ForThatLine(inserted[..n - 1], k, p, q);
      assert LinesOf(inserted[..n - 1])[p..q] == LinesOf(inserted)[p..q];
    } else {
      ForThatLine(inserted[..n - 1], k, p, q - 1);
      assert inserted[q - 1].nr == k;
      LastSlice(LinesOf(inserted[..n - 1]), LinesOf(inserted), p);
    }
  }

  lemma SortedPiece(inserted: seq<Insert>, deleted: seq<nat>, n: nat, k: nat)
    requires Sorted(Numbers(inserted)) && Sorted(deleted) && k < n
    ensures var e := Resolve(inserted, deleted, n)[k];
      e.ins == InsertsFor(inserted, k) && (e.dels > 0 <==> k in deleted)
  {
    assert Resolve(inserted, deleted, n)[k] == EditsAt(inserted, deleted, k);
    var nrs := Numbers(inserted);
    var p, q := Used(nrs, k), Used(nrs, k + 1);
    forall i | 0 <= i < |inserted| ensures inserted[i].nr == k <==> p <= i < q {
      MetWhereMeant(nrs, k, i);
    }
    ForThatLine(inserted, k, p, q);
    forall i | 0 <= i < |deleted| ensures Used(deleted, k) <= i < Used(deleted, k + 1) <==> deleted[i] == k {
      MetWhereMeant(deleted, k, i);
    }
    if Used(deleted, k) < Used(deleted, k + 1) {
      assert deleted[Used(deleted, k)] == k;
    }
  }

  /** With sorted lists of edits, what is met line by line is what the lists say. */
  lemma {:induction false} SortedMerge(lines: seq<Line>, inserted: seq<Insert>, deleted: seq<nat>, k: nat)
    requires Sorted(Numbers(inserted)) && Sorted(deleted) && k <= |lines|
    ensures Merged(lines, Resolve(inserted, deleted, |lines|), k) == Edited(lines, inserted, deleted, k)
    decreases k
  {
    if k > 0 {
      SortedMerge(lines, inserted, deleted, k - 1);
      SortedPiece(inserted, deleted, |lines|, k - 1);
    }
  }

  /**
     The whole merge, from the lists as they come: sorted, and with no deletion for the first line or a header,
     they give for each line the insertions for it, then the line unless it is in the list of deletions.
   */
  lemma SortedEditsAreMade(lines: seq<Line>, inserted: seq<Insert>, deleted: seq<nat>)
    requires Sorted(Numbers(inserted)) && Sorted(deleted)
    requires forall i | 0 <= i < |deleted| ::
      deleted[i] > 0 && (deleted[i] < |lines| ==> !IsHeader(lines[deleted[i]]))
    ensures var out := After(lines, Resolve(inserted, deleted, |lines|), |lines|).out;
      SameFaces(out, Edited(lines, inserted, deleted, |lines|))
  {
    var edits := Resolve(inserted, deleted, |lines|);
    forall k | 0 <= k < |lines| ensures edits[k].dels > 0 ==> k > 0 && !IsHeader(lines[k]) {
      SortedPiece(inserted, deleted, |lines|, k);
    }
    StaysOnCourse(lines, edits, |lines|);
    SortedMerge(lines, inserted, deleted, |lines|);
  }
}
