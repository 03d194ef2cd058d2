/**
 The meaning of the circular lists of TP_02/EXO-01/list.h, without pointers: a collection of list
 heads, each with the sequence of entries met when its ring is walked forwards.
 */
module ListSpec {
  import opened Sequences

  /** Each list head, with the entries on its ring in order. */
  type Lists<N> = map<N, seq<N>>

  // ---------- well-formed collections ----------

  /** No node is listed twice, and no head is an entry. */
  ghost predicate WellFormed<N>(m: Lists<N>) {
    && (forall h | h in m :: Distinct(m[h]))
    && (forall h, g | h in m && g in m :: h !in m[g])
    && (forall h, g | h in m && g in m && h != g :: Disjoint(m[h], m[g]))
  }

  ghost predicate IsEntry<N>(m: Lists<N>, x: N) {
    exists h :: h in m && x in m[h]
  }

  ghost predicate IsEmptyHead<N>(m: Lists<N>, x: N) {
    x in m && m[x] == []
  }

  /** `x` may be linked in: it is on no ring but, at most, its own empty one. */
  ghost predicate IsLoose<N>(m: Lists<N>, x: N) {
    !IsEntry(m, x) && (x in m ==> m[x] == [])
  }

  ghost function Nodes<N>(m: Lists<N>): set<N> {
    m.Keys + set h, x | h in m && x in m[h] :: x
  }

  // ---------- what each operation does ----------

  ghost function Substituted<N>(s: seq<N>, x: N, y: N): seq<N> {
    seq(|s|, i requires 0 <= i < |s| => if s[i] == x then y else s[i])
  }

  ghost function Rotated<N>(s: seq<N>): seq<N> {
    if s == [] then [] else s[1..] + [s[0]]
  }

  /** Takes `x` off whatever ring it is on; an empty head leaves the collection. */
  ghost function Dropped<N>(m: Lists<N>, x: N): Lists<N> {
    map h | h in m && h != x :: Without(m[h], x)
  }

  ghost function Pushed<N>(m: Lists<N>, x: N, head: N): Lists<N>
    requires head in m && head != x
  {
    var d := Dropped(m, x);
    d[head := [x] + d[head]]
  }

  ghost function Appended<N>(m: Lists<N>, x: N, head: N): Lists<N>
    requires head in m && head != x
  {
    var d := Dropped(m, x);
    d[head := d[head] + [x]]
  }

  ghost function Inserted<N>(m: Lists<N>, x: N, head: N, k: nat): Lists<N>
    requires head in m && head != x && k <= |m[head]|
  {
    (m - {x})[head := m[head][..k] + [x] + m[head][k..]]
  }

  /** `y` takes the place of `x`, be it an entry or a head; `x` is left on no ring. */
  ghost function Replaced<N>(m: Lists<N>, x: N, y: N): Lists<N> {
    var d := Dropped(m, y);
    if x in d then (d - {x})[y := d[x]] else map h | h in d :: Substituted(d[h], x, y)
  }

  ghost function CutAt<N>(m: Lists<N>, list: N, head: N, entry: N): Lists<N>
    requires head in m
  {
    if entry in m[head] then
      var k := IndexOf(m[head], entry) + 1;
      m[list := m[head][..k]][head := m[head][k..]]
    else if entry == head && m[head] != [] then m[list := []]
    else m
  }

  ghost function Joined<N>(m: Lists<N>, list: N, head: N, tail: bool): Lists<N>
    requires list in m && head in m
  {
    if m[list] == [] then m
    else (m - {list})[head := if tail then m[head] + m[list] else m[list] + m[head]]
  }

  datatype Op<N> =
    | Init(head: N)
    | Add(x: N, head: N)
    | AddTail(x: N, head: N)
    | Del(x: N)
    | DelInit(x: N)
    | Replace(x: N, y: N)
    | ReplaceInit(x: N, y: N)
    | Move(x: N, head: N)
    | MoveTail(x: N, head: N)
    | RotateLeft(head: N)
    | CutPosition(list: N, head: N, entry: N)
    | Splice(list: N, head: N)
    | SpliceTail(list: N, head: N)
    | SpliceInit(list: N, head: N)
    | SpliceTailInit(list: N, head: N)

  /** What list.h asks of the caller of each function. */
  ghost predicate Allowed<N>(op: Op<N>, m: Lists<N>) {
    match op
    case Init(h) => !IsEntry(m, h)
    case Add(x, h) => IsLoose(m, x) && h in m && x != h
    case AddTail(x, h) => IsLoose(m, x) && h in m && x != h
    case Del(x) => IsEntry(m, x) || IsEmptyHead(m, x)
    case DelInit(x) => IsEntry(m, x) || IsEmptyHead(m, x)
    case Replace(x, y) => IsLoose(m, y) && x != y && (x in m || IsEntry(m, x))
    case ReplaceInit(x, y) => IsLoose(m, y) && x != y && (x in m || IsEntry(m, x))
    case Move(x, h) => (IsEntry(m, x) || IsEmptyHead(m, x)) && h in m && x != h
    case MoveTail(x, h) => (IsEntry(m, x) || IsEmptyHead(m, x)) && h in m && x != h
    case RotateLeft(h) => h in m
    case CutPosition(l, h, e) => !IsEntry(m, l) && l != h && h in m && (e == h || e in m[h] || |m[h]| <= 1)
    case Splice(l, h) => l in m && h in m && l != h
    case SpliceTail(l, h) => l in m && h in m && l != h
    case SpliceInit(l, h) => l in m && h in m && l != h
    case SpliceTailInit(l, h) => l in m && h in m && l != h
  }

  ghost function Apply<N>(op: Op<N>, m: Lists<N>): Lists<N>
    requires Allowed(op, m)
  {
    match op
    case Init(h) => m[h := []]
    case Add(x, h) => Pushed(m, x, h)
    case AddTail(x, h) => Appended(m, x, h)
    case Del(x) => Dropped(m, x)
    case DelInit(x) => Dropped(m, x)[x := []]
    case Replace(x, y) => Replaced(m, x, y)
    case ReplaceInit(x, y) => Replaced(m, x, y)[x := []]
    case Move(x, h) => Pushed(m, x, h)
    case MoveTail(x, h) => Appended(m, x, h)
    case RotateLeft(h) => m[h := Rotated(m[h])]
    case CutPosition(l, h, e) => CutAt(m, l, h, e)
    case Splice(l, h) => Joined(m, l, h, false)
    case SpliceTail(l, h) => Joined(m, l, h, true)
    case SpliceInit(l, h) => Joined(m, l, h, false)[l := []]
    case SpliceTailInit(l, h) => Joined(m, l, h, true)[l := []]
  }

  // ---------- every operation keeps collections well formed ----------

  lemma DroppedWellFormed<N>(m: Lists<N>, x: N)
    requires WellFormed(m)
    ensures WellFormed(Dropped(m, x))
    ensures IsLoose(Dropped(m, x), x)
  {
    var d := Dropped(m, x);
    forall h | h in d ensures Distinct(d[h]) && x !in d[h] {
      WithoutDistinct(m[h], x);
      WithoutMember(m[h], x, x);
    }
    forall h, g | h in d && g in d ensures h !in d[g] && (h != g ==> Disjoint(d[h], d[g])) {
      WithoutMember(m[g], x, h);
      forall i | 0 <= i < |d[h]| && h != g ensures d[h][i] !in d[g] {
        WithoutMember(m[h], x, d[h][i]);
        WithoutMember(m[g], x, d[h][i]);
      }
    }
  }

  lemma DroppedAway<N>(m: Lists<N>, x: N)
    requires WellFormed(m)
    ensures x !in Nodes(Dropped(m, x))
  {
    DroppedWellFormed(m, x);
  }

  lemma DroppedLoose<N>(m: Lists<N>, x: N)
    requires IsLoose(m, x)
    ensures Dropped(m, x) == m - {x}
  {
    forall h | h in m ensures Without(m[h], x) == m[h] {
      WithoutAbsent(m[h], x);
    }
  }

  lemma DroppedNodes<N>(m: Lists<N>, x: N)
    ensures Nodes(Dropped(m, x)) <= Nodes(m)
  {
    var d := Dropped(m, x);
    forall y | y in Nodes(d) ensures y in Nodes(m) {
      if y !in d {
        var h :| h in d && y in d[h];
        WithoutMember(m[h], x, y);
      }
    }
  }

  lemma DroppedEntry<N>(m: Lists<N>, h: N, k: nat)
    requires WellFormed(m) && h in m && k < |m[h]|
    ensures Dropped(m, m[h][k]) == m[h := m[h][..k] + m[h][k + 1..]]
  {
    WithoutAt(m[h], k);
    forall g | g in m && g != h ensures Without(m[g], m[h][k]) == m[g] {
      WithoutAbsent(m[g], m[h][k]);
    }
  }

  /** A ring may be given new entries as long as no other ring has a claim on them. */
  lemma UpdatedWellFormed<N>(m: Lists<N>, head: N, s: seq<N>)
    requires WellFormed(m) && Distinct(s) && head !in s && !IsEntry(m, head)
    requires forall g | g in m :: g !in s && (g != head ==> Disjoint(s, m[g]))
    ensures WellFormed(m[head := s])
  {
  }

  lemma ReplacedWellFormed<N>(m: Lists<N>, x: N, y: N)
    requires WellFormed(m) && Allowed(Replace(x, y), m)
    ensures WellFormed(Replaced(m, x, y))
    ensures !IsEntry(Replaced(m, x, y), x) && x !in Replaced(m, x, y)
  {
    var d := Dropped(m, y);
    DroppedWellFormed(m, y);
    if x in d {
      UpdatedWellFormed(d - {x}, y, d[x]);
    } else {
      var r := Replaced(m, x, y);
      forall h | h in r ensures Distinct(r[h]) && x !in r[h] {
      }
    }
  }

  /** The key step: no operation ever lists a node twice, on one ring or on two. */
  lemma ApplyWellFormed<N>(op: Op<N>, m: Lists<N>)
    requires WellFormed(m) && Allowed(op, m)
    ensures WellFormed(Apply(op, m))
  {
    match op
    case Add(x, h) => PushedWellFormed(m, x, h);
    case AddTail(x, h) => PushedWellFormed(m, x, h);
    case Del(x) => DroppedWellFormed(m, x);
    case DelInit(x) => DroppedWellFormed(m, x);
    case Move(x, h) => PushedWellFormed(m, x, h);
    case MoveTail(x, h) => PushedWellFormed(m, x, h);
    case Replace(x, y) => ReplacedWellFormed(m, x, y);
    case ReplaceInit(x, y) => ReplacedWellFormed(m, x, y);
    case RotateLeft(h) => UpdatedWellFormed(m, h, Rotated(m[h]));
    case CutPosition(l, h, e) => CutWellFormed(m, l, h, e);
    case Init(h) => UpdatedWellFormed(m, h, []);
    case Splice(l, h) => JoinedWellFormed(m, l, h, false);
    case SpliceTail(l, h) => JoinedWellFormed(m, l, h, true);
    case SpliceInit(l, h) => JoinedWellFormed(m, l, h, false);
    case SpliceTailInit(l, h) => JoinedWellFormed(m, l, h, true);
  }

  lemma PushedWellFormed<N>(m: Lists<N>, x: N, head: N)
    requires WellFormed(m) && head in m && head != x
    ensures WellFormed(Pushed(m, x, head)) && WellFormed(Appended(m, x, head))
  {
    var d := Dropped(m, x);
    DroppedWellFormed(m, x);
    UpdatedWellFormed(d, head, [x] + d[head]);
    UpdatedWellFormed(d, head, d[head] + [x]);
  }

  lemma InsertedWellFormed<N>(m: Lists<N>, x: N, head: N, k: nat)
    requires WellFormed(m) && IsLoose(m, x) && head in m && head != x && k <= |m[head]|
    ensures WellFormed(Inserted(m, x, head, k))
  {
    var s := m[head];
    assert s == s[..k] + s[k..];
    DistinctConcat(s[..k], [x]);
    DistinctConcat(s[..k] + [x], s[k..]);
    UpdatedWellFormed(m - {x}, head, s[..k] + [x] + s[k..]);
  }

  lemma PushedIsInserted<N>(m: Lists<N>, x: N, head: N)
    requires IsLoose(m, x) && head in m && head != x
    ensures Pushed(m, x, head) == Inserted(m, x, head, 0)
    ensures Appended(m, x, head) == Inserted(m, x, head, |m[head]|)
  {
    DroppedLoose(m, x);
    var s := m[head];
    assert s[..0] + [x] + s[0..] == [x] + s;
    assert s[..|s|] + [x] + s[|s|..] == s + [x];
  }

  lemma RotateIsMove<N>(m: Lists<N>, head: N)
    requires WellFormed(m) && head in m && m[head] != []
    ensures Allowed(MoveTail(m[head][0], head), m)
    ensures Appended(m, m[head][0], head) == m[head := Rotated(m[head])]
  {
    assert m[head][0] in m[head];
    DroppedEntry(m, head, 0);
    assert m[head][..0] + m[head][1..] == m[head][1..];
  }

  lemma ReplacedAt<N>(m: Lists<N>, h: N, k: nat, y: N)
    requires WellFormed(m) && h in m && k <= |m[h]| && IsLoose(m, y) && y != h
    ensures Replaced(m, if k == 0 then h else m[h][k - 1], y) ==
      if k == 0 then (m - {y, h})[y := m[h]] else (m - {y})[h := m[h][k - 1 := y]]
  {
    DroppedLoose(m, y);
    if k > 0 {
      var x := m[h][k - 1];
      assert x in m[h];
      assert Substituted(m[h], x, y) == m[h][k - 1 := y];
      forall g | g in m && g != h ensures Substituted(m[g], x, y) == m[g] {
        assert forall i | 0 <= i < |m[g]| :: m[g][i] in m[g];
      }
    }
  }

  lemma ReplacedNodes<N>(m: Lists<N>, x: N, y: N)
    requires IsLoose(m, y)
    ensures Nodes(Replaced(m, x, y)) <= Nodes(m) + {y}
  {
    DroppedLoose(m, y);
    var r := Replaced(m, x, y);
    forall z | z in Nodes(r) && z !in r ensures z in Nodes(m) + {y} {
      var h :| h in r && z in r[h];
      var g := if h == y then x else h;
      assert g in m && (z in m[g] || z == y);
    }
  }

  lemma JoinedLoose<N>(m: Lists<N>, list: N, head: N, tail: bool)
    requires WellFormed(m) && list in m && head in m && list != head
    ensures !IsEntry(Joined(m, list, head, tail), list)
  {
    var j := Joined(m, list, head, tail);
    forall h | h in j ensures list !in j[h] {
    }
  }

  lemma JoinedFacts<N>(m: Lists<N>, list: N, head: N, tail: bool)
    requires WellFormed(m) && list in m && head in m && list != head
    ensures var j := Joined(m, list, head, tail);
      WellFormed(j) && Nodes(j) <= Nodes(m) && !IsEntry(j, list)
  {
    JoinedWellFormed(m, list, head, tail);
    JoinedNodes(m, list, head, tail);
    JoinedLoose(m, list, head, tail);
  }

  lemma JoinedEmpty<N>(m: Lists<N>, list: N, head: N, tail: bool)
    requires list in m && head in m && m[list] == []
    ensures Joined(m, list, head, tail)[list := []] == m
  {
  }

  lemma JoinedIsSplice<N>(m: Lists<N>, list: N, head: N, tail: bool)
    requires list in m && head in m && m[list] != []
    ensures var k := if tail then |m[head]| else 0;
      Joined(m, list, head, tail) == (m - {head, list})[head := m[head][..k] + m[list] + m[head][k..]]
  {
    var s, t := m[head], m[list];
    assert s[..0] + t + s[0..] == t + s;
    assert s[..|s|] + t + s[|s|..] == s + t;
  }

  /** A node of one of the rings set aside is on none of the others. */
  lemma RestApart<N>(m: Lists<N>, aside: set<N>, h: N, x: N)
    requires WellFormed(m) && h in m && h in aside && (x == h || x in m[h])
    ensures x !in Nodes(m - aside)
  {
    if x in Nodes(m - aside) {
      if x in m - aside {
        assert false;
      } else {
        var g :| g in m - aside && x in m[g];
        assert false;
      }
    }
  }

  lemma LooseApart<N>(m: Lists<N>, aside: set<N>, x: N)
    requires !IsEntry(m, x) && (x in m ==> x in aside)
    ensures x !in Nodes(m - aside)
  {
  }

  lemma JoinedNodes<N>(m: Lists<N>, list: N, head: N, tail: bool)
    requires list in m && head in m
    ensures Nodes(Joined(m, list, head, tail)) <= Nodes(m)
  {
    var j := Joined(m, list, head, tail);
    forall z | z in Nodes(j) && z !in j ensures z in Nodes(m) {
      var h :| h in j && z in j[h];
      assert z in m[h] || z in m[list];
    }
  }

  lemma PushedDropped<N>(m: Lists<N>, x: N, head: N)
    requires WellFormed(m) && head in m && head != x
    ensures Pushed(Dropped(m, x), x, head) == Pushed(m, x, head)
    ensures Appended(Dropped(m, x), x, head) == Appended(m, x, head)
  {
    DroppedWellFormed(m, x);
    DroppedLoose(Dropped(m, x), x);
    assert Dropped(m, x) - {x} == Dropped(m, x);
  }

  lemma AppendedNodes<N>(m: Lists<N>, x: N, head: N)
    requires WellFormed(m) && IsLoose(m, x) && head in m && head != x
    ensures Nodes(Appended(m, x, head)) <= Nodes(m) + {x}
  {
    ApplyNodes(AddTail(x, head), m);
  }

  lemma AppendedFresh<N>(m: Lists<N>, x: N, head: N)
    requires head in m && x !in m && !IsEntry(m, x)
    ensures Appended(m, x, head) == m[head := m[head] + [x]]
  {
    DroppedLoose(m, x);
    assert m - {x} == m;
  }

  lemma CutWellFormed<N>(m: Lists<N>, list: N, head: N, entry: N)
    requires WellFormed(m) && Allowed(CutPosition(list, head, entry), m)
    ensures WellFormed(CutAt(m, list, head, entry))
  {
    if entry in m[head] {
      var k := IndexOf(m[head], entry) + 1;
      var rest := m[head := m[head][k..]];
      UpdatedWellFormed(m, head, m[head][k..]);
      UpdatedWellFormed(rest, list, m[head][..k]);
      assert CutAt(m, list, head, entry) == rest[list := m[head][..k]];
    }
  }

  lemma JoinedWellFormed<N>(m: Lists<N>, list: N, head: N, tail: bool)
    requires WellFormed(m) && list in m && head in m && list != head
    ensures WellFormed(Joined(m, list, head, tail))
    ensures WellFormed(Joined(m, list, head, tail)[list := []])
  {
    var s := if tail then m[head] + m[list] else m[list] + m[head];
    DistinctConcat(m[head], m[list]);
    DistinctConcat(m[list], m[head]);
    UpdatedWellFormed(m - {list}, head, s);
    UpdatedWellFormed(Joined(m, list, head, tail), list, []);
  }

  // ---------- whole runs ----------

  ghost predicate RunAllowed<N>(ops: seq<Op<N>>, m: Lists<N>) {
    ops == [] || (Allowed(ops[0], m) && RunAllowed(ops[1..], Apply(ops[0], m)))
  }

  ghost function Run<N>(ops: seq<Op<N>>, m: Lists<N>): Lists<N>
    requires RunAllowed(ops, m)
  {
    if ops == [] then m else Run(ops[1..], Apply(ops[0], m))
  }

  ghost function OpNodes<N>(op: Op<N>): set<N> {
    match op
    case Init(h) => {h}
    case Add(x, h) => {x, h}
    case AddTail(x, h) => {x, h}
    case Del(x) => {x}
    case DelInit(x) => {x}
    case Replace(x, y) => {x, y}
    case ReplaceInit(x, y) => {x, y}
    case Move(x, h) => {x, h}
    case MoveTail(x, h) => {x, h}
    case RotateLeft(h) => {h}
    case CutPosition(l, h, e) => {l, h, e}
    case Splice(l, h) => {l, h}
    case SpliceTail(l, h) => {l, h}
    case SpliceInit(l, h) => {l, h}
    case SpliceTailInit(l, h) => {l, h}
  }

  ghost function RunNodes<N>(ops: seq<Op<N>>): set<N> {
    if ops == [] then {} else OpNodes(ops[0]) + RunNodes(ops[1..])
  }

  /** The operations that forget no node: the others leave a node, or a list not cared about, on no ring. */
  ghost predicate Keeps<N>(op: Op<N>, m: Lists<N>) {
    match op
    case Init(h) => h in m ==> m[h] == []
    case Del(_) => false
    case Replace(_, _) => false
    case Splice(l, _) => l in m ==> m[l] == []
    case SpliceTail(l, _) => l in m ==> m[l] == []
    case CutPosition(l, _, _) => l in m ==> m[l] == []
    case _ => true
  }

  ghost predicate RunKeeps<N>(ops: seq<Op<N>>, m: Lists<N>)
    requires RunAllowed(ops, m)
  {
    ops == [] || (Keeps(ops[0], m) && RunKeeps(ops[1..], Apply(ops[0], m)))
  }

  ghost predicate OnRing<N>(m: Lists<N>, y: N) {
    y in m || IsEntry(m, y)
  }

  lemma DroppedOnRing<N>(m: Lists<N>, x: N, y: N)
    requires IsEntry(m, x) || IsLoose(m, x)
    requires WellFormed(m)
    ensures OnRing(Dropped(m, x), y) <==> OnRing(m, y) && y != x
  {
    var d := Dropped(m, x);
    forall h | h in d ensures y in d[h] <==> y in m[h] && y != x {
      WithoutMember(m[h], x, y);
    }
    if IsEntry(m, y) && y != x {
      var h :| h in m && y in m[h];
      assert h in d && y in d[h];
    }
  }

  /** With `head`'s old entries `t` replaced by `s`, just the nodes of `t` may leave and just those of `s` may come. */
  lemma UpdatedOnRing<N>(m: Lists<N>, head: N, s: seq<N>, y: N)
    requires WellFormed(m)
    ensures OnRing(m[head := s], y) <==>
      y == head || y in s || (OnRing(m, y) && !(head in m && y in m[head]))
  {
    var u := m[head := s];
    if IsEntry(m, y) {
      var h :| h in m && y in m[h];
      assert h != head ==> h in u && y in u[h];
      if head in m && y in m[head] && h != head {
        assert false;
      }
    }
    if y in s {
      assert head in u && y in u[head];
    }
  }

  lemma PushedOnRing<N>(m: Lists<N>, x: N, head: N, y: N)
    requires WellFormed(m) && head in m && head != x && (IsEntry(m, x) || IsLoose(m, x))
    ensures OnRing(Pushed(m, x, head), y) <==> OnRing(m, y) || y == x
    ensures OnRing(Appended(m, x, head), y) <==> OnRing(m, y) || y == x
  {
    var d := Dropped(m, x);
    DroppedWellFormed(m, x);
    DroppedOnRing(m, x, y);
    UpdatedOnRing(d, head, [x] + d[head], y);
    UpdatedOnRing(d, head, d[head] + [x], y);
  }

  lemma ReplacedOnRing<N>(m: Lists<N>, x: N, y: N, z: N)
    requires WellFormed(m) && Allowed(Replace(x, y), m)
    ensures OnRing(Replaced(m, x, y), z) <==> z == y || (OnRing(m, z) && z != x)
  {
    var d := Dropped(m, y);
    DroppedWellFormed(m, y);
    DroppedOnRing(m, y, x);
    DroppedOnRing(m, y, z);
    if x in d {
      HeadReplacedOnRing(d, x, y, z);
    } else {
      EntryReplacedOnRing(d, x, y, z);
    }
  }

  lemma HeadReplacedOnRing<N>(d: Lists<N>, x: N, y: N, z: N)
    requires WellFormed(d) && x in d && !OnRing(d, y)
    ensures OnRing((d - {x})[y := d[x]], z) <==> z == y || (OnRing(d, z) && z != x)
  {
    var r := (d - {x})[y := d[x]];
    if IsEntry(d, z) {
      var h :| h in d && z in d[h];
      var g := if h == x then y else h;
      assert g in r && z in r[g];
    }
  }

  lemma EntryReplacedOnRing<N>(d: Lists<N>, x: N, y: N, z: N)
    requires WellFormed(d) && x !in d && IsEntry(d, x) && !OnRing(d, y)
    ensures OnRing(map h | h in d :: Substituted(d[h], x, y), z) <==> z == y || (OnRing(d, z) && z != x)
  {
    var r := map h | h in d :: Substituted(d[h], x, y);
    if IsEntry(d, z) && z != x {
      var h :| h in d && z in d[h];
      assert r[h][IndexOf(d[h], z)] == z;
    }
    if z == y {
      var h :| h in d && x in d[h];
      assert r[h][IndexOf(d[h], x)] == y;
    }
  }

  lemma JoinedOnRing<N>(m: Lists<N>, list: N, head: N, tail: bool, y: N)
    requires WellFormed(m) && list in m && head in m && list != head
    ensures OnRing(Joined(m, list, head, tail)[list := []], y) <==> OnRing(m, y)
  {
    if m[list] == [] {
      assert m[list := []] == m;
    } else {
      var s := if tail then m[head] + m[list] else m[list] + m[head];
      var e := m[list := []];
      assert Joined(m, list, head, tail)[list := []] == e[head := s];
      UpdatedWellFormed(m, list, []);
      UpdatedOnRing(m, list, [], y);
      UpdatedOnRing(e, head, s, y);
      assert y in s <==> y in m[head] || y in m[list];
    }
  }

  /** A cut hands the front part of the ring to `list`: the two rings together hold what `head` held. */
  lemma CutOnRing<N>(m: Lists<N>, list: N, head: N, entry: N, y: N)
    requires WellFormed(m) && Allowed(CutPosition(list, head, entry), m)
    ensures Keeps(CutPosition(list, head, entry), m) && OnRing(m, y) ==> OnRing(CutAt(m, list, head, entry), y)
    ensures OnRing(CutAt(m, list, head, entry), y) ==> OnRing(m, y) || y == list
  {
    var c := CutAt(m, list, head, entry);
    if IsEntry(m, y) {
      var h :| h in m && y in m[h];
      if entry in m[head] && h == head {
        var k := IndexOf(m[head], entry) + 1;
        assert m[head] == m[head][..k] + m[head][k..];
        assert y in c[list] || y in c[head];
      } else if h != list {
        assert h in c && y in c[h];
      }
    }
  }

  /** No node is lost by an operation that keeps them, and none appears that the caller did not name. */
  lemma ApplyOnRing<N>(op: Op<N>, m: Lists<N>, y: N)
    requires WellFormed(m) && Allowed(op, m)
    ensures Keeps(op, m) && OnRing(m, y) ==> OnRing(Apply(op, m), y)
    ensures OnRing(Apply(op, m), y) ==> OnRing(m, y) || y in OpNodes(op)
  {
    match op
    case Init(h) => UpdatedOnRing(m, h, [], y);
    case Add(x, h) => PushedOnRing(m, x, h, y);
    case AddTail(x, h) => PushedOnRing(m, x, h, y);
    case Del(x) => DroppedOnRing(m, x, y);
    case DelInit(x) => DroppedOnRing(m, x, y); DroppedWellFormed(m, x); UpdatedOnRing(Dropped(m, x), x, [], y);
    case Move(x, h) => PushedOnRing(m, x, h, y);
    case MoveTail(x, h) => PushedOnRing(m, x, h, y);
    case Replace(x, z) => ReplacedOnRing(m, x, z, y);
    case ReplaceInit(x, z) =>
      ReplacedOnRing(m, x, z, y);
      ReplacedWellFormed(m, x, z);
      UpdatedOnRing(Replaced(m, x, z), x, [], y);
    case RotateLeft(h) => UpdatedOnRing(m, h, Rotated(m[h]), y);
    case CutPosition(l, h, e) => CutOnRing(m, l, h, e, y);
    case Splice(l, h) => JoinedOnRing(m, l, h, false, y);
    case SpliceTail(l, h) => JoinedOnRing(m, l, h, true, y);
    case SpliceInit(l, h) => JoinedOnRing(m, l, h, false, y);
    case SpliceTailInit(l, h) => JoinedOnRing(m, l, h, true, y);
  }

  lemma ApplyNodes<N>(op: Op<N>, m: Lists<N>)
    requires WellFormed(m) && Allowed(op, m)
    ensures Nodes(Apply(op, m)) <= Nodes(m) + OpNodes(op)
  {
    forall y | y in Nodes(Apply(op, m)) ensures y in Nodes(m) + OpNodes(op) {
      ApplyOnRing(op, m, y);
    }
  }

  /**
   After any run: every list is still well formed, so no node is on two rings or twice on one; a run
   of keeping operations loses none; and only nodes the run names are added.
   */
  lemma {:induction false} RunConserves<N>(ops: seq<Op<N>>, m: Lists<N>, y: N)
    requires WellFormed(m) && RunAllowed(ops, m)
    ensures WellFormed(Run(ops, m))
    ensures RunKeeps(ops, m) && OnRing(m, y) ==> OnRing(Run(ops, m), y)
    ensures OnRing(Run(ops, m), y) ==> OnRing(m, y) || y in RunNodes(ops)
  {
    if ops != [] {
      ApplyWellFormed(ops[0], m);
      ApplyOnRing(ops[0], m, y);
      RunConserves(ops[1..], Apply(ops[0], m), y);
    }
  }

  // ---------- what operations undo ----------

  lemma {:induction false} RotateSome<N>(m: Lists<N>, head: N, k: nat)
    requires head in m && k <= |m[head]|
    ensures RunAllowed(seq(k, _ => RotateLeft(head)), m)
    ensures Run(seq(k, _ => RotateLeft(head)), m) == m[head := m[head][k..] + m[head][..k]]
    decreases k
  {
    var ops: seq<Op<N>> := seq(k, _ => RotateLeft(head));
    if k == 0 {
      assert m[head][0..] + m[head][..0] == m[head];
    } else {
      var s := m[head];
      var m1 := Apply(RotateLeft(head), m);
      RotateSome(m1, head, k - 1);
      assert ops[1..] == seq(k - 1, _ => RotateLeft(head));
      assert m1[head] == s[1..] + [s[0]];
      assert m1[head][k - 1..] + m1[head][..k - 1] == s[k..] + s[..k];
    }
  }

  /** Rotating a list once per entry brings it back. */
  lemma RotateAll<N>(m: Lists<N>, head: N)
    requires head in m
    ensures RunAllowed(seq(|m[head]|, _ => RotateLeft(head)), m)
    ensures Run(seq(|m[head]|, _ => RotateLeft(head)), m) == m
  {
    RotateSome(m, head, |m[head]|);
    assert m[head][|m[head]|..] + m[head][..|m[head]|] == m[head];
  }

  /** Cutting a list at any of its entries gives exactly the two parts; splicing the front part back restores it. */
  lemma CutThenSplice<N>(m: Lists<N>, list: N, head: N, k: nat)
    requires WellFormed(m) && head in m && k < |m[head]| && IsLoose(m, list) && list != head
    ensures Allowed(CutPosition(list, head, m[head][k]), m)
    ensures var c := Apply(CutPosition(list, head, m[head][k]), m);
      && c[list] == m[head][..k + 1]
      && c[head] == m[head][k + 1..]
      && Allowed(Splice(list, head), c)
      && Apply(Splice(list, head), c) == m - {list}
      && Apply(SpliceInit(list, head), c) == m[list := []]
  {
    var entry := m[head][k];
    var j := IndexOf(m[head], entry);
    assert j == k;
    var c := Apply(CutPosition(list, head, entry), m);
    assert c[list] + c[head] == m[head];
    assert Apply(Splice(list, head), c) == m - {list};
  }

  /**
     The other cases of a cut: with the head as entry, the other list becomes empty and nothing else changes; an
     empty list, or one whose single entry is not the given one, is left alone, and so is the other.
   */
  lemma CutElsewhere<N>(m: Lists<N>, list: N, head: N, entry: N)
    requires WellFormed(m) && Allowed(CutPosition(list, head, entry), m) && entry !in m[head]
    ensures var c := Apply(CutPosition(list, head, entry), m);
      if m[head] != [] && entry == head then
        list in c && c[list] == [] && c[head] == m[head] && c - {list} == m - {list}
      else c == m
  {
  }

  /** A new node becomes the first or the last entry, and no other list changes. */
  lemma AddedAtAnEnd<N>(m: Lists<N>, x: N, head: N)
    requires WellFormed(m) && Allowed(Add(x, head), m)
    ensures Apply(Add(x, head), m)[head] == [x] + m[head]
    ensures Apply(AddTail(x, head), m)[head] == m[head] + [x]
    ensures Apply(Add(x, head), m) - {head} == Apply(AddTail(x, head), m) - {head} == m - {head, x}
  {
    DroppedLoose(m, x);
  }

  /** An entry that is moved leaves its place, on the same ring or another, and becomes the first or the last. */
  lemma MovedToAnEnd<N>(m: Lists<N>, from: N, k: nat, head: N)
    requires WellFormed(m) && from in m && k < |m[from]| && head in m
    ensures var x, left := m[from][k], m[from][..k] + m[from][k + 1..];
      && Allowed(Move(x, head), m) && Allowed(MoveTail(x, head), m)
      && Apply(Move(x, head), m)[head] == [x] + (if from == head then left else m[head])
      && Apply(MoveTail(x, head), m)[head] == (if from == head then left else m[head]) + [x]
      && (from != head ==> Apply(Move(x, head), m)[from] == Apply(MoveTail(x, head), m)[from] == left)
      && Apply(Move(x, head), m) - {head, from} == Apply(MoveTail(x, head), m) - {head, from} == m - {head, from}
  {
    assert m[from][k] in m[from];
    DroppedEntry(m, from, k);
  }

  /** Replacing a node, entry or head, and then putting it back restores every list. */
  lemma ReplaceThenBack<N>(m: Lists<N>, x: N, y: N)
    requires WellFormed(m) && Allowed(Replace(x, y), m)
    ensures Allowed(Replace(y, x), Replaced(m, x, y))
    ensures Replaced(Replaced(m, x, y), y, x) == m - {y}
  {
    DroppedLoose(m, y);
    ReplacedIsBack(m, x, y);
    if x in m {
      ReplacedHeadBack(m, x, y);
    } else {
      SubstitutedBack(m - {y}, x, y);
    }
  }

  lemma ReplacedIsBack<N>(m: Lists<N>, x: N, y: N)
    requires WellFormed(m) && Allowed(Replace(x, y), m)
    ensures var r := Replaced(m, x, y);
      && IsLoose(r, x) && Dropped(r, x) == r
      && OnRing(r, y) && (x in m <==> y in r)
  {
    var r := Replaced(m, x, y);
    ReplacedWellFormed(m, x, y);
    ReplacedOnRing(m, x, y, y);
    DroppedLoose(r, x);
    assert r - {x} == r;
  }

  lemma ReplacedHeadBack<N>(m: Lists<N>, x: N, y: N)
    requires x in m && x != y
    requires Dropped(m, y) == m - {y} && Dropped(Replaced(m, x, y), x) == Replaced(m, x, y)
    ensures Replaced(Replaced(m, x, y), y, x) == m - {y}
  {
  }

  lemma SubstitutedBack<N>(d: Lists<N>, x: N, y: N)
    requires !IsEntry(d, y)
    ensures (map h | h in d :: Substituted(Substituted(d[h], x, y), y, x)) == d
  {
    forall h | h in d ensures Substituted(Substituted(d[h], x, y), y, x) == d[h] {
      assert forall i | 0 <= i < |d[h]| :: d[h][i] in d[h];
    }
  }
}
