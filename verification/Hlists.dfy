/**
 The singly headed lists of TP_02/EXO-01/list.h: a head holds one pointer, and every node holds,
 beside `next`, the address of the pointer that leads to it. A node can so be taken off its list
 without the head being known.
 */
module Hlists {
  import opened Sequences

  class HlistHead {
    var first: HlistNode?

    /** HLIST_HEAD_INIT */
    constructor ()
      ensures first == null
    {
      first := null;
    }
  }

  class HlistNode {
    var next: HlistNode?
    var pprev: Slot

    constructor ()
      ensures next == null && pprev == Null
    {
      next, pprev := null, Null;
    }
  }

  /** The address of a pointer to a node: a head's `first`, a node's `next`, or no address at all. */
  datatype Slot = Null | Poison | HeadSlot(head: HlistHead) | NextSlot(node: HlistNode)

  ghost predicate IsAddress(slot: Slot) {
    slot.HeadSlot? || slot.NextSlot?
  }

  /** The object a slot lies in. */
  ghost function Owner(slot: Slot): set<object> {
    match slot
    case HeadSlot(h) => {h}
    case NextSlot(n) => {n}
    case _ => {}
  }

  /** *slot */
  function Deref(slot: Slot): HlistNode?
    requires slot.HeadSlot? || slot.NextSlot?
    reads Owner(slot)
  {
    if slot.HeadSlot? then slot.head.first else slot.node.next
  }

  /** *slot = n */
  method Store(slot: Slot, n: HlistNode?)
    requires IsAddress(slot)
    modifies Owner(slot)
    ensures Deref(slot) == n
    ensures slot.HeadSlot? ==> slot.head.first == n
    ensures slot.NextSlot? ==> slot.node.next == n && slot.node.pprev == old(slot.node.pprev)
  {
    if slot.HeadSlot? {
      slot.head.first := n;
    } else {
      slot.node.next := n;
    }
  }

  // ---------- one chain ----------

  ghost function SlotAt(h: HlistHead, s: seq<HlistNode>, k: nat): Slot
    requires k <= |s|
  {
    if k == 0 then HeadSlot(h) else NextSlot(s[k - 1])
  }

  ghost function NodeAt(s: seq<HlistNode>, k: nat): HlistNode? {
    if k < |s| then s[k] else null
  }

  ghost predicate Chained(h: HlistHead, s: seq<HlistNode>)
    reads h, s
  {
    && h.first == NodeAt(s, 0)
    && (forall i {:trigger s[i].next} :: 0 <= i < |s| ==> s[i].next == NodeAt(s, i + 1))
    && (forall i {:trigger s[i].pprev} :: 0 <= i < |s| ==> s[i].pprev == SlotAt(h, s, i))
  }

  /** A node put in between the slot at position `k` and the node that slot led to. */
  lemma InsertedChained(h: HlistHead, s: seq<HlistNode>, n: HlistNode, k: nat)
    requires k <= |s|
    requires n.pprev == SlotAt(h, s, k) && n.next == NodeAt(s, k) && Deref(SlotAt(h, s, k)) == n
    requires k > 0 ==> h.first == NodeAt(s, 0)
    requires forall i {:trigger s[i].next} :: 0 <= i < |s| && i != k - 1 ==> s[i].next == NodeAt(s, i + 1)
    requires forall i {:trigger s[i].pprev} :: 0 <= i < |s| && i != k ==> s[i].pprev == SlotAt(h, s, i)
    requires k < |s| ==> s[k].pprev == NextSlot(n)
    ensures Chained(h, s[..k] + [n] + s[k..])
  {
    var r := s[..k] + [n] + s[k..];
    forall i | 0 <= i < |r| ensures r[i].next == NodeAt(r, i + 1) && r[i].pprev == SlotAt(h, r, i) {
      assert r[i] == if i < k then s[i] else if i == k then n else s[i - 1];
    }
  }

  /** __hlist_del, of the node at index `k` of a chain or of a fake node, whose `pprev` is its own `next`. */
  method UnlinkLinks(n: HlistNode, ghost h: HlistHead?, ghost s: seq<HlistNode>, ghost k: nat)
    requires IsFake(n) || (h != null && Chained(h, s) && Distinct(s) && k < |s| && n == s[k])
    modifies Owner(n.pprev), Next(n)
    ensures if old(IsFake(n)) then IsFake(n) else Chained(h, s[..k] + s[k + 1..])
  {
    ghost var fake := IsFake(n);
    var next := n.next;
    var pprev := n.pprev;
    Store(pprev, next);
    if next != null {
      next.pprev := pprev;
    }
    if !fake {
      RemovedChained(h, s, k);
    }
  }

  /** A node bypassed by the pointers on either side of it is off the chain. */
  lemma RemovedChained(h: HlistHead, s: seq<HlistNode>, k: nat)
    requires Distinct(s) && k < |s|
    requires Deref(SlotAt(h, s, k)) == NodeAt(s, k + 1)
    requires k > 0 ==> h.first == NodeAt(s, 0)
    requires forall i {:trigger s[i].next} :: 0 <= i < |s| && i != k - 1 && i != k ==> s[i].next == NodeAt(s, i + 1)
    requires forall i {:trigger s[i].pprev} :: 0 <= i < |s| && i != k && i != k + 1 ==> s[i].pprev == SlotAt(h, s, i)
    requires k + 1 < |s| ==> s[k + 1].pprev == SlotAt(h, s, k)
    ensures Chained(h, s[..k] + s[k + 1..])
  {
    var r := s[..k] + s[k + 1..];
    forall i | 0 <= i < |r| ensures r[i].next == NodeAt(r, i + 1) && r[i].pprev == SlotAt(h, r, i) {
      assert r[i] == if i < k then s[i] else s[i + 1];
    }
  }

  method AddHeadLinks(n: HlistNode, h: HlistHead, ghost s: seq<HlistNode>)
    requires Chained(h, s) && Distinct(s) && n !in s
    modifies n, h, if h.first == null then {} else {h.first}
    ensures Chained(h, s[..0] + [n] + s[0..])
  {
    var first := h.first;
    n.next := first;
    if first != null {
      first.pprev := NextSlot(n);
    }
    h.first := n;
    n.pprev := HeadSlot(h);
    InsertedChained(h, s, n, 0);
  }

  method AddBeforeLinks(n: HlistNode, next: HlistNode, ghost h: HlistHead, ghost s: seq<HlistNode>, ghost k: nat)
    requires Chained(h, s) && Distinct(s) && n !in s && k < |s| && next == s[k]
    modifies n, next, Owner(next.pprev)
    ensures Chained(h, s[..k] + [n] + s[k..])
  {
    n.pprev := next.pprev;
    n.next := next;
    next.pprev := NextSlot(n);
    Store(n.pprev, n);
    InsertedChained(h, s, n, k);
  }

  method AddBehindLinks(n: HlistNode, prev: HlistNode, ghost h: HlistHead, ghost s: seq<HlistNode>, ghost k: nat)
    requires Chained(h, s) && Distinct(s) && n !in s && k < |s| && prev == s[k]
    modifies n, prev, if prev.next == null then {} else {prev.next}
    ensures Chained(h, s[..k + 1] + [n] + s[k + 1..])
  {
    n.next := prev.next;
    prev.next := n;
    n.pprev := NextSlot(prev);
    if n.next != null {
      n.next.pprev := NextSlot(n);
    }
    InsertedChained(h, s, n, k + 1);
  }

  method MoveLinks(from: HlistHead, to: HlistHead, ghost s: seq<HlistNode>)
    requires Chained(from, s) && Distinct(s) && from != to
    modifies from, to, if from.first == null then {} else {from.first}
    ensures Chained(to, s) && Chained(from, [])
  {
    to.first := from.first;
    if to.first != null {
      to.first.pprev := HeadSlot(to);
    }
    from.first := null;
  }

  /** hlist_add_fake: the node looks hashed, so that hlist_del will work, but is on no list. */
  ghost predicate IsFake(n: HlistNode)
    reads n
  {
    n.next == null && n.pprev == NextSlot(n)
  }

  // ---------- all the chains of a program ----------

  type Chains = map<HlistHead, seq<HlistNode>>

  ghost predicate WellFormed(m: Chains) {
    && (forall h | h in m :: Distinct(m[h]))
    && (forall h, g | h in m && g in m && h != g :: Disjoint(m[h], m[g]))
  }

  ghost predicate Hashed(m: Chains, n: HlistNode) {
    exists h :: h in m && n in m[h]
  }

  ghost function Objects(m: Chains): set<object> {
    (set h | h in m :: h as object) + (set h, n | h in m && n in m[h] :: n as object)
  }

  ghost predicate AllChained(m: Chains)
    reads Objects(m)
  {
    forall h | h in m :: (assert h in Objects(m) && forall n | n in m[h] :: n in Objects(m); Chained(h, m[h]))
  }

  /** What deleting `n` means, whatever list it is on. */
  ghost function Dropped(m: Chains, n: HlistNode): Chains {
    map h | h in m :: Without(m[h], n)
  }

  ghost function Placed(s: seq<HlistNode>, at: HlistNode, n: HlistNode, behind: bool): seq<HlistNode> {
    if at !in s then s
    else
      var k := IndexOf(s, at) + if behind then 1 else 0;
      s[..k] + [n] + s[k..]
  }

  /** What adding `n` next to `at` means, whatever list that is on. */
  ghost function PlacedIn(m: Chains, at: HlistNode, n: HlistNode, behind: bool): Chains {
    map h | h in m :: Placed(m[h], at, n, behind)
  }

  lemma SetAside(m: Chains, h: HlistHead)
    requires WellFormed(m) && AllChained(m) && h in m
    ensures Chained(h, m[h]) && AllChained(m - {h})
    ensures h in Objects(m) && h !in Objects(m - {h})
    ensures forall k | 0 <= k < |m[h]| :: m[h][k] in Objects(m) && m[h][k] !in Objects(m - {h})
  {
    var rest := m - {h};
    forall g | g in rest ensures Chained(g, rest[g]) {
      assert Chained(g, m[g]);
    }
    forall k | 0 <= k < |m[h]| ensures m[h][k] in Objects(m) && m[h][k] !in Objects(rest) {
      assert m[h][k] in m[h];
    }
  }

  lemma OneMoreChained(rest: Chains, h: HlistHead, s: seq<HlistNode>)
    requires AllChained(rest) && Chained(h, s)
    ensures AllChained(rest[h := s])
  {
    var m := rest[h := s];
    forall g | g in m ensures Chained(g, m[g]) {
      assert g != h ==> Chained(g, rest[g]);
    }
  }

  lemma UpdatedWellFormed(m: Chains, h: HlistHead, s: seq<HlistNode>)
    requires WellFormed(m) && Distinct(s)
    requires forall g | g in m && g != h :: Disjoint(s, m[g])
    ensures WellFormed(m[h := s])
  {
  }

  lemma DroppedAt(m: Chains, h: HlistHead, k: nat)
    requires WellFormed(m) && h in m && k < |m[h]|
    ensures Dropped(m, m[h][k]) == m[h := m[h][..k] + m[h][k + 1..]]
    ensures Dropped(m, m[h][k]) == (m - {h})[h := m[h][..k] + m[h][k + 1..]]
    ensures WellFormed(Dropped(m, m[h][k])) && !Hashed(Dropped(m, m[h][k]), m[h][k])
  {
    WithoutAt(m[h], k);
    forall g | g in m && g != h ensures Without(m[g], m[h][k]) == m[g] {
      WithoutAbsent(m[g], m[h][k]);
    }
    UpdatedWellFormed(m, h, m[h][..k] + m[h][k + 1..]);
  }

  lemma DroppedUnhashed(m: Chains, n: HlistNode)
    requires !Hashed(m, n)
    ensures Dropped(m, n) == m
  {
    forall g | g in m ensures Without(m[g], n) == m[g] {
      WithoutAbsent(m[g], n);
    }
  }

  lemma InsertedAt(m: Chains, h: HlistHead, n: HlistNode, k: nat)
    requires WellFormed(m) && h in m && k <= |m[h]| && !Hashed(m, n)
    ensures WellFormed(m[h := m[h][..k] + [n] + m[h][k..]])
    ensures (m - {h})[h := m[h][..k] + [n] + m[h][k..]] == m[h := m[h][..k] + [n] + m[h][k..]]
  {
    var s := m[h];
    DistinctConcat(s[..k], [n]);
    DistinctConcat(s[..k] + [n], s[k..]);
    UpdatedWellFormed(m, h, s[..k] + [n] + s[k..]);
  }

  lemma PlacedAt(m: Chains, h: HlistHead, k: nat, n: HlistNode, behind: bool)
    requires WellFormed(m) && h in m && k < |m[h]|
    ensures var j := k + if behind then 1 else 0;
      PlacedIn(m, m[h][k], n, behind) == m[h := m[h][..j] + [n] + m[h][j..]]
  {
    PlacedHere(m[h], k, n, behind);
    forall g | g in m && g != h ensures Placed(m[g], m[h][k], n, behind) == m[g] {
      assert m[h][k] in m[h];
    }
  }

  lemma PlacedHere(s: seq<HlistNode>, k: nat, n: HlistNode, behind: bool)
    requires Distinct(s) && k < |s|
    ensures var j := k + if behind then 1 else 0;
      Placed(s, s[k], n, behind) == s[..j] + [n] + s[j..]
  {
    assert IndexOf(s, s[k]) == k;
  }

  ghost predicate AllFake(f: set<HlistNode>)
    reads f
  {
    forall n | n in f :: IsFake(n)
  }

  lemma ObjectIsHashed(m: Chains, n: HlistNode)
    ensures n in Objects(m) <==> Hashed(m, n)
  {
    if n in Objects(m) {
      var h, x :| h in m && x in m[h] && x == n;
    }
    if Hashed(m, n) {
      var h :| h in m && n in m[h];
      assert n in Objects(m);
    }
  }

  lemma HashedAt(m: Chains, n: HlistNode) returns (h: HlistHead, k: nat)
    requires Hashed(m, n)
    ensures h in m && k < |m[h]| && m[h][k] == n
  {
    h :| h in m && n in m[h];
    k := IndexOf(m[h], n);
  }

  /** Fake nodes are out of reach of whatever is done to nodes on lists. */
  lemma FakesApart(m: Chains, f: set<HlistNode>)
    requires forall n | n in f :: !Hashed(m, n)
    ensures f !! Objects(m)
  {
    forall n | n in f ensures n !in Objects(m) {
      ObjectIsHashed(m, n);
    }
  }

  lemma DroppedObjects(m: Chains, n: HlistNode)
    ensures Objects(Dropped(m, n)) <= Objects(m)
    ensures forall x: HlistNode :: Hashed(Dropped(m, n), x) ==> Hashed(m, x)
  {
    var d := Dropped(m, n);
    forall x: HlistNode | Hashed(d, x) ensures Hashed(m, x) && x in Objects(m) {
      var h :| h in d && x in d[h];
      WithoutMember(m[h], n, x);
      ObjectIsHashed(m, x);
    }
    forall o | o in Objects(d) ensures o in Objects(m) {
      if h :| h in d && o == h {
      } else {
        var h, x :| h in d && x in d[h] && o == x;
        assert Hashed(d, x);
      }
    }
  }

  /** Lists that are whole, apart from one another and from the fake nodes. */
  ghost predicate Sound(m: Chains, f: set<HlistNode>)
    reads Objects(m), f
  {
    WellFormed(m) && AllChained(m) && AllFake(f) && forall n | n in f :: !Hashed(m, n)
  }

  /** The address a hashed node holds is that of the very pointer that leads to it. */
  lemma SlotLeadsBack(m: Chains, f: set<HlistNode>, n: HlistNode)
    requires Sound(m, f) && Hashed(m, n)
    ensures IsAddress(n.pprev) && Owner(n.pprev) <= Objects(m)
    ensures if n.pprev.HeadSlot? then n.pprev.head.first == n else n.pprev.node.next == n
  {
    var h, k := HashedAt(m, n);
    SetAside(m, h);
    assert m[h][k].pprev == SlotAt(h, m[h], k);
  }

  ghost function Next(n: HlistNode): set<object>
    reads n
  {
    if n.next == null then {} else {n.next}
  }

  /** What __hlist_del writes to is on the node's own list. */
  lemma BeforeUnlink(m: Chains, f: set<HlistNode>, n: HlistNode) returns (h: HlistHead, k: nat)
    requires Sound(m, f) && Hashed(m, n)
    ensures h in m && k < |m[h]| && n == m[h][k]
    ensures Chained(h, m[h]) && Distinct(m[h]) && !IsFake(n) && AllChained(m - {h})
    ensures Owner(n.pprev) + Next(n) <= Objects(m)
    ensures Owner(n.pprev) + Next(n) !! Objects(m - {h})
    ensures Owner(n.pprev) + Next(n) !! f
  {
    h, k := HashedAt(m, n);
    SetAside(m, h);
    FakesApart(m, f);
    var s := m[h];
    assert s[k].pprev == SlotAt(h, s, k) && s[k].next == NodeAt(s, k + 1);
  }

  /** Everything a deletion relies on: where the node is, and that nothing else is touched. */
  lemma PrepareUnlink(m: Chains, f: set<HlistNode>, n: HlistNode)
    returns (h: HlistHead?, s: seq<HlistNode>, k: nat, rest: Chains)
    requires Sound(m, f) && (Hashed(m, n) || n in f)
    ensures IsFake(n) || (h != null && Chained(h, s) && Distinct(s) && k < |s| && n == s[k])
    ensures h != null ==> !IsFake(n) && k < |s| && Dropped(m, n) == rest[h := s[..k] + s[k + 1..]]
    ensures h == null ==> IsFake(n) && Dropped(m, n) == rest
    ensures AllChained(rest) && AllFake(f - {n})
    ensures Owner(n.pprev) + Next(n) <= Objects(m) + f
    ensures Owner(n.pprev) + Next(n) !! f - {n}
    ensures Owner(n.pprev) + Next(n) !! Objects(rest)
  {
    if Hashed(m, n) {
      var head, i := BeforeUnlink(m, f, n);
      DroppedAt(m, head, i);
      h, s, k, rest := head, m[head], i, m - {head};
    } else {
      ObjectIsHashed(m, n);
      DroppedUnhashed(m, n);
      h, s, k, rest := null, [], 0, m;
    }
  }

  /** `n` is on no list and does not look as if it were. */
  ghost predicate IsFree(m: Chains, f: set<HlistNode>, n: HlistNode) {
    !Hashed(m, n) && n !in f
  }

  ghost function WithNode(m: Chains, h: HlistHead, k: nat, n: HlistNode): Chains
    requires h in m && k <= |m[h]|
  {
    m[h := m[h][..k] + [n] + m[h][k..]]
  }

  /** Everything an insertion relies on. */
  lemma PrepareInsert(m: Chains, f: set<HlistNode>, n: HlistNode, h: HlistHead, k: nat)
    requires Sound(m, f) && IsFree(m, f, n) && h in m && k <= |m[h]|
    ensures Chained(h, m[h]) && Distinct(m[h]) && n !in m[h] && AllChained(m - {h})
    ensures WellFormed(WithNode(m, h, k, n)) && forall x | x in f :: !Hashed(WithNode(m, h, k, n), x)
    ensures (m - {h})[h := m[h][..k] + [n] + m[h][k..]] == WithNode(m, h, k, n)
    ensures n !in Objects(m) && h in Objects(m) && h !in Objects(m - {h})
    ensures forall i | 0 <= i < |m[h]| :: m[h][i] in Objects(m) && m[h][i] !in Objects(m - {h}) && m[h][i] !in f
  {
    SetAside(m, h);
    InsertedAt(m, h, n, k);
    ObjectIsHashed(m, n);
    var w := WithNode(m, h, k, n);
    forall x | x in f ensures !Hashed(w, x) {
      forall g | g in w ensures x !in w[g] {
        assert x !in m[g];
      }
    }
  }

  lemma DroppedFacts(m: Chains, f: set<HlistNode>, n: HlistNode)
    requires WellFormed(m) && forall x | x in f :: !Hashed(m, x)
    ensures n !in Objects(Dropped(m, n)) && WellFormed(Dropped(m, n))
    ensures Objects(Dropped(m, n)) <= Objects(m)
    ensures forall x | x in f :: !Hashed(Dropped(m, n), x)
    ensures !Hashed(m, n) ==> Dropped(m, n) == m
  {
    DroppedObjects(m, n);
    ObjectIsHashed(Dropped(m, n), n);
    if Hashed(m, n) {
      var h, k := HashedAt(m, n);
      DroppedAt(m, h, k);
    } else {
      DroppedUnhashed(m, n);
    }
  }

  /** What an insertion touches is not in the other chains, and no fake node. */
  ghost predicate Elsewhere(n: HlistNode, at: HlistNode, beside: set<object>, rest: Chains, f: set<HlistNode>)
    reads Objects(rest)
  {
    && n !in Objects(rest) && n !in f && at !in Objects(rest) && at !in f
    && beside !! Objects(rest) && beside !! f
  }

  /** Everything an insertion beside a hashed node relies on. */
  lemma PrepareBeside(m: Chains, f: set<HlistNode>, n: HlistNode, at: HlistNode, behind: bool)
    returns (h: HlistHead, k: nat)
    requires Sound(m, f) && IsFree(m, f, n) && Hashed(m, at)
    ensures h in m && k < |m[h]| && at == m[h][k]
    ensures Chained(h, m[h]) && Distinct(m[h]) && n !in m[h] && AllChained(m - {h}) && AllFake(f)
    ensures Elsewhere(n, at, if behind then Next(at) else Owner(at.pprev), m - {h}, f)
    ensures {at as object} + (if behind then Next(at) else Owner(at.pprev)) <= Objects(m)
    ensures var w := PlacedIn(m, at, n, behind); var i := if behind then k + 1 else k;
      && WellFormed(w) && w == (m - {h})[h := m[h][..i] + [n] + m[h][i..]] && forall x | x in f :: !Hashed(w, x)
  {
    h, k := BeforeUnlink(m, f, at);
    PlacedAt(m, h, k, n, behind);
    PrepareInsert(m, f, n, h, if behind then k + 1 else k);
  }

  /** Adding before a node of one chain, next to all other chains and the fake nodes. */
  method LinkBefore(n: HlistNode, next: HlistNode, ghost h: HlistHead, ghost s: seq<HlistNode>, ghost k: nat,
    ghost rest: Chains, ghost f: set<HlistNode>)
    requires Chained(h, s) && Distinct(s) && n !in s && k < |s| && next == s[k]
    requires AllChained(rest) && AllFake(f)
    requires Elsewhere(n, next, Owner(next.pprev), rest, f)
    modifies n, next, Owner(next.pprev)
    ensures AllChained(rest[h := s[..k] + [n] + s[k..]]) && AllFake(f)
  {
    AddBeforeLinks(n, next, h, s, k);
    assert AllFake(f) && AllChained(rest);
    OneMoreChained(rest, h, s[..k] + [n] + s[k..]);
  }

  method LinkBehind(n: HlistNode, prev: HlistNode, ghost h: HlistHead, ghost s: seq<HlistNode>, ghost k: nat,
    ghost rest: Chains, ghost f: set<HlistNode>)
    requires Chained(h, s) && Distinct(s) && n !in s && k < |s| && prev == s[k]
    requires AllChained(rest) && AllFake(f)
    requires Elsewhere(n, prev, Next(prev), rest, f)
    modifies n, prev, Next(prev)
    ensures AllChained(rest[h := s[..k + 1] + [n] + s[k + 1..]]) && AllFake(f)
  {
    AddBehindLinks(n, prev, h, s, k);
    assert AllFake(f) && AllChained(rest);
    OneMoreChained(rest, h, s[..k + 1] + [n] + s[k + 1..]);
  }

  class Table {
    /** Every list head in use, with its nodes in order. */
    ghost var chains: Chains
    /** Nodes that only look hashed. */
    ghost var fakes: set<HlistNode>

    constructor ()
      ensures Valid() && chains == map[] && fakes == {}
    {
      chains, fakes := map[], {};
    }

    ghost predicate Valid()
      reads this, Objects(chains), fakes
    {
      Sound(chains, fakes)
    }

    // ---------- deletion ----------

    /** __hlist_del: no head is passed, and just this node goes. */
    method Unlink(n: HlistNode)
      requires Valid() && (Hashed(chains, n) || n in fakes)
      modifies this, Objects(chains), fakes
      ensures Valid() && chains == Dropped(old(chains), n) && fakes == old(fakes) - {n}
      ensures Objects(chains) <= old(Objects(chains)) && n !in Objects(chains)
    {
      ghost var m, f := chains, fakes;
      chains, fakes := Dropped(m, n), f - {n};
      DroppedFacts(m, f, n);
      ghost var h, s, k, rest := PrepareUnlink(m, f, n);
      ghost var touched := Owner(n.pprev) + Next(n);
      assert this !in touched;
      UnlinkLinks(n, h, s, k);
      assert AllFake(f - {n}) && AllChained(rest);
      if h != null {
        OneMoreChained(rest, h, s[..k] + s[k + 1..]);
      }
    }

    /** hlist_del: the node's own fields are poisoned. */
    method Del(n: HlistNode)
      requires Valid() && (Hashed(chains, n) || n in fakes)
      modifies this, Objects(chains), fakes
      ensures Valid() && chains == Dropped(old(chains), n) && fakes == old(fakes) - {n}
      ensures n.next == null && n.pprev == Poison
    {
      ObjectIsHashed(chains, n);
      Unlink(n);
      n.next := null;
      n.pprev := Poison;
    }

    /** hlist_del_init: does nothing to a node that is on no list. */
    method DelInit(n: HlistNode)
      requires Valid() && (n.pprev == Null || Hashed(chains, n) || n in fakes)
      modifies this, Objects(chains), fakes
      ensures Valid() && chains == Dropped(old(chains), n) && fakes == old(fakes) - {n}
      ensures n.pprev == Null && n.next == if old(n.pprev) == Null then old(n.next) else null
    {
      var unhashed := Unhashed(n);
      if !unhashed {
        ObjectIsHashed(chains, n);
        Unlink(n);
        InitNode(n);
      } else {
        DroppedUnhashed(chains, n);
      }
    }

    lemma NullIsFree(n: HlistNode)
      requires Valid()
      ensures n.pprev == Null ==> IsFree(chains, fakes, n)
    {
      if Hashed(chains, n) {
        SlotLeadsBack(chains, fakes, n);
      }
    }

    /** INIT_HLIST_NODE */
    method InitNode(n: HlistNode)
      requires Valid() && IsFree(chains, fakes, n)
      modifies n
      ensures Valid() && n.next == null && n.pprev == Null
    {
      ObjectIsHashed(chains, n);
      n.next := null;
      n.pprev := Null;
    }

    /** hlist_unhashed */
    method Unhashed(n: HlistNode) returns (r: bool)
      requires Valid() && (n.pprev == Null || Hashed(chains, n) || n in fakes)
      ensures r <==> n.pprev == Null
      ensures r <==> IsFree(chains, fakes, n)
    {
      r := n.pprev == Null;
      NullIsFree(n);
      if Hashed(chains, n) {
        SlotLeadsBack(chains, fakes, n);
      }
    }

    /** hlist_empty */
    method Empty(h: HlistHead) returns (r: bool)
      requires Valid() && h in chains
      ensures r <==> chains[h] == []
    {
      r := h.first == null;
      SetAside(chains, h);
    }

    // ---------- insertion ----------

    /** INIT_HLIST_HEAD */
    method InitHead(h: HlistHead)
      requires Valid() && (h in chains ==> chains[h] == [])
      modifies this, h
      ensures Valid() && chains == old(chains)[h := []]
    {
      ghost var m, f, rest := chains, fakes, chains - {h};
      chains := m[h := []];
      FakesApart(m, f);
      HeadAside(m, f, h);
      h.first := null;
      assert AllFake(f) && AllChained(rest);
      OneMoreChained(rest, h, []);
      assert rest[h := []] == m[h := []];
    }

    /** hlist_add_head */
    method AddHead(n: HlistNode, h: HlistHead)
      requires Valid() && IsFree(chains, fakes, n) && h in chains
      modifies this, Objects(chains), n
      ensures Valid() && fakes == old(fakes) && chains == old(chains)[h := [n] + old(chains)[h]]
    {
      ghost var m, f, s, rest := chains, fakes, chains[h], chains - {h};
      assert s[..0] + [n] + s[0..] == [n] + s;
      chains := WithNode(m, h, 0, n);
      PrepareInsert(m, f, n, h, 0);
      AddHeadLinks(n, h, s);
      assert AllFake(f) && AllChained(rest);
      OneMoreChained(rest, h, s[..0] + [n] + s[0..]);
    }

    /** hlist_add_before: `next` is on some list, whichever. */
    method AddBefore(n: HlistNode, next: HlistNode)
      requires Valid() && IsFree(chains, fakes, n) && Hashed(chains, next)
      modifies this, Objects(chains), n
      ensures Valid() && fakes == old(fakes) && chains == PlacedIn(old(chains), next, n, false)
    {
      ghost var m := chains;
      ghost var h, k := PrepareBeside(m, fakes, n, next, false);
      chains := PlacedIn(m, next, n, false);
      LinkBefore(n, next, h, m[h], k, m - {h}, fakes);
    }

    /** hlist_add_behind: `prev` is on some list, whichever. */
    method AddBehind(n: HlistNode, prev: HlistNode)
      requires Valid() && IsFree(chains, fakes, n) && Hashed(chains, prev)
      modifies this, Objects(chains), n
      ensures Valid() && fakes == old(fakes) && chains == PlacedIn(old(chains), prev, n, true)
    {
      ghost var m := chains;
      ghost var h, k := PrepareBeside(m, fakes, n, prev, true);
      chains := PlacedIn(m, prev, n, true);
      LinkBehind(n, prev, h, m[h], k, m - {h}, fakes);
    }

    /**
     hlist_add_fake: the node points back at itself. It can then be deleted like a hashed one if nothing comes
     after it, as in a node that was initialised or deleted.
     */
    method AddFake(n: HlistNode)
      requires Valid() && IsFree(chains, fakes, n)
      modifies this, n
      ensures Valid() && chains == old(chains) && n.pprev == NextSlot(n) && n.next == old(n.next)
      ensures fakes == old(fakes) + if n.next == null then {n} else {}
    {
      ObjectIsHashed(chains, n);
      ghost var f := fakes;
      if n.next == null {
        fakes := fakes + {n};
      }
      n.pprev := NextSlot(n);
      assert AllFake(f) && AllChained(chains);
    }

    // ---------- moving a whole list ----------

    /** hlist_move_list: `to` is a head whose nodes, if any, are not cared about. */
    method MoveList(from: HlistHead, to: HlistHead)
      requires Valid() && from in chains && from != to
      modifies this, Objects(chains), to
      ensures Valid() && fakes == old(fakes) && chains == Moved(old(chains), from, to)
    {
      ghost var m, f := chains, fakes;
      ghost var s, rest := m[from], m - {from, to};
      chains := Moved(m, from, to);
      PrepareMove(m, f, from, to);
      assert from.first == NodeAt(s, 0);
      ghost var touched := {from as object, to} + if s == [] then {} else {s[0] as object};
      assert this !in touched && touched !! Objects(rest) && touched !! f;
      MoveLinks(from, to, s);
      assert AllFake(f) && AllChained(rest);
      AfterMove(m, from, to);
    }
  }

  ghost function Moved(m: Chains, from: HlistHead, to: HlistHead): Chains
    requires from in m
  {
    m[to := m[from]][from := []]
  }

  lemma PrepareMove(m: Chains, f: set<HlistNode>, from: HlistHead, to: HlistHead)
    requires Sound(m, f) && from in m && from != to
    ensures Chained(from, m[from]) && Distinct(m[from]) && AllChained(m - {from, to})
    ensures WellFormed(Moved(m, from, to)) && forall x | x in f :: !Hashed(Moved(m, from, to), x)
    ensures to !in Objects(m - {from, to}) && from !in Objects(m - {from, to}) && from in Objects(m)
    ensures m[from] != [] ==>
      m[from][0] in Objects(m) && m[from][0] !in Objects(m - {from, to}) && m[from][0] !in f
  {
    var rest := m - {from, to};
    SetAside(m, from);
    forall g | g in rest ensures Chained(g, rest[g]) {
      assert Chained(g, m[g]);
    }
  }

  lemma AfterMove(m: Chains, from: HlistHead, to: HlistHead)
    requires from in m && from != to
    requires AllChained(m - {from, to}) && Chained(to, m[from]) && Chained(from, [])
    ensures AllChained(Moved(m, from, to))
  {
    var rest := m - {from, to};
    var one: Chains := rest[to := m[from]];
    OneMoreChained(rest, to, m[from]);
    OneMoreChained(one, from, []);
    assert one[from := []] == Moved(m, from, to);
  }

  // ---------- what operations undo ----------

  /** Deleting a node that is on no list changes no list, so deleting twice is deleting once. */
  lemma DeleteTwice(m: Chains, n: HlistNode)
    requires WellFormed(m)
    ensures Dropped(Dropped(m, n), n) == Dropped(m, n)
  {
    DroppedFacts(m, {}, n);
    ObjectIsHashed(Dropped(m, n), n);
    DroppedUnhashed(Dropped(m, n), n);
  }

  /** Deleting a node just added, wherever that was, restores every list. */
  lemma AddThenDelete(m: Chains, h: HlistHead, k: nat, n: HlistNode)
    requires WellFormed(m) && h in m && k <= |m[h]| && !Hashed(m, n)
    ensures Dropped(WithNode(m, h, k, n), n) == m
  {
    var w := WithNode(m, h, k, n);
    InsertedAt(m, h, n, k);
    assert w[h][k] == n;
    DroppedAt(w, h, k);
    assert w[h][..k] + w[h][k + 1..] == m[h];
  }

  /** Deleting what was added before or behind a node, on whichever list, restores all lists. */
  lemma AddBesideThenDelete(m: Chains, at: HlistNode, n: HlistNode, behind: bool)
    requires WellFormed(m) && Hashed(m, at) && !Hashed(m, n)
    ensures Dropped(PlacedIn(m, at, n, behind), n) == m
  {
    var h, k := HashedAt(m, at);
    var j := k + if behind then 1 else 0;
    PlacedAt(m, h, k, n, behind);
    assert PlacedIn(m, at, n, behind) == WithNode(m, h, j, n);
    AddThenDelete(m, h, j, n);
  }

  /** Moving a list onto an empty head and back restores both. */
  lemma MoveThenBack(m: Chains, from: HlistHead, to: HlistHead)
    requires from in m && to in m && m[to] == [] && from != to
    ensures Moved(m, from, to)[to] == m[from] && Moved(m, from, to)[from] == []
    ensures Moved(m, from, to) - {from, to} == m - {from, to}
    ensures Moved(Moved(m, from, to), to, from) == m
  {
  }

  lemma HeadAside(m: Chains, f: set<HlistNode>, h: HlistHead)
    requires Sound(m, f)
    ensures AllChained(m - {h}) && h !in Objects(m - {h})
    ensures (h in m ==> m[h] == []) ==> WellFormed(m[h := []]) && forall x | x in f :: !Hashed(m[h := []], x)
  {
    var rest := m - {h};
    forall g | g in rest ensures Chained(g, rest[g]) {
      assert Chained(g, m[g]);
    }
  }
}
