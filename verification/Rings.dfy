/**
 The circular lists themselves: nodes with `next` and `prev`, overwritten in place. Every method is
 the list.h function of that name and is proved against the meaning given in ListSpec.
 */
module Rings {
  import opened ListSpec
  import opened Sequences

  /** struct list_head. A poisoned or never initialised link is null here: it must not be followed. */
  class ListHead {
    var next: ListHead?
    var prev: ListHead?

    constructor ()
      ensures next == null && prev == null
    {
      next, prev := null, null;
    }
  }

  /** The node at position `k` of a ring walked from its head; the head is also at position |s| + 1. */
  ghost function At(h: ListHead, s: seq<ListHead>, k: nat): ListHead
    requires k <= |s| + 1
  {
    if 0 < k <= |s| then s[k - 1] else h
  }

  ghost predicate Linked(h: ListHead, s: seq<ListHead>)
    reads h, s
  {
    && h.next == At(h, s, 1)
    && h.prev == At(h, s, |s|)
    && (forall i {:trigger s[i].next} :: 0 <= i < |s| ==> s[i].next == At(h, s, i + 2))
    && (forall i {:trigger s[i].prev} :: 0 <= i < |s| ==> s[i].prev == At(h, s, i))
  }

  ghost predicate Ring(h: ListHead, s: seq<ListHead>)
    reads h, s
  {
    h !in s && Distinct(s) && Linked(h, s)
  }

  ghost predicate AllLinked(m: Lists<ListHead>)
    reads Nodes(m)
  {
    forall h | h in m :: (assert forall x | x in m[h] :: x in Nodes(m); Linked(h, m[h]))
  }

  lemma RestLinked(m: Lists<ListHead>, aside: set<ListHead>)
    requires AllLinked(m)
    ensures AllLinked(m - aside)
  {
    forall h | h in m - aside ensures Linked(h, (m - aside)[h]) {
      assert Linked(h, m[h]);
    }
  }

  lemma OneMoreLinked(rest: Lists<ListHead>, h: ListHead, s: seq<ListHead>)
    requires AllLinked(rest) && Linked(h, s)
    ensures AllLinked(rest[h := s])
  {
    var m := rest[h := s];
    forall g | g in m ensures Linked(g, m[g]) {
      assert g != h ==> Linked(g, rest[g]);
    }
  }

  // ---------- surgery between two known neighbours ----------

  /** __list_add: `n` goes in at position `k` of the ring. */
  method LinkBetween(n: ListHead, prev: ListHead, next: ListHead,
                     ghost h: ListHead, ghost s: seq<ListHead>, ghost k: nat, ghost rest: Lists<ListHead>)
    requires Ring(h, s) && n != h && n !in s
    requires k <= |s| && prev == At(h, s, k) && next == At(h, s, k + 1)
    requires AllLinked(rest) && Nodes(rest) !! {n, prev, next}
    modifies n, prev, next
    ensures AllLinked(rest[h := s[..k] + [n] + s[k..]])
  {
    next.prev := n;
    n.next := next;
    n.prev := prev;
    prev.next := n;
    SplicedLinked(h, s, [n], k);
    OneMoreLinked(rest, h, s[..k] + [n] + s[k..]);
  }

  /**
   __list_del: the node between `prev` and `next` goes; its own links are left as they were. A lone
   node is its own neighbour on both sides, and stays an empty ring.
   */
  method UnlinkBetween(prev: ListHead, next: ListHead,
                       ghost h: ListHead, ghost s: seq<ListHead>, ghost k: nat, ghost rest: Lists<ListHead>)
    requires Ring(h, s) && AllLinked(rest) && Nodes(rest) !! {prev, next}
    requires if s == [] then prev == next == h else k < |s| && prev == At(h, s, k) && next == At(h, s, k + 2)
    modifies prev, next
    ensures AllLinked(if s == [] then rest else rest[h := s[..k] + s[k + 1..]])
    ensures s == [] ==> h.next == h && h.prev == h
    ensures s != [] ==> s[k].next == old(s[k].next) && s[k].prev == old(s[k].prev)
  {
    next.prev := prev;
    prev.next := next;
    if s != [] {
      ghost var r := s[..k] + s[k + 1..];
      forall i | 0 <= i < |r| ensures r[i].next == At(h, r, i + 2) && r[i].prev == At(h, r, i) {
        assert r[i] == if i < k then s[i] else s[i + 1];
      }
      OneMoreLinked(rest, h, r);
    }
  }

  /** __list_splice: the entries of `list` go in at position `k`; `list` itself still points at them. */
  method SpliceBetween(list: ListHead, prev: ListHead, next: ListHead, ghost t: seq<ListHead>,
                       ghost h: ListHead, ghost s: seq<ListHead>, ghost k: nat, ghost rest: Lists<ListHead>)
    requires Ring(h, s) && Ring(list, t) && t != []
    requires AllLinked(rest) && Nodes(rest) !! {prev, next, t[0], t[|t| - 1]}
    requires list != h && list !in s && h !in t && Disjoint(s, t)
    requires k <= |s| && prev == At(h, s, k) && next == At(h, s, k + 1)
    modifies prev, next, t[0], t[|t| - 1]
    ensures AllLinked(rest[h := s[..k] + t + s[k..]])
    ensures list.next == old(list.next) && list.prev == old(list.prev)
  {
    var first, last := list.next, list.prev;
    first.prev := prev;
    prev.next := first;
    last.next := next;
    next.prev := last;
    SplicedLinked(h, s, t, k);
    OneMoreLinked(rest, h, s[..k] + t + s[k..]);
  }

  /** The three stretches of the new ring, and its two seams, are linked: so is the ring. */
  lemma SplicedLinked(h: ListHead, s: seq<ListHead>, t: seq<ListHead>, k: nat)
    requires k <= |s| && t != []
    requires At(h, s, k).next == t[0] && t[0].prev == At(h, s, k)
    requires At(h, s, k + 1).prev == t[|t| - 1] && t[|t| - 1].next == At(h, s, k + 1)
    requires k > 0 ==> h.next == s[0]
    requires k < |s| ==> h.prev == s[|s| - 1]
    requires forall i {:trigger s[i].next} :: 0 <= i < |s| && i != k - 1 ==> s[i].next == At(h, s, i + 2)
    requires forall i {:trigger s[i].prev} :: 0 <= i < |s| && i != k ==> s[i].prev == At(h, s, i)
    requires forall i {:trigger t[i].next} :: 0 <= i < |t| - 1 ==> t[i].next == t[i + 1]
    requires forall i {:trigger t[i].prev} :: 0 < i < |t| ==> t[i].prev == t[i - 1]
    ensures Linked(h, s[..k] + t + s[k..])
  {
    var r := s[..k] + t + s[k..];
    forall i | 0 <= i < |r| ensures r[i].next == At(h, r, i + 2) && r[i].prev == At(h, r, i) {
      if i < k {
        assert r[i] == s[i];
      } else if i < k + |t| {
        assert r[i] == t[i - k];
      } else {
        assert r[i] == s[i - |t|];
      }
    }
  }

  /** The four assignments of list_replace, at position `k` of a ring: 0 is the head, which may be alone on it. */
  method ReplaceInRing(x: ListHead, y: ListHead, ghost h: ListHead, ghost s: seq<ListHead>, ghost k: nat)
    requires Ring(h, s) && k <= |s| && x == At(h, s, k) && y != h && y !in s
    modifies y, At(h, s, k + 1), At(h, s, if k == 0 then |s| else k - 1)
    ensures if k == 0 then Linked(y, s) else Linked(h, s[k - 1 := y])
  {
    y.next := x.next;
    y.next.prev := y;
    y.prev := x.prev;
    y.prev.next := y;
    StretchLinked(if k == 0 then y else h, if k == 0 then s else s[k - 1 := y]);
  }

  /** The same next to other rings. */
  method ReplaceLinks(x: ListHead, y: ListHead,
                      ghost h: ListHead, ghost s: seq<ListHead>, ghost k: nat, ghost rest: Lists<ListHead>)
    requires Ring(h, s) && k <= |s| && x == At(h, s, k) && y != h && y !in s
    requires AllLinked(rest)
    requires Nodes(rest) !! {y, At(h, s, k + 1), At(h, s, if k == 0 then |s| else k - 1)}
    modifies y, At(h, s, k + 1), At(h, s, if k == 0 then |s| else k - 1)
    ensures AllLinked(rest) && if k == 0 then Linked(y, s) else Linked(h, s[k - 1 := y])
  {
    ReplaceInRing(x, y, h, s, k);
  }

  /** __list_cut_position after the entry at index `k`. */
  method CutBetween(list: ListHead, head: ListHead, entry: ListHead,
                    ghost s: seq<ListHead>, ghost k: nat)
    requires Ring(head, s) && k < |s| && entry == s[k] && list != head && list !in s
    modifies list, head, s[0], s[k], At(head, s, k + 2)
    ensures Linked(list, s[..k + 1]) && Linked(head, s[k + 1..])
  {
    var newFirst := entry.next;
    list.next := head.next;
    list.next.prev := list;
    list.prev := entry;
    entry.next := list;
    head.next := newFirst;
    newFirst.prev := head;
    StretchLinked(list, s[..k + 1]);
    StretchLinked(head, s[k + 1..]);
  }

  /** A linked stretch of entries, closed up by a head, is a ring. */
  lemma StretchLinked(h: ListHead, s: seq<ListHead>)
    requires s == [] ==> h.next == h.prev == h
    requires s != [] ==> h.next == s[0] && s[0].prev == h && h.prev == s[|s| - 1] && s[|s| - 1].next == h
    requires forall i {:trigger s[i].next} :: 0 <= i < |s| - 1 ==> s[i].next == s[i + 1]
    requires forall i {:trigger s[i].prev} :: 0 < i < |s| ==> s[i].prev == s[i - 1]
    ensures Linked(h, s)
  {
  }

  lemma TwoMoreLinked(rest: Lists<ListHead>, h: ListHead, s: seq<ListHead>, g: ListHead, t: seq<ListHead>)
    requires AllLinked(rest) && Linked(h, s) && Linked(g, t)
    ensures AllLinked(TwoMore(rest, h, s, g, t))
  {
    var front: Lists<ListHead> := rest[h := s];
    OneMoreLinked(rest, h, s);
    OneMoreLinked(front, g, t);
  }

  ghost function TwoMore(m: Lists<ListHead>, h: ListHead, s: seq<ListHead>, g: ListHead, t: seq<ListHead>)
    : Lists<ListHead>
  {
    m[h := s][g := t]
  }

  // ---------- what may be done to one ring without the others being touched ----------

  /** Sets some rings aside: the others stay linked whatever is done to the nodes of those. */
  lemma SetAside(m: Lists<ListHead>, h: ListHead, aside: set<ListHead>)
    requires WellFormed(m) && AllLinked(m) && h in m && h in aside
    ensures Ring(h, m[h]) && AllLinked(m - aside)
    ensures forall k: nat | k <= |m[h]| + 1 ::
      At(h, m[h], k) in Nodes(m) && At(h, m[h], k) !in Nodes(m - aside)
  {
    RestLinked(m, aside);
    forall k: nat | k <= |m[h]| + 1
      ensures At(h, m[h], k) in Nodes(m) && At(h, m[h], k) !in Nodes(m - aside)
    {
      assert 0 < k <= |m[h]| ==> m[h][k - 1] in m[h];
      RestApart(m, aside, h, At(h, m[h], k));
    }
  }

  lemma BeforeLink(m: Lists<ListHead>, x: ListHead, h: ListHead, k: nat)
    requires WellFormed(m) && AllLinked(m) && IsLoose(m, x) && h in m && x != h && k <= |m[h]|
    ensures Ring(h, m[h]) && AllLinked(m - {h, x})
    ensures {At(h, m[h], k), At(h, m[h], k + 1)} <= Nodes(m)
    ensures Nodes(m - {h, x}) !! {x, At(h, m[h], k), At(h, m[h], k + 1)}
  {
    SetAside(m, h, {h, x});
    LooseApart(m, {h, x}, x);
  }

  lemma LinkFacts(m: Lists<ListHead>, x: ListHead, h: ListHead, k: nat)
    requires WellFormed(m) && IsLoose(m, x) && h in m && x != h && k <= |m[h]|
    ensures WellFormed(Inserted(m, x, h, k))
    ensures (m - {h, x})[h := m[h][..k] + [x] + m[h][k..]] == Inserted(m, x, h, k)
  {
    InsertedWellFormed(m, x, h, k);
  }

  /** The collection once the node at position `k` has gone from the ring of `h`, or the lone `h` has. */
  ghost function Unlinked(m: Lists<ListHead>, h: ListHead, k: nat): Lists<ListHead>
    requires h in m && (m[h] == [] || k < |m[h]|)
  {
    if m[h] == [] then m - {h} else m[h := m[h][..k] + m[h][k + 1..]]
  }

  ghost function After(m: Lists<ListHead>, h: ListHead, k: nat): ListHead
    requires h in m && (m[h] == [] || k < |m[h]|)
  {
    if m[h] == [] then h else At(h, m[h], k + 2)
  }

  ghost function Before(m: Lists<ListHead>, h: ListHead, k: nat): ListHead
    requires h in m && (m[h] == [] || k < |m[h]|)
  {
    if m[h] == [] then h else At(h, m[h], k)
  }

  lemma BeforeUnlink(m: Lists<ListHead>, h: ListHead, k: nat)
    requires WellFormed(m) && AllLinked(m) && h in m && (m[h] == [] || k < |m[h]|)
    ensures Ring(h, m[h]) && AllLinked(m - {h})
    ensures {Before(m, h, k), After(m, h, k)} <= Nodes(m)
    ensures Nodes(m - {h}) !! {Before(m, h, k), After(m, h, k)}
  {
    SetAside(m, h, {h});
    assert At(h, m[h], 0) == h;
  }

  /** Where an entry, or the head of an empty ring, stands. */
  lemma PlaceOf(m: Lists<ListHead>, x: ListHead) returns (h: ListHead, k: nat)
    requires WellFormed(m) && AllLinked(m) && (IsEntry(m, x) || IsEmptyHead(m, x))
    ensures h in m && (m[h] == [] || k < |m[h]|)
    ensures x.prev == Before(m, h, k) && x.next == After(m, h, k)
    ensures Unlinked(m, h, k) == Dropped(m, x)
  {
    h, k := x, 0;
    if x in m {
      DroppedLoose(m, x);
    } else {
      h :| h in m && x in m[h];
      k := IndexOf(m[h], x);
      DroppedEntry(m, h, k);
    }
    assert Linked(h, m[h]);
  }

  lemma UnlinkFacts(m: Lists<ListHead>, h: ListHead, k: nat)
    requires WellFormed(m) && h in m && (m[h] == [] || k < |m[h]|)
    ensures WellFormed(Unlinked(m, h, k))
    ensures var s, rest := m[h], m - {h};
      Unlinked(m, h, k) == if s == [] then rest else rest[h := s[..k] + s[k + 1..]]
  {
    if m[h] != [] {
      UpdatedWellFormed(m, h, m[h][..k] + m[h][k + 1..]);
    }
  }

  lemma BeforeReplace(m: Lists<ListHead>, x: ListHead, y: ListHead, h: ListHead, k: nat)
    requires WellFormed(m) && AllLinked(m) && IsLoose(m, y) && y != h
    requires h in m && k <= |m[h]| && x == At(h, m[h], k)
    ensures y !in m[h]
    ensures Ring(h, m[h]) && AllLinked(m - {h, y})
    ensures var s := m[h]; var before, after := At(h, s, if k == 0 then |s| else k - 1), At(h, s, k + 1);
      {before, after} <= Nodes(m) && Nodes(m - {h, y}) !! {y, before, after}
  {
    SetAside(m, h, {h, y});
    LooseApart(m, {h, y}, y);
  }

  lemma ReplaceFacts(m: Lists<ListHead>, x: ListHead, y: ListHead, h: ListHead, k: nat)
    requires WellFormed(m) && IsLoose(m, y) && y != h
    requires h in m && k <= |m[h]| && x == At(h, m[h], k)
    ensures WellFormed(Replaced(m, x, y))
    ensures var s, rest := m[h], m - {h, y};
      Replaced(m, x, y) == if k == 0 then rest[y := s] else rest[h := s[k - 1 := y]]
  {
    ReplacedAt(m, h, k, y);
    assert x == if k == 0 then h else m[h][k - 1];
    ReplacedWellFormed(m, x, y);
  }

  lemma BeforeCut(m: Lists<ListHead>, list: ListHead, head: ListHead, entry: ListHead, k: nat)
    requires WellFormed(m) && AllLinked(m) && !IsEntry(m, list) && list != head && head in m
    requires entry in m[head] && k == IndexOf(m[head], entry)
    ensures list !in m[head] && Ring(head, m[head]) && AllLinked(m - {head, list})
    ensures var touched := {head, m[head][0], m[head][k], At(head, m[head], k + 2)};
      touched <= Nodes(m) && Nodes(m - {head, list}) !! {list} + touched
  {
    var s := m[head];
    SetAside(m, head, {head, list});
    var rest := Nodes(m - {head, list});
    assert head in Nodes(m) && head !in rest by { assert At(head, s, 0) == head; }
    assert s[0] in Nodes(m) && s[0] !in rest by { assert At(head, s, 1) == s[0]; }
    assert s[k] in Nodes(m) && s[k] !in rest by { assert At(head, s, k + 1) == s[k]; }
    LooseApart(m, {head, list}, list);
  }

  lemma CutFacts(m: Lists<ListHead>, list: ListHead, head: ListHead, entry: ListHead, k: nat)
    requires WellFormed(m) && !IsEntry(m, list) && list != head && head in m
    requires entry in m[head] && k == IndexOf(m[head], entry)
    ensures WellFormed(CutAt(m, list, head, entry))
    ensures var s, rest := m[head], m - {head, list};
      TwoMore(rest, list, s[..k + 1], head, s[k + 1..]) == CutAt(m, list, head, entry)
  {
    CutWellFormed(m, list, head, entry);
  }

  lemma BeforeSplice(m: Lists<ListHead>, list: ListHead, h: ListHead, k: nat)
    requires WellFormed(m) && AllLinked(m) && list in m && h in m && list != h && m[list] != [] && k <= |m[h]|
    ensures Ring(h, m[h]) && Ring(list, m[list]) && AllLinked(m - {h, list})
    ensures var s, t := m[h], m[list]; var touched := {At(h, s, k), At(h, s, k + 1), t[0], t[|t| - 1]};
      touched <= Nodes(m) && Nodes(m - {h, list}) !! touched
  {
    var t := m[list];
    SetAside(m, h, {h, list});
    SetAside(m, list, {h, list});
    assert At(list, t, 1) == t[0] && At(list, t, |t|) == t[|t| - 1];
  }

  // ---------- all the lists of a program ----------

  class Memory {
    /** Every list head in use, with the entries on its ring. */
    ghost var rings: Lists<ListHead>

    constructor ()
      ensures Valid() && rings == map[]
    {
      rings := map[];
    }

    ghost predicate Valid()
      reads this, Nodes(rings)
    {
      WellFormed(rings) && AllLinked(rings)
    }

    // ---------- insertion and deletion ----------

    /** INIT_LIST_HEAD */
    method Init(list: ListHead)
      requires Valid() && !IsEntry(rings, list)
      modifies this, Nodes(rings), list
      ensures Valid() && rings == old(rings)[list := []]
    {
      ghost var rest := rings - {list};
      RestLinked(rings, {list});
      list.next := list;
      list.prev := list;
      UpdatedWellFormed(rings, list, []);
      OneMoreLinked(rest, list, []);
      assert rings[list := []] == rest[list := []];
      rings := rings[list := []];
    }

    /** __list_add: `x` goes in at position `k` of the ring of `h`. */
    method Link(x: ListHead, prev: ListHead, next: ListHead, ghost h: ListHead, ghost k: nat)
      requires Valid() && IsLoose(rings, x) && h in rings && x != h
      requires k <= |rings[h]| && prev == At(h, rings[h], k) && next == At(h, rings[h], k + 1)
      modifies this, Nodes(rings), x
      ensures Valid() && rings == Inserted(old(rings), x, h, k)
    {
      ghost var m, s, rest := rings, rings[h], rings - {h, x};
      rings := Inserted(m, x, h, k);
      BeforeLink(m, x, h, k);
      LinkFacts(m, x, h, k);
      LinkBetween(x, prev, next, h, s, k, rest);
    }

    /** list_add */
    method Add(x: ListHead, head: ListHead)
      requires Valid() && IsLoose(rings, x) && head in rings && x != head
      modifies this, Nodes(rings), x
      ensures Valid() && rings == Pushed(old(rings), x, head)
    {
      PushedIsInserted(rings, x, head);
      Link(x, head, head.next, head, 0);
    }

    /** list_add_tail */
    method AddTail(x: ListHead, head: ListHead)
      requires Valid() && IsLoose(rings, x) && head in rings && x != head
      modifies this, Nodes(rings), x
      ensures Valid() && rings == Appended(old(rings), x, head)
    {
      PushedIsInserted(rings, x, head);
      Link(x, head.prev, head, head, |rings[head]|);
    }

    /** __list_del at position `k` of the ring of `h`, or at a lone node. */
    method UnlinkAt(prev: ListHead, next: ListHead, ghost h: ListHead, ghost k: nat)
      requires Valid() && h in rings && (rings[h] == [] || k < |rings[h]|)
      requires prev == Before(rings, h, k) && next == After(rings, h, k)
      modifies this, Nodes(rings)
      ensures Valid() && rings == Unlinked(old(rings), h, k)
    {
      ghost var m, s, rest := rings, rings[h], rings - {h};
      rings := Unlinked(m, h, k);
      BeforeUnlink(m, h, k);
      UnlinkFacts(m, h, k);
      UnlinkBetween(prev, next, h, s, k, rest);
    }

    /** __list_del_entry. An entry leaves its ring; an initialised lone node is left as it is. */
    method Unlink(x: ListHead)
      requires Valid() && (IsEntry(rings, x) || IsEmptyHead(rings, x))
      modifies this, Nodes(rings)
      ensures Valid() && rings == Dropped(old(rings), x)
      ensures Nodes(rings) <= old(Nodes(rings))
    {
      DroppedNodes(rings, x);
      ghost var h, k := PlaceOf(rings, x);
      UnlinkAt(x.prev, x.next, h, k);
    }
  
    /** list_del: the entry's links are poisoned. */
    method Del(x: ListHead)
      requires Valid() && (IsEntry(rings, x) || IsEmptyHead(rings, x))
      modifies this, Nodes(rings)
      ensures Valid() && rings == Dropped(old(rings), x)
      ensures x.next == null && x.prev == null
    {
      DroppedAway(rings, x);
      Unlink(x);
      x.next, x.prev := null, null;
    }

    /** list_del_init */
    method DelInit(x: ListHead)
      requires Valid() && (IsEntry(rings, x) || IsEmptyHead(rings, x))
      modifies this, Nodes(rings)
      ensures Valid() && rings == Dropped(old(rings), x)[x := []]
    {
      DroppedWellFormed(rings, x);
      Unlink(x);
      Init(x);
    }

    /** list_move */
    method Move(x: ListHead, head: ListHead)
      requires Valid() && (IsEntry(rings, x) || IsEmptyHead(rings, x)) && head in rings && x != head
      modifies this, Nodes(rings)
      ensures Valid() && rings == Pushed(old(rings), x, head)
    {
      DroppedWellFormed(rings, x);
      PushedDropped(rings, x, head);
      Unlink(x);
      Add(x, head);
    }

    /** list_move_tail */
    method MoveTail(x: ListHead, head: ListHead)
      requires Valid() && (IsEntry(rings, x) || IsEmptyHead(rings, x)) && head in rings && x != head
      modifies this, Nodes(rings)
      ensures Valid() && rings == Appended(old(rings), x, head)
    {
      DroppedWellFormed(rings, x);
      PushedDropped(rings, x, head);
      Unlink(x);
      AddTail(x, head);
    }

    /** list_rotate_left */
    method RotateLeft(head: ListHead)
      requires Valid() && head in rings
      modifies this, Nodes(rings)
      ensures Valid() && rings == old(rings)[head := Rotated(old(rings)[head])]
    {
      var empty := Empty(head);
      if !empty {
        var first := head.next;
        assert first == rings[head][0];
        RotateIsMove(rings, head);
        MoveTail(first, head);
      }
    }

    // ---------- replacing, cutting and splicing ----------

    /** list_replace */
    method Replace(x: ListHead, y: ListHead)
      requires Valid() && IsLoose(rings, y) && x != y && (x in rings || IsEntry(rings, x))
      modifies this, Nodes(rings), y
      ensures Valid() && rings == Replaced(old(rings), x, y)
    {
      ghost var h, k := x, 0;
      if x !in rings {
        h :| h in rings && x in rings[h];
        k := IndexOf(rings[h], x) + 1;
      }
      ReplaceAt(x, y, h, k);
    }

    method ReplaceAt(x: ListHead, y: ListHead, ghost h: ListHead, ghost k: nat)
      requires Valid() && IsLoose(rings, y) && y != h
      requires h in rings && k <= |rings[h]| && x == At(h, rings[h], k)
      modifies this, Nodes(rings), y
      ensures Valid() && rings == Replaced(old(rings), x, y)
    {
      ghost var m, s, rest := rings, rings[h], rings - {h, y};
      rings := Replaced(m, x, y);
      BeforeReplace(m, x, y, h, k);
      ReplaceFacts(m, x, y, h, k);
      ReplaceLinks(x, y, h, s, k, rest);
      OneMoreLinked(rest, if k == 0 then y else h, if k == 0 then s else s[k - 1 := y]);
    }

    /** list_replace_init */
    method ReplaceInit(x: ListHead, y: ListHead)
      requires Valid() && IsLoose(rings, y) && x != y && (x in rings || IsEntry(rings, x))
      modifies this, Nodes(rings), y
      ensures Valid() && rings == Replaced(old(rings), x, y)[x := []]
    {
      ReplacedWellFormed(rings, x, y);
      ReplacedNodes(rings, x, y);
      Replace(x, y);
      Init(x);
    }

    /** list_cut_position */
    method CutPosition(list: ListHead, head: ListHead, entry: ListHead)
      requires Valid() && !IsEntry(rings, list) && list != head && head in rings
      requires entry == head || entry in rings[head] || |rings[head]| <= 1
      modifies this, Nodes(rings), list
      ensures Valid() && rings == CutAt(old(rings), list, head, entry)
    {
      var empty := Empty(head);
      if empty {
        return;
      }
      var singular := IsSingular(head);
      if singular && head.next != entry && head != entry {
        return;
      }
      if entry == head {
        Init(list);
      } else {
        CutAfter(list, head, entry);
      }
    }

    /** __list_cut_position */
    method CutAfter(list: ListHead, head: ListHead, entry: ListHead)
      requires Valid() && !IsEntry(rings, list) && list != head && head in rings && entry in rings[head]
      modifies this, Nodes(rings), list
      ensures Valid() && rings == CutAt(old(rings), list, head, entry)
    {
      ghost var m, s, rest := rings, rings[head], rings - {head, list};
      ghost var k := IndexOf(s, entry);
      rings := CutAt(m, list, head, entry);
      BeforeCut(m, list, head, entry, k);
      CutFacts(m, list, head, entry, k);
      CutBetween(list, head, entry, s, k);
      TwoMoreLinked(rest, list, s[..k + 1], head, s[k + 1..]);
    }

    /** __list_splice: the entries of `list` go in at one end of the ring of `h`. */
    method SpliceAt(list: ListHead, prev: ListHead, next: ListHead, ghost h: ListHead, ghost tail: bool)
      requires Valid() && list in rings && h in rings && list != h && rings[list] != []
      requires prev == (if tail then h.prev else h) && next == (if tail then h else h.next)
      modifies this, Nodes(rings)
      ensures Valid() && rings == Joined(old(rings), list, h, tail)
      ensures Nodes(rings) <= old(Nodes(rings)) && !IsEntry(rings, list)
    {
      ghost var m, s, t, rest := rings, rings[h], rings[list], rings - {h, list};
      ghost var k := if tail then |s| else 0;
      rings := Joined(m, list, h, tail);
      BeforeSplice(m, list, h, k);
      JoinedFacts(m, list, h, tail);
      JoinedIsSplice(m, list, h, tail);
      SpliceBetween(list, prev, next, t, h, s, k, rest);
    }

    /** list_splice */
    method Splice(list: ListHead, head: ListHead)
      requires Valid() && list in rings && head in rings && list != head
      modifies this, Nodes(rings)
      ensures Valid() && rings == Joined(old(rings), list, head, false)
    {
      var empty := Empty(list);
      if !empty {
        SpliceAt(list, head, head.next, head, false);
      }
    }

    /** list_splice_tail */
    method SpliceTail(list: ListHead, head: ListHead)
      requires Valid() && list in rings && head in rings && list != head
      modifies this, Nodes(rings)
      ensures Valid() && rings == Joined(old(rings), list, head, true)
    {
      var empty := Empty(list);
      if !empty {
        SpliceAt(list, head.prev, head, head, true);
      }
    }

    /** list_splice_init */
    method SpliceInit(list: ListHead, head: ListHead)
      requires Valid() && list in rings && head in rings && list != head
      modifies this, Nodes(rings)
      ensures Valid() && rings == Joined(old(rings), list, head, false)[list := []]
    {
      var empty := Empty(list);
      if !empty {
        SpliceAt(list, head, head.next, head, false);
        Init(list);
      } else {
        JoinedEmpty(rings, list, head, false);
      }
    }

    /** list_splice_tail_init */
    method SpliceTailInit(list: ListHead, head: ListHead)
      requires Valid() && list in rings && head in rings && list != head
      modifies this, Nodes(rings)
      ensures Valid() && rings == Joined(old(rings), list, head, true)[list := []]
    {
      var empty := Empty(list);
      if !empty {
        SpliceAt(list, head.prev, head, head, true);
        Init(list);
      } else {
        JoinedEmpty(rings, list, head, true);
      }
    }

    // ---------- tests ----------

    /** list_empty */
    method Empty(head: ListHead) returns (r: bool)
      requires Valid() && head in rings
      ensures r <==> rings[head] == []
    {
      r := head.next == head;
    }

    /** list_empty_careful */
    method EmptyCareful(head: ListHead) returns (r: bool)
      requires Valid() && head in rings
      ensures r <==> rings[head] == []
    {
      var next := head.next;
      r := next == head && next == head.prev;
    }

    /** list_is_singular */
    method IsSingular(head: ListHead) returns (r: bool)
      requires Valid() && head in rings
      ensures r <==> |rings[head]| == 1
    {
      var empty := Empty(head);
      r := !empty && head.next == head.prev;
    }

    /** list_is_last */
    method IsLast(x: ListHead, head: ListHead) returns (r: bool)
      requires Valid() && head in rings && x in rings[head]
      ensures r <==> x == rings[head][|rings[head]| - 1]
    {
      ghost var k := IndexOf(rings[head], x);
      r := x.next == head;
    }

    // ---------- iteration ----------

    /** list_for_each: the cursor meets the entries in order, once each, and stops at the head. */
    method Forwards(head: ListHead) returns (s: seq<ListHead>)
      requires Valid() && head in rings
      ensures s == rings[head]
    {
      s := [];
      var pos := head.next;
      while pos != head
        invariant |s| <= |rings[head]| && s == rings[head][..|s|] && pos == At(head, rings[head], |s| + 1)
        decreases |rings[head]| - |s|
      {
        s := s + [pos];
        pos := pos.next;
      }
    }

    /** list_for_each_prev */
    method Backwards(head: ListHead) returns (s: seq<ListHead>)
      requires Valid() && head in rings
      ensures |s| == |rings[head]| && forall i :: 0 <= i < |s| ==> s[i] == rings[head][|s| - 1 - i]
    {
      s := [];
      var pos := head.prev;
      ghost var t := rings[head];
      while pos != head
        invariant |s| <= |t| && pos == At(head, t, |t| - |s|)
        invariant forall i :: 0 <= i < |s| ==> s[i] == t[|t| - 1 - i]
        decreases |t| - |s|
      {
        s := s + [pos];
        pos := pos.prev;
      }
    }
  
    /** The body of a deleting loop at the entry `pos`, with `keep` already passed over and `todo` ahead. */
    method DeleteIf(pos: ListHead, head: ListHead, doomed: ListHead -> bool,
                    ghost m: Lists<ListHead>, ghost keep: seq<ListHead>, ghost todo: seq<ListHead>)
      returns (ghost kept: seq<ListHead>)
      requires Valid() && rings == Holding(m, head, keep + todo)
      requires todo != [] && pos == todo[0]
      modifies this, Nodes(rings)
      ensures Valid() && Nodes(rings) <= old(Nodes(rings))
      ensures kept == keep + if doomed(pos) then [] else [pos]
      ensures rings == Holding(m, head, kept + todo[1..])
      ensures Ahead(todo, 1, head).next != null
      ensures Ahead(todo, 1, head) != head ==> Ahead(todo, 1, head).next == Ahead(todo, 2, head)
      ensures forall k: nat :: Ahead(todo[1..], k, head) == Ahead(todo, k + 1, head)
    {
      kept := keep + if doomed(pos) then [] else [pos];
      if doomed(pos) {
        HoldingDropped(m, head, keep, todo);
        DroppedNodes(rings, pos);
        assert keep + [] == keep;
        Del(pos);
      } else {
        OneMet(keep, todo);
      }
      assert rings[head] == kept + todo[1..];
      NextOf(head, kept, todo[1..]);
    }

    /**
     list_for_each_safe with deletion: the next entry is fetched before the body may unlink the
     current one, so every entry is still met once, in order, and exactly those chosen go.
     */
    method DeleteWhere(head: ListHead, doomed: ListHead -> bool) returns (met: seq<ListHead>)
      requires Valid() && head in rings
      modifies this, Nodes(rings)
      ensures Valid() && rings == old(rings)[head := Kept(old(rings)[head], doomed)]
      ensures met == old(rings)[head]
    {
      met := [];
      ghost var m, s := rings, rings[head];
      ghost var keep: seq<ListHead>, todo: seq<ListHead> := [], s;
      HoldingSame(m, head);
      NextOf(head, keep, todo);
      var pos: ListHead := head.next;
      var n := pos.next;
      while pos != head
        invariant head in m && head !in todo && [] + s == met + todo && keep == Kept(met, doomed)
        invariant Valid() && Nodes(rings) <= Nodes(m)
        invariant rings == Holding(m, head, keep + todo)
        invariant pos == Ahead(todo, 0, head)
        invariant pos != head ==> n == Ahead(todo, 1, head)
        decreases |todo|
      {
        keep := DeleteIf(pos, head, doomed, m, keep, todo);
        KeptOneMore(met, pos, doomed);
        OneMet(met, todo);
        met, todo := met + [pos], todo[1..];
        pos := n;
        n := pos.next;
      }
      NothingAdded(s, met, keep);
    }

    // ---------- runs ----------

    /** Carries out one operation. */
    method Execute(op: Op<ListHead>)
      requires Valid() && Allowed(op, rings)
      modifies this, Nodes(rings), OpNodes(op)
      ensures Valid() && rings == Apply(op, old(rings))
    {
      match op
      case Init(h) => Init(h);
      case Add(x, h) => Add(x, h);
      case AddTail(x, h) => AddTail(x, h);
      case Del(x) => Del(x);
      case DelInit(x) => DelInit(x);
      case Replace(x, y) => Replace(x, y);
      case ReplaceInit(x, y) => ReplaceInit(x, y);
      case Move(x, h) => Move(x, h);
      case MoveTail(x, h) => MoveTail(x, h);
      case RotateLeft(h) => RotateLeft(h);
      case CutPosition(l, h, e) => CutPosition(l, h, e);
      case Splice(l, h) => Splice(l, h);
      case SpliceTail(l, h) => SpliceTail(l, h);
      case SpliceInit(l, h) => SpliceInit(l, h);
      case SpliceTailInit(l, h) => SpliceTailInit(l, h);
    }

    /** After any run the pointers are those of well-formed rings holding what the run means. */
    method RunAll(ops: seq<Op<ListHead>>)
      requires Valid() && RunAllowed(ops, rings)
      modifies this, Nodes(rings), RunNodes(ops)
      ensures Valid() && rings == Run(ops, old(rings))
      decreases |ops|
    {
      if ops != [] {
        ApplyNodes(ops[0], rings);
        Execute(ops[0]);
        RunAll(ops[1..]);
      }
    }
  }

  ghost function Holding(m: Lists<ListHead>, head: ListHead, s: seq<ListHead>): Lists<ListHead> {
    m[head := s]
  }

  lemma HoldingSame(m: Lists<ListHead>, head: ListHead)
    requires head in m
    ensures Holding(m, head, [] + m[head]) == m
  {
    assert [] + m[head] == m[head];
  }

  lemma HoldingDropped(m: Lists<ListHead>, head: ListHead, keep: seq<ListHead>, todo: seq<ListHead>)
    requires WellFormed(Holding(m, head, keep + todo)) && todo != []
    ensures Dropped(Holding(m, head, keep + todo), todo[0]) == Holding(m, head, keep + todo[1..])
    ensures IsEntry(Holding(m, head, keep + todo), todo[0])
  {
    var s: seq<ListHead> := keep + todo;
    var h: Lists<ListHead> := Holding(m, head, s);
    assert h[head] == s && s[|keep|] == todo[0];
    DroppedEntry<ListHead>(h, head, |keep|);
    assert s[..|keep|] + s[|keep| + 1..] == keep + todo[1..];
  }

  /** The entry `k` places ahead of a cursor, the head standing after the last. */
  ghost function Ahead(todo: seq<ListHead>, k: nat, head: ListHead): ListHead {
    if k < |todo| then todo[k] else head
  }

  /** Where the ring `keep + todo` leads from its head and from the first entry of `todo`. */
  lemma NextOf(h: ListHead, keep: seq<ListHead>, todo: seq<ListHead>)
    requires Linked(h, keep + todo)
    ensures h.next != null && (keep == [] ==> h.next == Ahead(todo, 0, h))
    ensures todo != [] ==> todo[0].next == Ahead(todo, 1, h)
  {
    assert todo != [] ==> (keep + todo)[|keep|] == todo[0];
  }

  lemma NothingAdded(s: seq<ListHead>, met: seq<ListHead>, keep: seq<ListHead>)
    requires [] + s == met + []
    ensures s == met && keep + [] == keep
  {
    assert [] + s == s && met + [] == met;
  }

  lemma OneMet(met: seq<ListHead>, todo: seq<ListHead>)
    requires todo != []
    ensures met + todo == (met + [todo[0]]) + todo[1..]
  {
  }

  ghost function Kept(s: seq<ListHead>, doomed: ListHead -> bool): seq<ListHead> {
    if s == [] then [] else (if doomed(s[0]) then [] else [s[0]]) + Kept(s[1..], doomed)
  }

  lemma {:induction false} KeptOneMore(s: seq<ListHead>, x: ListHead, doomed: ListHead -> bool)
    ensures Kept(s + [x], doomed) == Kept(s, doomed) + if doomed(x) then [] else [x]
  {
    if s != [] {
      assert (s + [x])[1..] == s[1..] + [x];
      KeptOneMore(s[1..], x, doomed);
    }
  }
}
