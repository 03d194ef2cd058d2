/**
 TP_05/EXO-05/kcpustat.c: a kernel thread that appends the summed counters of all CPUs to a list and,
 once per period, turns the list into differences in place, adds them up and frees it.
 */
module Kcpustat {
  import opened Arithmetic
  import opened Counters
  import opened ListSpec
  import opened Rings
  import opened Sequences

  const ENOMEM := 12

  /** One reading: the counters of every CPU, and whether there is room to save it. */
  datatype Tick = Tick(cpus: seq<Stat>, room: bool)

  /** What print_stats works out of one list: the sum, and how many samples it went over. */
  datatype Report = Report(sum: Stat, nr: nat)

  ghost predicate Fits(t: Tick, n: nat) {
    forall c | 0 <= c < |t.cpus| :: |t.cpus[c]| == n
  }

  ghost function Totals(cpus: seq<Stat>, n: nat): (r: Stat)
    requires forall c | 0 <= c < |cpus| :: |cpus[c]| == n
    ensures |r| == n
  {
    if cpus == [] then Zero(n) else Plus(Totals(cpus[..|cpus| - 1], n), cpus[|cpus| - 1])
  }

  lemma TotalsOfOne(c: Stat)
    ensures Totals([c], |c|) == c
  {
    assert [c][..0] == [];
    PlusZero(c);
  }

  /** The counters of one group of CPUs and another add up, around the top of the range. */
  lemma {:induction false} TotalsJoin(a: seq<Stat>, b: seq<Stat>, n: nat)
    requires (forall c | 0 <= c < |a| :: |a[c]| == n) && forall c | 0 <= c < |b| :: |b[c]| == n
    ensures Gained(Totals(a, n), Totals(b, n), Totals(a + b, n))
    decreases |b|
  {
    if b == [] {
      assert a + b == a;
      PlusIsGained(Totals(a, n), Zero(n));
      PlusZero(Totals(a, n));
    } else {
      var front, last := b[..|b| - 1], b[|b| - 1];
      TotalsJoin(a, front, n);
      assert (a + b)[..|a + b| - 1] == a + front;
      GainedMore(Totals(a, n), Totals(front, n), Totals(a + front, n), last);
    }
  }

  /**
   The memory behind a list of samples: just the structures its nodes are embedded in are allocated,
   and they hold the values `v` in order.
   */
  ghost predicate Holds(stat: map<ListHead, Stat>, s: seq<ListHead>, v: seq<Stat>, n: nat) {
    && |s| == |v|
    && (forall i {:trigger s[i]} | 0 <= i < |s| :: s[i] in stat && stat[s[i]] == v[i])
    && (forall k | k in stat :: k in s)
    && (forall i | 0 <= i < |v| :: |v[i]| == n)
  }

  /** The only list is that of `head`, and `stat` holds its samples. */
  ghost predicate Owns(m: Lists<ListHead>, head: ListHead, stat: map<ListHead, Stat>, v: seq<Stat>, n: nat) {
    m.Keys == {head} && Holds(stat, m[head], v, n)
  }

  lemma HoldsOneLess(stat: map<ListHead, Stat>, s: seq<ListHead>, v: seq<Stat>, n: nat)
    requires Distinct(s) && Holds(stat, s, v, n) && s != []
    ensures Holds(stat - {s[0]}, s[1..], v[1..], n)
  {
    forall k | k in stat && k != s[0] ensures k in s[1..] {
      assert s[1..][IndexOf(s, k) - 1] == k;
    }
  }

  lemma DroppedFirst(m: Lists<ListHead>, head: ListHead)
    requires WellFormed(m) && head in m && m[head] != []
    ensures Dropped<ListHead>(m, m[head][0]) == m[head := m[head][1..]]
  {
    DroppedEntry<ListHead>(m, head, 0);
    assert m[head][..0] + m[head][1..] == m[head][1..];
  }

  lemma OwnsOneLess(m: Lists<ListHead>, head: ListHead, stat: map<ListHead, Stat>, v: seq<Stat>, n: nat)
    requires WellFormed(m) && Owns(m, head, stat, v, n) && v != []
    ensures var x := m[head][0]; var d := Dropped<ListHead>(m, x);
      && IsEntry<ListHead>(m, x) && x in stat && Nodes<ListHead>(d) <= Nodes(m)
      && d == m[head := m[head][1..]]
      && Owns(d, head, stat - {x}, v[1..], n)
  {
    DroppedFirst(m, head);
    HoldsOneLess(stat, m[head], v, n);
    DroppedNodes<ListHead>(m, m[head][0]);
  }

  lemma HoldsOther(stat: map<ListHead, Stat>, s: seq<ListHead>, v: seq<Stat>, n: nat, k: nat, t: Stat)
    requires Distinct(s) && Holds(stat, s, v, n) && k < |s| && |t| == n
    ensures Holds(stat[s[k] := t], s, v[k := t], n)
  {
    var stat', v' := stat[s[k] := t], v[k := t];
    forall i | 0 <= i < |s| ensures s[i] in stat' && stat'[s[i]] == v'[i] {
      assert i != k ==> s[i] != s[k];
    }
  }

  lemma OwnsOneMore(m: Lists<ListHead>, head: ListHead, stat: map<ListHead, Stat>, v: seq<Stat>, n: nat,
                    x: ListHead, t: Stat)
    requires WellFormed(m) && Owns(m, head, stat, v, n) && x !in Nodes(m) && |t| == n
    ensures IsLoose<ListHead>(m, x) && x != head
    ensures Owns(Appended<ListHead>(m, x, head), head, stat[x := t], v + [t], n)
    ensures Nodes<ListHead>(Appended<ListHead>(m, x, head)) <= Nodes(m) + {x}
  {
    AppendedFresh<ListHead>(m, x, head);
    AppendedNodes<ListHead>(m, x, head);
  }

  class Module {
    /** NR_STATS */
    const nrStats: nat
    const lists: Memory
    const myHead: ListHead
    constructor (n: nat)
      ensures nrStats == n && fresh(lists) && fresh(myHead) && fresh(Nodes(lists.rings))
      ensures Holding(map[], [])
    {
      nrStats := n;
      var memory := new Memory();
      var head := new ListHead();
      memory.Init(head);
      lists, myHead := memory, head;
    }

    /**
     The only list is that of the head; `memory`, the structures allocated for samples, each with the
     list node embedded in it, is just what is on the list, and holds the samples `v` in order.
     */
    ghost predicate Holding(memory: map<ListHead, Stat>, v: seq<Stat>)
      reads lists, Nodes(lists.rings)
    {
      lists.Valid() && Owns(lists.rings, myHead, memory, v, nrStats)
    }

    /** The counters of every CPU added up, statistic by statistic. */
    method AddUp(cpus: seq<Stat>) returns (total: Stat)
      requires forall c | 0 <= c < |cpus| :: |cpus[c]| == nrStats
      ensures total == Totals(cpus, nrStats)
    {
      total := Zero(nrStats);
      for i := 0 to nrStats
        invariant |total| == nrStats
        invariant forall j | 0 <= j < i :: total[j] == Totals(cpus, nrStats)[j]
        invariant forall j | i <= j < nrStats :: total[j] == 0
      {
        for c := 0 to |cpus|
          invariant |total| == nrStats
          invariant forall j | 0 <= j < i :: total[j] == Totals(cpus, nrStats)[j]
          invariant forall j | i < j < nrStats :: total[j] == 0
          invariant total[i] == Totals(cpus[..c], nrStats)[i]
        {
          assert cpus[..c + 1][..c] == cpus[..c];
          total := total[i := (total[i] + cpus[c][i]) % MODULUS];
        }
        assert cpus[..|cpus|] == cpus;
      }
    }

    /** Links a filled sample in at the tail. */
    method Append(memory: map<ListHead, Stat>, x: ListHead, total: Stat, ghost v: seq<Stat>)
      returns (r: map<ListHead, Stat>)
      requires Holding(memory, v) && x !in Nodes(lists.rings) && |total| == nrStats
      modifies lists, Nodes(lists.rings), x
      ensures Holding(r, v + [total]) && Nodes(lists.rings) <= old(Nodes(lists.rings)) + {x}
    {
      OwnsOneMore(lists.rings, myHead, memory, v, nrStats, x, total);
      lists.AddTail(x, myHead);
      r := memory[x := total];
    }

    /** save_stats */
    method SaveStats(start: map<ListHead, Stat>, t: Tick, ghost v: seq<Stat>)
      returns (memory: map<ListHead, Stat>, err: int, ghost got: set<ListHead>)
      requires Holding(start, v) && Fits(t, nrStats)
      modifies lists, Nodes(lists.rings)
      ensures fresh(got) && Nodes(lists.rings) <= old(Nodes(lists.rings)) + got
      ensures t.room ==> err == 0 && Holding(memory, v + [Totals(t.cpus, nrStats)])
      ensures !t.room ==> err == -12 && Holding(memory, v)
    {
      if !t.room {
        return start, -ENOMEM, {};
      }
      var x := new ListHead();
      var total := AddUp(t.cpus);
      memory := Append(start, x, total, v);
      err, got := 0, {x};
    }

    /** The inner loop of the differencing: one structure minus another, statistic by statistic. */
    method Subtract(memory: map<ListHead, Stat>, k: ListHead, prev: ListHead) returns (r: map<ListHead, Stat>)
      requires k in memory && prev in memory && k != prev && |memory[k]| == |memory[prev]| == nrStats
      ensures r == memory[k := Minus(memory[k], memory[prev])]
    {
      r := memory;
      for i := 0 to nrStats
        invariant k in r && |r[k]| == nrStats && r == memory[k := r[k]]
        invariant forall j | 0 <= j < i :: r[k][j] == Minus(memory[k], memory[prev])[j]
        invariant forall j | i <= j < nrStats :: r[k][j] == memory[k][j]
      {
        r := r[k := r[k][i := (r[k][i] - r[prev][i]) % MODULUS]];
      }
      assert r[k] == Minus(memory[k], memory[prev]);
    }

    /** One round of the reverse pass, at the entry `k`, the `j`th of the list `s` that held `v`. */
    method DifferenceOne(memory: map<ListHead, Stat>, k: ListHead, first: ListHead,
                         ghost s: seq<ListHead>, ghost v: seq<Stat>, ghost j: nat)
      returns (r: map<ListHead, Stat>, prev: ListHead)
      requires Ring(myHead, s) && 0 < j <= |s| && k == At(myHead, s, j) && first == s[0]
      requires HalfDifferenced(memory, s, v, j, nrStats)
      ensures HalfDifferenced(r, s, v, j - 1, nrStats)
      ensures prev == At(myHead, s, j - 1) && (prev == myHead <==> j == 1)
    {
      StepBack(myHead, s, j);
      r, prev := memory, k.prev;
      if k != first {
        HalfStep(memory, s, v, j, nrStats);
        r := Subtract(memory, k, prev);
      } else {
        HalfDoneEnds(v, nrStats);
      }
    }

    /** The reverse pass of print_stats over the ring `s`: every value but the first becomes a difference. */
    method ReversePass(start: map<ListHead, Stat>, ghost s: seq<ListHead>, ghost v: seq<Stat>)
      returns (memory: map<ListHead, Stat>)
      requires Ring(myHead, s) && Holds(start, s, v, nrStats) && v != []
      ensures Holds(memory, s, Differences(v, nrStats), nrStats)
    {
      StepBack(myHead, s, |s|);
      HalfDoneEnds(v, nrStats);
      memory := start;
      var first: ListHead := myHead.next;
      var k: ListHead := myHead.prev;
      ghost var j := |s|;
      while k != myHead
        invariant 0 <= j <= |s| && k == At(myHead, s, j) && (k == myHead <==> j == 0)
        invariant HalfDifferenced(memory, s, v, j, nrStats)
        decreases j
      {
        memory, k := DifferenceOne(memory, k, first, s, v, j);
        j := j - 1;
      }
    }

    /** list_del and kfree of the first sample, which must be allocated: it can be freed just once. */
    method FreeFirst(memory: map<ListHead, Stat>, k: ListHead, ghost v: seq<Stat>) returns (r: map<ListHead, Stat>)
      requires Holding(memory, v) && v != [] && k == lists.rings[myHead][0]
      modifies lists, Nodes(lists.rings)
      ensures Holding(r, v[1..]) && Nodes(lists.rings) <= old(Nodes(lists.rings))
      ensures lists.rings[myHead] == old(lists.rings[myHead])[1..]
    {
      OwnsOneLess(lists.rings, myHead, memory, v, nrStats);
      lists.Del(k);
      r := memory - {k};
    }

    /** The link of the first entry, or of the head if there is none, leads to the next. */
    lemma OnwardFromHere()
      requires lists.Valid() && myHead in lists.rings
      ensures myHead.next == Ahead(lists.rings[myHead], 0, myHead)
      ensures var k := Ahead(lists.rings[myHead], 0, myHead);
        k.next != null && (k != myHead ==> k.next == Ahead(lists.rings[myHead], 1, myHead))
    {
      var s := lists.rings[myHead];
      assert [] + s == s;
      NextOf(myHead, [], s);
    }

    /** The inner loop of the summing. */
    method AddOne(sum: Stat, value: Stat) returns (r: Stat)
      requires |sum| == |value| == nrStats
      ensures r == Plus(sum, value)
    {
      r := sum;
      for i := 0 to nrStats
        invariant |r| == nrStats
        invariant forall j | 0 <= j < i :: r[j] == Plus(sum, value)[j]
        invariant forall j | i <= j < nrStats :: r[j] == sum[j]
      {
        r := r[i := (r[i] + value[i]) % MODULUS];
      }
    }

    /** One round of the summing loop: the cursor's value is added in, and its structure freed. */
    method SumOne(start: map<ListHead, Stat>, before: Stat, k: ListHead, ghost todo: seq<Stat>)
      returns (memory: map<ListHead, Stat>, sum: Stat)
      requires Holding(start, todo) && |before| == nrStats && todo != [] && k == lists.rings[myHead][0]
      modifies lists, Nodes(lists.rings)
      ensures Holding(memory, todo[1..]) && Nodes(lists.rings) <= old(Nodes(lists.rings))
      ensures lists.rings[myHead] == old(lists.rings[myHead])[1..]
      ensures |sum| == nrStats && Plus(sum, SumOf(todo[1..], nrStats)) == Plus(before, SumOf(todo, nrStats))
    {
      PlusAssociates(before, todo[0], SumOf(todo[1..], nrStats));
      sum := AddOne(before, start[k]);
      memory := FreeFirst(start, k, todo);
    }

    /** The same, and the step to the next entry, which was fetched before the cursor's was freed. */
    method SumAndStep(start: map<ListHead, Stat>, before: Stat, k0: ListHead, n0: ListHead, ghost todo: seq<Stat>)
      returns (memory: map<ListHead, Stat>, sum: Stat, k: ListHead, n: ListHead)
      requires Holding(start, todo) && |before| == nrStats && todo != [] && k0 == lists.rings[myHead][0]
      requires n0 == Ahead(lists.rings[myHead], 1, myHead)
      modifies lists, Nodes(lists.rings)
      ensures Holding(memory, todo[1..]) && Nodes(lists.rings) <= old(Nodes(lists.rings))
      ensures k == Ahead(lists.rings[myHead], 0, myHead)
      ensures k != myHead ==> n == Ahead(lists.rings[myHead], 1, myHead)
      ensures |sum| == nrStats && Plus(sum, SumOf(todo[1..], nrStats)) == Plus(before, SumOf(todo, nrStats))
    {
      memory, sum := SumOne(start, before, k0, todo);
      OnwardFromHere();
      k := n0;
      n := k.next;
    }

    /** The second loop of print_stats: every sample is added in and freed. */
    method SumAndFree(start: map<ListHead, Stat>, ghost v: seq<Stat>)
      returns (memory: map<ListHead, Stat>, sum: Stat, nr: nat)
      requires Holding(start, v)
      modifies lists, Nodes(lists.rings)
      ensures Holding(memory, []) && Nodes(lists.rings) <= old(Nodes(lists.rings))
      ensures sum == SumOf(v, nrStats) && nr == |v|
    {
      memory, sum, nr := start, Zero(nrStats), 0;
      ghost var todo := v;
      PlusZero(SumOf(v, nrStats));
      OnwardFromHere();
      var k: ListHead := myHead.next;
      var n: ListHead := k.next;
      while k != myHead
        invariant Holding(memory, todo) && nr + |todo| == |v|
        invariant Nodes(lists.rings) <= old(Nodes(lists.rings))
        invariant k == Ahead(lists.rings[myHead], 0, myHead)
        invariant k != myHead ==> n == Ahead(lists.rings[myHead], 1, myHead)
        invariant |sum| == nrStats && Plus(sum, SumOf(todo, nrStats)) == SumOf(v, nrStats)
        decreases |todo|
      {
        memory, sum, k, n := SumAndStep(memory, sum, k, n, todo);
        nr, todo := nr + 1, todo[1..];
      }
      PlusZero(sum);
    }

    /** The first loop of print_stats, and the deletion of the first sample. */
    method DifferenceAll(start: map<ListHead, Stat>, ghost v: seq<Stat>) returns (memory: map<ListHead, Stat>)
      requires Holding(start, v) && v != []
      modifies lists, Nodes(lists.rings)
      ensures Holding(memory, Differences(v, nrStats)[1..]) && Nodes(lists.rings) <= old(Nodes(lists.rings))
    {
      OnwardFromHere();
      var first: ListHead := myHead.next;
      memory := ReversePass(start, lists.rings[myHead], v);
      memory := FreeFirst(memory, first, Differences(v, nrStats));
    }

    /** list_del_init of the head of a list by now empty. */
    method ResetHead(memory: map<ListHead, Stat>)
      requires Holding(memory, [])
      modifies lists, Nodes(lists.rings)
      ensures Holding(memory, []) && memory == map[] && Nodes(lists.rings) == old(Nodes(lists.rings))
    {
      EmptyStays(lists.rings, myHead);
      lists.DelInit(myHead);
    }

    /** print_stats: frees every sample, and works out the last of them minus the first. */
    method PrintStats(start: map<ListHead, Stat>, ghost v: seq<Stat>)
      returns (memory: map<ListHead, Stat>, sum: Stat, nr: nat)
      requires Holding(start, v) && v != []
      modifies lists, Nodes(lists.rings)
      ensures Holding(memory, []) && memory == map[] && Nodes(lists.rings) <= old(Nodes(lists.rings))
      ensures sum == Minus(v[|v| - 1], v[0]) && nr == |v| - 1
      ensures |sum| == nrStats && Gained(sum, v[0], v[|v| - 1])
    {
      Telescopes(v, nrStats);
      MinusIsGained(v[0], v[|v| - 1], []);
      memory := DifferenceAll(start, v);
      memory, sum, nr := SumAndFree(memory, Differences(v, nrStats)[1..]);
      ResetHead(memory);
    }

    /** Calls print_stats if a period is complete. */
    method PrintIfDue(due: bool, start: map<ListHead, Stat>, ghost v: seq<Stat>)
      returns (memory: map<ListHead, Stat>, report: seq<Report>, ghost rest: seq<Stat>)
      requires Holding(start, v) && v != []
      modifies lists, Nodes(lists.rings)
      ensures Holding(memory, rest) && Nodes(lists.rings) <= old(Nodes(lists.rings))
      ensures |v[0]| == |v[|v| - 1]| == nrStats
      ensures rest == (if due then [] else v) && report == if due then [ReportOf(v, nrStats)] else []
    {
      memory, report, rest := start, [], v;
      if due {
        var sum, nr;
        memory, sum, nr := PrintStats(start, v);
        report, rest := [Report(sum, nr)], [];
      }
    }

    /** One turn of the thread's loop: a sample is saved, and the list reported when a period is complete. */
    method OneTick(period: nat, start: map<ListHead, Stat>, ghost ticks: seq<Tick>, tick: Tick, n0: nat,
      before: seq<Report>)
      returns (memory: map<ListHead, Stat>, err: int, n: nat, reports: seq<Report>, ghost got: set<ListHead>)
      requires period > 0 && AllFit(ticks, nrStats) && n0 < |ticks| && tick == ticks[n0]
      requires CameTo(ticks, n0, period, before) && Holding(start, Rounds(ticks, n0, period, nrStats).list)
      modifies lists, Nodes(lists.rings)
      ensures fresh(got) && Nodes(lists.rings) <= old(Nodes(lists.rings)) + got
      ensures n == (if tick.room then n0 + 1 else n0) && err == (if tick.room then 0 else -ENOMEM)
      ensures CameTo(ticks, n, period, reports) && Holding(memory, Rounds(ticks, n, period, nrStats).list)
    {
      ghost var p := Rounds(ticks, n0, period, nrStats);
      n, reports := n0, before;
      memory, err, got := SaveStats(start, tick, p.list);
      if err == 0 {
        OneMoreRound(ticks, n0, period, nrStats);
        ghost var v := p.list + [Reading(tick, nrStats)];
        ghost var rest;
        n := n + 1;
        var report;
        memory, report, rest := PrintIfDue(n % period == 0, memory, v);
        reports := reports + report;
      }
    }

    /** After `n` rounds these are the reports. */
    ghost predicate CameTo(ticks: seq<Tick>, n: nat, period: nat, reports: seq<Report>)
      requires period > 0 && AllFit(ticks, nrStats) && n <= |ticks|
    {
      Rounds(ticks, n, period, nrStats).n == n && Rounds(ticks, n, period, nrStats).reports == reports
    }

    /**
     my_kcpustat_fn, for as long as the ticks last or until one finds no room: a sample is saved at
     every tick, and each time a period of them is complete the list is reported and emptied. What it
     reports of the readings, and what not, is in AccountedFor.
     */
    method MyKcpustatFn(period: nat, start: map<ListHead, Stat>, ticks: seq<Tick>)
      returns (memory: map<ListHead, Stat>, err: int, n: nat, reports: seq<Report>)
      requires Holding(start, []) && period > 0 && AllFit(ticks, nrStats)
      modifies lists, Nodes(lists.rings)
      ensures n <= |ticks| && AllRoom(ticks[..n])
      ensures if n == |ticks| then err == 0 else !ticks[n].room && err == -ENOMEM
      ensures Holding(memory, Readings(ticks, nrStats)[Begun(n, period)..n])
      ensures AccountedFor(reports, Readings(ticks, nrStats), n, period, nrStats)
    {
      memory, err, n, reports := KeepSampling(period, start, ticks);
      WholeRun(ticks, n, period, nrStats);
    }

    method KeepSampling(period: nat, start: map<ListHead, Stat>, ticks: seq<Tick>)
      returns (memory: map<ListHead, Stat>, err: int, n: nat, reports: seq<Report>)
      requires Holding(start, []) && period > 0 && AllFit(ticks, nrStats)
      modifies lists, Nodes(lists.rings)
      ensures n <= |ticks| && AllRoom(ticks[..n])
      ensures if n == |ticks| then err == 0 else !ticks[n].room && err == -ENOMEM
      ensures CameTo(ticks, n, period, reports) && Holding(memory, Rounds(ticks, n, period, nrStats).list)
    {
      memory, err, n, reports := start, 0, 0, [];
      ghost var pool := Nodes(lists.rings);
      while n < |ticks| && err == 0
        invariant n <= |ticks| && AllRoom(ticks[..n])
        invariant err == 0 || (n < |ticks| && !ticks[n].room && err == -ENOMEM)
        invariant Nodes(lists.rings) <= pool && fresh(pool - old(Nodes(lists.rings)))
        invariant CameTo(ticks, n, period, reports) && Holding(memory, Rounds(ticks, n, period, nrStats).list)
        decreases |ticks| - n, err == 0
      {
        ghost var got;
        OneMoreRoom(ticks, n);
        memory, err, n, reports, got := OneTick(period, memory, ticks, ticks[n], n, reports);
        pool := pool + got;
      }
    }
  }

  /** What the thread has come to: ticks done, samples on the list, reports made. */
  datatype Progress = Progress(n: nat, list: seq<Stat>, reports: seq<Report>)

  ghost function OneRound(p: Progress, t: Tick, period: nat, n: nat): (r: Progress)
    requires period > 0 && Fits(t, n) && AllLength(p.list, n)
    ensures AllLength(r.list, n)
  {
    if !t.room then p
    else
      var list := p.list + [Reading(t, n)];
      if (p.n + 1) % period == 0 then Progress(p.n + 1, [], p.reports + [ReportOf(list, n)])
      else Progress(p.n + 1, list, p.reports)
  }

  ghost function Rounds(ticks: seq<Tick>, k: nat, period: nat, n: nat): (r: Progress)
    requires period > 0 && AllFit(ticks, n) && k <= |ticks|
    ensures AllLength(r.list, n)
  {
    if k == 0 then Progress(0, [], []) else OneRound(Rounds(ticks, k - 1, period, n), ticks[k - 1], period, n)
  }

  lemma OneMoreRound(ticks: seq<Tick>, k: nat, period: nat, n: nat)
    requires period > 0 && AllFit(ticks, n) && k < |ticks| && ticks[k].room
    ensures var p, r := Rounds(ticks, k, period, n), Rounds(ticks, k + 1, period, n);
      var v := p.list + [Reading(ticks[k], n)];
      && r.n == p.n + 1
      && r.list == (if (p.n + 1) % period == 0 then [] else v)
      && r.reports == p.reports + if (p.n + 1) % period == 0 then [ReportOf(v, n)] else []
  {
  }

  /** After `k` ticks: `q` windows reported, the readings from `lo` on still on the list. */
  ghost predicate Stands(p: Progress, v: seq<Stat>, k: nat, q: nat, lo: nat, period: nat, n: nat)
    requires AllLength(v, n)
  {
    && lo <= k <= |v| && p.n == k && p.list == v[lo..k]
    && |p.reports| == q && lo == Start(q, period) && k < lo + period
    && AllReports(p.reports, v, period, n)
  }

  lemma RoundStands(ticks: seq<Tick>, p: Progress, k: nat, q: nat, lo: nat, period: nat, n: nat)
    requires period > 0 && AllFit(ticks, n) && k < |ticks| && ticks[k].room
    requires AllLength(p.list, n) && Stands(p, Readings(ticks, n), k, q, lo, period, n)
    ensures var r, v := OneRound(p, ticks[k], period, n), Readings(ticks, n);
      if k + 1 == lo + period then Stands(r, v, k + 1, q + 1, k + 1, period, n)
      else Stands(r, v, k + 1, q, lo, period, n)
  {
    var v := Readings(ticks, n);
    OneMoreTick(k, q, period);
    assert p.list + [v[k]] == v[lo..k + 1];
    if k + 1 == lo + period {
      ReportsGrow(p.reports, ReportOf(v[lo..k + 1], n), v, lo, period, n);
    }
  }

  /** The schedule: what is on the list are the readings since the last whole window, each of which was reported. */
  lemma {:induction false} RoundsMeaning(ticks: seq<Tick>, k: nat, period: nat, n: nat)
    requires period > 0 && AllFit(ticks, n) && k <= |ticks| && AllRoom(ticks[..k])
    ensures var p, v := Rounds(ticks, k, period, n), Readings(ticks, n);
      && p.n == k && p.list == v[k - k % period..k]
      && |p.reports| == k / period && AllReports(p.reports, v, period, n)
  {
    var q, lo := RoundsStand(ticks, k, period, n);
    WindowIsQuotient(k, q, period);
  }

  lemma {:induction false} RoundsStand(ticks: seq<Tick>, k: nat, period: nat, n: nat) returns (q: nat, lo: nat)
    requires period > 0 && AllFit(ticks, n) && k <= |ticks| && AllRoom(ticks[..k])
    ensures Stands(Rounds(ticks, k, period, n), Readings(ticks, n), k, q, lo, period, n)
  {
    if k == 0 {
      q, lo := 0, 0;
    } else {
      assert ticks[k - 1] == ticks[..k][k - 1];
      assert AllRoom(ticks[..k - 1]) by {
        assert forall t | 0 <= t < k - 1 :: ticks[..k - 1][t] == ticks[..k][t];
      }
      q, lo := RoundsStand(ticks, k - 1, period, n);
      RoundStands(ticks, Rounds(ticks, k - 1, period, n), k - 1, q, lo, period, n);
      if k == lo + period {
        q, lo := q + 1, k;
      }
    }
  }

  ghost predicate AllFit(ticks: seq<Tick>, n: nat) {
    forall t | 0 <= t < |ticks| :: Fits(ticks[t], n)
  }

  ghost predicate AllRoom(ticks: seq<Tick>) {
    forall t | 0 <= t < |ticks| :: ticks[t].room
  }

  ghost function Reading(t: Tick, n: nat): (r: Stat)
    requires Fits(t, n)
    ensures |r| == n
  {
    Totals(t.cpus, n)
  }

  /** The readings taken at the ticks. */
  ghost function Readings(ticks: seq<Tick>, n: nat): (r: seq<Stat>)
    requires AllFit(ticks, n)
    ensures |r| == |ticks| && forall t | 0 <= t < |r| :: r[t] == Reading(ticks[t], n)
  {
    seq(|ticks|, t requires 0 <= t < |ticks| => Reading(ticks[t], n))
  }

  lemma OneMoreRoom(ticks: seq<Tick>, k: nat)
    requires k < |ticks| && AllRoom(ticks[..k])
    ensures ticks[k].room ==> AllRoom(ticks[..k + 1])
  {
  }

  ghost predicate AllLength(v: seq<Stat>, n: nat) {
    forall i | 0 <= i < |v| :: |v[i]| == n
  }

  /** What a list of samples comes to: the last of them minus the first. */
  ghost function ReportOf(v: seq<Stat>, n: nat): Report
    requires v != [] && |v[0]| == |v[|v| - 1]| == n
  {
    Report(Minus(v[|v| - 1], v[0]), |v| - 1)
  }

  /** The reports are those of the successive whole windows of the readings. */
  ghost predicate AllReports(reports: seq<Report>, v: seq<Stat>, period: nat, n: nat)
    requires AllLength(v, n)
  {
    forall w | 0 <= w < |reports| :: IsReport(reports[w], v, Start(w, period), period, n)
  }

  /** `r` reports on the window of readings that starts at `lo`. */
  ghost predicate IsReport(r: Report, v: seq<Stat>, lo: nat, period: nat, n: nat)
    requires AllLength(v, n)
  {
    0 < period && lo + period <= |v| && r == ReportOf(v[lo..lo + period], n)
  }

  lemma ReportsGrow(reports: seq<Report>, report: Report, v: seq<Stat>, lo: nat, period: nat, n: nat)
    requires AllLength(v, n) && AllReports(reports, v, period, n) && lo == Start(|reports|, period)
    requires IsReport(report, v, lo, period, n)
    ensures AllReports(reports + [report], v, period, n)
  {
    var all := reports + [report];
    forall w | 0 <= w < |all| ensures IsReport(all[w], v, Start(w, period), period, n) {
      assert all[w] == if w < |reports| then reports[w] else report;
    }
  }

  /** How many readings come before the window `w`. */
  ghost function Start(w: nat, period: nat): nat {
    if w == 0 then 0 else Start(w - 1, period) + period
  }

  lemma {:induction false} StartIsProduct(w: nat, period: nat)
    ensures Start(w, period) == w * period
  {
    if w > 0 {
      StartIsProduct(w - 1, period);
    }
  }

  /** `n` ticks make up `q` whole windows and less than one more. */
  ghost predicate Window(n: nat, q: nat, period: nat) {
    Start(q, period) <= n < Start(q, period) + period
  }

  lemma WindowIsQuotient(n: nat, q: nat, period: nat)
    requires period > 0 && Window(n, q, period)
    ensures n / period == q && n % period == n - Start(q, period)
  {
    StartIsProduct(q, period);
    QuotientIs(n, period, q, n - Start(q, period));
  }

  lemma OneMoreTick(n: nat, q: nat, period: nat)
    requires period > 0 && Window(n, q, period)
    ensures if (n + 1) % period == 0 then Window(n + 1, q + 1, period) && n + 1 == Start(q + 1, period)
      else Window(n + 1, q, period)
  {
    if n + 1 < Start(q, period) + period {
      WindowIsQuotient(n + 1, q, period);
    } else {
      WindowIsQuotient(n + 1, q + 1, period);
    }
  }

  // ---------- what the reports add up to over a run ----------

  /** The sums of the first `k` reports, added up. */
  ghost function Reported(reports: seq<Report>, k: nat, n: nat): (r: Stat)
    requires k <= |reports| && forall w | 0 <= w < |reports| :: |reports[w].sum| == n
    ensures |r| == n
  {
    if k == 0 then Zero(n) else Plus(Reported(reports, k - 1, n), reports[k - 1].sum)
  }

  /** What the counters gained between the end of each of the first `k` windows and the start of the next. */
  ghost function Gaps(v: seq<Stat>, k: nat, period: nat, n: nat): (r: Stat)
    requires AllLength(v, n) && period > 0 && (k > 0 ==> Start(k - 1, period) < |v|)
    ensures |r| == n
  {
    if k <= 1 then Zero(n)
    else
      var lo := Start(k - 1, period);
      Plus(Gaps(v, k - 1, period, n), Minus(v[lo], v[lo - 1]))
  }

  /**
   Over a whole run the reports and the gaps between them make up everything the counters gained
   from the first reading to the last of the last whole window: what is not reported is just the gaps.
   */
  lemma {:induction false} ReportsAndGaps(reports: seq<Report>, v: seq<Stat>, k: nat, period: nat, n: nat)
    requires period > 0 && AllLength(v, n) && AllReports(reports, v, period, n) && 0 < k <= |reports|
    ensures forall w | 0 <= w < |reports| :: |reports[w].sum| == n
    ensures Start(k - 1, period) < Start(k, period) <= |v|
    ensures Plus(Reported(reports, k, n), Gaps(v, k, period, n)) == Minus(v[Start(k, period) - 1], v[0])
  {
    ReportLengths(reports, v, period, n);
    var r, g, hi := ChainsToEnd(reports, v, k, period, n);
    LastWindow(reports, v, k, k - 1, period, n);
  }

  /** The sums `r` and `g` together lead from the first reading to the last before `hi`. */
  ghost predicate Leads(r: Stat, g: Stat, v: seq<Stat>, hi: nat, n: nat) {
    AllLength(v, n) && |r| == |g| == n && 0 < hi <= |v| && Plus(r, g) == Minus(v[hi - 1], v[0])
  }

  lemma {:induction false} ChainsToEnd(reports: seq<Report>, v: seq<Stat>, k: nat, period: nat, n: nat)
    returns (r: Stat, g: Stat, hi: nat)
    requires period > 0 && AllLength(v, n) && AllReports(reports, v, period, n) && 0 < k <= |reports|
    ensures forall w | 0 <= w < |reports| :: |reports[w].sum| == n
    ensures hi == Start(k, period) && Start(k - 1, period) < hi && Leads(r, g, v, hi, n)
    ensures r == Reported(reports, k, n) && g == Gaps(v, k, period, n)
  {
    ReportLengths(reports, v, period, n);
    if k == 1 {
      r, g, hi := FirstWindow(reports, v, period, n);
    } else {
      var r0, g0, lo := ChainsToEnd(reports, v, k - 1, period, n);
      r, g, hi := NextWindow(reports, v, k, k - 1, period, n, r0, g0, lo);
    }
  }

  lemma NextWindow(reports: seq<Report>, v: seq<Stat>, k: nat, w: nat, period: nat, n: nat, r0: Stat, g0: Stat, lo: nat)
    returns (r: Stat, g: Stat, hi: nat)
    requires period > 0 && AllLength(v, n) && AllReports(reports, v, period, n)
    requires forall w | 0 <= w < |reports| :: |reports[w].sum| == n
    requires 1 < k <= |reports| && w == k - 1 && lo == Start(w, period) && Start(w - 1, period) < lo
    requires Leads(r0, g0, v, lo, n) && r0 == Reported(reports, w, n) && g0 == Gaps(v, w, period, n)
    ensures hi == Start(k, period) && lo < hi && Leads(r, g, v, hi, n)
    ensures r == Reported(reports, k, n) && g == Gaps(v, k, period, n)
  {
    LastWindow(reports, v, k, w, period, n);
    hi := lo + period;
    r, g := SumsGrow(r0, reports[w].sum, g0, v, lo, hi, n);
    OneMoreReported(reports, v, k, w, period, n, r0, g0, lo);
  }

  /** Report `w` is that of the last of the first `k` windows. */
  lemma LastWindow(reports: seq<Report>, v: seq<Stat>, k: nat, w: nat, period: nat, n: nat)
    requires period > 0 && AllLength(v, n) && AllReports(reports, v, period, n) && 0 < k <= |reports| && w == k - 1
    ensures Start(w, period) + period == Start(k, period) <= |v|
    ensures reports[w].sum == Minus(v[Start(k, period) - 1], v[Start(w, period)])
  {
    WindowSum(reports, v, w, period, n);
  }

  lemma FirstWindow(reports: seq<Report>, v: seq<Stat>, period: nat, n: nat) returns (r: Stat, g: Stat, hi: nat)
    requires period > 0 && AllLength(v, n) && AllReports(reports, v, period, n) && reports != []
    requires forall w | 0 <= w < |reports| :: |reports[w].sum| == n
    ensures hi == Start(1, period) > 0 && Leads(r, g, v, hi, n)
    ensures r == Reported(reports, 1, n) && g == Gaps(v, 1, period, n)
  {
    LastWindow(reports, v, 1, 0, period, n);
    r, g, hi := Plus(Zero(n), reports[0].sum), Zero(n), period;
    PlusZero(reports[0].sum);
  }

  lemma OneMoreReported(reports: seq<Report>, v: seq<Stat>, k: nat, w: nat, period: nat, n: nat, r: Stat, g: Stat,
    lo: nat)
    requires period > 0 && AllLength(v, n) && (forall w | 0 <= w < |reports| :: |reports[w].sum| == n)
    requires 1 < k <= |reports| && w == k - 1 && lo == Start(w, period) && 0 < lo < |v| && Start(w - 1, period) < |v|
    requires r == Reported(reports, w, n) && g == Gaps(v, w, period, n)
    ensures Reported(reports, k, n) == Plus(r, reports[w].sum)
    ensures Gaps(v, k, period, n) == Plus(g, Minus(v[lo], v[lo - 1]))
  {
  }

  lemma SumsGrow(r: Stat, sum: Stat, g: Stat, v: seq<Stat>, lo: nat, hi: nat, n: nat) returns (r1: Stat, g1: Stat)
    requires lo < hi <= |v| && Leads(r, g, v, lo, n) && |sum| == n && sum == Minus(v[hi - 1], v[lo])
    ensures r1 == Plus(r, sum) && g1 == Plus(g, Minus(v[lo], v[lo - 1])) && Leads(r1, g1, v, hi, n)
  {
    r1, g1 := Plus(r, sum), Plus(g, Minus(v[lo], v[lo - 1]));
    Chained(r, sum, g, v[0], v[lo - 1], v[lo], v[hi - 1]);
  }

  lemma ReportLengths(reports: seq<Report>, v: seq<Stat>, period: nat, n: nat)
    requires AllLength(v, n) && AllReports(reports, v, period, n)
    ensures forall w | 0 <= w < |reports| :: |reports[w].sum| == n
  {
    forall w | 0 <= w < |reports| ensures |reports[w].sum| == n {
      assert IsReport(reports[w], v, Start(w, period), period, n);
    }
  }

  /** The report of window `w` is what leads from its first reading to its last. */
  ghost predicate IsGain(r: Report, v: seq<Stat>, w: nat, period: nat) {
    var lo, hi := Start(w, period), Start(w + 1, period);
    lo < hi <= |v| && r.nr == period - 1 && Gained(r.sum, v[lo], v[hi - 1])
  }

  /**
     What a run of `k` rounds reports of the readings `v`: each whole window of a period, as its last reading
     minus its first, and these and the gaps between the windows make up all that the counters gained until
     the end of the last of them.
   */
  ghost predicate AccountedFor(reports: seq<Report>, v: seq<Stat>, k: nat, period: nat, n: nat)
    requires period > 0 && AllLength(v, n)
  {
    var q := |reports|;
    && q == k / period
    && AllReports(reports, v, period, n)
    && (forall w | 0 <= w < q :: |reports[w].sum| == n)
    && (forall w | 0 <= w < q :: IsGain(reports[w], v, w, period))
    && (q > 0 ==>
      && Start(q - 1, period) < Start(q, period) <= |v|
      && Plus(Reported(reports, q, n), Gaps(v, q, period, n)) == Minus(v[Start(q, period) - 1], v[0]))
  }

  /** When the window that is not whole yet began. */
  function Begun(k: nat, period: nat): (lo: nat)
    requires period > 0
    ensures lo <= k
  {
    k - k % period
  }

  lemma WholeRun(ticks: seq<Tick>, k: nat, period: nat, n: nat)
    requires period > 0 && AllFit(ticks, n) && k <= |ticks| && AllRoom(ticks[..k])
    ensures var p, v := Rounds(ticks, k, period, n), Readings(ticks, n);
      && p.n == k && p.list == v[Begun(k, period)..k]
      && AccountedFor(p.reports, v, k, period, n)
  {
    RoundsMeaning(ticks, k, period, n);
    Accounted(Rounds(ticks, k, period, n).reports, Readings(ticks, n), k, period, n);
  }

  lemma WindowsGained(reports: seq<Report>, v: seq<Stat>, period: nat, n: nat)
    requires period > 0 && AllLength(v, n) && AllReports(reports, v, period, n)
    ensures forall w | 0 <= w < |reports| :: IsGain(reports[w], v, w, period)
  {
    forall w | 0 <= w < |reports| ensures IsGain(reports[w], v, w, period) {
      WindowSum(reports, v, w, period, n);
      MinusIsGained(v[Start(w, period)], v[Start(w + 1, period) - 1], []);
    }
  }

  lemma Accounted(reports: seq<Report>, v: seq<Stat>, k: nat, period: nat, n: nat)
    requires period > 0 && AllLength(v, n) && |reports| == k / period && AllReports(reports, v, period, n)
    ensures AccountedFor(reports, v, k, period, n)
  {
    ReportLengths(reports, v, period, n);
    WindowsGained(reports, v, period, n);
    if reports != [] {
      ReportsAndGaps(reports, v, |reports|, period, n);
    }
  }

  lemma WindowSum(reports: seq<Report>, v: seq<Stat>, w: nat, period: nat, n: nat)
    requires period > 0 && AllLength(v, n) && AllReports(reports, v, period, n) && w < |reports|
    ensures Start(w + 1, period) == Start(w, period) + period <= |v|
    ensures reports[w].sum == Minus(v[Start(w + 1, period) - 1], v[Start(w, period)]) && reports[w].nr == period - 1
  {
    var lo := Start(w, period);
    assert IsReport(reports[w], v, lo, period, n);
    var window := v[lo..lo + period];
    assert window[0] == v[lo] && window[|window| - 1] == v[lo + period - 1];
  }

  /** What was gained from `a` to `b`, from `b` to `c` and from `c` to `d` is what was gained from `a` to `d`. */
  lemma Chained(r: Stat, sum: Stat, g: Stat, a: Stat, b: Stat, c: Stat, d: Stat)
    requires |r| == |sum| == |g| == |a| == |b| == |c| == |d|
    requires Plus(r, g) == Minus(b, a) && sum == Minus(d, c)
    ensures Plus(Plus(r, sum), Plus(g, Minus(c, b))) == Minus(d, a)
  {
    Rearranged(r, sum, g, Minus(c, b));
    MinusThenMinus(a, b, c);
    MinusThenMinus(a, c, d);
  }

  lemma Rearranged(a: Stat, b: Stat, c: Stat, d: Stat)
    requires |a| == |b| == |c| == |d|
    ensures Plus(Plus(a, b), Plus(c, d)) == Plus(Plus(Plus(a, c), d), b)
  {
    PlusAssociates(a, b, Plus(c, d));
    PlusCommutes(b, Plus(c, d));
    PlusAssociates(a, Plus(c, d), b);
    PlusAssociates(a, c, d);
  }

  /** interval * (HZ / frequency), in the unsigned 32-bit arithmetic the code uses. */
  function Period(interval: nat, hz: nat, frequency: nat): nat
    requires frequency > 0
  {
    interval * (hz / frequency) % 0x1_0000_0000
  }

  /**
     Short of overflow a period is as many ticks as fit into whole intervals at the rate wanted, cut to whole
     ticks for each unit of the interval; and intervals add up, around the top of the range.
   */
  lemma PeriodMeans(interval: nat, other: nat, hz: nat, frequency: nat)
    requires frequency > 0 && hz < 0x1_0000_0000
    ensures var one := Period(1, hz, frequency); frequency * one <= hz < frequency * one + frequency
    ensures Period(0, hz, frequency) == 0
    ensures Period(interval + other, hz, frequency) ==
      (Period(interval, hz, frequency) + Period(other, hz, frequency)) % 0x1_0000_0000
  {
    QuotientFits(hz, frequency);
    PeriodsAdd(interval, other, hz / frequency);
  }

  lemma QuotientFits(x: nat, p: nat)
    requires p > 0
    ensures var d := x / p; p * d <= x < p * d + p && d <= x
  {
    var d := x / p;
    assert x == p * d + x % p;
    MulOrder(1, p, d);
  }

  lemma PeriodsAdd(a: nat, b: nat, d: nat)
    ensures (a + b) * d % 0x1_0000_0000 == (a * d % 0x1_0000_0000 + b * d % 0x1_0000_0000) % 0x1_0000_0000
  {
    SumAround(a * d, b * d, (a + b) * d);
  }

  lemma SumAround(x: nat, y: nat, sum: nat)
    requires sum == x + y
    ensures sum % 0x1_0000_0000 == (x % 0x1_0000_0000 + y % 0x1_0000_0000) % 0x1_0000_0000
  {
  }

  /**
     The thread divides by its period. Short of overflow that is not 0 exactly if the interval is not and no
     sample rate exceeds HZ; with overflow it is 0 if 2^32 divides the product.
   */
  lemma PeriodIsPositive(interval: nat, hz: nat, frequency: nat)
    requires frequency > 0
    ensures interval * (hz / frequency) < 0x1_0000_0000 ==>
      (Period(interval, hz, frequency) > 0 <==> interval > 0 && frequency <= hz)
  {
    var d := hz / frequency;
    assert hz == d * frequency + hz % frequency;
    MulOrder(0, d, frequency);
    MulOrder(0, interval, d);
    assert d > 0 ==> 0 * d + d > 0;
  }

  /** An interval of 2^30 seconds, sampled four times in one of them, wraps to a period of 0. */
  lemma PeriodWraps(frequency: nat)
    requires frequency > 0
    ensures Period(0x4000_0000, 4 * frequency, frequency) == 0
  {
    assert 4 * frequency / frequency == 4 by {
      QuotientIs(4 * frequency, frequency, 4, 0);
    }
  }

  lemma EmptyStays(m: Lists<ListHead>, head: ListHead)
    requires WellFormed(m) && head in m && m[head] == []
    ensures Dropped<ListHead>(m, head)[head := []] == m
  {
    DroppedLoose<ListHead>(m, head);
  }

  ghost function SumOf(v: seq<Stat>, n: nat): (r: Stat)
    requires forall i | 0 <= i < |v| :: |v[i]| == n
    ensures |r| == n
  {
    if v == [] then Zero(n) else Plus(v[0], SumOf(v[1..], n))
  }

  lemma SumOfOne(x: Stat)
    ensures SumOf([x], |x|) == x
  {
    assert [x][1..] == [];
    PlusZero(x);
  }

  /** The sum of a list is that of its parts, around the top of the range. */
  lemma {:induction false} SumOfJoin(a: seq<Stat>, b: seq<Stat>, n: nat)
    requires AllLength(a, n) && AllLength(b, n)
    ensures Gained(SumOf(a, n), SumOf(b, n), SumOf(a + b, n))
    decreases |a|
  {
    if a == [] {
      assert a + b == b;
      PlusIsGained(Zero(n), SumOf(b, n));
      PlusZero(SumOf(b, n));
    } else {
      SumOfJoin(a[1..], b, n);
      assert (a + b)[1..] == a[1..] + b;
      GainedMore(SumOf(b, n), SumOf(a[1..], n), SumOf(a[1..] + b, n), a[0]);
      PlusCommutes(SumOf(a[1..], n), a[0]);
      PlusCommutes(SumOf(a[1..] + b, n), a[0]);
    }
  }

  /** The differences after the first add up to the last sample minus the first. */
  lemma Telescopes(v: seq<Stat>, n: nat)
    requires v != [] && forall i | 0 <= i < |v| :: |v[i]| == n
    ensures SumOf(Differences(v, n)[1..], n) == Minus(v[|v| - 1], v[0])
  {
    var d := Differences(v, n)[1..];
    if |v| == 1 {
      MinusSelf(v[0]);
    } else {
      Telescopes(v[1..], n);
      assert d[1..] == Differences(v[1..], n)[1..];
      MinusThenMinus(v[0], v[1], v[|v| - 1]);
    }
  }

  lemma StepBack(head: ListHead, s: seq<ListHead>, j: nat)
    requires Ring(head, s) && 0 < j <= |s|
    ensures At(head, s, j) == s[j - 1] && s[j - 1].prev == At(head, s, j - 1) && head.next == s[0]
    ensures s[j - 1] != head && (s[j - 1] == s[0] <==> j == 1)
    ensures j > 1 ==> At(head, s, j - 1) == s[j - 2] && s[j - 1] != s[j - 2]
  {
  }

  /** The samples once those from index `j` on have been differenced. */
  ghost function HalfDone(v: seq<Stat>, j: nat, n: nat): (r: seq<Stat>)
    requires forall i | 0 <= i < |v| :: |v[i]| == n
    ensures |r| == |v|
    ensures forall i {:trigger r[i]} | 0 <= i < |v| :: r[i] == if i < j then v[i] else DifferenceAt(v, i, n)
  {
    seq(|v|, i requires 0 <= i < |v| => if i < j then v[i] else DifferenceAt(v, i, n))
  }

  ghost predicate HalfDifferenced(stat: map<ListHead, Stat>, s: seq<ListHead>, v: seq<Stat>, j: nat, n: nat) {
    (forall i | 0 <= i < |v| :: |v[i]| == n) && Holds(stat, s, HalfDone(v, j, n), n)
  }

  lemma HalfDoneEnds(v: seq<Stat>, n: nat)
    requires forall i | 0 <= i < |v| :: |v[i]| == n
    ensures HalfDone(v, |v|, n) == v && HalfDone(v, 0, n) == Differences(v, n)
    ensures v != [] ==> HalfDone(v, 1, n) == Differences(v, n)
  {
  }

  lemma HalfStep(stat: map<ListHead, Stat>, s: seq<ListHead>, v: seq<Stat>, j: nat, n: nat)
    requires forall i | 0 <= i < |v| :: |v[i]| == n
    requires Distinct(s) && 1 < j <= |s| && Holds(stat, s, HalfDone(v, j, n), n)
    ensures |stat[s[j - 1]]| == |stat[s[j - 2]]| == n
    ensures Holds(stat[s[j - 1] := Minus(stat[s[j - 1]], stat[s[j - 2]])], s, HalfDone(v, j - 1, n), n)
  {
    var k, w := s[j - 1], HalfDone(v, j, n);
    assert stat[k] == w[j - 1] == v[j - 1] && stat[s[j - 2]] == w[j - 2] == v[j - 2];
    HoldsOther(stat, s, w, n, j - 1, DifferenceAt(v, j - 1, n));
    assert HalfDone(v, j - 1, n) == w[j - 1 := DifferenceAt(v, j - 1, n)];
  }

  /** A sample minus the one before it; the first is kept. */
  ghost function DifferenceAt(v: seq<Stat>, i: nat, n: nat): (r: Stat)
    requires i < |v| && forall i | 0 <= i < |v| :: |v[i]| == n
    ensures |r| == n
  {
    if i == 0 then v[0] else Minus(v[i], v[i - 1])
  }

  ghost function Differences(v: seq<Stat>, n: nat): (r: seq<Stat>)
    requires forall i | 0 <= i < |v| :: |v[i]| == n
    ensures |r| == |v| && forall i {:trigger r[i]} | 0 <= i < |v| :: r[i] == DifferenceAt(v, i, n)
  {
    seq(|v|, i requires 0 <= i < |v| => DifferenceAt(v, i, n))
  }

  /** What the reverse pass leaves: the first sample, and then what leads from each to the next. */
  lemma DifferencesMean(v: seq<Stat>, i: nat, n: nat)
    requires i < |v| && forall i | 0 <= i < |v| :: |v[i]| == n
    ensures if i == 0 then Differences(v, n)[0] == v[0] else Gained(Differences(v, n)[i], v[i - 1], v[i])
  {
    assert Differences(v, n)[i] == DifferenceAt(v, i, n);
    if i > 0 {
      MinusIsGained(v[i - 1], v[i], []);
    }
  }
}
