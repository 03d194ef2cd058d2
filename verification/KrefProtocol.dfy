/**
 The reference counts of TP_07/EXO-05/taskmonitor2.c when threads interleave. A saver, any number of
 readers and the shrinker (or the unloading module) take steps in any order. Taking a reference, dropping
 one, and releasing what nobody refers to any more are separate steps.
 */
module KrefProtocol {

  type Thread = nat
  type Id = nat

  /** `Fresh` is allocated and not yet on its list. */
  datatype Status = Fresh | Linked | Freed

  /**
     `count` is an atomic_t, as struct kref is before Linux 4.11: nothing stops it at 0. `drops` is how often
     the list's own reference was put, which the code does not record.
   */
  datatype Sample = Sample(status: Status, count: int, drops: nat)

  datatype State = State(
    samples: map<Id, Sample>,
    holds: map<Thread, Id>,
    releasing: map<Thread, Id>,
    created: int,
    destroyed: int)

  const START := State(map[], map[], map[], 0, 0)

  /**
     Allocate and Link are the two halves of save_sample before its put; Get is kref_get_unless_zero in a
     traversal; Put is a kref_put by a thread that holds a reference; Drop is a kref_put by the shrinker
     or by monitor_exit, which hold none; Release is task_sample_release, entered by whoever lowered the
     count to 0.
   */
  datatype Step =
    | Allocate(t: Thread, s: Id)
    | Link(t: Thread)
    | Get(t: Thread, s: Id)
    | Put(t: Thread)
    | Drop(t: Thread, s: Id)
    | Release(t: Thread)

  predicate Idle(st: State, t: Thread) {
    t !in st.holds && t !in st.releasing
  }

  predicate OnList(st: State, s: Id) {
    s in st.samples && st.samples[s].status == Linked
  }

  /**
     What a thread can do next. Only linked samples can be found, whatever their count; a thread that holds
     a freed sample has no further step, for it would touch freed memory.
   */
  predicate Enabled(st: State, step: Step) {
    match step
    case Allocate(t, s) => Idle(st, t) && s !in st.samples
    case Link(t) => t in st.holds && st.holds[t] in st.samples && st.samples[st.holds[t]].status == Fresh
    case Get(t, s) => Idle(st, t) && OnList(st, s)
    case Put(t) => t in st.holds && OnList(st, st.holds[t])
    case Drop(t, s) => Idle(st, t) && OnList(st, s)
    case Release(t) => t in st.releasing && st.releasing[t] in st.samples
  }

  /** kref_put: one is taken off the count, and the thread that makes it 0 goes on to release. */
  function Lowered(st: State, t: Thread, s: Id, drops: nat): State
    requires s in st.samples
  {
    var o := st.samples[s];
    st.(samples := st.samples[s := o.(count := o.count - 1, drops := o.drops + drops)],
        releasing := if o.count == 1 then st.releasing[t := s] else st.releasing)
  }

  function Next(st: State, step: Step): State
    requires Enabled(st, step)
  {
    match step
    case Allocate(t, s) =>
      st.(samples := st.samples[s := Sample(Fresh, 2, 0)], holds := st.holds[t := s])
    case Link(t) =>
      var s := st.holds[t];
      st.(samples := st.samples[s := st.samples[s].(status := Linked)], created := st.created + 1)
    case Get(t, s) =>
      var o := st.samples[s];
      if o.count == 0 then st
      else st.(samples := st.samples[s := o.(count := o.count + 1)], holds := st.holds[t := s])
    case Put(t) =>
      Lowered(st.(holds := st.holds - {t}), t, st.holds[t], 0)
    case Drop(t, s) =>
      Lowered(st, t, s, 1)
    case Release(t) =>
      var s := st.releasing[t];
      st.(samples := st.samples[s := st.samples[s].(status := Freed)],
          releasing := st.releasing - {t}, destroyed := st.destroyed + 1)
  }

  // ---------- what every step keeps ----------

  ghost function Keys(m: map<Thread, Id>, s: Id): set<Thread> {
    set t | t in m && m[t] == s
  }

  /** The threads that hold a sample. */
  ghost function Holders(st: State, s: Id): set<Thread> {
    Keys(st.holds, s)
  }

  /** The threads that found its count to be 0 and have not freed it yet. */
  ghost function Releasers(st: State, s: Id): set<Thread> {
    Keys(st.releasing, s)
  }

  ghost function WithStatus(samples: map<Id, Sample>, status: Status): set<Id> {
    set s | s in samples && samples[s].status == status
  }

  /**
     The count is the list's reference and the holders, less what was dropped. Once it is not positive it stays
     so, and one thread is on its way to free the sample, or has freed it.
   */
  ghost predicate Balanced(o: Sample, holders: nat, releasers: nat) {
    && o.count + o.drops == 1 + holders
    && (o.status == Fresh ==> o.drops == 0 && holders == 1)
    && (o.count > 0 ==> o.status != Freed && releasers == 0)
    && (o.count <= 0 ==> o.status != Fresh && releasers == if o.status == Linked then 1 else 0)
  }

  ghost predicate Valid(st: State) {
    && (forall s | s in st.samples :: Balanced(st.samples[s], |Holders(st, s)|, |Releasers(st, s)|))
    && (forall t | t in st.holds :: st.holds[t] in st.samples)
    && (forall t | t in st.releasing :: st.releasing[t] in st.samples && t !in st.holds)
    && st.created == |WithStatus(st.samples, Linked)| + |WithStatus(st.samples, Freed)|
    && st.destroyed == |WithStatus(st.samples, Freed)|
  }

  lemma KeysAdd(m: map<Thread, Id>, t: Thread, s: Id, x: Id)
    requires t !in m
    ensures |Keys(m[t := s], x)| == |Keys(m, x)| + if x == s then 1 else 0
  {
    assert Keys(m[t := s], x) == if x == s then Keys(m, x) + {t} else Keys(m, x);
  }

  lemma KeysRemove(m: map<Thread, Id>, t: Thread, x: Id)
    requires t in m
    ensures |Keys(m - {t}, x)| + (if x == m[t] then 1 else 0) == |Keys(m, x)|
  {
    assert Keys(m, x) == if x == m[t] then Keys(m - {t}, x) + {t} else Keys(m - {t}, x);
  }

  lemma KeysNone(m: map<Thread, Id>, x: Id)
    requires forall t | t in m :: m[t] != x
    ensures Keys(m, x) == {}
  {
  }

  lemma StatusChange(samples: map<Id, Sample>, s: Id, o: Sample, status: Status)
    ensures var now, was := |WithStatus(samples[s := o], status)|, |WithStatus(samples, status)|;
      now + (if s in samples && samples[s].status == status then 1 else 0)
      == was + (if o.status == status then 1 else 0)
  {
    var others := WithStatus(samples, status) - {s};
    assert WithStatus(samples, status) == if s in samples && samples[s].status == status then others + {s} else others;
    assert WithStatus(samples[s := o], status) == if o.status == status then others + {s} else others;
  }

  /** The clauses of Valid that count samples, when one sample changes. */
  lemma CountsChange(samples: map<Id, Sample>, s: Id, o: Sample)
    ensures var n := samples[s := o];
      && |WithStatus(n, Linked)| + (if s in samples && samples[s].status == Linked then 1 else 0)
         == |WithStatus(samples, Linked)| + (if o.status == Linked then 1 else 0)
      && |WithStatus(n, Freed)| + (if s in samples && samples[s].status == Freed then 1 else 0)
         == |WithStatus(samples, Freed)| + (if o.status == Freed then 1 else 0)
  {
    StatusChange(samples, s, o, Linked);
    StatusChange(samples, s, o, Freed);
  }

  lemma AllocateKeeps(st: State, t: Thread, s: Id)
    requires Valid(st) && Enabled(st, Allocate(t, s))
    ensures Valid(Next(st, Allocate(t, s)))
  {
    var n := Next(st, Allocate(t, s));
    CountsChange(st.samples, s, Sample(Fresh, 2, 0));
    forall x | x in n.samples ensures Balanced(n.samples[x], |Holders(n, x)|, |Releasers(n, x)|) {
      KeysAdd(st.holds, t, s, x);
      if x == s {
        KeysNone(st.holds, s);
        KeysNone(st.releasing, s);
      }
    }
  }

  lemma LinkKeeps(st: State, t: Thread)
    requires Valid(st) && Enabled(st, Link(t))
    ensures Valid(Next(st, Link(t)))
  {
    var s, n := st.holds[t], Next(st, Link(t));
    CountsChange(st.samples, s, st.samples[s].(status := Linked));
    forall x | x in n.samples ensures Balanced(n.samples[x], |Holders(n, x)|, |Releasers(n, x)|) {
      assert Balanced(st.samples[x], |Holders(st, x)|, |Releasers(st, x)|);
    }
  }

  lemma GetKeeps(st: State, t: Thread, s: Id)
    requires Valid(st) && Enabled(st, Get(t, s))
    ensures Valid(Next(st, Get(t, s)))
  {
    var o, n := st.samples[s], Next(st, Get(t, s));
    if o.count != 0 {
      CountsChange(st.samples, s, o.(count := o.count + 1));
      forall x | x in n.samples ensures Balanced(n.samples[x], |Holders(n, x)|, |Releasers(n, x)|) {
        assert Balanced(st.samples[x], |Holders(st, x)|, |Releasers(st, x)|);
        KeysAdd(st.holds, t, s, x);
      }
    }
  }

  lemma DropKeeps(st: State, t: Thread, s: Id)
    requires Valid(st) && Enabled(st, Drop(t, s))
    ensures Valid(Next(st, Drop(t, s)))
  {
    var n := Next(st, Drop(t, s));
    CountsChange(st.samples, s, n.samples[s]);
    forall x | x in n.samples ensures Balanced(n.samples[x], |Holders(n, x)|, |Releasers(n, x)|) {
      assert Balanced(st.samples[x], |Holders(st, x)|, |Releasers(st, x)|);
      if st.samples[s].count == 1 {
        KeysAdd(st.releasing, t, s, x);
      }
    }
  }

  lemma PutKeeps(st: State, t: Thread)
    requires Valid(st) && Enabled(st, Put(t))
    ensures Valid(Next(st, Put(t)))
  {
    var s, n := st.holds[t], Next(st, Put(t));
    CountsChange(st.samples, s, n.samples[s]);
    forall x | x in n.samples ensures Balanced(n.samples[x], |Holders(n, x)|, |Releasers(n, x)|) {
      assert Balanced(st.samples[x], |Holders(st, x)|, |Releasers(st, x)|);
      KeysRemove(st.holds, t, x);
      if st.samples[s].count == 1 {
        KeysAdd(st.releasing, t, s, x);
      }
    }
  }

  lemma ReleaseKeeps(st: State, t: Thread)
    requires Valid(st) && Enabled(st, Release(t))
    ensures Valid(Next(st, Release(t))) && st.samples[st.releasing[t]].status == Linked
  {
    var s, n := st.releasing[t], Next(st, Release(t));
    assert Balanced(st.samples[s], |Holders(st, s)|, |Releasers(st, s)|);
    assert t in Releasers(st, s);
    CountsChange(st.samples, s, n.samples[s]);
    forall x | x in n.samples ensures Balanced(n.samples[x], |Holders(n, x)|, |Releasers(n, x)|) {
      assert Balanced(st.samples[x], |Holders(st, x)|, |Releasers(st, x)|);
      KeysRemove(st.releasing, t, x);
    }
  }

  lemma StepKeeps(st: State, step: Step)
    requires Valid(st) && Enabled(st, step)
    ensures Valid(Next(st, step))
  {
    match step
    case Allocate(t, s) => AllocateKeeps(st, t, s);
    case Link(t) => LinkKeeps(st, t);
    case Get(t, s) => GetKeeps(st, t, s);
    case Put(t) => PutKeeps(st, t);
    case Drop(t, s) => DropKeeps(st, t, s);
    case Release(t) => ReleaseKeeps(st, t);
  }

  // ---------- runs ----------

  predicate CanRun(st: State, steps: seq<Step>)
    decreases |steps|
  {
    steps == [] || (Enabled(st, steps[0]) && CanRun(Next(st, steps[0]), steps[1..]))
  }

  function Run(st: State, steps: seq<Step>): State
    requires CanRun(st, steps)
    decreases |steps|
  {
    if steps == [] then st else Run(Next(st, steps[0]), steps[1..])
  }

  lemma {:induction false} RunKeeps(st: State, steps: seq<Step>)
    requires Valid(st) && CanRun(st, steps)
    ensures Valid(Run(st, steps))
    decreases |steps|
  {
    if steps != [] {
      StepKeeps(st, steps[0]);
      RunKeeps(Next(st, steps[0]), steps[1..]);
    }
  }

  lemma Reachable(steps: seq<Step>)
    requires CanRun(START, steps)
    ensures Valid(Run(START, steps))
  {
    assert WithStatus(map[], Linked) == {} && WithStatus(map[], Freed) == {};
    RunKeeps(START, steps);
  }

  // ---------- the protocol's promises ----------

  /** What the code relies on and does not enforce: no list reference is put a second time. */
  ghost predicate DroppedOnce(st: State) {
    forall s | s in st.samples :: st.samples[s].drops <= 1
  }

  function ListReference(o: Sample): nat {
    if o.drops == 0 then 1 else 0
  }

  /**
     In every reachable state in which no list reference was put twice: a count is the list's reference plus
     the holders; it is 0 exactly when the sample is freed or one thread is about to free it; and nobody holds
     such a sample.
   */
  lemma CountsAreReferences(steps: seq<Step>, s: Id)
    requires CanRun(START, steps) && DroppedOnce(Run(START, steps)) && s in Run(START, steps).samples
    ensures var st := Run(START, steps);
      && st.samples[s].count == ListReference(st.samples[s]) + |Holders(st, s)|
      && (st.samples[s].count == 0 <==> st.samples[s].status == Freed || Releasers(st, s) != {})
      && (st.samples[s].count == 0 ==> Holders(st, s) == {})
      && |Releasers(st, s)| <= 1
  {
    Reachable(steps);
    var st := Run(START, steps);
    assert Balanced(st.samples[s], |Holders(st, s)|, |Releasers(st, s)|);
  }

  /**
     Without that condition: in every reachable state the holders of a sample are what its count and the puts
     of its list reference leave, so that a freed sample is held by nobody exactly if these balance. Its
     release began once, and its count is never positive again.
   */
  lemma DanglingHolders(steps: seq<Step>, s: Id)
    requires CanRun(START, steps) && s in Run(START, steps).samples
    ensures var st := Run(START, steps); var o := st.samples[s];
      && |Holders(st, s)| == o.count + o.drops - 1
      && (Holders(st, s) == {} <==> o.count + o.drops == 1)
      && (o.count <= 0 <==> o.status == Freed || Releasers(st, s) != {})
      && |Releasers(st, s)| <= 1
  {
    Reachable(steps);
    var st := Run(START, steps);
    assert Balanced(st.samples[s], |Holders(st, s)|, |Releasers(st, s)|);
  }

  /** The first put of the list reference begins the release exactly if nobody holds the sample. */
  lemma FirstDropReleases(steps: seq<Step>, t: Thread, s: Id)
    requires CanRun(START, steps) && Enabled(Run(START, steps), Drop(t, s)) && Run(START, steps).samples[s].drops == 0
    ensures var st := Run(START, steps);
      t in Next(st, Drop(t, s)).releasing <==> Holders(st, s) == {}
  {
    DanglingHolders(steps, s);
  }

  /** A reader finds every linked sample but those with count 0, holds it from then on, and moves no other reference. */
  lemma GetSucceeds(st: State, t: Thread, s: Id, x: Id)
    requires Enabled(st, Get(t, s)) && x in st.samples
    ensures var n := Next(st, Get(t, s));
      && (st.samples[s].count == 0 ==> n == st)
      && Holders(n, x) == Holders(st, x) + (if x == s && st.samples[s].count != 0 then {t} else {})
      && x in n.samples && n.samples[x].drops == st.samples[x].drops
  {
    KeysSet(st.holds, t, s, x);
  }

  /** A thread that puts its sample holds it no more, and moves no other reference. */
  lemma PutLetsGo(st: State, t: Thread, x: Id)
    requires Enabled(st, Put(t)) && x in st.samples
    ensures var n := Next(st, Put(t));
      && Holders(n, x) == Holders(st, x) - {t}
      && x in n.samples && n.samples[x].drops == st.samples[x].drops
  {
    KeysUnset(st.holds, t, x);
  }

  /** A put by the shrinker is of the list's own reference to that sample. */
  lemma DropIsTheLists(st: State, t: Thread, s: Id, x: Id)
    requires Enabled(st, Drop(t, s)) && x in st.samples
    ensures var n := Next(st, Drop(t, s));
      && Holders(n, x) == Holders(st, x)
      && x in n.samples && n.samples[x].drops == st.samples[x].drops + (if x == s then 1 else 0)
  {
  }

  lemma KeysSet(m: map<Thread, Id>, t: Thread, s: Id, x: Id)
    requires t !in m
    ensures Keys(m[t := s], x) == if x == s then Keys(m, x) + {t} else Keys(m, x)
  {
  }

  lemma KeysUnset(m: map<Thread, Id>, t: Thread, x: Id)
    ensures Keys(m - {t}, x) == Keys(m, x) - {t}
  {
  }

  /**
     In every reachable state in which no list reference was put twice, a reader is refused exactly if the list
     reference was put and nobody holds the sample any more.
   */
  lemma GetFailsExactly(steps: seq<Step>, t: Thread, s: Id)
    requires CanRun(START, steps) && DroppedOnce(Run(START, steps)) && Enabled(Run(START, steps), Get(t, s))
    ensures var st := Run(START, steps);
      t !in Holders(Next(st, Get(t, s)), s) <==> st.samples[s].drops == 1 && Holders(st, s) == {}
  {
    CountsAreReferences(steps, s);
    GetSucceeds(Run(START, steps), t, s, s);
    assert t !in Holders(Run(START, steps), s);
  }

  /** Totals: what was created and not destroyed is what is linked, in any interleaving. */
  lemma TotalsAreLinked(steps: seq<Step>)
    requires CanRun(START, steps)
    ensures var st := Run(START, steps);
      st.created - st.destroyed == |WithStatus(st.samples, Linked)| && st.destroyed == |WithStatus(st.samples, Freed)|
  {
    Reachable(steps);
  }

  /**
     When no thread is in the middle of anything, every linked sample has count 1 and its list's reference,
     the state between steps that TaskMonitor starts from; every other was dropped and is freed.
   */
  lemma QuietWhenIdle(steps: seq<Step>, s: Id)
    requires CanRun(START, steps) && s in Run(START, steps).samples
    requires Run(START, steps).holds == map[] && Run(START, steps).releasing == map[]
    ensures var o := Run(START, steps).samples[s];
      o == Sample(Linked, 1, 0) || (o.drops > 0 && o == Sample(Freed, 1 - o.drops, o.drops))
  {
    Reachable(steps);
    var st := Run(START, steps);
    assert Balanced(st.samples[s], |Holders(st, s)|, |Releasers(st, s)|);
    KeysNone(st.holds, s);
    KeysNone(st.releasing, s);
  }

  /** A reader holds a linked sample while two scans pass: the sample is freed under it. */
  lemma TwoScansFree(st: State, reader: Thread, shrinker: Thread, s: Id)
    requires OnList(st, s) && st.samples[s].count == 2 && Idle(st, shrinker)
    requires reader in Holders(st, s)
    ensures var steps := [Drop(shrinker, s)] + ([Drop(shrinker, s)] + [Release(shrinker)]);
      && CanRun(st, steps)
      && var end := Run(st, steps);
         s in end.samples && end.samples[s].status == Freed && reader in Holders(end, s)
  {
    var s1 := Next(st, Drop(shrinker, s));
    var s2 := Next(s1, Drop(shrinker, s));
    var s3 := Next(s2, Release(shrinker));
    assert CanRun(s3, []) && Run(s3, []) == s3;
    RunCons(s2, Release(shrinker), []);
    assert [Release(shrinker)] + [] == [Release(shrinker)];
    RunCons(s1, Drop(shrinker, s), [Release(shrinker)]);
    RunCons(st, Drop(shrinker, s), [Drop(shrinker, s)] + [Release(shrinker)]);
  }

  /** A sample is saved, and a reader takes it. */
  function SaveAndRead(saver: Thread, reader: Thread, s: Id): seq<Step> {
    [Allocate(saver, s)] + ([Link(saver)] + ([Put(saver)] + [Get(reader, s)]))
  }

  lemma SavedAndRead(saver: Thread, reader: Thread, s: Id)
    requires saver != reader
    ensures CanRun(START, SaveAndRead(saver, reader, s))
    ensures var st := Run(START, SaveAndRead(saver, reader, s));
      && st.samples == map[s := Sample(Linked, 2, 0)] && st.holds == map[reader := s] && st.releasing == map[]
  {
    var s1 := Next(START, Allocate(saver, s));
    var s2 := Next(s1, Link(saver));
    var s3 := Next(s2, Put(saver));
    var s4 := Next(s3, Get(reader, s));
    assert CanRun(s4, []) && Run(s4, []) == s4;
    RunCons(s3, Get(reader, s), []);
    assert [Get(reader, s)] + [] == [Get(reader, s)];
    RunCons(s2, Put(saver), [Get(reader, s)]);
    RunCons(s1, Link(saver), [Put(saver)] + [Get(reader, s)]);
    RunCons(START, Allocate(saver, s), [Link(saver)] + ([Put(saver)] + [Get(reader, s)]));
  }

  lemma {:induction false} RunConcat(st: State, a: seq<Step>, b: seq<Step>)
    requires CanRun(st, a) && CanRun(Run(st, a), b)
    ensures CanRun(st, a + b) && Run(st, a + b) == Run(Run(st, a), b)
    decreases |a|
  {
    if a == [] {
      assert a + b == b;
    } else {
      RunConcat(Next(st, a[0]), a[1..], b);
      assert (a + b)[1..] == a[1..] + b;
    }
  }

  /** So the condition of CountsAreReferences can fail, and then a holder is left with a freed sample. */
  lemma TwoScansFreeUnderReader(saver: Thread, reader: Thread, shrinker: Thread, s: Id)
    requires saver != reader && reader != shrinker
    ensures var steps := SaveAndRead(saver, reader, s) +
        ([Drop(shrinker, s)] + ([Drop(shrinker, s)] + [Release(shrinker)]));
      && CanRun(START, steps)
      && var st := Run(START, steps);
         s in st.samples && st.samples[s].status == Freed && reader in Holders(st, s)
  {
    SavedAndRead(saver, reader, s);
    var st := Run(START, SaveAndRead(saver, reader, s));
    assert st.holds[reader] == s;
    TwoScansFree(st, reader, shrinker, s);
    RunConcat(START, SaveAndRead(saver, reader, s),
      [Drop(shrinker, s)] + ([Drop(shrinker, s)] + [Release(shrinker)]));
  }

  /** A sample is saved, and nobody holds it. */
  lemma Saved(saver: Thread, s: Id)
    ensures CanRun(START, [Allocate(saver, s)] + ([Link(saver)] + [Put(saver)]))
    ensures var st := Run(START, [Allocate(saver, s)] + ([Link(saver)] + [Put(saver)]));
      && st.samples == map[s := Sample(Linked, 1, 0)] && st.holds == map[] && st.releasing == map[]
  {
    var s1 := Next(START, Allocate(saver, s));
    var s2 := Next(s1, Link(saver));
    var s3 := Next(s2, Put(saver));
    assert CanRun(s3, []) && Run(s3, []) == s3;
    RunCons(s2, Put(saver), []);
    assert [Put(saver)] + [] == [Put(saver)];
    RunCons(s1, Link(saver), [Put(saver)]);
    RunCons(START, Allocate(saver, s), [Link(saver)] + [Put(saver)]);
  }

  /** Two puts of the list reference, a get at -1, and the release that the first put began. */
  function SecondPut(first: Thread, second: Thread, reader: Thread, s: Id): seq<Step> {
    [Drop(first, s)] + ([Drop(second, s)] + ([Get(reader, s)] + [Release(first)]))
  }

  /** The other way to fail: the count is put below 0 before the release, and a reader still gets the sample. */
  lemma SecondPutLetsReaderIn(st: State, first: Thread, second: Thread, reader: Thread, s: Id)
    requires first != second && first != reader
    requires st.samples == map[s := Sample(Linked, 1, 0)] && st.holds == map[] && st.releasing == map[]
    ensures var steps := SecondPut(first, second, reader, s);
      && CanRun(st, steps)
      && var end := Run(st, steps);
         end.samples == map[s := Sample(Freed, 0, 2)] && end.holds == map[reader := s]
  {
    var s1 := Next(st, Drop(first, s));
    var s2 := Next(s1, Drop(second, s));
    var s3 := Next(s2, Get(reader, s));
    var s4 := Next(s3, Release(first));
    assert s1.samples == map[s := Sample(Linked, 0, 1)] && s2.samples == map[s := Sample(Linked, -1, 2)];
    assert s3.samples == map[s := Sample(Linked, 0, 2)] && s4.samples == map[s := Sample(Freed, 0, 2)];
    assert CanRun(s4, []) && Run(s4, []) == s4;
    RunCons(s3, Release(first), []);
    assert [Release(first)] + [] == [Release(first)];
    RunCons(s2, Get(reader, s), [Release(first)]);
    RunCons(s1, Drop(second, s), [Get(reader, s)] + [Release(first)]);
    RunCons(st, Drop(first, s), [Drop(second, s)] + ([Get(reader, s)] + [Release(first)]));
  }

  lemma SecondPutFreesUnderReader(saver: Thread, first: Thread, second: Thread, reader: Thread, s: Id)
    requires first != second && first != reader
    ensures var steps := [Allocate(saver, s)] + ([Link(saver)] + [Put(saver)]) + SecondPut(first, second, reader, s);
      && CanRun(START, steps)
      && var st := Run(START, steps);
         s in st.samples && st.samples[s].status == Freed && reader in Holders(st, s)
  {
    var save := [Allocate(saver, s)] + ([Link(saver)] + [Put(saver)]);
    Saved(saver, s);
    SecondPutLetsReaderIn(Run(START, save), first, second, reader, s);
    RunConcat(START, save, SecondPut(first, second, reader, s));
  }

  lemma RunCons(st: State, step: Step, steps: seq<Step>)
    requires Enabled(st, step) && CanRun(Next(st, step), steps)
    ensures CanRun(st, [step] + steps) && Run(st, [step] + steps) == Run(Next(st, step), steps)
  {
    assert ([step] + steps)[1..] == steps;
  }
}
