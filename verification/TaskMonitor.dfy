/**
 TP_07/EXO-05/taskmonitor2.c: monitors that own lists of reference-counted samples. A thread samples
 every monitor, a shrinker drops samples, two files show them, and unloading drops everything.
 Each entry point is one step here; KrefProtocol takes the steps apart.
 */
module TaskMonitor {
  import opened Options
  import opened Reports

  const PAGE_SIZE := 4096
  /** SHRINK_STOP, all ones in an unsigned long. */
  const SHRINK_STOP := 0xffff_ffff_ffff_ffff

  /** A sample takes 40 bytes; task_sample_release lowers the word 48 bytes after the start of the one it frees. */
  const SAMPLE_SIZE := 40
  const STRAY := 48

  datatype Sample = Sample(addr: nat, refcount: nat, utime: nat, stime: nat)

  datatype Monitor = Monitor(refcount: nat, samples: seq<Sample>, pid: nat, nbSamples: int)

  /** What one call of save_sample meets: whether there is room, and where, and the times it reads. */
  datatype Reading = Reading(room: bool, addr: nat, utime: nat, stime: nat)

  /** The module's memory, between two steps or within one. */
  datatype State = State(monitors: seq<Monitor>, created: int, destroyed: int)

  /** As the module is loaded. */
  const NOTHING := State([], 0, 0)

  // ---------- what each step comes to ----------

  function TotalSamples(ms: seq<Monitor>): nat {
    if ms == [] then 0 else TotalSamples(ms[..|ms| - 1]) + |ms[|ms| - 1].samples|
  }

  function TotalCounted(ms: seq<Monitor>): int {
    if ms == [] then 0 else TotalCounted(ms[..|ms| - 1]) + ms[|ms| - 1].nbSamples
  }

  /** A monitor's samples after one kref_put on each: only those that are held elsewhere remain. */
  function Lowered(ss: seq<Sample>): seq<Sample> {
    if ss == [] then [] else
    var s := ss[|ss| - 1];
    Lowered(ss[..|ss| - 1]) + if s.refcount <= 1 then [] else [s.(refcount := s.refcount - 1)]
  }

  function Released(ss: seq<Sample>): nat {
    if ss == [] then 0 else Released(ss[..|ss| - 1]) + if ss[|ss| - 1].refcount <= 1 then 1 else 0
  }

  function Dropped(m: Monitor, ownerKnown: bool): Monitor {
    m.(samples := Lowered(m.samples), nbSamples := m.nbSamples - if ownerKnown then Released(m.samples) else 0)
  }

  function AllDropped(ms: seq<Monitor>, ownerKnown: bool): (r: seq<Monitor>)
    ensures |r| == |ms| && forall i {:trigger r[i]} | 0 <= i < |r| :: r[i] == Dropped(ms[i], ownerKnown)
  {
    seq(|ms|, i requires 0 <= i < |ms| => Dropped(ms[i], ownerKnown))
  }

  function TotalReleased(ms: seq<Monitor>): nat {
    if ms == [] then 0 else TotalReleased(ms[..|ms| - 1]) + Released(ms[|ms| - 1].samples)
  }

  /** What monitor_exit leaves of a monitor: nothing, unless it is held elsewhere. */
  function Exited(m: Monitor, ownerKnown: bool): seq<Monitor> {
    if m.refcount <= 1 then [] else [Dropped(m, ownerKnown).(refcount := m.refcount - 1)]
  }

  function Unloaded(ms: seq<Monitor>, ownerKnown: bool): seq<Monitor> {
    if ms == [] then [] else Exited(ms[0], ownerKnown) + Unloaded(ms[1..], ownerKnown)
  }

  /** A monitor after save_sample. */
  function Sampled(m: Monitor, r: Reading): Monitor {
    if r.room then m.(samples := m.samples + [Sample(r.addr, 1, r.utime, r.stime)], nbSamples := m.nbSamples + 1) else m
  }

  function AllSampled(ms: seq<Monitor>, rs: seq<Reading>): (r: seq<Monitor>)
    requires |rs| == |ms|
    ensures |r| == |ms| && forall i {:trigger r[i]} | 0 <= i < |r| :: r[i] == Sampled(ms[i], rs[i])
  {
    seq(|ms|, i requires 0 <= i < |ms| => Sampled(ms[i], rs[i]))
  }

  function Rooms(rs: seq<Reading>): nat {
    if rs == [] then 0 else Rooms(rs[..|rs| - 1]) + if rs[|rs| - 1].room then 1 else 0
  }

  /** A round of kref_put meets the samples one by one: each loses one reference, or goes with its last. */
  lemma {:induction false} LoweredJoin(a: seq<Sample>, b: seq<Sample>)
    ensures Lowered(a + b) == Lowered(a) + Lowered(b) && Released(a + b) == Released(a) + Released(b)
    decreases |b|
  {
    if b == [] {
      assert a + b == a;
    } else {
      LoweredJoin(a, b[..|b| - 1]);
      assert (a + b)[..|a + b| - 1] == a + b[..|b| - 1];
    }
  }

  lemma LoweredOne(s: Sample)
    ensures Lowered([s]) == (if s.refcount <= 1 then [] else [Sample(s.addr, s.refcount - 1, s.utime, s.stime)])
    ensures Released([s]) == if s.refcount <= 1 then 1 else 0
  {
    assert [s][..0] == [] && Lowered([]) == [] && Released([]) == 0;
  }

  /** Unloading takes the monitors one by one: each goes, or is left with one reference less. */
  lemma {:induction false} UnloadedJoin(a: seq<Monitor>, b: seq<Monitor>, ownerKnown: bool)
    ensures Unloaded(a + b, ownerKnown) == Unloaded(a, ownerKnown) + Unloaded(b, ownerKnown)
  {
    if a == [] {
      assert a + b == b;
    } else {
      UnloadedJoin(a[1..], b, ownerKnown);
      UnloadedPeel(a, a[1..], ownerKnown);
      UnloadedPeel(a + b, a[1..] + b, ownerKnown);
      JoinedMonitors(Exited(a[0], ownerKnown), Unloaded(a[1..], ownerKnown), Unloaded(b, ownerKnown));
    }
  }

  lemma UnloadedPeel(ms: seq<Monitor>, rest: seq<Monitor>, ownerKnown: bool)
    requires ms != [] && ms[1..] == rest
    ensures Unloaded(ms, ownerKnown) == Exited(ms[0], ownerKnown) + Unloaded(rest, ownerKnown)
  {
  }

  lemma JoinedMonitors(a: seq<Monitor>, b: seq<Monitor>, c: seq<Monitor>)
    ensures a + (b + c) == a + b + c
  {
  }

  lemma UnloadedOne(m: Monitor, ownerKnown: bool)
    ensures var r := Unloaded([m], ownerKnown);
      if m.refcount <= 1 then r == []
      else
        && |r| == 1 && r[0].refcount == m.refcount - 1 && r[0].pid == m.pid && r[0].samples == Lowered(m.samples)
        && r[0].nbSamples == m.nbSamples - if ownerKnown then Released(m.samples) else 0
  {
    assert [m][1..] == [] && Unloaded([], ownerKnown) == [];
  }

  /** The shrinker's count and the number of samples are sums over the monitors. */
  lemma {:induction false} TotalsJoin(a: seq<Monitor>, b: seq<Monitor>)
    ensures TotalCounted(a + b) == TotalCounted(a) + TotalCounted(b)
    ensures TotalSamples(a + b) == TotalSamples(a) + TotalSamples(b)
    decreases |b|
  {
    if b == [] {
      assert a + b == a;
    } else {
      TotalsJoin(a, b[..|b| - 1]);
      assert (a + b)[..|a + b| - 1] == a + b[..|b| - 1];
    }
  }

  lemma TotalsOfOne(m: Monitor)
    ensures TotalCounted([m]) == m.nbSamples && TotalSamples([m]) == |m.samples|
  {
    assert [m][..0] == [] && TotalCounted([]) == 0 && TotalSamples([]) == 0;
  }

  /** Every object that is linked is held by its list alone, and by nobody in the middle of something. */
  ghost predicate Quiet(ms: seq<Monitor>) {
    forall i | 0 <= i < |ms| :: ms[i].refcount == 1 && QuietSamples(ms[i].samples)
  }

  ghost predicate QuietSamples(ss: seq<Sample>) {
    forall j | 0 <= j < |ss| :: ss[j].refcount == 1
  }

  /** Every object that is linked is referred to. */
  ghost predicate Held(ms: seq<Monitor>) {
    forall i | 0 <= i < |ms| :: ms[i].refcount > 0 && HeldSamples(ms[i].samples)
  }

  ghost predicate HeldSamples(ss: seq<Sample>) {
    forall j | 0 <= j < |ss| :: ss[j].refcount > 0
  }

  lemma {:induction false} QuietDrops(ss: seq<Sample>)
    requires QuietSamples(ss)
    ensures Lowered(ss) == [] && Released(ss) == |ss|
  {
    if ss != [] {
      QuietDrops(ss[..|ss| - 1]);
    }
  }

  /** With one reference each, nothing is left and everything is released. */
  lemma {:induction false} QuietUnloads(ms: seq<Monitor>, ownerKnown: bool)
    requires Quiet(ms)
    ensures Unloaded(ms, ownerKnown) == []
  {
    if ms != [] {
      QuietDrops(ms[0].samples);
      QuietUnloads(ms[1..], ownerKnown);
    }
  }

  lemma {:induction false} QuietReleases(ms: seq<Monitor>)
    requires Quiet(ms)
    ensures TotalReleased(ms) == TotalSamples(ms)
  {
    if ms != [] {
      QuietDrops(ms[|ms| - 1].samples);
      QuietReleases(ms[..|ms| - 1]);
    }
  }

  // ---------- the stray write ----------

  /** The addresses of samples on a list, and on all lists. */
  ghost function Addresses(ss: seq<Sample>): set<nat> {
    if ss == [] then {} else Addresses(ss[..|ss| - 1]) + {ss[|ss| - 1].addr}
  }

  ghost function AllAddresses(ms: seq<Monitor>): set<nat> {
    if ms == [] then {} else AllAddresses(ms[..|ms| - 1]) + Addresses(ms[|ms| - 1].samples)
  }

  /** No release of a sample can write into another. */
  ghost predicate Apart(addrs: set<nat>) {
    forall a, b | a in addrs && b in addrs :: !(b <= a + STRAY < b + SAMPLE_SIZE)
  }

  /** Releases do no harm to a list: they find the owner, or what they write to is no sample. */
  ghost predicate Harmless(ms: seq<Monitor>, ownerKnown: bool) {
    ownerKnown || Apart(AllAddresses(ms))
  }

  /** Neighbours in a slab of samples: the word that is lowered is then half of the second's `prev`. */
  lemma NeighbourIsHit(ms: seq<Monitor>, a: nat)
    requires a in AllAddresses(ms) && a + 40 in AllAddresses(ms)
    ensures !Harmless(ms, false) && a + STRAY == a + 40 + 8
  {
  }

  lemma {:induction false} LoweredAddresses(ss: seq<Sample>)
    ensures Addresses(Lowered(ss)) <= Addresses(ss)
  {
    if ss != [] {
      var front, low := ss[..|ss| - 1], Lowered(ss);
      LoweredAddresses(front);
      if ss[|ss| - 1].refcount > 1 {
        assert low[..|low| - 1] == Lowered(front);
      } else {
        assert low == Lowered(front);
      }
    }
  }

  lemma {:induction false} AddressesConcat(a: seq<Sample>, b: seq<Sample>)
    ensures Addresses(a + b) == Addresses(a) + Addresses(b)
    decreases |b|
  {
    if b == [] {
      assert a + b == a;
    } else {
      AddressesConcat(a, b[..|b| - 1]);
      assert (a + b)[..|a + b| - 1] == a + b[..|b| - 1];
    }
  }

  lemma {:induction false} AllAddressesConcat(a: seq<Monitor>, b: seq<Monitor>)
    ensures AllAddresses(a + b) == AllAddresses(a) + AllAddresses(b)
    decreases |b|
  {
    if b == [] {
      assert a + b == a;
    } else {
      AllAddressesConcat(a, b[..|b| - 1]);
      assert (a + b)[..|a + b| - 1] == a + b[..|b| - 1];
    }
  }

  lemma OneMonitor(m: Monitor)
    ensures AllAddresses([m]) == Addresses(m.samples)
  {
    assert [m][..0] == [] && AllAddresses([]) == {};
  }

  lemma AroundOne(ms: seq<Monitor>, i: nat, m: Monitor)
    requires i < |ms|
    ensures ms[i := m] == ms[..i] + ([m] + ms[i + 1..])
  {
  }

  lemma AddressesAround(ms: seq<Monitor>, i: nat, m: Monitor)
    requires i < |ms|
    ensures AllAddresses(ms[i := m]) == AllAddresses(ms[..i]) + (Addresses(m.samples) + AllAddresses(ms[i + 1..]))
  {
    AroundOne(ms, i, m);
    AllAddressesConcat(ms[..i], [m] + ms[i + 1..]);
    AllAddressesConcat([m], ms[i + 1..]);
    OneMonitor(m);
  }

  /** One monitor's samples become fewer, or none more. */
  lemma OneFewer(ms: seq<Monitor>, i: nat, m: Monitor, ownerKnown: bool)
    requires i < |ms| && Harmless(ms, ownerKnown) && Addresses(m.samples) <= Addresses(ms[i].samples)
    ensures Harmless(ms[i := m], ownerKnown)
  {
    AddressesAround(ms, i, m);
    AddressesAround(ms, i, ms[i]);
    assert ms[i := ms[i]] == ms;
  }

  lemma PartlyHarmless(ms: seq<Monitor>, i: nat, n: nat, ownerKnown: bool)
    requires i < |ms| && n <= |ms[i].samples| && Harmless(ms, ownerKnown)
    ensures Harmless(DroppedUpTo(ms, i, n, ownerKnown), ownerKnown)
  {
    var ss := ms[i].samples;
    assert ss == ss[..n] + ss[n..];
    AddressesConcat(Lowered(ss[..n]), ss[n..]);
    AddressesConcat(ss[..n], ss[n..]);
    LoweredAddresses(ss[..n]);
    OneFewer(ms, i, PartlyDropped(ms[i], n, ownerKnown), ownerKnown);
  }

  lemma {:induction false} DroppedAddresses(ms: seq<Monitor>, ownerKnown: bool)
    ensures AllAddresses(AllDropped(ms, ownerKnown)) <= AllAddresses(ms)
  {
    if ms != [] {
      var n := |ms| - 1;
      DroppedAddresses(ms[..n], ownerKnown);
      LoweredAddresses(ms[n].samples);
      assert AllDropped(ms, ownerKnown)[..n] == AllDropped(ms[..n], ownerKnown);
    }
  }

  lemma ScanHarmless(ms: seq<Monitor>, i: nat, ownerKnown: bool)
    requires i <= |ms| && Harmless(ms, ownerKnown)
    ensures Harmless(AllDropped(ms[..i], ownerKnown) + ms[i..], ownerKnown)
  {
    assert ms == ms[..i] + ms[i..];
    AllAddressesConcat(ms[..i], ms[i..]);
    AllAddressesConcat(AllDropped(ms[..i], ownerKnown), ms[i..]);
    DroppedAddresses(ms[..i], ownerKnown);
  }

  lemma ExitedAddresses(m: Monitor, ownerKnown: bool)
    ensures AllAddresses(Exited(m, ownerKnown)) <= Addresses(m.samples)
  {
    LoweredAddresses(m.samples);
    if m.refcount > 1 {
      OneMonitor(Dropped(m, ownerKnown).(refcount := m.refcount - 1));
    }
  }

  lemma {:induction false} UnloadedAddresses(ms: seq<Monitor>, ownerKnown: bool)
    ensures AllAddresses(Unloaded(ms, ownerKnown)) <= AllAddresses(ms)
  {
    if ms != [] {
      assert ms == [ms[0]] + ms[1..];
      AllAddressesConcat([ms[0]], ms[1..]);
      OneMonitor(ms[0]);
      ExitedAddresses(ms[0], ownerKnown);
      UnloadedAddresses(ms[1..], ownerKnown);
      AllAddressesConcat(Exited(ms[0], ownerKnown), Unloaded(ms[1..], ownerKnown));
    }
  }

  lemma UnloadHarmless(ms: seq<Monitor>, i: nat, ownerKnown: bool)
    requires i <= |ms| && Harmless(ms, ownerKnown)
    ensures Harmless(ms[..i] + Unloaded(ms[i..], ownerKnown), ownerKnown)
  {
    assert ms == ms[..i] + ms[i..];
    AllAddressesConcat(ms[..i], ms[i..]);
    AllAddressesConcat(ms[..i], Unloaded(ms[i..], ownerKnown));
    UnloadedAddresses(ms[i..], ownerKnown);
  }

  // ---------- what the files say ----------

  /** The texts in front of the four numbers of a line. */
  datatype Labels = Labels(pid: string, num: string, usr: string, sys: string)

  const SYSFS := Labels("pid:", " num:", " usr:", " sys:")
  const DEBUGFS := Labels("pid:", " num:", " : usr ", " sys ")

  /** One can tell where a number ends and where a line does. */
  ghost predicate Legible(f: Labels) {
    && f.num != "" && !IsDigit(f.num[0]) && f.usr != "" && !IsDigit(f.usr[0]) && f.sys != "" && !IsDigit(f.sys[0])
    && '\n' !in f.pid && '\n' !in f.num && '\n' !in f.usr && '\n' !in f.sys
  }

  /** One line; the pid is printed as an unsigned short. */
  function Content(f: Labels, pid: nat, num: nat, s: Sample): string {
    var times := Field(f.usr, s.utime, Field(f.sys, s.stime, ""));
    Field(f.pid, pid % 0x1_0000, Field(f.num, num, times))
  }

  function Line(f: Labels, pid: nat, num: nat, s: Sample): string {
    Content(f, pid, num, s) + "\n"
  }

  lemma HeldPrintsTheSame(f: Labels, pid: nat, num: nat, s: Sample)
    ensures Line(f, pid, num, s.(refcount := s.refcount + 1)) == Line(f, pid, num, s)
  {
  }

  /** A text followed by one monitor's samples, the latest first. */
  function Lines(f: Labels, before: string, ss: seq<Sample>, pid: nat, num: nat): string
    decreases |ss|
  {
    if ss == [] then before
    else Lines(f, before + Line(f, pid, num, ss[|ss| - 1]), ss[..|ss| - 1], pid, num + 1)
  }

  /** A text followed by the samples of all monitors, numbered throughout. */
  function Report(f: Labels, before: string, ms: seq<Monitor>, num: nat): string
    decreases |ms|
  {
    if ms == [] then before
    else Report(f, Lines(f, before, ms[0].samples, ms[0].pid, num), ms[1..], num + |ms[0].samples|)
  }

  lemma LinesStep(f: Labels, before: string, ss: seq<Sample>, j: nat, pid: nat, num: nat)
    requires j < |ss|
    ensures Lines(f, before, ss[..j + 1], pid, num)
      == Lines(f, before + Line(f, pid, num, ss[j]), ss[..j], pid, num + 1)
  {
    assert ss[..j + 1][..j] == ss[..j];
  }

  /** The report, as far as monitor `i` and line `num`, is the text `full`. */
  ghost predicate CameTo(f: Labels, full: string, ms: seq<Monitor>, i: nat, num: nat) {
    i <= |ms| && Report(f, full, ms[i..], num) == Report(f, "", ms, 0)
  }

  lemma ReportBegins(f: Labels, ms: seq<Monitor>)
    ensures CameTo(f, "", ms, 0, 0)
  {
    assert ms[0..] == ms;
  }

  lemma ReportStep(f: Labels, full: string, ms: seq<Monitor>, i: nat, num: nat)
    requires i < |ms| && CameTo(f, full, ms, i, num)
    ensures CameTo(f, Lines(f, full, ms[i].samples, ms[i].pid, num), ms, i + 1, num + |ms[i].samples|)
  {
    assert ms[i..][1..] == ms[i + 1..] && ms[i..][0] == ms[i];
  }

  lemma ReportEnds(f: Labels, full: string, ms: seq<Monitor>, num: nat)
    requires CameTo(f, full, ms, |ms|, num)
    ensures full == Report(f, "", ms, 0)
  {
    assert ms[|ms|..] == [];
  }

  lemma DecimalIsOneLine(n: nat)
    ensures '\n' !in Decimal(n)
  {
    DecimalIsDigits(n);
  }

  lemma ContentIsOneLine(f: Labels, pid: nat, num: nat, s: Sample)
    requires Legible(f)
    ensures '\n' !in Content(f, pid, num, s)
  {
    DecimalIsOneLine(pid % 0x1_0000);
    DecimalIsOneLine(num);
    DecimalIsOneLine(s.utime);
    DecimalIsOneLine(s.stime);
  }

  lemma {:induction false} LinesCount(f: Labels, before: string, ss: seq<Sample>, pid: nat, num: nat)
    requires Legible(f)
    ensures Newlines(Lines(f, before, ss, pid, num)) == Newlines(before) + |ss|
    decreases |ss|
  {
    if ss != [] {
      var line := Line(f, pid, num, ss[|ss| - 1]);
      ContentIsOneLine(f, pid, num, ss[|ss| - 1]);
      OneLine(Content(f, pid, num, ss[|ss| - 1]));
      NewlinesConcat(before, line);
      LinesCount(f, before + line, ss[..|ss| - 1], pid, num + 1);
    }
  }

  lemma {:induction false} TotalFromFront(ms: seq<Monitor>)
    requires ms != []
    ensures TotalSamples(ms) == |ms[0].samples| + TotalSamples(ms[1..])
  {
    var n := |ms| - 1;
    if n > 0 {
      TotalFromFront(ms[..n]);
      assert ms[..n][1..] == ms[1..][..n - 1];
    }
  }

  /** The report has one line for every sample there is. */
  lemma {:induction false} ReportCount(f: Labels, before: string, ms: seq<Monitor>, num: nat)
    requires Legible(f)
    ensures Newlines(Report(f, before, ms, num)) == Newlines(before) + TotalSamples(ms)
    decreases |ms|
  {
    if ms != [] {
      LinesCount(f, before, ms[0].samples, ms[0].pid, num);
      TotalFromFront(ms);
      ReportCount(f, Lines(f, before, ms[0].samples, ms[0].pid, num), ms[1..], num + |ms[0].samples|);
    }
  }

  // ---------- what a reader makes of them ----------

  /** The pid, the number of the line, and the two times, each after its label. */
  lemma LineReads(f: Labels, pid: nat, num: nat, s: Sample)
    requires Legible(f)
    ensures ReadFields(Content(f, pid, num, s), [f.pid, f.num, f.usr, f.sys])
      == Some([pid % 0x1_0000, num, s.utime, s.stime])
  {
    FourFieldsRead(Content(f, pid, num, s), f.pid, pid % 0x1_0000, f.num, num, f.usr, s.utime, f.sys, s.stime);
  }

  /** The line for sample `j` of monitor `i` says its monitor's pid, the number of the line, and its times. */
  ghost predicate SaysAt(lines: seq<string>, ms: seq<Monitor>, i: nat, j: nat, names: seq<string>)
    requires i < |ms| && j < |ms[i].samples|
  {
    var k, s := TotalSamples(ms[..i]) + (|ms[i].samples| - 1 - j), ms[i].samples[j];
    k < |lines| && ReadFields(lines[k], names) == Some([ms[i].pid % 0x1_0000, k, s.utime, s.stime])
  }

  /**
     What a text says, taken apart at newlines and read by these labels: one line for each sample, the monitors in
     order and the samples of each from the last to the first.
   */
  ghost predicate Shows(text: string, ms: seq<Monitor>, names: seq<string>) {
    var lines := SplitLines(text);
    && |lines| == TotalSamples(ms)
    && forall i, j | 0 <= i < |ms| && 0 <= j < |ms[i].samples| :: SaysAt(lines, ms, i, j, names)
  }

  /** The lines of one monitor's samples, the latest first. */
  function Contents(f: Labels, ss: seq<Sample>, pid: nat, num: nat): (r: seq<string>)
    ensures |r| == |ss|
    decreases |ss|
  {
    if ss == [] then []
    else [Content(f, pid, num, ss[|ss| - 1])] + Contents(f, ss[..|ss| - 1], pid, num + 1)
  }

  function AllContents(f: Labels, ms: seq<Monitor>, num: nat): seq<string> {
    if ms == [] then []
    else Contents(f, ms[0].samples, ms[0].pid, num) + AllContents(f, ms[1..], num + |ms[0].samples|)
  }

  lemma {:induction false} LinesSplit(f: Labels, before: string, ss: seq<Sample>, pid: nat, num: nat)
    requires Whole(before) && Legible(f)
    ensures SplitLines(Lines(f, before, ss, pid, num)) == SplitLines(before) + Contents(f, ss, pid, num)
    ensures Whole(Lines(f, before, ss, pid, num))
    decreases |ss|
  {
    if ss != [] {
      var n := |ss| - 1;
      var line := Content(f, pid, num, ss[n]);
      ContentIsOneLine(f, pid, num, ss[n]);
      SplitOneMore(before, line, line + "\n");
      LinesSplit(f, before + (line + "\n"), ss[..n], pid, num + 1);
      Associate(SplitLines(before), [line], Contents(f, ss[..n], pid, num + 1));
    }
  }

  lemma Associate(a: seq<string>, b: seq<string>, c: seq<string>)
    ensures a + b + c == a + (b + c)
  {
  }

  lemma {:induction false} ReportSplit(f: Labels, before: string, ms: seq<Monitor>, num: nat)
    requires Whole(before) && Legible(f)
    ensures SplitLines(Report(f, before, ms, num)) == SplitLines(before) + AllContents(f, ms, num)
    decreases |ms|
  {
    if ms == [] {
      assert SplitLines(before) + [] == SplitLines(before);
    } else {
      var lines, next := Lines(f, before, ms[0].samples, ms[0].pid, num), num + |ms[0].samples|;
      LinesSplit(f, before, ms[0].samples, ms[0].pid, num);
      ReportSplit(f, lines, ms[1..], next);
      ReportPeels(f, before, ms, num, lines, next);
      AllContentsPeel(f, ms, num, next);
      MonitorSplit(SplitLines(Report(f, before, ms, num)), SplitLines(lines), SplitLines(before),
        Contents(f, ms[0].samples, ms[0].pid, num), AllContents(f, ms[1..], next));
    }
  }

  lemma ReportPeels(f: Labels, before: string, ms: seq<Monitor>, num: nat, lines: string, next: nat)
    requires ms != [] && next == num + |ms[0].samples| && lines == Lines(f, before, ms[0].samples, ms[0].pid, num)
    ensures Report(f, before, ms, num) == Report(f, lines, ms[1..], next)
  {
  }

  lemma MonitorSplit(all: seq<string>, mid: seq<string>, front: seq<string>, one: seq<string>, rest: seq<string>)
    requires all == mid + rest && mid == front + one
    ensures all == front + (one + rest)
  {
  }

  lemma {:induction false} ContentsAt(f: Labels, ss: seq<Sample>, pid: nat, num: nat, j: nat, k: nat, at: nat)
    requires j < |ss| && k == |ss| - 1 - j && at == num + k
    ensures Contents(f, ss, pid, num)[k] == Content(f, pid, at, ss[j])
    decreases |ss|
  {
    ContentsPeel(f, ss, pid, num, ss[..|ss| - 1]);
    if k > 0 {
      ContentsAt(f, ss[..|ss| - 1], pid, num + 1, j, k - 1, at);
    }
  }

  lemma ContentsPeel(f: Labels, ss: seq<Sample>, pid: nat, num: nat, front: seq<Sample>)
    requires ss != [] && front == ss[..|ss| - 1]
    ensures Contents(f, ss, pid, num) == [Content(f, pid, num, ss[|ss| - 1])] + Contents(f, front, pid, num + 1)
  {
  }

  lemma {:induction false} AllContentsJoin(f: Labels, a: seq<Monitor>, b: seq<Monitor>, ab: seq<Monitor>, num: nat,
    mid: nat)
    requires ab == a + b && mid == num + TotalSamples(a)
    ensures AllContents(f, ab, num) == AllContents(f, a, num) + AllContents(f, b, mid)
    decreases |a|
  {
    if a == [] {
      assert ab == b;
      NoContents(f, num, AllContents(f, b, mid));
    } else {
      var next := num + |a[0].samples|;
      TotalFromFront(a);
      AllContentsJoin(f, a[1..], b, ab[1..], next, mid);
      JoinPeeled(f, a, ab, num, next, AllContents(f, b, mid));
    }
  }

  lemma NoContents(f: Labels, num: nat, rest: seq<string>)
    ensures AllContents(f, [], num) + rest == rest
  {
  }

  lemma JoinPeeled(f: Labels, a: seq<Monitor>, ab: seq<Monitor>, num: nat, next: nat, rest: seq<string>)
    requires a != [] && ab != [] && ab[0] == a[0] && next == num + |a[0].samples|
    requires AllContents(f, ab[1..], next) == AllContents(f, a[1..], next) + rest
    ensures AllContents(f, ab, num) == AllContents(f, a, num) + rest
  {
    AllContentsPeel(f, a, num, next);
    AllContentsPeel(f, ab, num, next);
    Associate(Contents(f, a[0].samples, a[0].pid, num), AllContents(f, a[1..], next), rest);
  }

  lemma AllContentsPeel(f: Labels, ms: seq<Monitor>, num: nat, next: nat)
    requires ms != [] && next == num + |ms[0].samples|
    ensures AllContents(f, ms, num) == Contents(f, ms[0].samples, ms[0].pid, num) + AllContents(f, ms[1..], next)
  {
  }

  lemma FirstContents(f: Labels, ms: seq<Monitor>, num: nat, j: nat, k: nat, at: nat)
    requires ms != [] && j < |ms[0].samples| && k == |ms[0].samples| - 1 - j && at == num + k
    ensures k < |AllContents(f, ms, num)|
    ensures AllContents(f, ms, num)[k] == Content(f, ms[0].pid, at, ms[0].samples[j])
  {
    ContentsAt(f, ms[0].samples, ms[0].pid, num, j, k, at);
  }

  /** The line for sample `j` of monitor `i` of all. */
  lemma AllContentsAt(f: Labels, ms: seq<Monitor>, i: nat, j: nat, k: nat)
    requires i < |ms| && j < |ms[i].samples| && k == TotalSamples(ms[..i]) + (|ms[i].samples| - 1 - j)
    ensures k < |AllContents(f, ms, 0)| && AllContents(f, ms, 0)[k] == Content(f, ms[i].pid, k, ms[i].samples[j])
  {
    var mid := TotalSamples(ms[..i]);
    assert ms == ms[..i] + ms[i..];
    AllContentsJoin(f, ms[..i], ms[i..], ms, 0, mid);
    AllContentsCount(f, ms[..i], 0);
    FirstContents(f, ms[i..], mid, j, k - mid, k);
  }

  lemma {:induction false} AllContentsCount(f: Labels, ms: seq<Monitor>, num: nat)
    ensures |AllContents(f, ms, num)| == TotalSamples(ms)
    decreases |ms|
  {
    if ms != [] {
      TotalFromFront(ms);
      AllContentsCount(f, ms[1..], num + |ms[0].samples|);
    }
  }

  lemma SampleSays(lines: seq<string>, ms: seq<Monitor>, i: nat, j: nat, k: nat, names: seq<string>)
    requires i < |ms| && j < |ms[i].samples|
    requires k == TotalSamples(ms[..i]) + (|ms[i].samples| - 1 - j) && k < |lines|
    requires ReadFields(lines[k], names)
      == Some([ms[i].pid % 0x1_0000, k, ms[i].samples[j].utime, ms[i].samples[j].stime])
    ensures SaysAt(lines, ms, i, j, names)
  {
  }

  /** The lines of a report that starts the file. */
  lemma ReportLines(f: Labels, ms: seq<Monitor>)
    requires Legible(f)
    ensures SplitLines(Report(f, "", ms, 0)) == AllContents(f, ms, 0)
    ensures |AllContents(f, ms, 0)| == TotalSamples(ms)
  {
    ReportSplit(f, "", ms, 0);
    AllContentsCount(f, ms, 0);
    assert SplitLines("") + AllContents(f, ms, 0) == AllContents(f, ms, 0);
  }

  /** The whole report reads back: every sample there is, once, in its place. */
  lemma ReportReads(f: Labels, ms: seq<Monitor>)
    requires Legible(f)
    ensures Shows(Report(f, "", ms, 0), ms, [f.pid, f.num, f.usr, f.sys])
  {
    ReportLines(f, ms);
    var lines := AllContents(f, ms, 0);
    forall i, j | 0 <= i < |ms| && 0 <= j < |ms[i].samples|
      ensures SaysAt(lines, ms, i, j, [f.pid, f.num, f.usr, f.sys])
    {
      var k := TotalSamples(ms[..i]) + (|ms[i].samples| - 1 - j);
      AllContentsAt(f, ms, i, j, k);
      LineReads(f, ms[i].pid, k, ms[i].samples[j]);
      SampleSays(lines, ms, i, j, k, [f.pid, f.num, f.usr, f.sys]);
    }
  }

  lemma SysfsReads(ms: seq<Monitor>)
    ensures Shows(Report(SYSFS, "", ms, 0), ms, ["pid:", " num:", " usr:", " sys:"])
  {
    ReportReads(SYSFS, ms);
  }

  lemma DebugfsReads(ms: seq<Monitor>)
    ensures Shows(Report(DEBUGFS, "", ms, 0), ms, ["pid:", " num:", " : usr ", " sys "])
  {
    ReportReads(DEBUGFS, ms);
  }

  function Head(s: string, n: nat): string {
    if |s| <= n then s else s[..n]
  }

  /** The text `part` is `full`, or its first `n` characters if it has more. */
  predicate IsFirstPart(part: string, full: string, n: nat) {
    part <= full && |part| == if |full| <= n then |full| else n
  }

  /** What of a text a page can hold, next to the NUL that ends it. */
  function Cut(s: string): string {
    Head(s, PAGE_SIZE - 1)
  }

  /** scnprintf at the end of what the page holds of `sofar`: as much as there is room for, and a NUL. */
  method Scnprintf(text: string, count: nat, ghost sofar: string, line: string) returns (r: string)
    requires text == Cut(sofar) && count == |text| < PAGE_SIZE
    ensures r == Cut(sofar + line) && |r| < PAGE_SIZE
  {
    r := text + Head(line, PAGE_SIZE - count - 1);
  }

  // ---------- the module ----------

  class Module {
    /**
     Whether the release of a sample finds the monitor that owns it. It is true of the module as intended. The
     code looks for the monitor at a fixed distance before the sample, where it would be only for the list
     head; of the code as written this is false, and what it writes instead must not hit a sample.
     */
    const ownerKnown: bool

    var monitors: seq<Monitor>
    var totalCreated: int
    var totalDestroyed: int

    constructor (known: bool)
      ensures ownerKnown == known && View() == NOTHING
    {
      ownerKnown := known;
      monitors, totalCreated, totalDestroyed := [], 0, 0;
    }

    function View(): State
      reads this
    {
      State(monitors, totalCreated, totalDestroyed)
    }

    // ---------- reference counts ----------

    /** kref_get_unless_zero on a monitor */
    method GetMonitor(i: nat) returns (got: bool)
      requires i < |monitors|
      modifies this`monitors
      ensures got <==> old(monitors[i]).refcount > 0
      ensures monitors == old(if monitors[i].refcount > 0 then
        monitors[i := monitors[i].(refcount := monitors[i].refcount + 1)] else monitors)
    {
      got := monitors[i].refcount > 0;
      if got {
        monitors := monitors[i := monitors[i].(refcount := monitors[i].refcount + 1)];
      }
    }

    /** kref_put on a monitor, with task_monitor_release: unlinked and freed when nothing holds it. */
    method PutMonitor(i: nat) returns (gone: bool)
      requires i < |monitors| && monitors[i].refcount > 0
      modifies this`monitors
      ensures gone <==> old(monitors[i]).refcount == 1
      ensures monitors == old(if monitors[i].refcount == 1 then monitors[..i] + monitors[i + 1..] else
        monitors[i := monitors[i].(refcount := monitors[i].refcount - 1)])
    {
      gone := monitors[i].refcount == 1;
      if gone {
        monitors := monitors[..i] + monitors[i + 1..];
      } else {
        monitors := monitors[i := monitors[i].(refcount := monitors[i].refcount - 1)];
      }
    }

    /** kref_get_unless_zero on a sample */
    method GetSample(i: nat, j: nat) returns (got: bool)
      requires i < |monitors| && j < |monitors[i].samples|
      modifies this`monitors
      ensures got <==> old(monitors[i]).samples[j].refcount > 0
      ensures monitors == old(if monitors[i].samples[j].refcount > 0 then
        WithCount(monitors, i, j, monitors[i].samples[j].refcount + 1) else monitors)
    {
      got := monitors[i].samples[j].refcount > 0;
      if got {
        monitors := WithCount(monitors, i, j, monitors[i].samples[j].refcount + 1);
      }
    }

    /** kref_put on a sample, with task_sample_release. */
    method PutSample(i: nat, j: nat) returns (gone: bool)
      requires i < |monitors| && j < |monitors[i].samples| && monitors[i].samples[j].refcount > 0
      requires monitors[i].samples[j].refcount == 1 ==> Harmless(monitors, ownerKnown)
      modifies this`monitors, this`totalDestroyed
      ensures gone <==> old(monitors[i]).samples[j].refcount == 1
      ensures totalDestroyed == old(totalDestroyed) + if gone then 1 else 0
      ensures monitors == old(if monitors[i].samples[j].refcount == 1 then WithoutSample(monitors, i, j, ownerKnown)
        else WithCount(monitors, i, j, monitors[i].samples[j].refcount - 1))
      ensures gone ==>
        && i < |monitors|
        && monitors[i].samples == old(monitors[i].samples[..j] + monitors[i].samples[j + 1..])
        && monitors[i].nbSamples == old(monitors[i].nbSamples) - if ownerKnown then 1 else 0
    {
      gone := monitors[i].samples[j].refcount == 1;
      if gone {
        monitors := WithoutSample(monitors, i, j, ownerKnown);
        totalDestroyed := totalDestroyed + 1;
      } else {
        monitors := WithCount(monitors, i, j, monitors[i].samples[j].refcount - 1);
      }
    }

    // ---------- the shrinker ----------

    /** my_shrink_count */
    method ShrinkCount() returns (res: int)
      requires Quiet(monitors)
      modifies this
      ensures View() == old(View()) && res == TotalCounted(monitors)
    {
      res := 0;
      ghost var st := View();
      var i := 0;
      while i < |monitors|
        invariant 0 <= i <= |monitors| && View() == st
        invariant res == TotalCounted(monitors[..i])
      {
        var got := GetMonitor(i);
        var gone := false;
        if got {
          res := res + monitors[i].nbSamples;
          gone := PutMonitor(i);
        }
        assert monitors == st.monitors && monitors[..i + 1][..i] == monitors[..i];
        if !gone {
          i := i + 1;
        }
      }
      assert monitors[..i] == monitors;
    }

    /** One turn of the loop over the samples of monitor `i` of `ms`, of which `n` were met. */
    method DropOne(i: nat, j: nat, ghost ms: seq<Monitor>, ghost n: nat) returns (gone: bool)
      requires i < |ms| && n < |ms[i].samples| && HeldSamples(ms[i].samples) && Harmless(ms, ownerKnown)
      requires monitors == DroppedUpTo(ms, i, n, ownerKnown) && j == |Lowered(ms[i].samples[..n])|
      modifies this`monitors, this`totalDestroyed
      ensures monitors == DroppedUpTo(ms, i, n + 1, ownerKnown)
      ensures |Lowered(ms[i].samples[..n + 1])| == j + if gone then 0 else 1
      ensures totalDestroyed - old(totalDestroyed) == Released(ms[i].samples[..n + 1]) - Released(ms[i].samples[..n])
    {
      DropsOneMore(ms, i, n, ownerKnown);
      PartlyHarmless(ms, i, n, ownerKnown);
      gone := PutSample(i, j);
    }

    /** The loop of kref_put over one monitor's samples, under the iterator that allows removal. */
    method DropSamples(i: nat) returns (n: int)
      requires i < |monitors| && HeldSamples(monitors[i].samples) && Harmless(monitors, ownerKnown)
      modifies this`monitors, this`totalDestroyed
      ensures monitors == old(monitors[i := Dropped(monitors[i], ownerKnown)])
      ensures n == |old(monitors)[i].samples|
      ensures totalDestroyed == old(totalDestroyed + Released(monitors[i].samples))
    {
      n := 0;
      ghost var ms := monitors;
      var j := 0;
      PartlyEnds(ms, i, ownerKnown);
      while j < |monitors[i].samples|
        invariant 0 <= n <= |ms[i].samples| && j == |Lowered(ms[i].samples[..n])|
        invariant monitors == DroppedUpTo(ms, i, n, ownerKnown)
        invariant totalDestroyed == old(totalDestroyed) + Released(ms[i].samples[..n])
        decreases |ms[i].samples| - n
      {
        var gone := DropOne(i, j, ms, n);
        if !gone {
          j := j + 1;
        }
        n := n + 1;
      }
    }

    /** What my_shrink_scan does to one monitor. */
    method ScanOne(i: nat) returns (n: int)
      requires i < |monitors| && monitors[i].refcount > 0 && HeldSamples(monitors[i].samples)
      requires Harmless(monitors, ownerKnown)
      modifies this`monitors, this`totalDestroyed
      ensures monitors == old(monitors[i := Dropped(monitors[i], ownerKnown)])
      ensures n == |old(monitors)[i].samples|
      ensures totalDestroyed == old(totalDestroyed + Released(monitors[i].samples))
    {
      n := 0;
      OneFewer(monitors, i, monitors[i].(refcount := monitors[i].refcount + 1), ownerKnown);
      var got := GetMonitor(i);
      if got {
        n := DropSamples(i);
        var gone := PutMonitor(i);
      }
    }

    /** What monitor_exit does to one monitor. */
    method ExitOne(i: nat) returns (gone: bool)
      requires i < |monitors| && monitors[i].refcount > 0 && HeldSamples(monitors[i].samples)
      requires Harmless(monitors, ownerKnown)
      modifies this`monitors, this`totalDestroyed
      ensures gone <==> old(monitors[i].refcount) == 1
      ensures monitors == old(monitors[..i] + Exited(monitors[i], ownerKnown) + monitors[i + 1..])
      ensures totalDestroyed == old(totalDestroyed + Released(monitors[i].samples))
    {
      var n := DropSamples(i);
      gone := PutMonitor(i);
    }

    /** One turn of the loop over the monitors. */
    method ScanTurn(i: nat, ghost ms: seq<Monitor>) returns (n: int)
      requires Held(ms) && Harmless(ms, ownerKnown) && i < |ms|
      requires monitors == AllDropped(ms[..i], ownerKnown) + ms[i..]
      modifies this`monitors, this`totalDestroyed
      ensures monitors == AllDropped(ms[..i + 1], ownerKnown) + ms[i + 1..]
      ensures n == TotalSamples(ms[..i + 1]) - TotalSamples(ms[..i])
      ensures totalDestroyed - old(totalDestroyed) == TotalReleased(ms[..i + 1]) - TotalReleased(ms[..i])
    {
      DroppedSoFar(ms, i, ownerKnown);
      ScanHarmless(ms, i, ownerKnown);
      n := ScanOne(i);
      DroppedOneMore(ms, i, ownerKnown);
    }

    /** my_shrink_scan; `fs` says whether the caller may enter the file system. */
    method ShrinkScan(fs: bool) returns (res: int)
      requires Held(monitors) && (fs ==> Harmless(monitors, ownerKnown))
      modifies this
      ensures !fs ==> res == 0xffff_ffff_ffff_ffff && View() == old(View())
      ensures fs ==> res == old(TotalSamples(monitors)) && View() == old(Scanned(View(), ownerKnown))
    {
      res := 0;
      if !fs {
        return SHRINK_STOP;
      }
      ghost var ms := monitors;
      var i := 0;
      while i < |monitors|
        invariant 0 <= i <= |ms|
        invariant monitors == AllDropped(ms[..i], ownerKnown) + ms[i..]
        invariant res == TotalSamples(ms[..i]) && totalDestroyed == old(totalDestroyed) + TotalReleased(ms[..i])
        invariant totalCreated == old(totalCreated)
        decreases |ms| - i
      {
        var n := ScanTurn(i, ms);
        res := res + n;
        i := i + 1;
      }
      assert ms[..i] == ms;
    }

    // ---------- the sampling thread ----------

    /** save_sample */
    method SaveSample(i: nat, r: Reading) returns (saved: bool)
      requires i < |monitors|
      modifies this
      ensures saved == r.room && totalDestroyed == old(totalDestroyed)
      ensures totalCreated == old(totalCreated) + if r.room then 1 else 0
      ensures monitors == old(monitors[i := Sampled(monitors[i], r)])
      ensures i < |monitors| && monitors[i].samples ==
        old(monitors[i].samples) + if r.room then [Sample(r.addr, 1, r.utime, r.stime)] else []
    {
      saved := r.room;
      if !saved {
        assert monitors == monitors[i := monitors[i]];
        return;
      }
      var ts := Sample(r.addr, 1, 0, 0);
      ts := ts.(refcount := 2);
      ts := ts.(utime := r.utime, stime := r.stime);
      var m := monitors[i];
      var n := |m.samples|;
      monitors := monitors[i := m.(samples := m.samples + [ts])];
      totalCreated := totalCreated + 1;
      monitors := monitors[i := monitors[i].(nbSamples := monitors[i].nbSamples + 1)];
      var gone := PutSample(i, n);
      ghost var kept := Sample(r.addr, 1, r.utime, r.stime);
      assert (m.samples + [ts])[n := kept] == m.samples + [kept];
    }

    /** What monitor_fn does to one monitor. */
    method SampleOne(i: nat, r: Reading)
      requires i < |monitors| && monitors[i].refcount == 1
      modifies this
      ensures totalDestroyed == old(totalDestroyed)
      ensures totalCreated == old(totalCreated) + if r.room then 1 else 0
      ensures monitors == old(monitors[i := Sampled(monitors[i], r)])
    {
      var got := GetMonitor(i);
      if got {
        var saved := SaveSample(i, r);
        var gone := PutMonitor(i);
      }
    }

    /** One turn of monitor_fn. */
    method MonitorRound(rs: seq<Reading>)
      requires Quiet(monitors) && |rs| == |monitors|
      modifies this
      ensures View() == old(RoundDone(View(), rs))
    {
      ghost var ms := monitors;
      var i := 0;
      while i < |monitors|
        invariant 0 <= i <= |ms|
        invariant monitors == AllSampled(ms[..i], rs[..i]) + ms[i..]
        invariant totalCreated == old(totalCreated) + Rooms(rs[..i])
        invariant totalDestroyed == old(totalDestroyed)
        decreases |ms| - i
      {
        SampledSoFar(ms, rs, i);
        SampleOne(i, rs[i]);
        SampledOneMore(ms, rs, i);
        i := i + 1;
      }
      assert ms[..i] == ms && rs[..i] == rs;
    }

    // ---------- the two files ----------

    /** What sysfs_show does to one sample, on a page that holds what it could of `full`. */
    method SysfsSample(i: nat, j: nat, pid: nat, ghost full: string, before: string, first: nat)
      returns (text: string, num: nat, stuck: bool)
      requires i < |monitors| && j < |monitors[i].samples| && monitors[i].samples[j].refcount == 1
      requires before == Cut(full)
      modifies this
      ensures monitors == old(monitors) && totalCreated == old(totalCreated) && totalDestroyed == old(totalDestroyed)
      ensures !stuck && num == first + 1
      ensures text == Cut(full + Line(SYSFS, pid, first, monitors[i].samples[j]))
    {
      text, num, stuck := before, first, false;
      ghost var ms := monitors;
      var count := |text|;
      var got := GetSample(i, j);
      if got {
        if count == PAGE_SIZE {
          stuck := true;
          return;
        }
        HeldPrintsTheSame(SYSFS, pid, first, ms[i].samples[j]);
        text := Scnprintf(text, count, full, Line(SYSFS, pid, num, monitors[i].samples[j]));
        num := num + 1;
        var gone := PutSample(i, j);
        CountBack(ms, i, j);
      }
    }

    /** The inner loop of sysfs_show. */
    method SysfsSamples(i: nat, pid: nat, ghost full: string, before: string, first: nat)
      returns (text: string, num: nat, stuck: bool)
      requires i < |monitors| && QuietSamples(monitors[i].samples) && before == Cut(full)
      modifies this
      ensures !stuck && View() == old(View()) && num == first + |monitors[i].samples|
      ensures text == Cut(Lines(SYSFS, full, monitors[i].samples, pid, first))
    {
      text, num, stuck := before, first, false;
      ghost var ms, ss, sofar := monitors, monitors[i].samples, full;
      var j := |monitors[i].samples|;
      assert ss[..j] == ss;
      while j > 0
        invariant 0 <= j <= |ss| && !stuck && num == first + |ss| - j
        invariant monitors == ms && totalCreated == old(totalCreated) && totalDestroyed == old(totalDestroyed)
        invariant Lines(SYSFS, sofar, ss[..j], pid, num) == Lines(SYSFS, full, ss, pid, first)
        invariant text == Cut(sofar)
      {
        j := j - 1;
        LinesStep(SYSFS, sofar, ss, j, pid, num);
        ghost var line := Line(SYSFS, pid, num, ss[j]);
        text, num, stuck := SysfsSample(i, j, pid, sofar, text, num);
        if stuck {
          return;
        }
        sofar := sofar + line;
      }
    }

    /** What sysfs_show does to one monitor. */
    method SysfsMonitor(i: nat, ghost full: string, before: string, first: nat)
      returns (text: string, num: nat, stuck: bool)
      requires i < |monitors| && monitors[i].refcount == 1 && QuietSamples(monitors[i].samples) && before == Cut(full)
      modifies this
      ensures !stuck && View() == old(View()) && num == first + |monitors[i].samples|
      ensures text == Cut(Lines(SYSFS, full, monitors[i].samples, monitors[i].pid, first))
    {
      text, num, stuck := before, first, false;
      ghost var ms := monitors;
      var got := GetMonitor(i);
      if got {
        text, num, stuck := SysfsSamples(i, monitors[i].pid, full, text, num);
        if stuck {
          return;
        }
        var gone := PutMonitor(i);
        assert monitors == ms;
      }
    }

    /** One turn of the loop over the monitors. */
    method SysfsTurn(i: nat, ghost ms: seq<Monitor>, ghost full: string, before: string, first: nat)
      returns (text: string, num: nat, stuck: bool, ghost now: string)
      requires monitors == ms && i < |ms| && Quiet(ms) && CameTo(SYSFS, full, ms, i, first) && before == Cut(full)
      modifies this
      ensures !stuck && View() == old(View()) && CameTo(SYSFS, now, ms, i + 1, num) && text == Cut(now)
    {
      ReportStep(SYSFS, full, ms, i, first);
      now := Lines(SYSFS, full, ms[i].samples, ms[i].pid, first);
      text, num, stuck := SysfsMonitor(i, full, before, first);
    }

    /**
     sysfs_show. `text` is what the page holds up to its first NUL; `stuck` is the early return that
     leaves a monitor and a sample held.
     */
    method SysfsShow() returns (text: string, stuck: bool)
      requires Quiet(monitors)
      modifies this
      ensures !stuck && View() == old(View())
      ensures text == Cut(Report(SYSFS, "", monitors, 0))
      ensures exists full: string ::
        (Shows(full, monitors, ["pid:", " num:", " usr:", " sys:"]) && IsFirstPart(text, full, 4095))
    {
      text, stuck := SysfsAll();
      SysfsReads(monitors);
    }

    /** Its two loops. */
    method SysfsAll() returns (text: string, stuck: bool)
      requires Quiet(monitors)
      modifies this
      ensures !stuck && View() == old(View())
      ensures text == Cut(Report(SYSFS, "", monitors, 0))
    {
      text, stuck := "", false;
      ghost var st, full := View(), "";
      var num, i := 0, 0;
      ReportBegins(SYSFS, st.monitors);
      while i < |monitors|
        invariant 0 <= i <= |monitors| && View() == st && !stuck
        invariant CameTo(SYSFS, full, st.monitors, i, num) && text == Cut(full)
      {
        text, num, stuck, full := SysfsTurn(i, st.monitors, full, text, num);
        if stuck {
          return;
        }
        i := i + 1;
      }
      ReportEnds(SYSFS, full, st.monitors, num);
    }

    /** What debugfs_task_monitor_show does to one sample. */
    method DebugfsSample(i: nat, j: nat, pid: nat, before: string, first: nat) returns (text: string, num: nat)
      requires i < |monitors| && j < |monitors[i].samples| && monitors[i].samples[j].refcount == 1
      modifies this
      ensures monitors == old(monitors) && totalCreated == old(totalCreated) && totalDestroyed == old(totalDestroyed)
      ensures text == before + Line(DEBUGFS, pid, first, monitors[i].samples[j]) && num == first + 1
    {
      text, num := before, first;
      ghost var ms := monitors;
      var got := GetSample(i, j);
      if got {
        text, num := text + Line(DEBUGFS, pid, num, monitors[i].samples[j]), num + 1;
        HeldPrintsTheSame(DEBUGFS, pid, first, ms[i].samples[j]);
        var gone := PutSample(i, j);
        CountBack(ms, i, j);
      }
    }

    /** The inner loop of debugfs_task_monitor_show. */
    method DebugfsSamples(i: nat, pid: nat, before: string, first: nat) returns (text: string, num: nat)
      requires i < |monitors| && QuietSamples(monitors[i].samples)
      modifies this
      ensures View() == old(View()) && num == first + |monitors[i].samples|
      ensures text == Lines(DEBUGFS, before, monitors[i].samples, pid, first)
    {
      text, num := before, first;
      ghost var ms, ss := monitors, monitors[i].samples;
      var j := |monitors[i].samples|;
      assert ss[..j] == ss;
      while j > 0
        invariant 0 <= j <= |ss| && num == first + |ss| - j
        invariant monitors == ms && totalCreated == old(totalCreated) && totalDestroyed == old(totalDestroyed)
        invariant Lines(DEBUGFS, text, ss[..j], pid, num) == Lines(DEBUGFS, before, ss, pid, first)
      {
        j := j - 1;
        LinesStep(DEBUGFS, text, ss, j, pid, num);
        text, num := DebugfsSample(i, j, pid, text, num);
      }
    }

    /** What debugfs_task_monitor_show does to one monitor. */
    method DebugfsMonitor(i: nat, before: string, first: nat) returns (text: string, num: nat)
      requires i < |monitors| && monitors[i].refcount == 1 && QuietSamples(monitors[i].samples)
      modifies this
      ensures View() == old(View()) && num == first + |monitors[i].samples|
      ensures text == Lines(DEBUGFS, before, monitors[i].samples, monitors[i].pid, first)
    {
      text, num := before, first;
      ghost var ms := monitors;
      var got := GetMonitor(i);
      if got {
        text, num := DebugfsSamples(i, monitors[i].pid, text, num);
        var gone := PutMonitor(i);
        assert monitors == ms;
      }
    }

    /** One turn of the loop over the monitors. */
    method DebugfsTurn(i: nat, ghost ms: seq<Monitor>, before: string, first: nat) returns (text: string, num: nat)
      requires monitors == ms && i < |ms| && Quiet(ms) && CameTo(DEBUGFS, before, ms, i, first)
      modifies this
      ensures View() == old(View()) && CameTo(DEBUGFS, text, ms, i + 1, num)
    {
      ReportStep(DEBUGFS, before, ms, i, first);
      text, num := DebugfsMonitor(i, before, first);
    }

    /** debugfs_task_monitor_show; a sequence file grows until everything fits. */
    method DebugfsShow() returns (text: string)
      requires Quiet(monitors)
      modifies this
      ensures View() == old(View()) && text == Report(DEBUGFS, "", monitors, 0)
      ensures Shows(text, monitors, ["pid:", " num:", " : usr ", " sys "])
    {
      text := DebugfsAll();
      DebugfsReads(monitors);
    }

    /** Its two loops. */
    method DebugfsAll() returns (text: string)
      requires Quiet(monitors)
      modifies this
      ensures View() == old(View()) && text == Report(DEBUGFS, "", monitors, 0)
    {
      text := "";
      ghost var st := View();
      var num, i := 0, 0;
      ReportBegins(DEBUGFS, st.monitors);
      while i < |monitors|
        invariant 0 <= i <= |monitors| && View() == st
        invariant CameTo(DEBUGFS, text, st.monitors, i, num)
      {
        text, num := DebugfsTurn(i, st.monitors, text, num);
        i := i + 1;
      }
      ReportEnds(DEBUGFS, text, st.monitors, num);
    }

    /** tm_allocator; `found` says whether there is a process with that pid. */
    method TmAllocator(pid: nat, found: bool) returns (err: int)
      modifies this
      ensures err == if found then 0 else 1
      ensures View() == old(Allocated(View(), pid, found))
      ensures monitors == old(monitors) + if found then [Monitor(1, [], pid, 0)] else []
    {
      if !found {
        return 1;
      }
      monitors := monitors + [Monitor(1, [], pid, 0)];
      return 0;
    }

    /** The deletion loop of monitor_exit: the monitors in reverse, the samples of each in order. */
    method MonitorExit()
      requires Held(monitors) && Harmless(monitors, ownerKnown)
      modifies this
      ensures monitors == old(Unloaded(monitors, ownerKnown)) && totalCreated == old(totalCreated)
      ensures totalDestroyed == old(totalDestroyed + TotalReleased(monitors))
    {
      ghost var ms := monitors;
      var i := |monitors|;
      assert ms[i..] == [] && ms[..i] == ms;
      while i > 0
        invariant 0 <= i <= |ms| && monitors == ms[..i] + Unloaded(ms[i..], ownerKnown)
        invariant totalDestroyed + TotalReleased(ms[..i]) == old(totalDestroyed + TotalReleased(monitors))
        invariant totalCreated == old(totalCreated)
      {
        i := i - 1;
        UnloadsOneMore(ms, i, ownerKnown);
        UnloadHarmless(ms, i + 1, ownerKnown);
        var gone := ExitOne(i);
      }
    }

    // ---------- any run ----------

    method Execute(step: Step)
      requires Quiet(monitors) && Allowed(View(), step, ownerKnown)
      modifies this
      ensures View() == old(Apply(View(), step, ownerKnown))
    {
      match step
      case Round(rs) => MonitorRound(rs);
      case Count =>
        var n := ShrinkCount();
      case Scan(fs) =>
        var n := ShrinkScan(fs);
      case ReadSysfs =>
        var text, stuck := SysfsShow();
      case ReadDebugfs =>
        var text := DebugfsShow();
      case Allocate(pid, found) =>
        var err := TmAllocator(pid, found);
    }

    method RunAll(steps: seq<Step>)
      requires Sound(View(), ownerKnown) && RunAllowed(View(), steps, ownerKnown)
      modifies this
      ensures View() == old(Run(View(), steps, ownerKnown)) && Sound(View(), ownerKnown)
    {
      ghost var st := View();
      var i := 0;
      assert steps[i..] == steps;
      while i < |steps|
        invariant 0 <= i <= |steps| && View() == st && Sound(st, ownerKnown)
        invariant RunAllowed(st, steps[i..], ownerKnown)
        invariant Run(st, steps[i..], ownerKnown) == old(Run(View(), steps, ownerKnown))
      {
        RunStep(st, steps, i, ownerKnown);
        StepKeeps(st, steps[i], ownerKnown);
        st := Apply(st, steps[i], ownerKnown);
        Execute(steps[i]);
        i := i + 1;
      }
    }

    /** Unloading in a quiet state. */
    method Unload(ghost st: State)
      requires View() == st && Sound(st, ownerKnown) && Harmless(st.monitors, ownerKnown)
      modifies this
      ensures monitors == [] && totalDestroyed == totalCreated == st.created
    {
      QuietUnloads(st.monitors, ownerKnown);
      QuietReleases(st.monitors);
      MonitorExit();
    }

    /** Loading, any run of the entry points, and unloading: everything that was created is destroyed. */
    method LoadRunUnload(steps: seq<Step>)
      requires View() == NOTHING && RunAllowed(NOTHING, steps, ownerKnown)
      requires Harmless(Run(NOTHING, steps, ownerKnown).monitors, ownerKnown)
      modifies this
      ensures monitors == [] && totalDestroyed == totalCreated
      ensures totalCreated == Run(NOTHING, steps, ownerKnown).created
    {
      ghost var st := Run(NOTHING, steps, ownerKnown);
      RunAll(steps);
      Unload(st);
    }
  }

  /** A monitor after a kref_put on each of its first `n` samples. */
  function PartlyDropped(m: Monitor, n: nat, ownerKnown: bool): Monitor
    requires n <= |m.samples|
  {
    m.(samples := Lowered(m.samples[..n]) + m.samples[n..],
       nbSamples := m.nbSamples - if ownerKnown then Released(m.samples[..n]) else 0)
  }

  function DroppedUpTo(ms: seq<Monitor>, i: nat, n: nat, ownerKnown: bool): (r: seq<Monitor>)
    requires i < |ms| && n <= |ms[i].samples|
    ensures |r| == |ms| && |r[i].samples| == |Lowered(ms[i].samples[..n])| + |ms[i].samples| - n
  {
    ms[i := PartlyDropped(ms[i], n, ownerKnown)]
  }

  lemma PartlyEnds(ms: seq<Monitor>, i: nat, ownerKnown: bool)
    requires i < |ms|
    ensures DroppedUpTo(ms, i, 0, ownerKnown) == ms && Lowered(ms[i].samples[..0]) == []
    ensures Released(ms[i].samples[..0]) == 0
    ensures var n := |ms[i].samples|;
      && ms[i].samples[..n] == ms[i].samples
      && DroppedUpTo(ms, i, n, ownerKnown) == ms[i := Dropped(ms[i], ownerKnown)]
  {
    PartlyNone(ms[i], ownerKnown);
    PartlyAll(ms[i], ownerKnown);
    assert ms[i := ms[i]] == ms;
  }

  lemma PartlyNone(m: Monitor, ownerKnown: bool)
    ensures PartlyDropped(m, 0, ownerKnown) == m && Lowered(m.samples[..0]) == [] && Released(m.samples[..0]) == 0
  {
    assert m.samples[..0] == [] && [] + m.samples[0..] == m.samples;
  }

  lemma PartlyAll(m: Monitor, ownerKnown: bool)
    ensures m.samples[..|m.samples|] == m.samples
    ensures PartlyDropped(m, |m.samples|, ownerKnown) == Dropped(m, ownerKnown)
  {
    var ss := m.samples;
    assert Lowered(ss) + ss[|ss|..] == Lowered(ss);
  }

  lemma DropsOneMore(ms: seq<Monitor>, i: nat, n: nat, ownerKnown: bool)
    requires i < |ms| && n < |ms[i].samples| && ms[i].samples[n].refcount > 0
    ensures var now, next := DroppedUpTo(ms, i, n, ownerKnown), DroppedUpTo(ms, i, n + 1, ownerKnown);
      var j, s := |Lowered(ms[i].samples[..n])|, ms[i].samples[n];
      && j < |now[i].samples| && now[i].samples[j] == s
      && next == (if s.refcount == 1 then WithoutSample(now, i, j, ownerKnown)
                  else WithCount(now, i, j, s.refcount - 1))
      && |Lowered(ms[i].samples[..n + 1])| == j + (if s.refcount == 1 then 0 else 1)
      && Released(ms[i].samples[..n + 1]) == Released(ms[i].samples[..n]) + (if s.refcount == 1 then 1 else 0)
  {
    var ss := ms[i].samples;
    var low, s, rest := Lowered(ss[..n]), ss[n], ss[n + 1..];
    assert ss[..n + 1][..n] == ss[..n] && ss[n..] == [s] + rest;
    OneOfMany(low, s, rest);
  }

  lemma OneOfMany(low: seq<Sample>, s: Sample, rest: seq<Sample>)
    ensures var all, j := low + ([s] + rest), |low|;
      && all[j] == s && all[..j] + all[j + 1..] == low + [] + rest
      && forall t: Sample :: all[j := t] == low + [t] + rest
  {
  }

  /** Halfway through the scan, the monitor whose turn it is has not been touched. */
  lemma DroppedSoFar(ms: seq<Monitor>, i: nat, ownerKnown: bool)
    requires i < |ms|
    ensures var now := AllDropped(ms[..i], ownerKnown) + ms[i..]; |now| == |ms| && now[i] == ms[i]
    ensures TotalSamples(ms[..i + 1]) == TotalSamples(ms[..i]) + |ms[i].samples|
    ensures TotalReleased(ms[..i + 1]) == TotalReleased(ms[..i]) + Released(ms[i].samples)
  {
    assert ms[..i + 1][..i] == ms[..i];
  }

  lemma DroppedOneMore(ms: seq<Monitor>, i: nat, ownerKnown: bool)
    requires i < |ms|
    ensures (AllDropped(ms[..i], ownerKnown) + ms[i..])[i := Dropped(ms[i], ownerKnown)]
      == AllDropped(ms[..i + 1], ownerKnown) + ms[i + 1..]
  {
    var a, b := AllDropped(ms[..i], ownerKnown), AllDropped(ms[..i + 1], ownerKnown);
    assert b == a + [Dropped(ms[i], ownerKnown)];
  }

  /** One more monitor, from the back: its samples are dropped and then itself. */
  lemma UnloadsOneMore(ms: seq<Monitor>, i: nat, ownerKnown: bool)
    requires i < |ms|
    ensures var now := ms[..i + 1] + Unloaded(ms[i + 1..], ownerKnown);
      && i < |now| && now[i] == ms[i] && now[..i] == ms[..i] && now[i + 1..] == Unloaded(ms[i + 1..], ownerKnown)
    ensures ms[..i] + Exited(ms[i], ownerKnown) + Unloaded(ms[i + 1..], ownerKnown)
      == ms[..i] + Unloaded(ms[i..], ownerKnown)
    ensures TotalReleased(ms[..i + 1]) == TotalReleased(ms[..i]) + Released(ms[i].samples)
  {
    assert ms[..i + 1][..i] == ms[..i] && ms[i..][1..] == ms[i + 1..];
  }

  lemma SampledSoFar(ms: seq<Monitor>, rs: seq<Reading>, i: nat)
    requires i < |ms| == |rs|
    ensures var now := AllSampled(ms[..i], rs[..i]) + ms[i..]; |now| == |ms| && now[i] == ms[i]
    ensures Rooms(rs[..i + 1]) == Rooms(rs[..i]) + if rs[i].room then 1 else 0
  {
    assert rs[..i + 1][..i] == rs[..i];
  }

  lemma SampledOneMore(ms: seq<Monitor>, rs: seq<Reading>, i: nat)
    requires i < |ms| == |rs|
    ensures (AllSampled(ms[..i], rs[..i]) + ms[i..])[i := Sampled(ms[i], rs[i])]
      == AllSampled(ms[..i + 1], rs[..i + 1]) + ms[i + 1..]
  {
    var a, b := AllSampled(ms[..i], rs[..i]), AllSampled(ms[..i + 1], rs[..i + 1]);
    assert b == a + [Sampled(ms[i], rs[i])];
  }

  function Scanned(st: State, ownerKnown: bool): State {
    st.(monitors := AllDropped(st.monitors, ownerKnown), destroyed := st.destroyed + TotalReleased(st.monitors))
  }

  function RoundDone(st: State, rs: seq<Reading>): State
    requires |rs| == |st.monitors|
  {
    st.(monitors := AllSampled(st.monitors, rs), created := st.created + Rooms(rs))
  }

  function Allocated(st: State, pid: nat, found: bool): State {
    if found then st.(monitors := st.monitors + [Monitor(1, [], pid, 0)]) else st
  }

  /** The list with the count of sample `j` of monitor `i` changed. */
  function WithCount(ms: seq<Monitor>, i: nat, j: nat, count: nat): seq<Monitor>
    requires i < |ms| && j < |ms[i].samples|
  {
    ms[i := ms[i].(samples := ms[i].samples[j := ms[i].samples[j].(refcount := count)])]
  }

  /** Taking a sample and putting it back. */
  lemma CountBack(ms: seq<Monitor>, i: nat, j: nat)
    requires i < |ms| && j < |ms[i].samples| && ms[i].samples[j].refcount == 1
    ensures WithCount(WithCount(ms, i, j, 2), i, j, 1) == ms
  {
    var ss := ms[i].samples;
    assert ss[j := ss[j].(refcount := 2)][j := ss[j]] == ss;
  }

  /** The list with sample `j` of monitor `i` unlinked. */
  function WithoutSample(ms: seq<Monitor>, i: nat, j: nat, ownerKnown: bool): seq<Monitor>
    requires i < |ms| && j < |ms[i].samples|
  {
    var m := ms[i];
    ms[i := m.(samples := m.samples[..j] + m.samples[j + 1..],
               nbSamples := m.nbSamples - if ownerKnown then 1 else 0)]
  }

  // ---------- whole runs ----------

  datatype Step =
    | Round(readings: seq<Reading>)
    | Count
    | Scan(fs: bool)
    | ReadSysfs
    | ReadDebugfs
    | Allocate(pid: nat, found: bool)

  /** As written, a scan is only looked at where its releases do not write into a sample. */
  ghost predicate Allowed(st: State, step: Step, ownerKnown: bool) {
    && (step.Round? ==> |step.readings| == |st.monitors|)
    && (step.Scan? && step.fs ==> Harmless(st.monitors, ownerKnown))
  }

  ghost function Apply(st: State, step: Step, ownerKnown: bool): State
    requires Allowed(st, step, ownerKnown)
  {
    match step
    case Round(rs) => RoundDone(st, rs)
    case Scan(fs) => if fs then Scanned(st, ownerKnown) else st
    case Allocate(pid, found) => Allocated(st, pid, found)
    case _ => st
  }

  ghost predicate RunAllowed(st: State, steps: seq<Step>, ownerKnown: bool)
    decreases |steps|
  {
    steps == [] || (Allowed(st, steps[0], ownerKnown) &&
      RunAllowed(Apply(st, steps[0], ownerKnown), steps[1..], ownerKnown))
  }

  ghost function Run(st: State, steps: seq<Step>, ownerKnown: bool): State
    requires RunAllowed(st, steps, ownerKnown)
    decreases |steps|
  {
    if steps == [] then st else Run(Apply(st, steps[0], ownerKnown), steps[1..], ownerKnown)
  }

  lemma RunStep(st: State, steps: seq<Step>, i: nat, ownerKnown: bool)
    requires i < |steps| && RunAllowed(st, steps[i..], ownerKnown)
    ensures Allowed(st, steps[i], ownerKnown)
    ensures RunAllowed(Apply(st, steps[i], ownerKnown), steps[i + 1..], ownerKnown)
    ensures Run(st, steps[i..], ownerKnown) == Run(Apply(st, steps[i], ownerKnown), steps[i + 1..], ownerKnown)
  {
    assert steps[i..][0] == steps[i] && steps[i..][1..] == steps[i + 1..];
  }

  /** A monitor's count is the length of its list. */
  ghost predicate Counted(ms: seq<Monitor>) {
    forall i | 0 <= i < |ms| :: ms[i].nbSamples == |ms[i].samples|
  }

  /**
     What holds between any two steps. The totals differ by what is still linked. The counts are right if the
     release finds the owner, and otherwise they count everything ever created.
   */
  ghost predicate Sound(st: State, ownerKnown: bool) {
    && Quiet(st.monitors)
    && st.created - st.destroyed == TotalSamples(st.monitors)
    && (if ownerKnown then Counted(st.monitors) else TotalCounted(st.monitors) == st.created)
  }

  lemma {:induction false} DroppedTotals(ms: seq<Monitor>, ownerKnown: bool)
    requires Quiet(ms)
    ensures TotalSamples(AllDropped(ms, ownerKnown)) == 0 && TotalReleased(ms) == TotalSamples(ms)
    ensures !ownerKnown ==> TotalCounted(AllDropped(ms, ownerKnown)) == TotalCounted(ms)
  {
    if ms != [] {
      var n := |ms| - 1;
      DroppedTotals(ms[..n], ownerKnown);
      QuietDrops(ms[n].samples);
      assert AllDropped(ms, ownerKnown)[..n] == AllDropped(ms[..n], ownerKnown);
    }
  }

  lemma SampledTotals(ms: seq<Monitor>, rs: seq<Reading>)
    requires |rs| == |ms|
    ensures TotalSamples(AllSampled(ms, rs)) == TotalSamples(ms) + Rooms(rs)
    ensures TotalCounted(AllSampled(ms, rs)) == TotalCounted(ms) + Rooms(rs)
  {
    if ms != [] {
      var n := |ms| - 1;
      SampledTotals(ms[..n], rs[..n]);
      assert AllSampled(ms, rs)[..n] == AllSampled(ms[..n], rs[..n]);
    }
  }

  lemma {:induction false} CountedTotals(ms: seq<Monitor>)
    requires Counted(ms)
    ensures TotalCounted(ms) == TotalSamples(ms)
  {
    if ms != [] {
      CountedTotals(ms[..|ms| - 1]);
    }
  }

  lemma RoundKeeps(st: State, rs: seq<Reading>, ownerKnown: bool)
    requires Sound(st, ownerKnown) && |rs| == |st.monitors|
    ensures Sound(RoundDone(st, rs), ownerKnown)
  {
    SampledTotals(st.monitors, rs);
    var ms := AllSampled(st.monitors, rs);
    forall i | 0 <= i < |ms| ensures ms[i].refcount == 1 && QuietSamples(ms[i].samples) {
      assert ms[i] == Sampled(st.monitors[i], rs[i]);
    }
  }

  lemma ScanKeeps(st: State, ownerKnown: bool)
    requires Sound(st, ownerKnown)
    ensures Sound(Scanned(st, ownerKnown), ownerKnown)
  {
    var ms := AllDropped(st.monitors, ownerKnown);
    DroppedTotals(st.monitors, ownerKnown);
    forall i | 0 <= i < |ms|
      ensures ms[i].refcount == 1 && ms[i].samples == [] && (ownerKnown ==> ms[i].nbSamples == 0)
    {
      QuietDrops(st.monitors[i].samples);
      assert ms[i] == Dropped(st.monitors[i], ownerKnown);
    }
  }

  lemma AllocateKeeps(st: State, pid: nat, ownerKnown: bool)
    requires Sound(st, ownerKnown)
    ensures Sound(Allocated(st, pid, true), ownerKnown)
  {
    var ms := st.monitors;
    assert (ms + [Monitor(1, [], pid, 0)])[..|ms|] == ms;
  }

  lemma StepKeeps(st: State, step: Step, ownerKnown: bool)
    requires Sound(st, ownerKnown) && Allowed(st, step, ownerKnown)
    ensures Sound(Apply(st, step, ownerKnown), ownerKnown)
  {
    match step
    case Round(rs) => RoundKeeps(st, rs, ownerKnown);
    case Scan(fs) => ScanKeeps(st, ownerKnown);
    case Allocate(pid, found) => AllocateKeeps(st, pid, ownerKnown);
    case _ =>
  }

  lemma {:induction false} RunKeeps(st: State, steps: seq<Step>, ownerKnown: bool)
    requires Sound(st, ownerKnown) && RunAllowed(st, steps, ownerKnown)
    ensures Sound(Run(st, steps, ownerKnown), ownerKnown)
    decreases |steps|
  {
    if steps != [] {
      StepKeeps(st, steps[0], ownerKnown);
      RunKeeps(Apply(st, steps[0], ownerKnown), steps[1..], ownerKnown);
    }
  }

  /**
     After any run, what the shrinker counts is what its scan then drops, always if the release finds the
     owner. Where it does not, and writes into no sample, exactly as long as nothing was ever released.
   */
  lemma CountPredictsScan(steps: seq<Step>, ownerKnown: bool)
    requires RunAllowed(NOTHING, steps, ownerKnown)
    ensures var st := Run(NOTHING, steps, ownerKnown);
      TotalCounted(st.monitors) == TotalSamples(st.monitors) <==> ownerKnown || st.destroyed == 0
  {
    RunKeeps(NOTHING, steps, ownerKnown);
    CountIfNoneReleased(Run(NOTHING, steps, ownerKnown), ownerKnown);
  }

  lemma CountIfNoneReleased(st: State, ownerKnown: bool)
    requires Sound(st, ownerKnown)
    ensures TotalCounted(st.monitors) == TotalSamples(st.monitors) <==> ownerKnown || st.destroyed == 0
  {
    if ownerKnown {
      CountedTotals(st.monitors);
    }
  }

  lemma RunThree(st: State, a: Step, b: Step, c: Step, known: bool)
    requires Allowed(st, a, known) && Allowed(Apply(st, a, known), b, known)
    requires Allowed(Apply(Apply(st, a, known), b, known), c, known)
    ensures RunAllowed(st, [a, b, c], known)
    ensures Run(st, [a, b, c], known) == Apply(Apply(Apply(st, a, known), b, known), c, known)
  {
    assert [a, b, c][1..] == [b, c] && [b, c][1..] == [c] && [c][1..] == [];
    assert RunAllowed(Apply(Apply(st, a, known), b, known), [c], known);
    assert RunAllowed(Apply(st, a, known), [b, c], known);
    var st3 := Apply(Apply(Apply(st, a, known), b, known), c, known);
    assert Run(st3, [], known) == st3;
    assert Run(Apply(Apply(st, a, known), b, known), [c], known) == st3;
    assert Run(Apply(st, a, known), [b, c], known) == st3;
  }

  /** One sample alone is not written into by its own release. */
  lemma OneAlone(m: Monitor, s: Sample)
    requires m.samples == [s]
    ensures Harmless([m], false)
  {
    OneMonitor(m);
    assert [s][..0] == [] && Addresses([s]) == {s.addr};
  }

  /** The module with one monitor and one sample. */
  function OneSample(pid: nat, addr: nat, utime: nat, stime: nat): State {
    State([Monitor(1, [Sample(addr, 1, utime, stime)], pid, 1)], 1, 0)
  }

  lemma TakeOne(pid: nat, r: Reading)
    requires r.room
    ensures Apply(NOTHING, Allocate(pid, true), false) == State([Monitor(1, [], pid, 0)], 0, 0)
    ensures Apply(State([Monitor(1, [], pid, 0)], 0, 0), Round([r]), false)
      == OneSample(pid, r.addr, r.utime, r.stime)
  {
    var d := Monitor(1, [], pid, 0);
    assert [r][..0] == [] && Rooms([]) == 0 && Rooms([r]) == 1;
    assert AllSampled([d], [r])[0] == Sampled(d, r);
    assert AllSampled([d], [r]) == [Sampled(d, r)];
    assert [] + [Sample(r.addr, 1, r.utime, r.stime)] == [Sample(r.addr, 1, r.utime, r.stime)];
    assert [] + [d] == [d];
  }

  lemma ReleaseOne(pid: nat, addr: nat, utime: nat, stime: nat)
    ensures var st := OneSample(pid, addr, utime, stime);
      && Allowed(st, Scan(true), false)
      && var after := Apply(st, Scan(true), false);
         TotalSamples(after.monitors) == 0 && TotalCounted(after.monitors) == 1
  {
    var st := OneSample(pid, addr, utime, stime);
    var m := st.monitors[0];
    OneAlone(m, m.samples[0]);
    DroppedTotals(st.monitors, false);
    assert st.monitors[..0] == [] && TotalCounted(st.monitors) == 1;
  }

  /** As written: after one sample is taken and released, the shrinker still counts it. */
  lemma CountGoesWrong(pid: nat, r: Reading)
    requires r.room
    ensures var steps := [Allocate(pid, true), Round([r]), Scan(true)];
      && RunAllowed(NOTHING, steps, false)
      && var st := Run(NOTHING, steps, false);
         TotalSamples(st.monitors) == 0 && TotalCounted(st.monitors) == 1
  {
    TakeOne(pid, r);
    ReleaseOne(pid, r.addr, r.utime, r.stime);
    RunThree(NOTHING, Allocate(pid, true), Round([r]), Scan(true), false);
  }
}
