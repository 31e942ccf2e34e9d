/**
 Statistics of offloaded RED and GRED qdiscs (src/abm/qdisc.c, src/abm/ctrl.c). tc is told deltas, so
 what it has been told about the backlog has to be taken back when an offload stops.
 */
module AbmStats {
  /** struct nfp_alink_stats */
  datatype Stats = Stats(txPkts: int, txBytes: int, backlogPkts: int, backlogBytes: int, overlimits: int, drops: int)

  const ZERO := Stats(0, 0, 0, 0, 0, 0)

  function Plus(a: Stats, b: Stats): Stats {
    Stats(a.txPkts + b.txPkts, a.txBytes + b.txBytes, a.backlogPkts + b.backlogPkts,
          a.backlogBytes + b.backlogBytes, a.overlimits + b.overlimits, a.drops + b.drops)
  }

  function Minus(a: Stats, b: Stats): Stats {
    Stats(a.txPkts - b.txPkts, a.txBytes - b.txBytes, a.backlogPkts - b.backlogPkts,
          a.backlogBytes - b.backlogBytes, a.overlimits - b.overlimits, a.drops - b.drops)
  }

  predicate SameBacklog(a: Stats, b: Stats) { a.backlogPkts == b.backlogPkts && a.backlogBytes == b.backlogBytes }

  /** Reading the six counters of a queue, of which the first `good` succeed; `xgood` says whether the
      extended counters can be read too. */
  datatype Reading = Reading(values: Stats, good: nat, xgood: bool)

  predicate Complete(r: Reading) { r.good >= 6 }

  /** nfp_abm_ctrl_read_q_stats() overwrites the counters one by one until a read fails. */
  function ReadInto(s: Stats, r: Reading): Stats {
    Stats(if r.good > 0 then r.values.txPkts else s.txPkts,
          if r.good > 1 then r.values.txBytes else s.txBytes,
          if r.good > 3 then r.values.backlogPkts else s.backlogPkts,
          if r.good > 2 then r.values.backlogBytes else s.backlogBytes,
          if r.good > 5 then r.values.overlimits else s.overlimits,
          if r.good > 4 then r.values.drops else s.drops)
  }

  /** One band of a qdisc: the current counters, those last reported, and what tc has been told in all. */
  datatype Band = Band(stats: Stats, prev: Stats, told: Stats)

  // ---- the operations on one band ----

  predicate InitOk(r: Reading) { Complete(r) && r.xgood }

  /** __nfp_abm_stats_init(): a successful start keeps the reported backlog, a failing one returns early. */
  function Init(b: Band, r: Reading): Band {
    var read := ReadInto(b.prev, r);
    b.(prev := if InitOk(r)
               then read.(backlogPkts := b.prev.backlogPkts, backlogBytes := b.prev.backlogBytes) else read)
  }

  function Update(b: Band, r: Reading): Band { b.(stats := ReadInto(b.stats, r)) }

  function Stop(b: Band): Band { b.(stats := b.stats.(backlogPkts := 0, backlogBytes := 0)) }

  /** nfp_abm_stats_calculate() and remembering what has been reported. */
  function Report(b: Band): Band { b.(told := Plus(b.told, Minus(b.stats, b.prev)), prev := b.stats) }

  // ---- a qdisc ----

  datatype Qdisc = Qdisc(bands: seq<Band>, offloaded: bool)

  datatype Event =
    | Start(rds: seq<Reading>)
    | Refresh(rds: seq<Reading>)
    | Halt
    | Ask(bands: seq<bool>)

  /** Bands i and up of a start; the first failing band ends it. */
  function Started(bands: seq<Band>, rds: seq<Reading>, i: nat): (r: (seq<Band>, bool))
    requires i <= |bands| == |rds|
    ensures |r.0| == |bands|
    decreases |bands| - i
  {
    if i == |bands| then (bands, true)
    else if !InitOk(rds[i]) then (bands[i := Init(bands[i], rds[i])], false)
    else Started(bands[i := Init(bands[i], rds[i])], rds, i + 1)
  }

  function Refreshed(bands: seq<Band>, rds: seq<Reading>): (r: seq<Band>)
    requires |bands| == |rds|
    ensures |r| == |bands|
  {
    seq(|bands|, i requires 0 <= i < |bands| => Update(bands[i], rds[i]))
  }

  function Stopped(bands: seq<Band>): (r: seq<Band>)
    ensures |r| == |bands|
  {
    seq(|bands|, i requires 0 <= i < |bands| => Stop(bands[i]))
  }

  function Asked(bands: seq<Band>, which: seq<bool>): (r: seq<Band>)
    requires |bands| == |which|
    ensures |r| == |bands|
  {
    seq(|bands|, i requires 0 <= i < |bands| => if which[i] then Report(bands[i]) else bands[i])
  }

  predicate Enabled(q: Qdisc, e: Event) {
    match e
    case Start(rds) => !q.offloaded && |rds| == |q.bands|
    case Refresh(rds) => |rds| == |q.bands|
    case Halt => q.offloaded
    case Ask(which) => |which| == |q.bands|
  }

  function Step(q: Qdisc, e: Event): (r: Qdisc)
    requires Enabled(q, e)
    ensures |r.bands| == |q.bands|
  {
    match e
    case Start(rds) => var (bands, ok) := Started(q.bands, rds, 0); Qdisc(bands, ok)
    case Refresh(rds) => if q.offloaded then q.(bands := Refreshed(q.bands, rds)) else q
    case Halt => Qdisc(Stopped(q.bands), false)
    case Ask(which) => q.(bands := Asked(q.bands, which))
  }

  // ---- conservation ----

  /** tc has been told exactly the backlog that was last reported. */
  predicate Settled(b: Band) { SameBacklog(b.told, b.prev) }

  /** Without offload there is no backlog. */
  predicate Inv(q: Qdisc) {
    (forall i :: 0 <= i < |q.bands| ==> Settled(q.bands[i]))
    && (!q.offloaded ==> forall i :: 0 <= i < |q.bands| ==> SameBacklog(q.bands[i].stats, ZERO))
  }

  /** A start leaves the reported backlog of a band alone. */
  predicate Harmless(b: Band, r: Reading) {
    InitOk(r) || ((r.good > 2 ==> r.values.backlogBytes == b.prev.backlogBytes)
                  && (r.good > 3 ==> r.values.backlogPkts == b.prev.backlogPkts))
  }

  /** The exact condition for one band. */
  lemma InitSettledExactly(b: Band, r: Reading)
    requires Settled(b)
    ensures Settled(Init(b, r)) <==> Harmless(b, r)
  {
  }

  predicate Reached(rds: seq<Reading>, i: nat)
    requires i <= |rds|
  {
    forall j :: 0 <= j < i ==> InitOk(rds[j])
  }

  /** Every band that a start gets to is left alone. */
  predicate HarmlessStart(q: Qdisc, rds: seq<Reading>)
    requires |rds| == |q.bands|
  {
    forall i :: 0 <= i < |rds| && Reached(rds, i) ==> Harmless(q.bands[i], rds[i])
  }

  lemma {:induction false} StartedBands(bands: seq<Band>, rds: seq<Reading>, i: nat)
    requires i <= |bands| == |rds| && Reached(rds, i)
    ensures var r := Started(bands, rds, i);
            (r.1 <==> Reached(rds, |rds|))
            && forall j :: 0 <= j < |bands| ==>
                 r.0[j] == if i <= j && Reached(rds, j) then Init(bands[j], rds[j]) else bands[j]
    decreases |bands| - i
  {
    if i == |bands| {
    } else if !InitOk(rds[i]) {
      assert forall j :: i < j <= |rds| ==> !Reached(rds, j);
    } else {
      assert Reached(rds, i + 1);
      StartedBands(bands[i := Init(bands[i], rds[i])], rds, i + 1);
    }
  }

  /** What has been reported about the backlog survives a start if and only if every band the start gets
      to is left alone. */
  lemma StartKeepsExactly(q: Qdisc, rds: seq<Reading>)
    requires Inv(q) && Enabled(q, Start(rds))
    ensures Inv(Step(q, Start(rds))) <==> HarmlessStart(q, rds)
  {
    StartedBands(q.bands, rds, 0);
    var r := Step(q, Start(rds));
    forall j | 0 <= j < |q.bands|
      ensures Settled(r.bands[j]) <==> (Reached(rds, j) ==> Harmless(q.bands[j], rds[j]))
    {
      InitSettledExactly(q.bands[j], rds[j]);
    }
  }

  predicate Faithful(q: Qdisc, e: Event)
    requires Enabled(q, e)
  {
    e.Start? ==> HarmlessStart(q, e.rds)
  }

  lemma StepKeeps(q: Qdisc, e: Event)
    requires Inv(q) && Enabled(q, e) && Faithful(q, e)
    ensures Inv(Step(q, e))
  {
    if e.Start? { StartKeepsExactly(q, e.rds); }
  }

  /** Runs in which no start loses the reported backlog. */
  predicate Legal(q: Qdisc, run: seq<Event>)
    decreases |run|
  {
    run == [] || (Enabled(q, run[0]) && Faithful(q, run[0]) && Legal(Step(q, run[0]), run[1..]))
  }

  function Exec(q: Qdisc, run: seq<Event>): (r: Qdisc)
    requires Legal(q, run)
    ensures |r.bands| == |q.bands|
    decreases |run|
  {
    if run == [] then q else Exec(Step(q, run[0]), run[1..])
  }

  function New(bands: nat): Qdisc { Qdisc(seq(bands, _ => Band(ZERO, ZERO, ZERO)), false) }

  lemma {:induction false} ExecInv(q: Qdisc, run: seq<Event>)
    requires Inv(q) && Legal(q, run)
    ensures Inv(Exec(q, run))
    decreases |run|
  {
    if run != [] {
      StepKeeps(q, run[0]);
      ExecInv(Step(q, run[0]), run[1..]);
    }
  }

  /** After any run, all the backlog deltas tc has been told about a band sum up to the backlog last
      reported. */
  lemma BacklogConserved(n: nat, run: seq<Event>, i: nat)
    requires Legal(New(n), run) && i < n
    ensures SameBacklog(Exec(New(n), run).bands[i].told, Exec(New(n), run).bands[i].prev)
  {
    ExecInv(New(n), run);
  }

  /** After any run that has stopped the offload, the next statistics call returns the reported backlog of
      every band it asks about to zero. */
  lemma BacklogReturned(n: nat, run: seq<Event>, which: seq<bool>, i: nat)
    requires Legal(New(n), run) && i < n == |which| && which[i]
    requires !Exec(New(n), run).offloaded
    ensures SameBacklog(Step(Exec(New(n), run), Ask(which)).bands[i].told, ZERO)
  {
    ExecInv(New(n), run);
  }

  /** How far apart what tc was told about the backlog and what was last reported are. */
  function Gap(b: Band): (int, int) {
    (b.told.backlogPkts - b.prev.backlogPkts, b.told.backlogBytes - b.prev.backlogBytes)
  }

  lemma StepKeepsGap(q: Qdisc, e: Event, i: nat)
    requires Enabled(q, e) && Faithful(q, e) && i < |q.bands|
    ensures Gap(Step(q, e).bands[i]) == Gap(q.bands[i])
  {
    if e.Start? { StartedBands(q.bands, e.rds, 0); }
  }

  /** No step but a start that is not harmless changes the gap, so nothing else makes it or closes it. */
  lemma {:induction false} GapStays(q: Qdisc, run: seq<Event>, i: nat)
    requires Legal(q, run) && i < |q.bands|
    ensures Gap(Exec(q, run).bands[i]) == Gap(q.bands[i])
    decreases |run|
  {
    if run != [] {
      StepKeepsGap(q, run[0], i);
      GapStays(Step(q, run[0]), run[1..], i);
    }
  }

  /** Reading five packets of backlog and then failing. */
  function LateFailure(): Reading { Reading(ZERO.(backlogPkts := 5, backlogBytes := 500), 4, true) }

  /** A start that fails late makes tc and the driver disagree, and whatever follows, short of another
      such start, they never agree again. */
  lemma LateFailureLosesBacklog(run: seq<Event>)
    requires Enabled(New(1), Start([LateFailure()])) && Legal(Step(New(1), Start([LateFailure()])), run)
    ensures Gap(Exec(Step(New(1), Start([LateFailure()])), run).bands[0]) == (-5, -500)
    ensures !Inv(Exec(Step(New(1), Start([LateFailure()])), run))
  {
    var q := New(1);
    StartedBands(q.bands, [LateFailure()], 0);
    assert Reached([LateFailure()], 0);
    GapStays(Step(q, Start([LateFailure()])), run, 0);
  }

  /** A statistics call tells tc, for each band it asks about, what the counters moved since they were last
      reported, and leaves all other bands alone. */
  lemma AskExactly(q: Qdisc, which: seq<bool>, i: nat)
    requires Enabled(q, Ask(which)) && i < |q.bands|
    ensures var b, t := q.bands[i], Step(q, Ask(which)).bands[i];
            if !which[i] then t == b
            else t.stats == b.stats && t.prev == b.stats
                 && t.told.txPkts == b.told.txPkts + b.stats.txPkts - b.prev.txPkts
                 && t.told.txBytes == b.told.txBytes + b.stats.txBytes - b.prev.txBytes
                 && t.told.backlogPkts == b.told.backlogPkts + b.stats.backlogPkts - b.prev.backlogPkts
                 && t.told.backlogBytes == b.told.backlogBytes + b.stats.backlogBytes - b.prev.backlogBytes
                 && t.told.overlimits == b.told.overlimits + b.stats.overlimits - b.prev.overlimits
                 && t.told.drops == b.told.drops + b.stats.drops - b.prev.drops
  {
  }

  // ---- all counters telescope ----

  /** Outside of starts nothing is reported twice and nothing is lost: for every counter, what tc has been
      told and what was last reported stay equally far apart. */
  lemma NothingLostOrDoubled(q: Qdisc, e: Event, i: nat)
    requires Enabled(q, e) && !e.Start? && i < |q.bands|
    ensures var b, t := q.bands[i], Step(q, e).bands[i];
            Minus(t.told, t.prev) == Minus(b.told, b.prev)
  {
  }

  predicate Quiet(run: seq<Event>) { forall i :: 0 <= i < |run| ==> !run[i].Start? }

  lemma {:induction false} ToldSince(q: Qdisc, run: seq<Event>, i: nat)
    requires Legal(q, run) && Quiet(run) && i < |q.bands|
    ensures var b, t := q.bands[i], Exec(q, run).bands[i];
            Minus(t.told, t.prev) == Minus(b.told, b.prev)
    decreases |run|
  {
    if run != [] {
      NothingLostOrDoubled(q, run[0], i);
      ToldSince(Step(q, run[0]), run[1..], i);
    }
  }

  /** After a successful start, whatever refreshes and statistics calls follow, a band that is read and then
      reported has told tc exactly what the device counted since the start. */
  lemma TrafficSinceStart(q: Qdisc, rds: seq<Reading>, run: seq<Event>, last: seq<Reading>, which: seq<bool>, i: nat)
    requires Enabled(q, Start(rds)) && Reached(rds, |rds|) && i < |q.bands| == |last| == |which|
    requires var q1 := Step(q, Start(rds)); Legal(q1, run) && Quiet(run) && Exec(q1, run).offloaded
    requires Complete(last[i]) && which[i]
    ensures var q1 := Exec(Step(q, Start(rds)), run);
            var t := Step(Step(q1, Refresh(last)), Ask(which)).bands[i];
            t.told.txPkts == q.bands[i].told.txPkts + last[i].values.txPkts - rds[i].values.txPkts
            && t.told.txBytes == q.bands[i].told.txBytes + last[i].values.txBytes - rds[i].values.txBytes
            && t.told.overlimits == q.bands[i].told.overlimits + last[i].values.overlimits - rds[i].values.overlimits
            && t.told.drops == q.bands[i].told.drops + last[i].values.drops - rds[i].values.drops
  {
    StartedBands(q.bands, rds, 0);
    var q1 := Step(q, Start(rds));
    assert Reached(rds, i) && InitOk(rds[i]);
    ToldSince(q1, run, i);
    var q2 := Exec(q1, run);
    NothingLostOrDoubled(q2, Refresh(last), i);
    NothingLostOrDoubled(Step(q2, Refresh(last)), Ask(which), i);
  }

  // ---- in place ----

  class RedQdisc {
    var bands: seq<Band>
    var offloaded: bool

    constructor (n: nat)
      ensures State() == New(n)
    {
      bands, offloaded := seq(n, _ => Band(ZERO, ZERO, ZERO)), false;
    }

    ghost function State(): Qdisc
      reads this
    {
      Qdisc(bands, offloaded)
    }

    /** nfp_abm_stats_init() and what offload_update() makes of its result. */
    method StatsInit(rds: seq<Reading>) returns (ok: bool)
      requires Enabled(State(), Start(rds))
      modifies this
      ensures State() == Step(old(State()), Start(rds)) && ok == offloaded
    {
      var i := 0;
      while i < |bands|
        invariant 0 <= i <= |bands| == |rds| && offloaded == old(offloaded)
        invariant Started(bands, rds, i) == Started(old(bands), rds, 0)
      {
        bands := bands[i := Init(bands[i], rds[i])];
        if !InitOk(rds[i]) {
          offloaded := false;
          return false;
        }
        i := i + 1;
      }
      offloaded := true;
      return true;
    }

    /** nfp_abm_stats_update_red() */
    method StatsUpdate(rds: seq<Reading>)
      requires Enabled(State(), Refresh(rds))
      modifies this
      ensures State() == Step(old(State()), Refresh(rds))
    {
      if !offloaded {
        return;
      }
      var i := 0;
      while i < |bands|
        invariant 0 <= i <= |bands| == |rds| && offloaded
        invariant |bands| == |old(bands)|
        invariant forall j :: 0 <= j < |bands| ==>
                    bands[j] == if j < i then Update(old(bands)[j], rds[j]) else old(bands)[j]
      {
        bands := bands[i := Update(bands[i], rds[i])];
        i := i + 1;
      }
    }

    /** nfp_abm_qdisc_offload_stop() */
    method OffloadStop()
      requires offloaded
      modifies this
      ensures State() == Step(old(State()), Halt)
    {
      var i := 0;
      while i < |bands|
        invariant 0 <= i <= |bands| == |old(bands)| && offloaded
        invariant forall j :: 0 <= j < |bands| ==> bands[j] == if j < i then Stop(old(bands)[j]) else old(bands)[j]
      {
        bands := bands[i := Stop(bands[i])];
        i := i + 1;
      }
      offloaded := false;
    }

    /** nfp_abm_gred_stats(), and nfp_abm_red_stats() when there is one band. */
    method GetStats(which: seq<bool>) returns (supported: bool)
      requires Enabled(State(), Ask(which))
      modifies this
      ensures State() == Step(old(State()), Ask(which)) && supported == offloaded
    {
      var i := 0;
      while i < |bands|
        invariant 0 <= i <= |bands| == |old(bands)| == |which| && offloaded == old(offloaded)
        invariant forall j :: 0 <= j < |bands| ==>
                    bands[j] == if j < i && which[j] then Report(old(bands)[j]) else old(bands)[j]
      {
        if which[i] {
          bands := bands[i := Report(bands[i])];
        }
        i := i + 1;
      }
      return offloaded;
    }
  }

  // ---- the statistics of the MQ above ----

  function SumStats(bands: seq<Band>): Stats {
    if bands == [] then ZERO else Plus(SumStats(bands[..|bands| - 1]), bands[|bands| - 1].stats)
  }

  function SumPrev(bands: seq<Band>): Stats {
    if bands == [] then ZERO else Plus(SumPrev(bands[..|bands| - 1]), bands[|bands| - 1].prev)
  }

  function SumTold(bands: seq<Band>): Stats {
    if bands == [] then ZERO else Plus(SumTold(bands[..|bands| - 1]), bands[|bands| - 1].told)
  }

  /** nfp_abm_mq_stats() over the bands of all children: what has not been reported yet. */
  method MqStats(bands: seq<Band>) returns (delta: Stats)
    ensures delta == Minus(SumStats(bands), SumPrev(bands))
  {
    var stats, prev := ZERO, ZERO;
    var i := 0;
    while i < |bands|
      invariant 0 <= i <= |bands| && stats == SumStats(bands[..i]) && prev == SumPrev(bands[..i])
    {
      assert bands[..i + 1][..i] == bands[..i];
      stats, prev := Plus(stats, bands[i].stats), Plus(prev, bands[i].prev);
      i := i + 1;
    }
    assert bands[..i] == bands;
    delta := Minus(stats, prev);
  }

  /** The sum of a number over all bands. */
  function Sum(bands: seq<Band>, of: Band -> int): int {
    if bands == [] then 0 else Sum(bands[..|bands| - 1], of) + of(bands[|bands| - 1])
  }

  /** What the MQ reports is, counter by counter, the sum of what its children have not reported yet. */
  lemma {:induction false} MqReportsTheRest(bands: seq<Band>)
    ensures var d := Minus(SumStats(bands), SumPrev(bands));
            d.txPkts == Sum(bands, (b: Band) => b.stats.txPkts - b.prev.txPkts)
            && d.txBytes == Sum(bands, (b: Band) => b.stats.txBytes - b.prev.txBytes)
            && d.backlogPkts == Sum(bands, (b: Band) => b.stats.backlogPkts - b.prev.backlogPkts)
            && d.backlogBytes == Sum(bands, (b: Band) => b.stats.backlogBytes - b.prev.backlogBytes)
            && d.overlimits == Sum(bands, (b: Band) => b.stats.overlimits - b.prev.overlimits)
            && d.drops == Sum(bands, (b: Band) => b.stats.drops - b.prev.drops)
  {
    if bands != [] { MqReportsTheRest(bands[..|bands| - 1]); }
  }

  lemma {:induction false} ToldIsPrev(bands: seq<Band>)
    requires forall i :: 0 <= i < |bands| ==> Settled(bands[i])
    ensures SameBacklog(SumTold(bands), SumPrev(bands))
  {
    if bands != [] {
      var most := bands[..|bands| - 1];
      ToldIsPrev(most);
      assert Settled(bands[|bands| - 1]);
    }
  }

  /** tc adds up what it was told about the children, so with what the MQ reports on top it shows exactly
      the current backlog. */
  lemma {:induction false} MqShowsCurrentBacklog(bands: seq<Band>)
    requires forall i :: 0 <= i < |bands| ==> Settled(bands[i])
    ensures SameBacklog(Plus(SumTold(bands), Minus(SumStats(bands), SumPrev(bands))), SumStats(bands))
  {
    var told, stats, prev := SumTold(bands), SumStats(bands), SumPrev(bands);
    assert SameBacklog(told, prev) by { ToldIsPrev(bands); }
    Cancels(told, stats, prev);
  }

  lemma Cancels(told: Stats, stats: Stats, prev: Stats)
    requires SameBacklog(told, prev)
    ensures SameBacklog(Plus(told, Minus(stats, prev)), stats)
  {
  }
}
