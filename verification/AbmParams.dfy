/**
 What becomes of the parameters tc configures (src/abm/qdisc.c): over all runs, the thresholds and actions in the
 firmware are those a RED or GRED was last configured with, and only qdiscs that qualify are offloaded.
 */
module AbmParams {
  import opened Wrappers
  import opened AbmGraph
  import opened AbmEvents
  import opened AbmCompile
  import Offload = AbmOffload

  // ---- what an update writes ----

  /** The update reaches subqueue `id`: it belongs to the link, and the qdisc at its queue is eligible. */
  predicate Reaches(l: Link, f: Faults, base: nat, queues: nat, id: nat) {
    Owns(base, queues, id) && Eligible(l, f.stats, RingOf(id) - base)
  }

  /** A subqueue marks exactly if its band asks for ECN. Subqueues of other links, of queues without an eligible qdisc
      and those that cannot be written keep their action. */
  lemma ActionExactly(l: Link, f: Faults, base: nat, queues: nat, was: seq<nat>, now: seq<nat>,
                      wasActs: seq<Action>, nowActs: seq<Action>, id: nat)
    requires Offload.Programmed(l, f, base, queues, was, now, wasActs, nowActs) && id < |wasActs|
    ensures Reaches(l, f, base, queues, id) && id !in f.actions ==>
              (nowActs[id] == MarkDrop <==> BandFor(l, f.stats, RingOf(id) - base, BandOf(id)).ecn)
              && (nowActs[id] == Drop <==> !BandFor(l, f.stats, RingOf(id) - base, BandOf(id)).ecn)
    ensures !Reaches(l, f, base, queues, id) || id in f.actions ==> nowActs[id] == wasActs[id]
  {
    assert nowActs[id] == ActionAfter(l, f, base, queues, id, wasActs[id]);
  }

  // ---- configurations stay ----

  predicate Configures(e: Event, h: nat) {
    match e
    case MqCreate(g, _) => g == h
    case RedReplace(g, _, _, _) => g == h
    case GredReplace(g, _, _) => g == h
    case Destroy(g, _) => g == h
    case _ => false
  }

  predicate SameConfig(q: Qdisc, r: Qdisc) {
    r.kind == q.kind && r.paramsOk == q.paramsOk && r.numBands == q.numBands && r.bands == q.bands
  }

  predicate KeepsConfig(a: Qdiscs, b: Qdiscs, h: nat) { h in a ==> h in b && SameConfig(a[h], b[h]) }

  lemma RefreshConfig(l: Link, queues: nat, bad: set<nat>, h: nat)
    ensures KeepsConfig(l.qdiscs, Refreshed(l, queues, bad).qdiscs, h)
  {
  }

  lemma RedConfig(c: Caps, l: Link, g: nat, limit: bool, p: RedParams, noMem: bool, h: nat)
    requires (g in l.qdiscs ==> l.qdiscs[g].kind == Red ==> RedReady(l.qdiscs, g)) && g != h
    ensures KeepsConfig(l.qdiscs, RedConfigured(c, l, g, limit, p, noMem).1.qdiscs, h)
  {
  }

  lemma ReplaceRedConfig(c: Caps, l: Link, g: nat, limit: bool, p: RedParams, noMem: bool, bad: set<nat>, h: nat)
    requires Inv(c, l) && g != h && (g in l.qdiscs ==> l.qdiscs[g].kind == Red ==> RedReady(l.qdiscs, g))
    ensures KeepsConfig(l.qdiscs, ReplaceRed(c, l, g, limit, p, noMem, bad).1.qdiscs, h)
  {
    RedConfig(c, l, g, limit, p, noMem, h);
    RefreshConfig(RedConfigured(c, l, g, limit, p, noMem).1, c.queues, bad, h);
  }

  lemma LinkConfig(qs: Qdiscs, g: nat, id: nat, child: nat, h: nat)
    requires g in qs && id < |qs[g].children| && Tracked(qs, qs[g].children[id])
    ensures KeepsConfig(qs, Linked(Unlink(qs, g, id), g, id, child), h)
  {
    UnlinkOnly(qs, g, id);
  }

  lemma GraftConfig(c: Caps, l: Link, g: nat, child: nat, id: nat, bad: set<nat>, h: nat)
    requires g in l.qdiscs && id < |l.qdiscs[g].children| ==> Tracked(l.qdiscs, l.qdiscs[g].children[id])
    ensures KeepsConfig(l.qdiscs, Grafted(c, l, g, child, id, bad).1.qdiscs, h)
  {
    if g in l.qdiscs && id < |l.qdiscs[g].children| {
      LinkConfig(l.qdiscs, g, id, child, h);
      RefreshConfig(SetUp(l, Linked(Unlink(l.qdiscs, g, id), g, id, child)), c.queues, bad, h);
    }
  }

  lemma FreedConfig(qs: Qdiscs, g: nat, skip: bool, h: nat)
    requires g in qs && g != h
    ensures KeepsConfig(qs, Freed(qs, g, skip), h)
  {
  }

  lemma EmptiedConfig(c: Caps, l: Link, g: nat, h: nat)
    requires Inv(c, l) && g in l.qdiscs
    ensures KeepsConfig(l.qdiscs, Emptied(l, g).qdiscs, h)
  {
    EmptiedOnly(c, l, g);
  }

  lemma DestroyConfig(c: Caps, l: Link, g: nat, unregistering: bool, bad: set<nat>, h: nat)
    requires Inv(c, l) && g != h
    ensures KeepsConfig(l.qdiscs, Destroyed(c, l, g, unregistering, bad).qdiscs, h)
  {
    if g in l.qdiscs {
      var l1, skip := Emptied(l, g), Skips(l, g, unregistering);
      EmptiedConfig(c, l, g, h);
      FreedConfig(l1.qdiscs, g, skip, h);
      RefreshConfig(SetUp(l1, Freed(l1.qdiscs, g, skip)), c.queues, bad, h);
    }
  }

  lemma CreateMqConfig(c: Caps, l: Link, g: nat, noMem: bool, bad: set<nat>, h: nat)
    requires g != h
    ensures KeepsConfig(l.qdiscs, CreateMq(c, l, g, noMem, bad).1.qdiscs, h)
  {
  }

  lemma ReplaceGredConfig(c: Caps, l: Link, g: nat, p: GredParams, noMem: bool, bad: set<nat>, h: nat)
    requires c.numBands <= |p.tab| && c.numBands <= MAX_DPS && (g in l.qdiscs ==> |l.qdiscs[g].bands| == MAX_DPS)
    requires g != h
    ensures KeepsConfig(l.qdiscs, ReplaceGred(c, l, g, p, noMem, bad).1.qdiscs, h)
  {
  }

  lemma RootSetConfig(c: Caps, l: Link, g: nat, ingress: bool, bad: set<nat>, h: nat)
    requires l.root.Some? ==> l.root.value in l.qdiscs
    ensures KeepsConfig(l.qdiscs, RootSet(c, l, g, ingress, bad).1.qdiscs, h)
  {
    if !ingress {
      MoveConfig(l, g, h);
      RefreshConfig(Rooted(Unrooted(l), g), c.queues, bad, h);
    }
  }

  lemma MoveConfig(l: Link, g: nat, h: nat)
    requires l.root.Some? ==> l.root.value in l.qdiscs
    ensures KeepsConfig(l.qdiscs, Rooted(Unrooted(l), g).qdiscs, h)
  {
  }

  /** Nothing but configuring or destroying it changes the parameters of a qdisc. */
  lemma StepConfig(c: Caps, l: Link, e: Event, bad: set<nat>, h: nat)
    requires Inv(c, l) && Enabled(c, l, e) && c.numBands <= MAX_DPS && !Configures(e, h)
    ensures KeepsConfig(l.qdiscs, Step(c, l, e, bad).qdiscs, h)
  {
    match e
    case RedReplace(g, limit, p, noMem) =>
      ReplaceRedKeeps(c, l, g, limit, p, noMem, bad);
      ReplaceRedConfig(c, l, g, limit, p, noMem, bad, h);
    case Graft(g, child, id) =>
      GraftedKeeps(c, l, g, child, id, bad);
      GraftConfig(c, l, g, child, id, bad, h);
    case Destroy(g, unregistering) => DestroyConfig(c, l, g, unregistering, bad, h);
    case MqCreate(g, noMem) => CreateMqConfig(c, l, g, noMem, bad, h);
    case GredReplace(g, p, noMem) =>
      ReplaceGredKeeps(c, l, g, p, noMem, bad);
      ReplaceGredConfig(c, l, g, p, noMem, bad, h);
    case SetRoot(g, ingress) => RootSetConfig(c, l, g, ingress, bad, h);
    case PrioChange(hasPrio) => RefreshConfig(l.(hasPrio := hasPrio), c.queues, bad, h);
  }

  predicate Untouched(run: seq<Tick>, h: nat) { forall i :: 0 <= i < |run| ==> !Configures(run[i].event, h) }

  lemma {:induction false} RunConfig(c: Caps, l: Link, run: seq<Tick>, to: Link, h: nat)
    requires c.numBands <= MAX_DPS && Inv(c, l) && Leads(c, l, run, to) && Untouched(run, h)
    ensures KeepsConfig(l.qdiscs, to.qdiscs, h)
    decreases |run|
  {
    if run != [] {
      assert !Configures(run[0].event, h);
      StepConfig(c, l, run[0].event, run[0].bad, h);
      RunConfig(c, Step(c, l, run[0].event, run[0].bad), run[1..], to, h);
    }
  }

  // ---- from the notification to the firmware ----

  /** The firmware can do what is asked for: a single threshold of at most 31 bits, nothing dropped instead of
      marked, and the action that goes with it. */
  predicate CanDo(c: Caps, p: RedParams) {
    p.min == p.max < 0x8000_0000 && !p.harddrop && if p.ecn then c.marking else c.drop
  }

  /** A GRED has as many bands as the firmware and the same default, no modes that mix them, and the firmware can do
      what each band asks for. */
  predicate CanDoAll(c: Caps, p: GredParams)
    requires c.numBands <= |p.tab|
  {
    p.dpCnt == c.numBands && p.dpDef == c.defBand && !(p.grio || p.wred)
    && forall i :: 0 <= i < c.numBands ==> p.tab[i].present && CanDo(c, p.tab[i].red)
  }

  lemma AcceptedExactly(c: Caps, p: RedParams, g: GredParams)
    ensures RedOk(c, p) <==> CanDo(c, p)
    ensures c.numBands <= |g.tab| ==> (GredOk(c, g) <==> CanDoAll(c, g))
  {
  }

  /** The parameters are stored if the firmware can do that, and the qdisc is marked as not configured otherwise. */
  predicate HoldsRed(c: Caps, q: Qdisc, p: RedParams) {
    q.kind == Red && |q.bands| == MAX_DPS && (q.paramsOk <==> CanDo(c, p))
    && (q.paramsOk ==> q.bands[0].ecn == p.ecn && q.bands[0].threshold == p.min)
  }

  lemma RedHolds(c: Caps, l: Link, h: nat, limit: bool, p: RedParams, noMem: bool)
    requires h in l.qdiscs ==> RedReady(l.qdiscs, h) && |l.qdiscs[h].bands| == MAX_DPS
    requires RedConfigured(c, l, h, limit, p, noMem).0 == 0
    ensures HoldsRed(c, RedConfigured(c, l, h, limit, p, noMem).1.qdiscs[h], p)
  {
  }

  /** A RED that is configured holds its parameters, and counts as configured exactly if they are accepted. */
  lemma RedStored(c: Caps, l: Link, h: nat, limit: bool, p: RedParams, noMem: bool, bad: set<nat>)
    requires Inv(c, l) && c.numBands <= MAX_DPS && Found(c, l.qdiscs, Red, h, noMem).0 == 0
    ensures var r := Step(c, l, RedReplace(h, limit, p, noMem), bad); h in r.qdiscs && HoldsRed(c, r.qdiscs[h], p)
  {
    ReplaceRedKeeps(c, l, h, limit, p, noMem, bad);
    assert h in l.qdiscs ==> Shaped(c, l.qdiscs[h]);
    RedHolds(c, l, h, limit, p, noMem);
    RefreshConfig(RedConfigured(c, l, h, limit, p, noMem).1, c.queues, bad, h);
  }

  /** Configuring a qdisc for the first time adds one that nothing uses, without children and without parameters, if
      there is memory; one of another kind is an error, and one of this kind is taken as it is. */
  lemma FoundExactly(c: Caps, qs: Qdiscs, k: Kind, h: nat, noMem: bool)
    ensures var (err, r) := Found(c, qs, k, h, noMem);
            if h in qs then r == qs && err == (if qs[h].kind == k then 0 else -22)
            else if noMem then r == qs && err == -12
            else err == 0 && r.Keys == qs.Keys + {h} && (forall g :: g in qs ==> r[g] == qs[g])
                 && r[h].kind == k && r[h].useCnt == 0 && !r[h].paramsOk && !r[h].offloaded
                 && forall i :: 0 <= i < |r[h].children| ==> r[h].children[i] == Empty
  {
  }

  /** A GRED likewise, band by band. */
  lemma GredStored(c: Caps, l: Link, h: nat, p: GredParams, noMem: bool, bad: set<nat>)
    requires Inv(c, l) && c.numBands <= MAX_DPS && c.numBands <= |p.tab| && Found(c, l.qdiscs, Gred, h, noMem).0 == 0
    ensures var r := Step(c, l, GredReplace(h, p, noMem), bad);
            h in r.qdiscs && r.qdiscs[h].kind == Gred && |r.qdiscs[h].bands| == MAX_DPS
            && (r.qdiscs[h].paramsOk <==> CanDoAll(c, p))
            && (r.qdiscs[h].paramsOk ==> forall i :: 0 <= i < c.numBands ==>
                  r.qdiscs[h].bands[i].ecn == p.tab[i].red.ecn && r.qdiscs[h].bands[i].threshold == p.tab[i].red.min)
  {
    ReplaceGredKeeps(c, l, h, p, noMem, bad);
    AcceptedExactly(c, RedParams(false, false, 0, 0), p);
  }

  /** The level and the action of a subqueue that an update reaches are those of its band. */
  lemma ReachedExactly(l: Link, f: Faults, base: nat, queues: nat, was: seq<nat>, now: seq<nat>,
                       wasActs: seq<Action>, nowActs: seq<Action>, id: nat, h: nat)
    requires Offload.Programmed(l, f, base, queues, was, now, wasActs, nowActs) && id < |was| && id < |wasActs|
    requires Reaches(l, f, base, queues, id) && id !in f.levels && id !in f.actions
    requires Occupant(l, RingOf(id) - base) == Some(h) && BandOf(id) < |l.qdiscs[h].bands|
    ensures now[id] == l.qdiscs[h].bands[BandOf(id)].threshold
    ensures nowActs[id] == if l.qdiscs[h].bands[BandOf(id)].ecn then MarkDrop else Drop
  {
    ActionExactly(l, f, base, queues, was, now, wasActs, nowActs, id);
    assert now[id] == LevelAfter(l, f, base, queues, id, was[id]);
  }

  /** In every run: when an update reaches the queue of a RED, its parameters were accepted when it was last configured,
      and its first band has the threshold and the action of that configuration. */
  lemma RedReachesFirmware(c: Caps, base: nat, l: Link, h: nat, limit: bool, p: RedParams, noMem: bool, bad: set<nat>,
                           run: seq<Tick>, to: Link, f: Faults, was: seq<nat>, now: seq<nat>, wasActs: seq<Action>,
                           nowActs: seq<Action>, id: nat)
    requires Inv(c, l) && c.numBands <= MAX_DPS && Found(c, l.qdiscs, Red, h, noMem).0 == 0 && Untouched(run, h)
    requires Leads(c, Step(c, l, RedReplace(h, limit, p, noMem), bad), run, to)
    requires Offload.Programmed(to, f, base, c.queues, was, now, wasActs, nowActs) && id < |was| && id < |wasActs|
    requires Reaches(to, f, base, c.queues, id) && id !in f.levels && id !in f.actions
    requires Occupant(to, RingOf(id) - base) == Some(h) && BandOf(id) == 0
    ensures CanDo(c, p) && now[id] == p.min && nowActs[id] == if p.ecn then MarkDrop else Drop
  {
    RedStored(c, l, h, limit, p, noMem, bad);
    RunConfig(c, Step(c, l, RedReplace(h, limit, p, noMem), bad), run, to, h);
    ReachedExactly(to, f, base, c.queues, was, now, wasActs, nowActs, id, h);
  }

  /** The same for every band of a GRED. */
  lemma GredReachesFirmware(c: Caps, base: nat, l: Link, h: nat, p: GredParams, noMem: bool, bad: set<nat>,
                            run: seq<Tick>, to: Link, f: Faults, was: seq<nat>, now: seq<nat>, wasActs: seq<Action>,
                            nowActs: seq<Action>, id: nat)
    requires Inv(c, l) && c.numBands <= MAX_DPS && c.numBands <= |p.tab| && Found(c, l.qdiscs, Gred, h, noMem).0 == 0
    requires Untouched(run, h) && Leads(c, Step(c, l, GredReplace(h, p, noMem), bad), run, to)
    requires Offload.Programmed(to, f, base, c.queues, was, now, wasActs, nowActs) && id < |was| && id < |wasActs|
    requires Reaches(to, f, base, c.queues, id) && id !in f.levels && id !in f.actions
    requires Occupant(to, RingOf(id) - base) == Some(h) && BandOf(id) < c.numBands
    ensures CanDoAll(c, p) && now[id] == p.tab[BandOf(id)].red.min
    ensures nowActs[id] == if p.tab[BandOf(id)].red.ecn then MarkDrop else Drop
  {
    GredStored(c, l, h, p, noMem, bad);
    RunConfig(c, Step(c, l, GredReplace(h, p, noMem), bad), run, to, h);
    ReachedExactly(to, f, base, c.queues, was, now, wasActs, nowActs, id, h);
  }

  /** The slots of other MQs that pointed to a destroyed qdisc are empty afterwards, and all others are as before. */
  lemma DestroyedSlots(c: Caps, l: Link, h: nat, unregistering: bool, bad: set<nat>, p: nat)
    requires Inv(c, l) && h in l.qdiscs && MayDestroy(l, h, unregistering) && p in l.qdiscs && p != h
    ensures var r := Destroyed(c, l, h, unregistering, bad);
            p in r.qdiscs && |r.qdiscs[p].children| == |l.qdiscs[p].children|
            && forall i :: 0 <= i < |l.qdiscs[p].children| ==>
                 r.qdiscs[p].children[i]
                   == if l.qdiscs[p].children[i] == Child(h) then Empty else l.qdiscs[p].children[i]
  {
    assert Shaped(c, l.qdiscs[p]);
    EmptiedOnly(c, l, h);
    FreedIsCleared(c, l, h, unregistering);
    ClearedSlots(l, Emptied(l, h).qdiscs, h, unregistering, p);
  }

  lemma ClearedSlots(l: Link, e: Qdiscs, h: nat, unregistering: bool, p: nat)
    requires p in l.qdiscs && p != h && OnlySlotsOf(l.qdiscs, e, h) && MayDestroy(l, h, unregistering)
    requires l.qdiscs[p].kind == Gred ==> l.qdiscs[p].children == []
    ensures var qs: Qdiscs := ClearMq(e, h) - {h};
            p in qs && |qs[p].children| == |l.qdiscs[p].children|
            && forall i :: 0 <= i < |l.qdiscs[p].children| ==>
                 qs[p].children[i] == if l.qdiscs[p].children[i] == Child(h) then Empty else l.qdiscs[p].children[i]
  {
    forall i: nat | i < |l.qdiscs[p].children| && l.qdiscs[p].children[i] == Child(h)
      ensures l.qdiscs[p].kind != Red
    {
      assert Holds(l.qdiscs, p, i, h);
    }
  }

  // ---- only qdiscs that qualify are offloaded ----

  /** Accepted parameters and a single use; a RED also has no child of its own, and no priorities are in use. */
  predicate Qualified(q: Qdisc, hasPrio: bool) {
    q.paramsOk && q.useCnt == 1 && q.kind != Mq && (q.kind == Red ==> !hasPrio && q.children == [Empty])
  }

  /** An update offloads the root MQ, and exactly those qdiscs at its queues that qualify and whose statistics could be
      initialised, now or before. */
  lemma UpdateOffloadsExactly(c: Caps, l: Link, bad: set<nat>, h: nat)
    requires Inv(c, l) && h in l.qdiscs
    ensures Refreshed(l, c.queues, bad).qdiscs[h].offloaded <==>
            RootMq(l) && if AtRoot(l, c.queues, h)
                         then Qualified(l.qdiscs[h], l.hasPrio) && (l.qdiscs[h].offloaded || h !in bad)
                         else l.root == Some(h)
  {
    assert Shaped(c, l.qdiscs[h]);
  }

  ghost predicate AllQualified(l: Link) {
    forall h :: h in l.qdiscs && l.qdiscs[h].offloaded && l.qdiscs[h].kind != Mq ==> Qualified(l.qdiscs[h], l.hasPrio)
  }

  lemma RefreshQualified(c: Caps, l: Link, bad: set<nat>)
    requires Base(c, l)
    ensures AllQualified(Refreshed(l, c.queues, bad))
  {
    var r := Refreshed(l, c.queues, bad);
    forall h | h in r.qdiscs && r.qdiscs[h].offloaded && r.qdiscs[h].kind != Mq
      ensures Qualified(r.qdiscs[h], r.hasPrio)
    {
      assert Shaped(c, l.qdiscs[h]);
    }
  }

  /** Only use counts differ, and whatever belongs to MQs or to g. */
  predicate Similar(a: Qdiscs, b: Qdiscs, g: nat) {
    forall h :: h in b && h != g && b[h].kind != Mq ==>
      h in a && SameConfig(a[h], b[h]) && b[h].children == a[h].children && b[h].offloaded == a[h].offloaded
  }

  /** Without an update, a qdisc that is not used once is not offloaded. */
  lemma SimilarQualified(c: Caps, l: Link, r: Link, g: nat)
    requires AllQualified(l) && Inv(c, r) && r.hasPrio == l.hasPrio && Similar(l.qdiscs, r.qdiscs, g)
    requires g in r.qdiscs ==> r.qdiscs[g].useCnt != 1
    ensures AllQualified(r)
  {
  }

  lemma RedQualified(c: Caps, l: Link, g: nat, limit: bool, p: RedParams, noMem: bool, bad: set<nat>)
    requires Inv(c, l) && AllQualified(l)
    requires g in l.qdiscs ==> l.qdiscs[g].kind == Red ==> RedReady(l.qdiscs, g)
    ensures AllQualified(ReplaceRed(c, l, g, limit, p, noMem, bad).1)
  {
    var (err, r) := RedConfigured(c, l, g, limit, p, noMem);
    RedConfiguredKeeps(c, l, g, limit, p, noMem);
    if err == 0 && r.qdiscs[g].useCnt == 1 {
      RefreshQualified(c, r, bad);
    } else if err == 0 {
      RedSimilar(c, l, g, limit, p, noMem);
      SimilarQualified(c, l, r, g);
    }
  }

  lemma RedSimilar(c: Caps, l: Link, g: nat, limit: bool, p: RedParams, noMem: bool)
    requires g in l.qdiscs ==> l.qdiscs[g].kind == Red ==> RedReady(l.qdiscs, g)
    requires RedConfigured(c, l, g, limit, p, noMem).0 == 0
    ensures var r := RedConfigured(c, l, g, limit, p, noMem).1;
            Similar(l.qdiscs, r.qdiscs, g) && r.hasPrio == l.hasPrio
  {
  }

  lemma GredSimilar(c: Caps, l: Link, g: nat, p: GredParams, noMem: bool)
    requires c.numBands <= |p.tab| && c.numBands <= MAX_DPS && (g in l.qdiscs ==> |l.qdiscs[g].bands| == MAX_DPS)
    ensures var r := GredConfigured(c, l, g, p, noMem).1;
            Similar(l.qdiscs, r.qdiscs, g) && r.hasPrio == l.hasPrio
  {
  }

  lemma GredBase(c: Caps, l: Link, g: nat, p: GredParams, noMem: bool)
    requires Inv(c, l) && c.numBands <= |p.tab| && c.numBands <= MAX_DPS
    requires g in l.qdiscs ==> |l.qdiscs[g].bands| == MAX_DPS
    ensures Inv(c, GredConfigured(c, l, g, p, noMem).1)
  {
    if Found(c, l.qdiscs, Gred, g, noMem).0 == 0 {
      FoundKeeps(c, l, Gred, g, noMem);
      GredParamsKeep(c, SetUp(l, Found(c, l.qdiscs, Gred, g, noMem).1), g, p);
    }
  }

  lemma GredQualified(c: Caps, l: Link, g: nat, p: GredParams, noMem: bool, bad: set<nat>)
    requires Inv(c, l) && AllQualified(l) && c.numBands <= |p.tab| && c.numBands <= MAX_DPS
    requires g in l.qdiscs ==> |l.qdiscs[g].bands| == MAX_DPS
    ensures AllQualified(ReplaceGred(c, l, g, p, noMem, bad).1)
  {
    var (err, r) := GredConfigured(c, l, g, p, noMem);
    GredBase(c, l, g, p, noMem);
    if err == 0 && r.qdiscs[g].useCnt != 0 {
      RefreshQualified(c, r, bad);
    } else if err == 0 {
      GredSimilar(c, l, g, p, noMem);
      SimilarQualified(c, l, r, g);
    }
  }

  lemma FreedSimilar(a: Qdiscs, b: Qdiscs, g: nat, skip: bool)
    requires OnlySlotsOf(a, b, g)
    ensures Similar(a, Freed(b, g, skip), g)
  {
  }

  lemma DestroySimilar(c: Caps, l: Link, g: nat, skip: bool)
    requires Inv(c, l) && g in l.qdiscs
    ensures Similar(l.qdiscs, Freed(Emptied(l, g).qdiscs, g, skip), g)
  {
    EmptiedOnly(c, l, g);
    FreedSimilar(l.qdiscs, Emptied(l, g).qdiscs, g, skip);
  }

  lemma DestroyQualified(c: Caps, l: Link, g: nat, unregistering: bool, bad: set<nat>)
    requires Inv(c, l) && AllQualified(l) && MayDestroy(l, g, unregistering)
    ensures AllQualified(Destroyed(c, l, g, unregistering, bad))
  {
    if g in l.qdiscs {
      var l1, skip := Emptied(l, g), Skips(l, g, unregistering);
      var l2 := SetUp(l1, Freed(l1.qdiscs, g, skip));
      FreedBase(c, l, g, unregistering);
      if l.root == Some(g) {
        RefreshQualified(c, l2, bad);
      } else {
        DestroySimilar(c, l, g, skip);
        DestroyedKeeps(c, l, g, unregistering, bad);
        SimilarQualified(c, l, l2, g);
      }
    }
  }

  lemma GraftQualified(c: Caps, l: Link, g: nat, child: nat, id: nat, bad: set<nat>)
    requires Inv(c, l) && AllQualified(l)
    requires g in l.qdiscs && id < |l.qdiscs[g].children| ==> Tracked(l.qdiscs, l.qdiscs[g].children[id])
    ensures AllQualified(Grafted(c, l, g, child, id, bad).1)
  {
    if g in l.qdiscs && id < |l.qdiscs[g].children| {
      UnlinkBase(c, l, g, id);
      var l1 := SetUp(l, Unlink(l.qdiscs, g, id));
      LinkedBase(c, l1, g, id, child);
      RefreshQualified(c, SetUp(l1, Linked(l1.qdiscs, g, id, child)), bad);
    }
  }

  lemma CreateMqQualified(c: Caps, l: Link, g: nat, noMem: bool, bad: set<nat>)
    requires Inv(c, l) && AllQualified(l)
    ensures AllQualified(CreateMq(c, l, g, noMem, bad).1)
  {
    var (err, qs) := Found(c, l.qdiscs, Mq, g, noMem);
    if err == 0 {
      FoundKeeps(c, l, Mq, g, noMem);
      TouchBase(c, SetUp(l, qs), g, qs[g].(paramsOk := true, offloaded := true));
      RefreshQualified(c, SetUp(l, qs[g := qs[g].(paramsOk := true, offloaded := true)]), bad);
    }
  }

  lemma RootSetQualified(c: Caps, l: Link, g: nat, ingress: bool, bad: set<nat>)
    requires Inv(c, l) && AllQualified(l)
    ensures AllQualified(RootSet(c, l, g, ingress, bad).1)
  {
    if !ingress {
      UnrootedBase(c, l);
      RootedBase(c, Unrooted(l), g);
      RefreshQualified(c, Rooted(Unrooted(l), g), bad);
    }
  }

  lemma StepQualified(c: Caps, l: Link, e: Event, bad: set<nat>)
    requires Inv(c, l) && Enabled(c, l, e) && c.numBands <= MAX_DPS && AllQualified(l)
    ensures AllQualified(Step(c, l, e, bad))
  {
    match e
    case RedReplace(g, limit, p, noMem) =>
      ReplaceRedKeeps(c, l, g, limit, p, noMem, bad);
      RedQualified(c, l, g, limit, p, noMem, bad);
    case GredReplace(g, p, noMem) =>
      ReplaceGredKeeps(c, l, g, p, noMem, bad);
      GredQualified(c, l, g, p, noMem, bad);
    case Graft(g, child, id) =>
      GraftedKeeps(c, l, g, child, id, bad);
      GraftQualified(c, l, g, child, id, bad);
    case Destroy(g, unregistering) => DestroyQualified(c, l, g, unregistering, bad);
    case MqCreate(g, noMem) => CreateMqQualified(c, l, g, noMem, bad);
    case SetRoot(g, ingress) => RootSetQualified(c, l, g, ingress, bad);
    case PrioChange(hasPrio) =>
      Offload.PrioBase(c, l, hasPrio);
      RefreshQualified(c, l.(hasPrio := hasPrio), bad);
  }

  lemma {:induction false} RunQualified(c: Caps, l: Link, run: seq<Tick>, to: Link)
    requires c.numBands <= MAX_DPS && Inv(c, l) && Leads(c, l, run, to) && AllQualified(l)
    ensures AllQualified(to)
    decreases |run|
  {
    if run != [] {
      StepQualified(c, l, run[0].event, run[0].bad);
      RunQualified(c, Step(c, l, run[0].event, run[0].bad), run[1..], to);
    }
  }

  /** In every run a RED or GRED that is offloaded qualifies, also between updates. */
  lemma OffloadedQualifies(c: Caps, l: Link, h: nat)
    requires c.numBands <= MAX_DPS && Reachable(c, l)
    requires h in l.qdiscs && l.qdiscs[h].offloaded && l.qdiscs[h].kind != Mq
    ensures Qualified(l.qdiscs[h], l.hasPrio)
  {
    NewLinkInv(c);
    var run :| Leads(c, NEW_LINK, run, l);
    RunQualified(c, NEW_LINK, run, l);
  }
}
