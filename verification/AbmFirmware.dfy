/**
 The thresholds in the firmware over the notifications of a link (src/abm/qdisc.c): when they are what the
 qdisc hierarchy asks for, and when they lag behind it.
 */
module AbmFirmware {
  import opened Wrappers
  import opened AbmGraph
  import opened AbmEvents
  import opened AbmCompile
  import Offload = AbmOffload

  const NO_FAULTS := Faults({}, {}, {})

  /** The bands that queue `queue` of the root asks for, if it has an eligible qdisc. */
  function Asks(l: Link, queue: nat): Option<seq<Band>> {
    if Eligible(l, {}, queue) then Some(l.qdiscs[Occupant(l, queue).value].bands) else None
  }

  /** The level that these bands give. */
  function LevelOf(bands: Option<seq<Band>>, band: nat): nat {
    if bands.None? then INFINITY else if band < |bands.value| then bands.value[band].threshold else 0
  }

  lemma WantedIs(l: Link, queue: nat, band: nat)
    ensures WantedLevel(l, {}, queue, band) == LevelOf(Asks(l, queue), band)
  {
  }

  /** The levels of the link's subqueues are those its hierarchy asks for. */
  predicate Matches(l: Link, base: nat, queues: nat, fw: seq<nat>) {
    forall id :: 0 <= id < |fw| && Owns(base, queues, id) ==>
      fw[id] == WantedLevel(l, {}, RingOf(id) - base, BandOf(id))
  }

  /** The levels after an update for link l without faults. */
  function Updated(l: Link, base: nat, queues: nat, fw: seq<nat>): (r: seq<nat>)
    ensures |r| == |fw|
  {
    seq(|fw|, id requires 0 <= id < |fw| => LevelAfter(l, NO_FAULTS, base, queues, id, fw[id]))
  }

  lemma RefreshedAsks(l: Link, queues: nat, queue: nat)
    ensures Asks(Refreshed(l, queues, {}), queue) == Asks(l, queue)
  {
  }

  /** An update programs what the link asks for after it, since marks do not matter for eligibility. */
  lemma UpdateMatches(seen: Link, base: nat, queues: nat,
                      was: seq<nat>, now: seq<nat>, wasActs: seq<Action>, nowActs: seq<Action>)
    requires Offload.Programmed(seen, NO_FAULTS, base, queues, was, now, wasActs, nowActs)
    ensures now == Updated(Refreshed(seen, queues, {}), base, queues, was)
  {
    var r := Refreshed(seen, queues, {});
    forall id | 0 <= id < |was| ensures now[id] == LevelAfter(r, NO_FAULTS, base, queues, id, was[id]) {
      if Owns(base, queues, id) {
        RefreshedAsks(seen, queues, RingOf(id) - base);
        WantedIs(seen, RingOf(id) - base, BandOf(id));
        WantedIs(Refreshed(seen, queues, {}), RingOf(id) - base, BandOf(id));
      }
    }
  }

  // ---- one notification ----

  /** The notification ends with an update of the offload. */
  ghost predicate Refreshes(c: Caps, l: Link, e: Event)
    requires Inv(c, l) && Enabled(c, l, e) && c.numBands <= MAX_DPS
  {
    var r := Step(c, l, e, {});
    match e
    case MqCreate(h, noMem) => Found(c, l.qdiscs, Mq, h, noMem).0 == 0
    case RedReplace(h, _, _, noMem) =>
      Found(c, l.qdiscs, Red, h, noMem).0 == 0 && h in r.qdiscs && r.qdiscs[h].useCnt == 1
    case GredReplace(h, _, noMem) =>
      Found(c, l.qdiscs, Gred, h, noMem).0 == 0 && h in r.qdiscs && r.qdiscs[h].useCnt != 0
    case Graft(h, _, id) => h in l.qdiscs && id < |l.qdiscs[h].children|
    case Destroy(h, _) => h in l.qdiscs && l.root == Some(h)
    case SetRoot(_, ingress) => !ingress
    case PrioChange(_) => true
  }

  /** The levels after a notification without faults. */
  ghost function Levels(c: Caps, base: nat, l: Link, fw: seq<nat>, e: Event): (r: seq<nat>)
    requires Inv(c, l) && Enabled(c, l, e) && c.numBands <= MAX_DPS
    ensures |r| == |fw|
  {
    if Refreshes(c, l, e) then Updated(Step(c, l, e, {}), base, c.queues, fw) else fw
  }

  lemma {:induction false} OccupantKnown(l: Link, queue: nat)
    requires Closed(l.qdiscs) && Occupant(l, queue).Some?
    ensures Occupant(l, queue).value in l.qdiscs
  {
    assert Holds(l.qdiscs, l.root.value, queue, Occupant(l, queue).value);
  }

  // ---- uses that a qdisc gives up ----

  /** The slots from number i on that point to b. */
  function UsesFrom(children: seq<Slot>, b: nat, i: nat): nat
    requires i <= |children|
    decreases |children| - i
  {
    if i == |children| then 0 else Points(children[i], b) + UsesFrom(children, b, i + 1)
  }

  function Uses(q: Qdisc, b: nat): nat { UsesFrom(q.children, b, 0) }

  lemma {:induction false} UsesSame(s: seq<Slot>, t: seq<Slot>, b: nat, i: nat)
    requires |s| == |t| && i <= |s| && forall j :: i <= j < |s| ==> s[j] == t[j]
    ensures UsesFrom(s, b, i) == UsesFrom(t, b, i)
    decreases |s| - i
  {
    if i < |s| { UsesSame(s, t, b, i + 1); }
  }

  lemma UnlinkUse(qs: Qdiscs, p: nat, i: nat, b: nat)
    requires p in qs && i < |qs[p].children| && Tracked(qs, qs[p].children[i]) && b in qs
    ensures Unlink(qs, p, i)[b].useCnt == qs[b].useCnt - Points(qs[p].children[i], b)
  {
  }

  /** Emptying a qdisc takes one use from its children for every slot. */
  lemma {:induction false} UnlinkedUses(qs: Qdiscs, p: nat, i: nat, b: nat)
    requires p in qs && i <= |qs[p].children| && AllTracked(qs, p) && NoChildBelow(qs[p], i) && b in qs
    ensures UnlinkFrom(qs, p, i)[b].useCnt == qs[b].useCnt - UsesFrom(qs[p].children, b, i)
    decreases |qs[p].children| - i
  {
    if i < |qs[p].children| {
      var r := Unlink(qs, p, i);
      UnlinkTracked(qs, p, i);
      UnlinkUse(qs, p, i, b);
      UnlinkOnly(qs, p, i);
      UsesSame(qs[p].children, r[p].children, b, i + 1);
      UnlinkedUses(r, p, i + 1, b);
    }
  }

  lemma {:induction false} UsedSomewhere(children: seq<Slot>, b: nat, i: nat) returns (j: nat)
    requires i <= |children| && UsesFrom(children, b, i) > 0
    ensures i <= j < |children| && children[j] == Child(b)
    decreases |children| - i
  {
    if children[i] == Child(b) { j := i; } else { j := UsedSomewhere(children, b, i + 1); }
  }

  /** A qdisc at a queue of the root that h refers to as well is used more than once. */
  lemma SharedTwice(c: Caps, l: Link, h: nat, b: nat, queue: nat)
    requires Inv(c, l) && h in l.qdiscs && b in l.qdiscs && NotRootMq(l, h)
    requires Occupant(l, queue) == Some(b) && Uses(l.qdiscs[h], b) > 0
    ensures l.qdiscs[b].useCnt >= 2
  {
    var j := UsedSomewhere(l.qdiscs[h].children, b, 0);
    var one, two, slots := (l.root.value, queue), (h, j), SlotsTo(l.qdiscs, b);
    assert Holds(l.qdiscs, one.0, one.1, b) && Holds(l.qdiscs, two.0, two.1, b);
    assert one in slots && two in slots - {one};
    assert |slots - {one}| == |slots| - 1;
  }

  /** h gives up its children, and itself if it is `gone`; otherwise it was and is not good. */
  ghost predicate Drops(l: Link, r: Link, h: nat, gone: bool) {
    h in l.qdiscs && NotRootMq(l, h) && r.root == l.root && r.hasPrio == l.hasPrio
    && (forall queue: nat :: Occupant(r, queue) ==
          if gone && Occupant(l, queue) == Some(h) then None else Occupant(l, queue))
    && (forall b :: b in l.qdiscs && b != h ==>
          b in r.qdiscs && GivenUp(l.qdiscs[b], r.qdiscs[b], Uses(l.qdiscs[h], b)))
    && (!gone ==> h in r.qdiscs && !Good(l.qdiscs[h], l.hasPrio) && !Good(r.qdiscs[h], l.hasPrio))
  }

  /** Only the use count is different, and the slots of an MQ may be. */
  predicate GivenUp(q: Qdisc, r: Qdisc, uses: nat) {
    r == q.(useCnt := q.useCnt - uses, children := r.children) && (q.kind != Mq ==> r.children == q.children)
  }

  /** All uses of b but one are by h, and b would be eligible with that one alone. */
  predicate Exposes(l: Link, h: nat, b: nat) {
    h in l.qdiscs && b in l.qdiscs && b != h && Uses(l.qdiscs[h], b) > 0
    && l.qdiscs[b].useCnt == 1 + Uses(l.qdiscs[h], b) && Good(l.qdiscs[b].(useCnt := 1), l.hasPrio)
  }

  /** b is eligible afterwards exactly if it was before, or is exposed. */
  lemma GoodAfter(c: Caps, l: Link, r: Link, h: nat, gone: bool, b: nat, queue: nat)
    requires Inv(c, l) && Drops(l, r, h, gone) && Occupant(l, queue) == Some(b) && b in l.qdiscs && b != h
    ensures b in r.qdiscs && r.qdiscs[b].bands == l.qdiscs[b].bands
    ensures Good(r.qdiscs[b], l.hasPrio) <==> Good(l.qdiscs[b], l.hasPrio) || Exposes(l, h, b)
    ensures Exposes(l, h, b) ==> !Good(l.qdiscs[b], l.hasPrio)
  {
    assert GivenUp(l.qdiscs[b], r.qdiscs[b], Uses(l.qdiscs[h], b));
    if Uses(l.qdiscs[h], b) > 0 { SharedTwice(c, l, h, b, queue); }
  }

  /** What queues ask for when h gives up its children. */
  lemma DropAsks(c: Caps, l: Link, r: Link, h: nat, gone: bool, queue: nat)
    requires Inv(c, l) && Drops(l, r, h, gone)
    ensures Asks(r, queue) ==
            match Occupant(l, queue)
            case None => None
            case Some(b) =>
              if b == h then if gone then None else Asks(l, queue)
              else if Exposes(l, h, b) then Some(l.qdiscs[b].bands) else Asks(l, queue)
    ensures Occupant(l, queue).Some? && Exposes(l, h, Occupant(l, queue).value) ==> Asks(l, queue) == None
  {
    if Occupant(l, queue).Some? {
      var b := Occupant(l, queue).value;
      OccupantKnown(l, queue);
      if b != h { GoodAfter(c, l, r, h, gone, b, queue); }
    }
  }

  /** The level of subqueue id comes from h and is a real threshold. */
  predicate LimitsAt(l: Link, base: nat, queues: nat, h: nat, id: nat) {
    Owns(base, queues, id) && Occupant(l, RingOf(id) - base) == Some(h)
    && WantedLevel(l, {}, RingOf(id) - base, BandOf(id)) != INFINITY
  }

  /** The qdisc at the queue of subqueue id is held back by h alone, and has a real threshold. */
  predicate ExposesAt(l: Link, base: nat, queues: nat, h: nat, id: nat) {
    Owns(base, queues, id)
    && var b := Occupant(l, RingOf(id) - base);
       b.Some? && Exposes(l, h, b.value) && LevelOf(Some(l.qdiscs[b.value].bands), BandOf(id)) != INFINITY
  }

  predicate StaleAt(l: Link, base: nat, queues: nat, h: nat, gone: bool, id: nat) {
    (gone && LimitsAt(l, base, queues, h, id)) || ExposesAt(l, base, queues, h, id)
  }

  /** Some of the first n levels is not the right one when h gives up its children. */
  predicate Stale(l: Link, base: nat, queues: nat, n: nat, h: nat, gone: bool) {
    exists id :: 0 <= id < n && StaleAt(l, base, queues, h, gone, id)
  }

  lemma DropLevel(c: Caps, base: nat, l: Link, r: Link, h: nat, gone: bool, id: nat)
    requires Inv(c, l) && Drops(l, r, h, gone) && Owns(base, c.queues, id)
    ensures var queue, band := RingOf(id) - base, BandOf(id);
            WantedLevel(r, {}, queue, band) == WantedLevel(l, {}, queue, band)
            <==> !StaleAt(l, base, c.queues, h, gone, id)
  {
    var queue, band := RingOf(id) - base, BandOf(id);
    DropAsks(c, l, r, h, gone, queue);
    WantedIs(l, queue, band);
    WantedIs(r, queue, band);
  }

  /** The levels match afterwards exactly if none is stale. */
  lemma DropMatchesExactly(c: Caps, base: nat, l: Link, r: Link, fw: seq<nat>, h: nat, gone: bool)
    requires Inv(c, l) && Drops(l, r, h, gone) && Matches(l, base, c.queues, fw)
    ensures Matches(r, base, c.queues, fw) <==> !Stale(l, base, c.queues, |fw|, h, gone)
  {
    forall id | 0 <= id < |fw| && Owns(base, c.queues, id)
      ensures fw[id] == WantedLevel(r, {}, RingOf(id) - base, BandOf(id)) <==> !StaleAt(l, base, c.queues, h, gone, id)
    {
      DropLevel(c, base, l, r, h, gone, id);
    }
  }

  // ---- destroying a qdisc that is not the root ----

  lemma ClearedOccupant(l: Link, h: nat, queue: nat)
    requires l.root != Some(h)
    ensures var r := SetUp(l, ClearMq(l.qdiscs, h) - {h});
            Occupant(r, queue) == if Occupant(l, queue) == Some(h) then None else Occupant(l, queue)
  {
  }

  lemma EmptiedOccupant(c: Caps, l: Link, h: nat, queue: nat)
    requires Inv(c, l) && h in l.qdiscs && l.root != Some(h)
    ensures Occupant(Emptied(l, h), queue) == Occupant(l, queue)
  {
    EmptiedOnly(c, l, h);
  }

  lemma DestroyedIs(c: Caps, l: Link, h: nat, unregistering: bool)
    requires Inv(c, l) && h in l.qdiscs && MayDestroy(l, h, unregistering) && l.root != Some(h)
    ensures Destroyed(c, l, h, unregistering, {}) == SetUp(Emptied(l, h), ClearMq(Emptied(l, h).qdiscs, h) - {h})
  {
    FreedIsCleared(c, l, h, unregistering);
  }

  lemma ClearedGivenUp(a: Qdiscs, e: Qdiscs, h: nat, b: nat, uses: nat)
    requires OnlySlotsOf(a, e, h) && b in a && b != h && e[b].useCnt == a[b].useCnt - uses
    ensures var qs: Qdiscs := ClearMq(e, h) - {h}; b in qs && GivenUp(a[b], qs[b], uses)
  {
  }

  lemma DestroyedGivenUp(c: Caps, l: Link, h: nat, b: nat)
    requires Inv(c, l) && h in l.qdiscs && b in l.qdiscs && b != h && l.root != Some(h)
    ensures var qs: Qdiscs := ClearMq(Emptied(l, h).qdiscs, h) - {h};
            b in qs && GivenUp(l.qdiscs[b], qs[b], Uses(l.qdiscs[h], b))
  {
    TrackedAll(l.qdiscs, h);
    UnlinkedUses(l.qdiscs, h, 0, b);
    EmptiedOnly(c, l, h);
    ClearedGivenUp(l.qdiscs, Emptied(l, h).qdiscs, h, b, Uses(l.qdiscs[h], b));
  }

  lemma DestroyDrops(c: Caps, l: Link, h: nat, unregistering: bool)
    requires Inv(c, l) && h in l.qdiscs && MayDestroy(l, h, unregistering) && l.root != Some(h)
    ensures Drops(l, Destroyed(c, l, h, unregistering, {}), h, true)
  {
    var r := Destroyed(c, l, h, unregistering, {});
    DestroyedIs(c, l, h, unregistering);
    forall queue: nat ensures Occupant(r, queue) == if Occupant(l, queue) == Some(h) then None else Occupant(l, queue) {
      EmptiedOccupant(c, l, h, queue);
      ClearedOccupant(Emptied(l, h), h, queue);
    }
    forall b | b in l.qdiscs && b != h
      ensures b in r.qdiscs && GivenUp(l.qdiscs[b], r.qdiscs[b], Uses(l.qdiscs[h], b))
    {
      DestroyedGivenUp(c, l, h, b);
    }
  }

  /** Destroying a qdisc that is not the root does not update the offload. The levels still match exactly if it
      had no real threshold of its own, and held back no other qdisc that has one. */
  lemma DestroyMatchesExactly(c: Caps, base: nat, l: Link, fw: seq<nat>, h: nat, unregistering: bool)
    requires Inv(c, l) && Matches(l, base, c.queues, fw)
    requires h in l.qdiscs && MayDestroy(l, h, unregistering) && l.root != Some(h)
    ensures Matches(Destroyed(c, l, h, unregistering, {}), base, c.queues, fw)
            <==> !Stale(l, base, c.queues, |fw|, h, true)
  {
    DestroyDrops(c, l, h, unregistering);
    DropMatchesExactly(c, base, l, Destroyed(c, l, h, unregistering, {}), fw, h, true);
  }

  // ---- notifications that do not update the offload ----

  /** The notification leaves some of the first n levels behind. */
  predicate Lags(l: Link, base: nat, queues: nat, n: nat, e: Event) {
    match e
    case Destroy(h, _) => h in l.qdiscs && Stale(l, base, queues, n, h, true)
    case RedReplace(h, limit, _, _) =>
      limit && h in l.qdiscs && l.qdiscs[h].kind == Red && Stale(l, base, queues, n, h, false)
    case _ => false
  }

  /** Only h is different, and it was and is not good. */
  lemma OnlyBadDiffers(l: Link, r: Link, h: nat, queue: nat)
    requires Closed(l.qdiscs) && (l.root.Some? ==> l.root.value in l.qdiscs)
    requires h in r.qdiscs && r == l.(qdiscs := l.qdiscs[h := r.qdiscs[h]])
    requires h in l.qdiscs ==> r.qdiscs[h].kind == l.qdiscs[h].kind != Mq
    requires h in l.qdiscs ==> !Good(l.qdiscs[h], l.hasPrio)
    requires !Good(r.qdiscs[h], l.hasPrio)
    ensures Asks(r, queue) == Asks(l, queue)
  {
    if Occupant(l, queue).Some? { OccupantKnown(l, queue); }
  }

  /** Configuring a RED that drops no child changes nothing else. */
  lemma RedConfiguresOnly(c: Caps, l: Link, h: nat, limit: bool, p: RedParams, noMem: bool)
    requires h in l.qdiscs ==> l.qdiscs[h].kind == Red ==> RedReady(l.qdiscs, h)
    requires h in l.qdiscs && l.qdiscs[h].kind == Red ==> !limit || !l.qdiscs[h].children[0].Child?
    requires RedConfigured(c, l, h, limit, p, noMem).0 == 0
    ensures var r := RedConfigured(c, l, h, limit, p, noMem).1;
            h in r.qdiscs && r == l.(qdiscs := l.qdiscs[h := r.qdiscs[h]]) && r.qdiscs[h].kind == Red
            && r.qdiscs[h].useCnt == (if h in l.qdiscs then l.qdiscs[h].useCnt else 0)
            && (h in l.qdiscs ==> l.qdiscs[h].kind == Red)
  {
  }

  lemma RedQuiet(c: Caps, l: Link, h: nat, limit: bool, p: RedParams, noMem: bool, queue: nat)
    requires Inv(c, l) && c.numBands <= MAX_DPS && !Refreshes(c, l, RedReplace(h, limit, p, noMem))
    requires h in l.qdiscs && l.qdiscs[h].kind == Red && limit ==>
               |l.qdiscs[h].children| > 0 && !l.qdiscs[h].children[0].Child?
    ensures Asks(Step(c, l, RedReplace(h, limit, p, noMem), {}), queue) == Asks(l, queue)
  {
    ReplaceRedKeeps(c, l, h, limit, p, noMem, {});
    var (err, r) := RedConfigured(c, l, h, limit, p, noMem);
    if err == 0 {
      RedConfiguresOnly(c, l, h, limit, p, noMem);
      OnlyBadDiffers(l, r, h, queue);
    }
  }

  /** RED h has lost its child b. */
  predicate LostChild(l: Link, r: Link, h: nat, b: nat) {
    r.qdiscs.Keys == l.qdiscs.Keys && r.root == l.root && r.hasPrio == l.hasPrio && h in l.qdiscs
    && r.qdiscs[h].useCnt == l.qdiscs[h].useCnt - Points(Child(b), h)
    && r.qdiscs[h].children == [Empty] && r.qdiscs[h].kind == Red
    && forall g :: g in l.qdiscs && g != h ==>
         r.qdiscs[g] == l.qdiscs[g].(useCnt := l.qdiscs[g].useCnt - Points(Child(b), g))
  }

  lemma DroppedUse(c: Caps, l: Link, h: nat, p: RedParams, noMem: bool, b: nat)
    requires RedReady(l.qdiscs, h) && b in l.qdiscs && l.qdiscs[h].children[0] == Child(b)
    ensures var (err, r) := RedConfigured(c, l, h, true, p, noMem); err == 0 && LostChild(l, r, h, b)
  {
  }

  lemma OneUse(q: Qdisc, b: nat)
    requires |q.children| == 1
    ensures Uses(q, b) == Points(q.children[0], b)
  {
    assert UsesFrom(q.children, b, 1) == 0;
  }

  /** A RED that is not used once afterwards is configured and nothing more. */
  lemma RedSteps(c: Caps, l: Link, h: nat, p: RedParams, noMem: bool)
    requires Inv(c, l) && c.numBands <= MAX_DPS && RedReady(l.qdiscs, h)
    requires RedConfigured(c, l, h, true, p, noMem).0 == 0
    ensures var r := RedConfigured(c, l, h, true, p, noMem).1;
            if r.qdiscs[h].useCnt == 1 then Refreshes(c, l, RedReplace(h, true, p, noMem))
            else Step(c, l, RedReplace(h, true, p, noMem), {}) == r && !Refreshes(c, l, RedReplace(h, true, p, noMem))
  {
    ReplaceRedKeeps(c, l, h, true, p, noMem, {});
  }

  lemma RedGivesUp(l: Link, r: Link, h: nat, b: nat)
    requires RedReady(l.qdiscs, h) && l.qdiscs[h].children[0] == Child(b) && LostChild(l, r, h, b)
    requires r.qdiscs[h].useCnt != 1
    ensures Drops(l, r, h, false)
  {
    forall g | g in l.qdiscs && g != h ensures GivenUp(l.qdiscs[g], r.qdiscs[g], Uses(l.qdiscs[h], g)) {
      OneUse(l.qdiscs[h], g);
    }
  }

  lemma RedDrops(c: Caps, l: Link, h: nat, p: RedParams, noMem: bool, b: nat)
    requires Inv(c, l) && c.numBands <= MAX_DPS && RedReady(l.qdiscs, h) && l.qdiscs[h].children[0] == Child(b)
    requires !Refreshes(c, l, RedReplace(h, true, p, noMem))
    ensures Drops(l, Step(c, l, RedReplace(h, true, p, noMem), {}), h, false)
  {
    assert b in l.qdiscs;
    DroppedUse(c, l, h, p, noMem, b);
    RedSteps(c, l, h, p, noMem);
    RedGivesUp(l, RedConfigured(c, l, h, true, p, noMem).1, h, b);
  }

  lemma GredConfiguresOnly(c: Caps, l: Link, h: nat, p: GredParams, noMem: bool)
    requires c.numBands <= |p.tab| && c.numBands <= MAX_DPS && (h in l.qdiscs ==> |l.qdiscs[h].bands| == MAX_DPS)
    requires GredConfigured(c, l, h, p, noMem).0 == 0
    ensures var r := GredConfigured(c, l, h, p, noMem).1;
            h in r.qdiscs && r == l.(qdiscs := l.qdiscs[h := r.qdiscs[h]]) && r.qdiscs[h].kind == Gred
            && r.qdiscs[h].useCnt == (if h in l.qdiscs then l.qdiscs[h].useCnt else 0)
            && (h in l.qdiscs ==> l.qdiscs[h].kind == Gred)
  {
  }

  lemma GredQuiet(c: Caps, l: Link, h: nat, p: GredParams, noMem: bool, queue: nat)
    requires Inv(c, l) && c.numBands <= MAX_DPS && c.numBands <= |p.tab|
    requires !Refreshes(c, l, GredReplace(h, p, noMem))
    ensures Asks(Step(c, l, GredReplace(h, p, noMem), {}), queue) == Asks(l, queue)
  {
    ReplaceGredKeeps(c, l, h, p, noMem, {});
    var (err, r) := GredConfigured(c, l, h, p, noMem);
    if err == 0 {
      GredConfiguresOnly(c, l, h, p, noMem);
      OnlyBadDiffers(l, r, h, queue);
    }
  }

  /** The remaining notifications that do not update the offload do not change what is asked for. */
  lemma QuietAsks(c: Caps, l: Link, e: Event, queue: nat)
    requires Inv(c, l) && Enabled(c, l, e) && c.numBands <= MAX_DPS && !Refreshes(c, l, e)
    requires !e.RedReplace? && (e.Destroy? ==> e.h !in l.qdiscs)
    ensures Asks(Step(c, l, e, {}), queue) == Asks(l, queue)
  {
    match e
    case GredReplace(h, p, noMem) => GredQuiet(c, l, h, p, noMem, queue);
    case _ =>
  }

  /** Whatever the levels were, an update makes them match. */
  lemma UpdatedMatches(l: Link, base: nat, queues: nat, fw: seq<nat>)
    ensures Matches(l, base, queues, Updated(l, base, queues, fw))
  {
  }

  lemma SameAsksMatch(l: Link, r: Link, base: nat, queues: nat, fw: seq<nat>)
    requires Matches(l, base, queues, fw) && forall queue: nat :: Asks(l, queue) == Asks(r, queue)
    ensures Matches(r, base, queues, fw)
  {
    forall id | 0 <= id < |fw| && Owns(base, queues, id)
      ensures fw[id] == WantedLevel(r, {}, RingOf(id) - base, BandOf(id))
    {
      assert Asks(l, RingOf(id) - base) == Asks(r, RingOf(id) - base);
      WantedIs(l, RingOf(id) - base, BandOf(id));
      WantedIs(r, RingOf(id) - base, BandOf(id));
    }
  }

  lemma NoChildNoneStale(l: Link, base: nat, queues: nat, n: nat, h: nat)
    requires h in l.qdiscs && |l.qdiscs[h].children| == 1 && !l.qdiscs[h].children[0].Child?
    ensures !Stale(l, base, queues, n, h, false)
  {
    forall b ensures Uses(l.qdiscs[h], b) == 0 { OneUse(l.qdiscs[h], b); }
  }

  /** A RED that is configured with a limit and not used once drops its child without an update of the offload.
      The levels still match exactly if that child is not held back by this RED alone, or has no real threshold. */
  lemma RedMatchesExactly(c: Caps, base: nat, l: Link, fw: seq<nat>, h: nat, limit: bool, p: RedParams, noMem: bool)
    requires Inv(c, l) && c.numBands <= MAX_DPS && Matches(l, base, c.queues, fw)
    requires !Refreshes(c, l, RedReplace(h, limit, p, noMem))
    ensures Matches(Step(c, l, RedReplace(h, limit, p, noMem), {}), base, c.queues, fw)
            <==> !Lags(l, base, c.queues, |fw|, RedReplace(h, limit, p, noMem))
  {
    var r := Step(c, l, RedReplace(h, limit, p, noMem), {});
    var known := h in l.qdiscs && l.qdiscs[h].kind == Red;
    if known { RedIsReady(c, l, h); }
    if known && limit && l.qdiscs[h].children[0].Child? {
      RedDrops(c, l, h, p, noMem, l.qdiscs[h].children[0].handle);
      DropMatchesExactly(c, base, l, r, fw, h, false);
    } else {
      if known { NoChildOrLimit(l, base, c.queues, |fw|, h, limit); }
      forall queue: nat ensures Asks(l, queue) == Asks(r, queue) { RedQuiet(c, l, h, limit, p, noMem, queue); }
      SameAsksMatch(l, r, base, c.queues, fw);
    }
  }

  lemma NoChildOrLimit(l: Link, base: nat, queues: nat, n: nat, h: nat, limit: bool)
    requires h in l.qdiscs && |l.qdiscs[h].children| == 1 && !(limit && l.qdiscs[h].children[0].Child?)
    ensures !(limit && Stale(l, base, queues, n, h, false))
  {
    if limit { NoChildNoneStale(l, base, queues, n, h); }
  }

  /** One notification without faults: the levels match after it if it updates the offload; otherwise, if they
      matched before, they match exactly if it does not lag. */
  lemma StepMatchesExactly(c: Caps, base: nat, l: Link, fw: seq<nat>, e: Event)
    requires Inv(c, l) && Enabled(c, l, e) && c.numBands <= MAX_DPS
    requires Refreshes(c, l, e) || Matches(l, base, c.queues, fw)
    ensures Matches(Step(c, l, e, {}), base, c.queues, Levels(c, base, l, fw, e))
            <==> Refreshes(c, l, e) || !Lags(l, base, c.queues, |fw|, e)
  {
    var r := Step(c, l, e, {});
    if Refreshes(c, l, e) {
      UpdatedMatches(r, base, c.queues, fw);
    } else if e.RedReplace? {
      RedMatchesExactly(c, base, l, fw, e.h, e.limit, e.red, e.noMem);
    } else if e.Destroy? && e.h in l.qdiscs {
      DestroyMatchesExactly(c, base, l, fw, e.h, e.unregistering);
    } else {
      forall queue: nat ensures Asks(l, queue) == Asks(r, queue) { QuietAsks(c, l, e, queue); }
      SameAsksMatch(l, r, base, c.queues, fw);
    }
  }

  // ---- all runs ----

  ghost predicate Legal(c: Caps, l: Link, run: seq<Event>)
    requires Inv(c, l) && c.numBands <= MAX_DPS
    decreases |run|
  {
    run == [] || (Enabled(c, l, run[0]) && Legal(c, Step(c, l, run[0], {}), run[1..]))
  }

  ghost function Exec(c: Caps, base: nat, l: Link, fw: seq<nat>, run: seq<Event>): (r: (Link, seq<nat>))
    requires Inv(c, l) && c.numBands <= MAX_DPS && Legal(c, l, run)
    decreases |run|
  {
    if run == [] then (l, fw) else Exec(c, base, Step(c, l, run[0], {}), Levels(c, base, l, fw, run[0]), run[1..])
  }

  /** Every notification of the run that lags is followed by one that updates the offload; `synced` says whether
      the levels matched before the run. */
  ghost predicate Caught(c: Caps, base: nat, n: nat, l: Link, run: seq<Event>, synced: bool)
    requires Inv(c, l) && c.numBands <= MAX_DPS && Legal(c, l, run)
    decreases |run|
  {
    if run == [] then synced
    else
      var e := run[0];
      Caught(c, base, n, Step(c, l, e, {}), run[1..],
             Refreshes(c, l, e) || (synced && !Lags(l, base, c.queues, n, e)))
  }

  /** Over all runs without faults: the levels in the firmware are those the hierarchy asks for, if every
      notification that lags has been followed by an update. */
  lemma {:induction false} RunMatches(c: Caps, base: nat, l: Link, fw: seq<nat>, run: seq<Event>, synced: bool)
    requires Inv(c, l) && c.numBands <= MAX_DPS && Legal(c, l, run) && Caught(c, base, |fw|, l, run, synced)
    requires synced ==> Matches(l, base, c.queues, fw)
    ensures var (r, now) := Exec(c, base, l, fw, run); Matches(r, base, c.queues, now)
    decreases |run|
  {
    if run != [] {
      var e := run[0];
      var still := Refreshes(c, l, e) || (synced && !Lags(l, base, c.queues, |fw|, e));
      if still { StepMatchesExactly(c, base, l, fw, e); }
      RunMatches(c, base, Step(c, l, e, {}), Levels(c, base, l, fw, e), run[1..], still);
    }
  }

  /** The driver starts with all levels at infinity, which is what an empty hierarchy asks for. */
  lemma StartMatches(base: nat, queues: nat, fw: seq<nat>)
    requires forall id :: 0 <= id < |fw| ==> fw[id] == INFINITY
    ensures Matches(NEW_LINK, base, queues, fw)
  {
  }

  // ---- a run after which the levels lag behind ----

  const CAPS := Caps(1, true, true, 0, 1)

  const FIVE := RedParams(false, false, 5, 5)

  /** MQ 9 with one queue and nothing in it, alone. */
  predicate EmptyMq(l: Link) {
    l.qdiscs.Keys == {9} && l.qdiscs[9].kind == Mq && l.qdiscs[9].children == [Empty] && !l.hasPrio
  }

  lemma MqCreated()
    ensures EmptyMq(CreateMq(CAPS, NEW_LINK, 9, false, {}).1) && CreateMq(CAPS, NEW_LINK, 9, false, {}).1.root == None
  {
  }

  lemma MqRooted(l: Link)
    requires EmptyMq(l) && l.root == None
    ensures var r := RootSet(CAPS, l, 9, false, {}).1; EmptyMq(r) && r.root == Some(9)
  {
  }

  predicate SparseRed(l: Link, uses: int) {
    1 in l.qdiscs && l.qdiscs[1].kind == Red && l.qdiscs[1].paramsOk && l.qdiscs[1].useCnt == uses
    && l.qdiscs[1].children == [Empty] && |l.qdiscs[1].bands| == MAX_DPS && l.qdiscs[1].bands[0].threshold == 5
  }

  lemma RedAdded(l: Link)
    requires EmptyMq(l)
    ensures var r := ReplaceRed(CAPS, l, 1, true, FIVE, false, {}).1;
            SparseRed(r, 0) && r == l.(qdiscs := l.qdiscs[1 := r.qdiscs[1]])
  {
  }

  lemma RedGrafted(l: Link)
    requires l.qdiscs.Keys == {1, 9} && l.qdiscs[9].kind == Mq && l.qdiscs[9].children == [Empty] && !l.hasPrio
    requires l.root == Some(9) && SparseRed(l, 0)
    ensures var r := Grafted(CAPS, l, 9, 1, 0, {}).1;
            r.root == Some(9) && SparseRed(r, 1) && !r.hasPrio && 9 in r.qdiscs && r.qdiscs[9].kind == Mq
            && r.qdiscs[9].children == [Child(1)] && r.qdiscs.Keys == {1, 9}
  {
  }

  /** RED 1 with threshold 5 at the only queue of the root. */
  lemma RedAtRoot() returns (l: Link)
    ensures Reachable(CAPS, l) && Inv(CAPS, l) && l.root == Some(9) && SparseRed(l, 1) && !l.hasPrio
    ensures 9 in l.qdiscs && l.qdiscs[9].kind == Mq && l.qdiscs[9].children == [Child(1)] && l.qdiscs.Keys == {1, 9}
  {
    ReachableNew(CAPS);
    NewLinkInv(CAPS);
    ReachableOn(CAPS, NEW_LINK, MqCreate(9, false), {});
    MqCreated();
    l := Step(CAPS, NEW_LINK, MqCreate(9, false), {});
    l := RedAtRootFrom(l);
  }

  lemma RedAtRootFrom(l0: Link) returns (l: Link)
    requires Reachable(CAPS, l0) && EmptyMq(l0) && l0.root == None
    ensures Reachable(CAPS, l) && Inv(CAPS, l) && l.root == Some(9) && SparseRed(l, 1) && !l.hasPrio
    ensures 9 in l.qdiscs && l.qdiscs[9].kind == Mq && l.qdiscs[9].children == [Child(1)] && l.qdiscs.Keys == {1, 9}
  {
    l := RootedFrom(l0);
    l := RedFrom(l);
    l := GraftedFrom(l);
  }

  lemma RootedFrom(l: Link) returns (r: Link)
    requires Reachable(CAPS, l) && EmptyMq(l) && l.root == None
    ensures Reachable(CAPS, r) && EmptyMq(r) && r.root == Some(9)
  {
    ReachableInv(CAPS, l);
    ReachableOn(CAPS, l, SetRoot(9, false), {});
    MqRooted(l);
    r := Step(CAPS, l, SetRoot(9, false), {});
  }

  lemma RedFrom(l: Link) returns (r: Link)
    requires Reachable(CAPS, l) && EmptyMq(l)
    ensures Reachable(CAPS, r) && SparseRed(r, 0) && r == l.(qdiscs := l.qdiscs[1 := r.qdiscs[1]])
  {
    ReachableInv(CAPS, l);
    ReachableOn(CAPS, l, RedReplace(1, true, FIVE, false), {});
    RedAdded(l);
    r := Step(CAPS, l, RedReplace(1, true, FIVE, false), {});
  }

  lemma GraftedFrom(l: Link) returns (r: Link)
    requires Reachable(CAPS, l) && l.qdiscs.Keys == {1, 9} && l.qdiscs[9].kind == Mq && l.qdiscs[9].children == [Empty]
    requires !l.hasPrio && l.root == Some(9) && SparseRed(l, 0)
    ensures Reachable(CAPS, r) && Inv(CAPS, r) && r.root == Some(9) && SparseRed(r, 1) && !r.hasPrio
    ensures 9 in r.qdiscs && r.qdiscs[9].kind == Mq && r.qdiscs[9].children == [Child(1)] && r.qdiscs.Keys == {1, 9}
  {
    ReachableInv(CAPS, l);
    ReachableOn(CAPS, l, Graft(9, 1, 0), {});
    RedGrafted(l);
    r := Step(CAPS, l, Graft(9, 1, 0), {});
    ReachableInv(CAPS, r);
  }

  lemma FiveWanted(l: Link)
    requires l.root == Some(9) && SparseRed(l, 1) && !l.hasPrio
    requires 9 in l.qdiscs && l.qdiscs[9].kind == Mq && l.qdiscs[9].children == [Child(1)]
    ensures Occupant(l, 0) == Some(1) && WantedLevel(l, {}, 0, 0) == 5
  {
  }

  /** A reachable link whose levels match, and stop matching when the RED at its queue is destroyed. */
  lemma DestroyLeavesThreshold(fw: seq<nat>) returns (l: Link, now: seq<nat>)
    requires |fw| == MAX_RX_RINGS
    ensures Reachable(CAPS, l) && Inv(CAPS, l) && 1 in l.qdiscs && MayDestroy(l, 1, false)
    ensures |now| == |fw| && Matches(l, 0, 1, now) && !Matches(Destroyed(CAPS, l, 1, false, {}), 0, 1, now)
  {
    l := RedAtRoot();
    now := Updated(l, 0, 1, fw);
    UpdatedMatches(l, 0, 1, fw);
    FiveWanted(l);
    assert RingOf(0) == 0 && BandOf(0) == 0;
    assert LimitsAt(l, 0, 1, 1, 0) && StaleAt(l, 0, 1, 1, true, 0);
    OnlyRootHolds(l);
    DestroyMatchesExactly(CAPS, 0, l, now, 1, false);
  }

  lemma OnlyRootHolds(l: Link)
    requires l.qdiscs.Keys == {1, 9} && l.qdiscs[9].kind == Mq && l.root == Some(9)
    ensures MayDestroy(l, 1, false)
  {
  }

  /** RED 1 with threshold 5 at the only queue of the root, and as the child of RED 2, which is not used. */
  predicate SharedRed(l: Link) {
    l.root == Some(9) && !l.hasPrio && SparseRed(l, 2) && l.qdiscs.Keys == {1, 2, 9} && l.qdiscs[9].kind == Mq
    && l.qdiscs[9].children == [Child(1)]
    && l.qdiscs[2].kind == Red && l.qdiscs[2].useCnt == 0 && l.qdiscs[2].children == [Child(1)]
  }

  lemma SecondRedAdded(l: Link)
    requires 2 !in l.qdiscs
    ensures var r := ReplaceRed(CAPS, l, 2, false, FIVE, false, {}).1;
            2 in r.qdiscs && r == l.(qdiscs := l.qdiscs[2 := r.qdiscs[2]]) && r.qdiscs[2].kind == Red
            && r.qdiscs[2].useCnt == 0 && r.qdiscs[2].children == [Untracked]
  {
  }

  lemma SecondRedGrafted(l: Link)
    requires l.root == Some(9) && !l.hasPrio && SparseRed(l, 1) && l.qdiscs.Keys == {1, 2, 9} && l.qdiscs[9].kind == Mq
    requires l.qdiscs[9].children == [Child(1)]
    requires l.qdiscs[2].kind == Red && l.qdiscs[2].useCnt == 0 && l.qdiscs[2].children == [Untracked]
    ensures SharedRed(Grafted(CAPS, l, 2, 1, 0, {}).1)
  {
  }

  lemma SharedRedReached() returns (l: Link)
    ensures Reachable(CAPS, l) && Inv(CAPS, l) && SharedRed(l)
  {
    l := RedAtRoot();
    l := AddSecond(l);
    l := GraftSecond(l);
  }

  lemma AddSecond(l: Link) returns (r: Link)
    requires Reachable(CAPS, l) && Inv(CAPS, l) && 2 !in l.qdiscs
    ensures Reachable(CAPS, r) && 2 in r.qdiscs && r == l.(qdiscs := l.qdiscs[2 := r.qdiscs[2]])
    ensures r.qdiscs[2].kind == Red && r.qdiscs[2].useCnt == 0 && r.qdiscs[2].children == [Untracked]
  {
    ReachableOn(CAPS, l, RedReplace(2, false, FIVE, false), {});
    SecondRedAdded(l);
    r := Step(CAPS, l, RedReplace(2, false, FIVE, false), {});
  }

  lemma GraftSecond(l: Link) returns (r: Link)
    requires Reachable(CAPS, l)
    requires l.root == Some(9) && !l.hasPrio && SparseRed(l, 1) && l.qdiscs.Keys == {1, 2, 9} && l.qdiscs[9].kind == Mq
    requires l.qdiscs[9].children == [Child(1)]
    requires l.qdiscs[2].kind == Red && l.qdiscs[2].useCnt == 0 && l.qdiscs[2].children == [Untracked]
    ensures Reachable(CAPS, r) && Inv(CAPS, r) && SharedRed(r)
  {
    ReachableInv(CAPS, l);
    ReachableOn(CAPS, l, Graft(2, 1, 0), {});
    SecondRedGrafted(l);
    r := Step(CAPS, l, Graft(2, 1, 0), {});
    ReachableInv(CAPS, r);
  }

  lemma SharedRedStale(l: Link)
    requires SharedRed(l)
    ensures Occupant(l, 0) == Some(1) && Stale(l, 0, 1, MAX_RX_RINGS, 2, false) && Stale(l, 0, 1, MAX_RX_RINGS, 2, true)
  {
    OneUse(l.qdiscs[2], 1);
    assert RingOf(0) == 0 && BandOf(0) == 0;
    assert ExposesAt(l, 0, 1, 2, 0);
    assert StaleAt(l, 0, 1, 2, false, 0) && StaleAt(l, 0, 1, 2, true, 0);
  }

  lemma SharedRedQuiet(l: Link)
    requires Inv(CAPS, l) && SharedRed(l)
    ensures !Refreshes(CAPS, l, RedReplace(2, true, FIVE, false))
  {
    RedIsReady(CAPS, l, 2);
    DroppedUse(CAPS, l, 2, FIVE, false, 1);
    RedSteps(CAPS, l, 2, FIVE, false);
  }

  lemma SecondRedFree(l: Link)
    requires SharedRed(l)
    ensures MayDestroy(l, 2, false)
  {
  }

  /** A reachable link whose levels match, and stop matching when RED 2, which is not used and has no threshold
      in the firmware, is given a limit or is destroyed. */
  lemma DropExposesThreshold(fw: seq<nat>) returns (l: Link, now: seq<nat>)
    requires |fw| == MAX_RX_RINGS
    ensures Reachable(CAPS, l) && Inv(CAPS, l) && SharedRed(l) && MayDestroy(l, 2, false)
    ensures |now| == |fw| && Matches(l, 0, 1, now)
    ensures !Matches(Step(CAPS, l, RedReplace(2, true, FIVE, false), {}), 0, 1, now)
    ensures !Matches(Destroyed(CAPS, l, 2, false, {}), 0, 1, now)
  {
    l := SharedRedReached();
    now := Updated(l, 0, 1, fw);
    UpdatedMatches(l, 0, 1, fw);
    SharedRedStale(l);
    SharedRedQuiet(l);
    SecondRedFree(l);
    RedMatchesExactly(CAPS, 0, l, now, 2, true, FIVE, false);
    DestroyMatchesExactly(CAPS, 0, l, now, 2, false);
  }
}
