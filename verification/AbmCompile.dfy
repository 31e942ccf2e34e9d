/**
 What compiling the qdisc hierarchy of an ABM link asks of the firmware (src/abm/qdisc.c): the levels
 and actions of its subqueues, band by band and queue by queue.
 */
module AbmCompile {
  import opened Wrappers
  import opened AbmGraph
  import opened AbmEvents

  const MAX_RX_RINGS: nat := 64

  datatype Action = MarkDrop | Drop

  /** What can go wrong while an update talks to the device: statistics that cannot be read, levels and
      actions that cannot be written. */
  datatype Faults = Faults(stats: set<nat>, levels: set<nat>, actions: set<nat>)

  // ---- what a link wants from the firmware ----

  function BandOf(id: nat): nat { id / MAX_RX_RINGS }

  function RingOf(id: nat): nat { id % MAX_RX_RINGS }

  function IdOf(band: nat, ring: nat): nat { band * MAX_RX_RINGS + ring }

  lemma IdParts(band: nat, ring: nat)
    requires ring < MAX_RX_RINGS
    ensures BandOf(IdOf(band, ring)) == band && RingOf(IdOf(band, ring)) == ring
  {
  }

  lemma IdUnique(id: nat)
    ensures id == IdOf(BandOf(id), RingOf(id)) && RingOf(id) < MAX_RX_RINGS
  {
  }

  predicate Owns(base: nat, queues: nat, id: nat) { base <= RingOf(id) < base + queues }

  /** The qdisc at a queue of the root MQ. */
  function Occupant(l: Link, queue: nat): Option<nat> {
    if RootMq(l) && queue < |l.qdiscs[l.root.value].children| && l.qdiscs[l.root.value].children[queue].Child?
    then Some(l.qdiscs[l.root.value].children[queue].handle) else None
  }

  predicate Eligible(l: Link, bad: set<nat>, queue: nat) {
    var h := Occupant(l, queue);
    h.Some? && h.value in l.qdiscs && Good(l.qdiscs[h.value], l.hasPrio)
    && (l.qdiscs[h.value].offloaded || h.value !in bad)
  }

  /** The band of the qdisc that a queue is compiled from. */
  function BandFor(l: Link, bad: set<nat>, queue: nat, band: nat): Band
    requires Eligible(l, bad, queue)
  {
    var bands := l.qdiscs[Occupant(l, queue).value].bands;
    if band < |bands| then bands[band] else Band(false, 0)
  }

  function WantedLevel(l: Link, bad: set<nat>, queue: nat, band: nat): nat {
    if Eligible(l, bad, queue) then BandFor(l, bad, queue, band).threshold else INFINITY
  }

  function ActionOf(b: Band): Action { if b.ecn then MarkDrop else Drop }

  /** The level of subqueue `id` after an update of link l. */
  function LevelAfter(l: Link, f: Faults, base: nat, queues: nat, id: nat, was: nat): nat {
    if Owns(base, queues, id) && id !in f.levels then WantedLevel(l, f.stats, RingOf(id) - base, BandOf(id)) else was
  }

  function ActionAfter(l: Link, f: Faults, base: nat, queues: nat, id: nat, was: Action): Action {
    if Owns(base, queues, id) && id !in f.actions && Eligible(l, f.stats, RingOf(id) - base)
    then ActionOf(BandFor(l, f.stats, RingOf(id) - base, BandOf(id))) else was
  }

  // ---- writing one ring, band by band ----

  predicate InRing(ring: nat, n: nat, id: nat) { RingOf(id) == ring && BandOf(id) < n }

  /** `was` with the first n bands of a ring overwritten by `vals`, except at the `bad` places. */
  function Filled<T>(was: seq<T>, ring: nat, vals: seq<T>, bad: set<nat>, n: nat): (r: seq<T>)
    requires n <= |vals|
    ensures |r| == |was|
  {
    seq(|was|, id requires 0 <= id < |was| =>
      if InRing(ring, n, id) && id !in bad then vals[BandOf(id)] else was[id])
  }

  lemma NextInRing(ring: nat, n: nat, id: nat)
    requires ring < MAX_RX_RINGS
    ensures InRing(ring, n + 1, id) <==> InRing(ring, n, id) || id == IdOf(n, ring)
    ensures RingOf(IdOf(n, ring)) == ring && BandOf(IdOf(n, ring)) == n
  {
    IdParts(n, ring);
    IdUnique(id);
  }

  lemma FilledOn<T>(was: seq<T>, ring: nat, vals: seq<T>, bad: set<nat>, n: nat)
    requires n < |vals| && ring < MAX_RX_RINGS && IdOf(n, ring) < |was|
    ensures var id, r := IdOf(n, ring), Filled(was, ring, vals, bad, n);
            Filled(was, ring, vals, bad, n + 1) == if id in bad then r else r[id := vals[n]]
  {
    forall id | 0 <= id < |was|
      ensures Filled(was, ring, vals, bad, n + 1)[id] ==
              if id == IdOf(n, ring) && id !in bad then vals[n] else Filled(was, ring, vals, bad, n)[id]
    {
      NextInRing(ring, n, id);
    }
  }

  function Defined(undef: set<nat>, ring: nat, n: nat): set<nat> {
    set id | id in undef && !InRing(ring, n, id)
  }

  lemma DefinedOn(undef: set<nat>, ring: nat, n: nat)
    requires ring < MAX_RX_RINGS
    ensures Defined(undef, ring, n + 1) == Defined(undef, ring, n) - {IdOf(n, ring)}
  {
    forall id | id in undef
      ensures id in Defined(undef, ring, n + 1) <==> id in Defined(undef, ring, n) - {IdOf(n, ring)}
    {
      NextInRing(ring, n, id);
    }
  }

  function Levels(bands: seq<Band>): (r: seq<nat>)
    ensures |r| == |bands|
  {
    seq(|bands|, i requires 0 <= i < |bands| => bands[i].threshold)
  }

  function Actions(bands: seq<Band>): (r: seq<Action>)
    ensures |r| == |bands|
  {
    seq(|bands|, i requires 0 <= i < |bands| => ActionOf(bands[i]))
  }

  // ---- compiling queue by queue ----

  /** The first n queues have been compiled and `id` belongs to one that is eligible. */
  predicate Compiled(l: Link, bad: set<nat>, base: nat, n: nat, id: nat) {
    Owns(base, n, id) && Eligible(l, bad, RingOf(id) - base)
  }

  function CompiledLevels(l: Link, f: Faults, base: nat, n: nat, was: seq<nat>): (r: seq<nat>)
    ensures |r| == |was|
  {
    seq(|was|, id requires 0 <= id < |was| =>
      if Compiled(l, f.stats, base, n, id) && id !in f.levels
      then BandFor(l, f.stats, RingOf(id) - base, BandOf(id)).threshold else was[id])
  }

  function CompiledActions(l: Link, f: Faults, base: nat, n: nat, was: seq<Action>): (r: seq<Action>)
    ensures |r| == |was|
  {
    seq(|was|, id requires 0 <= id < |was| =>
      if Compiled(l, f.stats, base, n, id) && id !in f.actions
      then ActionOf(BandFor(l, f.stats, RingOf(id) - base, BandOf(id))) else was[id])
  }

  function CompiledUndef(l: Link, bad: set<nat>, base: nat, n: nat, undef: set<nat>): set<nat> {
    set id | id in undef && !Compiled(l, bad, base, n, id)
  }

  lemma BandsBelow(id: nat, numBands: nat)
    requires id < numBands * MAX_RX_RINGS
    ensures BandOf(id) < numBands
  {
  }

  lemma CompiledNext(l: Link, bad: set<nat>, base: nat, n: nat, numBands: nat, id: nat)
    requires id < numBands * MAX_RX_RINGS
    ensures Compiled(l, bad, base, n + 1, id) <==>
            Compiled(l, bad, base, n, id) || (Eligible(l, bad, n) && InRing(base + n, numBands, id))
    ensures Compiled(l, bad, base, n, id) ==> !InRing(base + n, numBands, id)
    ensures InRing(base + n, numBands, id) ==> RingOf(id) - base == n
  {
    BandsBelow(id, numBands);
  }

  function BandsAt(l: Link, bad: set<nat>, n: nat): seq<Band>
    requires Eligible(l, bad, n)
  {
    l.qdiscs[Occupant(l, n).value].bands
  }

  lemma LevelsOn(l: Link, f: Faults, base: nat, n: nat, numBands: nat, was: seq<nat>)
    requires |was| == numBands * MAX_RX_RINGS && numBands <= MAX_DPS
    requires Eligible(l, f.stats, n) ==> |BandsAt(l, f.stats, n)| == MAX_DPS
    ensures CompiledLevels(l, f, base, n + 1, was) ==
            var r := CompiledLevels(l, f, base, n, was);
            if Eligible(l, f.stats, n) then Filled(r, base + n, Levels(BandsAt(l, f.stats, n)), f.levels, numBands)
            else r
  {
    var r, s := CompiledLevels(l, f, base, n, was), CompiledLevels(l, f, base, n + 1, was);
    if Eligible(l, f.stats, n) {
      var vals := Levels(BandsAt(l, f.stats, n));
      forall id | 0 <= id < |was| ensures s[id] == Filled(r, base + n, vals, f.levels, numBands)[id] {
        CompiledNext(l, f.stats, base, n, numBands, id);
      }
    } else {
      forall id | 0 <= id < |was| ensures s[id] == r[id] { CompiledNext(l, f.stats, base, n, numBands, id); }
    }
  }

  lemma ActionsOn(l: Link, f: Faults, base: nat, n: nat, numBands: nat, was: seq<Action>)
    requires |was| == numBands * MAX_RX_RINGS && numBands <= MAX_DPS
    requires Eligible(l, f.stats, n) ==> |BandsAt(l, f.stats, n)| == MAX_DPS
    ensures CompiledActions(l, f, base, n + 1, was) ==
            var r := CompiledActions(l, f, base, n, was);
            if Eligible(l, f.stats, n) then Filled(r, base + n, Actions(BandsAt(l, f.stats, n)), f.actions, numBands)
            else r
  {
    var r, s := CompiledActions(l, f, base, n, was), CompiledActions(l, f, base, n + 1, was);
    if Eligible(l, f.stats, n) {
      var vals := Actions(BandsAt(l, f.stats, n));
      forall id | 0 <= id < |was| ensures s[id] == Filled(r, base + n, vals, f.actions, numBands)[id] {
        CompiledNext(l, f.stats, base, n, numBands, id);
      }
    } else {
      forall id | 0 <= id < |was| ensures s[id] == r[id] { CompiledNext(l, f.stats, base, n, numBands, id); }
    }
  }

  predicate Below(ids: set<nat>, n: nat) { forall id :: id in ids ==> id < n }

  lemma UndefOn(l: Link, bad: set<nat>, base: nat, n: nat, numBands: nat, undef: set<nat>)
    requires Below(undef, numBands * MAX_RX_RINGS)
    ensures CompiledUndef(l, bad, base, n + 1, undef) ==
            var r := CompiledUndef(l, bad, base, n, undef);
            if Eligible(l, bad, n) then Defined(r, base + n, numBands) else r
  {
    forall id | id in undef
      ensures id in CompiledUndef(l, bad, base, n + 1, undef) <==>
              id in CompiledUndef(l, bad, base, n, undef) && !(Eligible(l, bad, n) && InRing(base + n, numBands, id))
    {
      CompiledNext(l, bad, base, n, numBands, id);
    }
  }

  /** Ids of the subqueues of a link in the first n bands. */
  function Owned(base: nat, queues: nat, n: nat): set<nat> {
    set id: nat | id < n * MAX_RX_RINGS && Owns(base, queues, id)
  }

  predicate Between(start: nat, len: nat, id: nat) { start <= id < start + len }

  function Range(start: nat, len: nat): set<nat> { set id: nat | id < start + len && Between(start, len, id) }

  lemma OwnedOn(base: nat, queues: nat, n: nat)
    requires base + queues <= MAX_RX_RINGS
    ensures Owned(base, queues, n + 1) == Owned(base, queues, n) + Range(IdOf(n, base), queues)
  {
    forall id: nat
      ensures id in Owned(base, queues, n + 1) <==> id in Owned(base, queues, n) + Range(IdOf(n, base), queues)
    {
      IdUnique(id);
    }
  }

  function Reset(was: seq<nat>, undef: set<nat>, bad: set<nat>, n: nat): (r: seq<nat>)
    ensures |r| == |was|
  {
    seq(|was|, id requires 0 <= id < |was| => if id < n && id in undef && id !in bad then INFINITY else was[id])
  }

  function Above(ids: set<nat>, n: nat): set<nat> { set id | id in ids && n <= id }

  lemma AboveOn(ids: set<nat>, n: nat)
    ensures Above(ids, n + 1) == Above(ids, n) - {n}
    ensures n in Above(ids, n) <==> n in ids
  {
  }

  lemma ResetOn(was: seq<nat>, undef: set<nat>, bad: set<nat>, n: nat)
    requires n < |was|
    ensures var r := Reset(was, undef, bad, n);
            Reset(was, undef, bad, n + 1) == if n in undef && n !in bad then r[n := INFINITY] else r
  {
  }
}
