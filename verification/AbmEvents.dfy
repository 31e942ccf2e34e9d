/**
 The tc notifications an ABM link handles (src/abm/qdisc.c) as steps on its qdisc hierarchy, and what
 every sequence of them keeps.
 */
module AbmEvents {
  import opened Wrappers
  import opened AbmGraph

  // ---- selecting qdiscs for offload ----

  predicate Good(q: Qdisc, hasPrio: bool) {
    q.paramsOk && q.useCnt == 1
    && (q.kind == Gred || (q.kind == Red && !hasPrio && |q.children| > 0 && q.children[0] == Empty))
  }

  predicate RootMq(l: Link) {
    l.root.Some? && l.root.value in l.qdiscs && l.qdiscs[l.root.value].kind == Mq
  }

  /** Some queue of the root MQ holds h. */
  predicate AtRoot(l: Link, queues: nat, h: nat) {
    RootMq(l) && exists i: nat :: i < queues && Holds(l.qdiscs, l.root.value, i, h)
  }

  /** The offload mark after compiling, when the statistics of `bad` qdiscs cannot be initialised. */
  predicate Marked(l: Link, queues: nat, bad: set<nat>, h: nat)
    requires h in l.qdiscs
  {
    if AtRoot(l, queues, h) then Good(l.qdiscs[h], l.hasPrio) && (l.qdiscs[h].offloaded || h !in bad)
    else RootMq(l) && l.root == Some(h)
  }

  /** nfp_abm_qdisc_offload_update(), as far as the hierarchy is concerned. */
  function Refreshed(l: Link, queues: nat, bad: set<nat>): (r: Link)
    ensures r.qdiscs.Keys == l.qdiscs.Keys
  {
    l.(qdiscs := map h: nat | h in l.qdiscs ::
         l.qdiscs[h].(mark := Marked(l, queues, bad, h), offloaded := Marked(l, queues, bad, h)))
  }

  // ---- parameters ----

  datatype RedParams = RedParams(ecn: bool, harddrop: bool, min: nat, max: nat)

  predicate RedOk(c: Caps, p: RedParams) {
    (p.ecn || c.drop) && (p.ecn ==> c.marking) && !p.harddrop && p.min == p.max && p.min <= INFINITY
  }

  datatype GredBand = GredBand(present: bool, red: RedParams)

  datatype GredParams = GredParams(grio: bool, wred: bool, dpDef: nat, dpCnt: nat, tab: seq<GredBand>)

  predicate GredOk(c: Caps, p: GredParams)
    requires c.numBands <= |p.tab|
  {
    !p.grio && !p.wred && p.dpDef == c.defBand && p.dpCnt == c.numBands
    && forall i :: 0 <= i < c.numBands ==> p.tab[i].present && RedOk(c, p.tab[i].red)
  }

  function GredBands(was: seq<Band>, tab: seq<GredBand>, n: nat): (r: seq<Band>)
    requires n <= |was| && n <= |tab|
    ensures |r| == |was|
    ensures forall i :: 0 <= i < |was| ==>
              r[i] == if i < n then Band(tab[i].red.ecn, tab[i].red.min) else was[i]
  {
    seq(n, i requires 0 <= i < n => Band(tab[i].red.ecn, tab[i].red.min)) + was[n..]
  }

  // ---- the events ----

  datatype Event =
    | MqCreate(h: nat, noMem: bool)
    | RedReplace(h: nat, limit: bool, red: RedParams, noMem: bool)
    | GredReplace(h: nat, gred: GredParams, noMem: bool)
    | Graft(h: nat, child: nat, id: nat)
    | Destroy(h: nat, unregistering: bool)
    | SetRoot(h: nat, ingress: bool)
    | PrioChange(hasPrio: bool)

  function NumChildren(c: Caps, k: Kind): nat {
    match k case Mq => c.queues case Red => 1 case Gred => 0
  }

  function Fresh(c: Caps, k: Kind): Qdisc {
    Qdisc(k, 0, seq(NumChildren(c, k), _ => Empty), false, false, false, 0, seq(MAX_DPS, _ => Band(false, 0)))
  }

  /** nfp_abm_qdisc_replace(): the error, or the qdiscs with h among them. */
  function Found(c: Caps, qs: Qdiscs, k: Kind, h: nat, noMem: bool): (r: (int, Qdiscs))
    ensures r.0 == 0 ==> h in r.1 && r.1[h].kind == k
  {
    if h in qs then (if qs[h].kind == k then 0 else EINVAL, qs)
    else if noMem then (ENOMEM, qs)
    else (0, qs[h := Fresh(c, k)])
  }

  function WithParams(q: Qdisc, ok: bool, n: nat, bands: seq<Band>): Qdisc {
    if ok then q.(paramsOk := true, numBands := n, bands := bands) else q.(paramsOk := false)
  }

  function SetUp(l: Link, qs: Qdiscs): Link { l.(qdiscs := qs) }

  predicate Shaped(c: Caps, q: Qdisc) {
    |q.children| == NumChildren(c, q.kind) && |q.bands| == MAX_DPS && q.numBands <= MAX_DPS
    && (q.kind != Mq && q.paramsOk ==>
          q.numBands == (if q.kind == Red then 1 else c.numBands)
          && forall i :: 0 <= i < q.numBands ==> q.bands[i].threshold <= INFINITY)
  }

  ghost predicate Base(c: Caps, l: Link) {
    Closed(l.qdiscs) && Counted(l.qdiscs, l.root) && (l.root.Some? ==> l.root.value in l.qdiscs)
    && AllShaped(c, l.qdiscs)
  }

  predicate AllShaped(c: Caps, qs: Qdiscs) { forall h :: h in qs ==> Shaped(c, qs[h]) }

  lemma ShapedSame(c: Caps, a: Qdiscs, b: Qdiscs)
    requires AllShaped(c, a) && a.Keys == b.Keys
    requires forall h :: h in a ==>
               b[h] == a[h].(useCnt := b[h].useCnt, children := b[h].children) && |b[h].children| == |a[h].children|
    ensures AllShaped(c, b)
  {
  }

  /** An offloaded RED or GRED is used once, by a queue of the root MQ. */
  ghost predicate Placed(c: Caps, l: Link) {
    forall h :: h in l.qdiscs && l.qdiscs[h].offloaded && l.qdiscs[h].kind != Mq ==>
      l.qdiscs[h].useCnt == 1 && AtRoot(l, c.queues, h)
  }

  ghost predicate Inv(c: Caps, l: Link) { Base(c, l) && Placed(c, l) }

  lemma RefreshedInv(c: Caps, l: Link, bad: set<nat>)
    requires Base(c, l)
    ensures Inv(c, Refreshed(l, c.queues, bad))
  {
    var r := Refreshed(l, c.queues, bad);
    ClosedSame(l.qdiscs, r.qdiscs);
    CountedSame(l.qdiscs, r.qdiscs, l.root);
    forall h | h in r.qdiscs && r.qdiscs[h].offloaded && r.qdiscs[h].kind != Mq
      ensures r.qdiscs[h].useCnt == 1 && AtRoot(r, c.queues, h)
    {
      assert AtRoot(l, c.queues, h);
      var i: nat :| i < c.queues && Holds(l.qdiscs, l.root.value, i, h);
      assert Holds(r.qdiscs, r.root.value, i, h);
    }
  }

  // ---- single changes to the hierarchy ----

  lemma TouchBase(c: Caps, l: Link, h: nat, q: Qdisc)
    requires Base(c, l) && h in l.qdiscs && Shaped(c, q)
    requires q.useCnt == l.qdiscs[h].useCnt && q.children == l.qdiscs[h].children
    ensures Base(c, SetUp(l, l.qdiscs[h := q]))
  {
    var qs := l.qdiscs[h := q];
    ClosedSame(l.qdiscs, qs);
    CountedSame(l.qdiscs, qs, l.root);
  }

  /** A qdisc may change anything but its slots and its use count. */
  lemma TouchKeeps(c: Caps, l: Link, h: nat, q: Qdisc)
    requires Inv(c, l) && h in l.qdiscs && Shaped(c, q)
    requires q.useCnt == l.qdiscs[h].useCnt && q.children == l.qdiscs[h].children
    requires q.kind == l.qdiscs[h].kind && q.offloaded == l.qdiscs[h].offloaded
    ensures Inv(c, SetUp(l, l.qdiscs[h := q]))
  {
    TouchBase(c, l, h, q);
    PlacedSame(c, l, SetUp(l, l.qdiscs[h := q]));
  }

  /** Placement only looks at the root, the slots of the root MQ and the use counts. */
  lemma PlacedSame(c: Caps, l: Link, r: Link)
    requires Placed(c, l) && l.root == r.root
    requires RootMq(l) ==> RootMq(r) && forall i: nat, g: nat ::
               Holds(l.qdiscs, l.root.value, i, g) && g in r.qdiscs ==> Holds(r.qdiscs, l.root.value, i, g)
    requires forall g :: g in r.qdiscs && r.qdiscs[g].kind != Mq && r.qdiscs[g].offloaded ==>
               g in l.qdiscs && l.qdiscs[g].kind != Mq && l.qdiscs[g].offloaded
               && r.qdiscs[g].useCnt == l.qdiscs[g].useCnt
    ensures Placed(c, r)
  {
    forall g | g in r.qdiscs && r.qdiscs[g].offloaded && r.qdiscs[g].kind != Mq
      ensures r.qdiscs[g].useCnt == 1 && AtRoot(r, c.queues, g)
    {
      assert AtRoot(l, c.queues, g);
      var i: nat :| i < c.queues && Holds(l.qdiscs, l.root.value, i, g);
      assert Holds(r.qdiscs, r.root.value, i, g);
    }
  }

  lemma FreshSlots(c: Caps, qs: Qdiscs, k: Kind, h: nat, g: nat)
    requires h !in qs
    ensures SlotsTo(qs[h := Fresh(c, k)], g) == SlotsTo(qs, g)
  {
    var r := qs[h := Fresh(c, k)];
    forall s | s in SlotsTo(r, g) ensures s in SlotsTo(qs, g) { assert Holds(qs, s.0, s.1, g); }
    forall s | s in SlotsTo(qs, g) ensures s in SlotsTo(r, g) { assert Holds(r, s.0, s.1, g); }
  }

  lemma NoSlots(qs: Qdiscs, h: nat)
    requires Closed(qs) && h !in qs
    ensures SlotsTo(qs, h) == {}
  {
    assert forall s :: s in SlotsTo(qs, h) ==> Holds(qs, s.0, s.1, h);
  }

  lemma FoundKeeps(c: Caps, l: Link, k: Kind, h: nat, noMem: bool)
    requires Inv(c, l)
    ensures Inv(c, SetUp(l, Found(c, l.qdiscs, k, h, noMem).1))
  {
    if h !in l.qdiscs && !noMem {
      FreshClosed(c, l.qdiscs, k, h);
      FreshCounted(c, l, k, h);
      PlacedSame(c, l, SetUp(l, l.qdiscs[h := Fresh(c, k)]));
    }
  }

  lemma FreshClosed(c: Caps, qs: Qdiscs, k: Kind, h: nat)
    requires Closed(qs) && h !in qs
    ensures Closed(qs[h := Fresh(c, k)])
  {
    var r := qs[h := Fresh(c, k)];
    forall p: nat, i: nat, g: nat | Holds(r, p, i, g) ensures g in r { assert Holds(qs, p, i, g); }
  }

  lemma FreshCounted(c: Caps, l: Link, k: Kind, h: nat)
    requires Base(c, l) && h !in l.qdiscs
    ensures Counted(l.qdiscs[h := Fresh(c, k)], l.root)
  {
    var qs := l.qdiscs[h := Fresh(c, k)];
    forall g | g in qs ensures qs[g].useCnt == Users(qs, l.root, g) {
      FreshSlots(c, l.qdiscs, k, h, g);
      if g == h { NoSlots(l.qdiscs, h); }
    }
  }

  predicate NotRootMq(l: Link, p: nat) { p in l.qdiscs && l.qdiscs[p].kind == Mq ==> l.root != Some(p) }

  /** Taking a slot that is not a queue of the root MQ leaves every offloaded qdisc in place. */
  lemma UnlinkPlaced(c: Caps, l: Link, p: nat, i: nat)
    requires Inv(c, l) && p in l.qdiscs && i < |l.qdiscs[p].children| && NotRootMq(l, p)
    requires Tracked(l.qdiscs, l.qdiscs[p].children[i])
    ensures Placed(c, SetUp(l, Unlink(l.qdiscs, p, i)))
  {
    UnlinkOnly(l.qdiscs, p, i);
    var r := SetUp(l, Unlink(l.qdiscs, p, i));
    forall g | g in r.qdiscs && r.qdiscs[g].kind != Mq && r.qdiscs[g].offloaded
      ensures r.qdiscs[g].useCnt == l.qdiscs[g].useCnt
    {
      NotShared(c, l, p, i, g);
    }
    PlacedSame(c, l, r);
  }

  lemma NotShared(c: Caps, l: Link, p: nat, i: nat, g: nat)
    requires Inv(c, l) && g in l.qdiscs && l.qdiscs[g].offloaded && l.qdiscs[g].kind != Mq && NotRootMq(l, p)
    ensures !Holds(l.qdiscs, p, i, g)
  {
    var m := l.root.value;
    var j: nat :| j < c.queues && Holds(l.qdiscs, m, j, g);
    var slots := SlotsTo(l.qdiscs, g);
    assert (m, j) in slots;
    assert |slots - {(m, j)}| == |slots| - 1;
    assert Holds(l.qdiscs, p, i, g) ==> (p, i) in slots - {(m, j)};
  }

  lemma UnlinkInv(c: Caps, l: Link, p: nat, i: nat)
    requires Inv(c, l) && p in l.qdiscs && i < |l.qdiscs[p].children| && NotRootMq(l, p)
    ensures Tracked(l.qdiscs, l.qdiscs[p].children[i])
    ensures Inv(c, SetUp(l, Unlink(l.qdiscs, p, i)))
    ensures NotRootMq(SetUp(l, Unlink(l.qdiscs, p, i)), p)
  {
    UnlinkKeeps(l.qdiscs, l.root, p, i);
    UnlinkPlaced(c, l, p, i);
    assert AllShaped(c, Unlink(l.qdiscs, p, i)) && Unlink(l.qdiscs, p, i)[p].kind == l.qdiscs[p].kind by {
      UnlinkOnly(l.qdiscs, p, i);
      ShapedSame(c, l.qdiscs, Unlink(l.qdiscs, p, i));
    }
  }

  lemma EmptySlotBase(c: Caps, l: Link, p: nat, i: nat, v: Slot)
    requires Base(c, l) && p in l.qdiscs && i < |l.qdiscs[p].children|
    requires !l.qdiscs[p].children[i].Child? && !v.Child?
    ensures Base(c, SetUp(l, WithSlot(l.qdiscs, p, i, v)))
  {
    var qs := WithSlot(l.qdiscs, p, i, v);
    assert Closed(qs) by { ClosedAfter(l.qdiscs, p, i, v); }
    assert Counted(qs, l.root) by { CountedAfter(l.qdiscs, l.root, p, i, v, qs); }
  }

  lemma EmptySlotKeeps(c: Caps, l: Link, p: nat, i: nat, v: Slot)
    requires Inv(c, l) && p in l.qdiscs && i < |l.qdiscs[p].children| && NotRootMq(l, p)
    requires !l.qdiscs[p].children[i].Child? && !v.Child?
    ensures Inv(c, SetUp(l, WithSlot(l.qdiscs, p, i, v)))
  {
    EmptySlotBase(c, l, p, i, v);
    PlacedSame(c, l, SetUp(l, WithSlot(l.qdiscs, p, i, v)));
  }

  // ---- the handlers ----

  function CreateMq(c: Caps, l: Link, h: nat, noMem: bool, bad: set<nat>): (int, Link) {
    var (err, qs) := Found(c, l.qdiscs, Mq, h, noMem);
    if err != 0 then (err, l)
    else (0, Refreshed(SetUp(l, qs[h := qs[h].(paramsOk := true, offloaded := true)]), c.queues, bad))
  }

  lemma CreateMqKeeps(c: Caps, l: Link, h: nat, noMem: bool, bad: set<nat>)
    requires Inv(c, l)
    ensures Inv(c, CreateMq(c, l, h, noMem, bad).1)
  {
    var (err, qs) := Found(c, l.qdiscs, Mq, h, noMem);
    FoundKeeps(c, l, Mq, h, noMem);
    if err == 0 {
      TouchBase(c, SetUp(l, qs), h, qs[h].(paramsOk := true, offloaded := true));
      RefreshedInv(c, SetUp(l, qs[h := qs[h].(paramsOk := true, offloaded := true)]), bad);
    }
  }

  predicate RedReady(qs: Qdiscs, h: nat) {
    h in qs && qs[h].kind == Red && |qs[h].children| == 1 && Tracked(qs, qs[h].children[0]) && |qs[h].bands| > 0
  }

  lemma RedIsReady(c: Caps, l: Link, h: nat)
    requires Inv(c, l) && h in l.qdiscs && l.qdiscs[h].kind == Red
    ensures RedReady(l.qdiscs, h)
  {
    var s := l.qdiscs[h].children[0];
    assert s.Child? ==> Holds(l.qdiscs, h, 0, s.handle);
  }

  /** If the limit is set the child is reset, otherwise a new RED starts with a child it cannot track. */
  function RedChild(qs: Qdiscs, h: nat, limit: bool, isNew: bool): (r: Qdiscs)
    requires RedReady(qs, h)
    ensures r.Keys == qs.Keys && r[h].kind == Red && r[h].bands == qs[h].bands
  {
    if limit then WithSlot(Unlink(qs, h, 0), h, 0, Empty)
    else if isNew then WithSlot(qs, h, 0, Untracked)
    else qs
  }

  lemma RedChildKeeps(c: Caps, l: Link, h: nat, limit: bool, isNew: bool)
    requires Inv(c, l) && RedReady(l.qdiscs, h) && (isNew ==> l.qdiscs[h].children == [Empty])
    ensures Inv(c, SetUp(l, RedChild(l.qdiscs, h, limit, isNew)))
  {
    if limit {
      UnlinkInv(c, l, h, 0);
      UnlinkOnly(l.qdiscs, h, 0);
      EmptySlotKeeps(c, SetUp(l, Unlink(l.qdiscs, h, 0)), h, 0, Empty);
    } else if isNew {
      EmptySlotKeeps(c, l, h, 0, Untracked);
    }
  }

  function RedParamsSet(c: Caps, q: Qdisc, p: RedParams): Qdisc
    requires |q.bands| > 0
  {
    WithParams(q, RedOk(c, p), 1, q.bands[0 := Band(p.ecn, p.min)])
  }

  /** The state of a link after a RED is configured, before the offload is refreshed. */
  function RedConfigured(c: Caps, l: Link, h: nat, limit: bool, p: RedParams, noMem: bool): (r: (int, Link))
    requires h in l.qdiscs ==> l.qdiscs[h].kind == Red ==> RedReady(l.qdiscs, h)
    ensures r.0 == 0 ==> h in r.1.qdiscs
  {
    var (err, qs) := Found(c, l.qdiscs, Red, h, noMem);
    if err != 0 then (err, l)
    else
      var qs1 := RedChild(qs, h, limit, h !in l.qdiscs);
      (0, SetUp(l, qs1[h := RedParamsSet(c, qs1[h], p)]))
  }

  lemma RedConfiguredKeeps(c: Caps, l: Link, h: nat, limit: bool, p: RedParams, noMem: bool)
    requires Inv(c, l)
    ensures h in l.qdiscs && l.qdiscs[h].kind == Red ==> RedReady(l.qdiscs, h)
    ensures Inv(c, RedConfigured(c, l, h, limit, p, noMem).1)
  {
    if h in l.qdiscs && l.qdiscs[h].kind == Red { RedIsReady(c, l, h); }
    var (err, qs) := Found(c, l.qdiscs, Red, h, noMem);
    FoundKeeps(c, l, Red, h, noMem);
    if err == 0 {
      RedChildKeeps(c, SetUp(l, qs), h, limit, h !in l.qdiscs);
      RedParamsKeep(c, SetUp(l, RedChild(qs, h, limit, h !in l.qdiscs)), h, p);
    }
  }

  lemma RedParamsKeep(c: Caps, l: Link, h: nat, p: RedParams)
    requires Inv(c, l) && h in l.qdiscs && l.qdiscs[h].kind == Red
    ensures |l.qdiscs[h].bands| > 0
    ensures Inv(c, SetUp(l, l.qdiscs[h := RedParamsSet(c, l.qdiscs[h], p)]))
  {
    TouchKeeps(c, l, h, RedParamsSet(c, l.qdiscs[h], p));
  }

  function ReplaceRed(c: Caps, l: Link, h: nat, limit: bool, p: RedParams, noMem: bool, bad: set<nat>): (int, Link)
    requires h in l.qdiscs ==> l.qdiscs[h].kind == Red ==> RedReady(l.qdiscs, h)
  {
    var (err, l1) := RedConfigured(c, l, h, limit, p, noMem);
    if err != 0 then (err, l)
    else (0, if l1.qdiscs[h].useCnt == 1 then Refreshed(l1, c.queues, bad) else l1)
  }

  function GredParamsSet(c: Caps, q: Qdisc, p: GredParams): Qdisc
    requires c.numBands <= |p.tab| && c.numBands <= |q.bands|
  {
    WithParams(q, GredOk(c, p), c.numBands, GredBands(q.bands, p.tab, c.numBands))
  }

  /** The state of a link after a GRED is configured, before the offload is refreshed. */
  function GredConfigured(c: Caps, l: Link, h: nat, p: GredParams, noMem: bool): (r: (int, Link))
    requires c.numBands <= |p.tab| && c.numBands <= MAX_DPS
    requires h in l.qdiscs ==> |l.qdiscs[h].bands| == MAX_DPS
    ensures r.0 == 0 ==> h in r.1.qdiscs
  {
    var (err, qs) := Found(c, l.qdiscs, Gred, h, noMem);
    if err != 0 then (err, l) else (0, SetUp(l, qs[h := GredParamsSet(c, qs[h], p)]))
  }

  function ReplaceGred(c: Caps, l: Link, h: nat, p: GredParams, noMem: bool, bad: set<nat>): (int, Link)
    requires c.numBands <= |p.tab| && c.numBands <= MAX_DPS
    requires h in l.qdiscs ==> |l.qdiscs[h].bands| == MAX_DPS
  {
    var (err, l1) := GredConfigured(c, l, h, p, noMem);
    if err != 0 then (err, l)
    else (0, if l1.qdiscs[h].useCnt != 0 then Refreshed(l1, c.queues, bad) else l1)
  }

  lemma GredParamsKeep(c: Caps, l: Link, h: nat, p: GredParams)
    requires Inv(c, l) && h in l.qdiscs && l.qdiscs[h].kind == Gred
    requires c.numBands <= |p.tab| && c.numBands <= MAX_DPS
    ensures |l.qdiscs[h].bands| == MAX_DPS
    ensures Inv(c, SetUp(l, l.qdiscs[h := GredParamsSet(c, l.qdiscs[h], p)]))
  {
    var q := l.qdiscs[h];
    assert Shaped(c, GredParamsSet(c, q, p)) by {
      if GredOk(c, p) {
        forall i | 0 <= i < c.numBands ensures GredBands(q.bands, p.tab, c.numBands)[i].threshold <= INFINITY {
          assert RedOk(c, p.tab[i].red);
        }
      }
    }
    TouchKeeps(c, l, h, GredParamsSet(c, q, p));
  }

  // Grafting and moving the root.

  function Linked(qs: Qdiscs, p: nat, i: nat, child: nat): (r: Qdiscs)
    requires p in qs && i < |qs[p].children|
    ensures r.Keys == qs.Keys
  {
    if child in qs then WithSlot(Counting(qs, child, 1), p, i, Child(child))
    else WithSlot(qs, p, i, Untracked)
  }

  lemma LinkedShape(qs: Qdiscs, p: nat, i: nat, child: nat)
    requires p in qs && i < |qs[p].children| && !qs[p].children[i].Child?
    ensures var v := if child in qs then Child(child) else Untracked;
            SameChildren(WithSlot(qs, p, i, v), Linked(qs, p, i, child))
            && forall h :: h in qs ==>
                 Linked(qs, p, i, child)[h].useCnt == qs[h].useCnt - Points(qs[p].children[i], h) + Points(v, h)
  {
  }

  lemma LinkedClosed(qs: Qdiscs, p: nat, i: nat, child: nat)
    requires p in qs && i < |qs[p].children| && !qs[p].children[i].Child? && Closed(qs)
    ensures Closed(Linked(qs, p, i, child))
  {
    var v := if child in qs then Child(child) else Untracked;
    LinkedShape(qs, p, i, child);
    ClosedAfter(qs, p, i, v);
    ClosedSame(WithSlot(qs, p, i, v), Linked(qs, p, i, child));
  }

  lemma LinkedCounted(qs: Qdiscs, root: Option<nat>, p: nat, i: nat, child: nat)
    requires p in qs && i < |qs[p].children| && !qs[p].children[i].Child? && Counted(qs, root)
    ensures Counted(Linked(qs, p, i, child), root)
  {
    LinkedShape(qs, p, i, child);
    CountedAfter(qs, root, p, i, if child in qs then Child(child) else Untracked, Linked(qs, p, i, child));
  }

  lemma LinkedShaped(c: Caps, qs: Qdiscs, p: nat, i: nat, child: nat)
    requires p in qs && i < |qs[p].children| && AllShaped(c, qs)
    ensures AllShaped(c, Linked(qs, p, i, child))
  {
    if child in qs {
      CountingShaped(c, qs, child, 1);
      WithSlotShaped(c, Counting(qs, child, 1), p, i, Child(child));
    } else {
      WithSlotShaped(c, qs, p, i, Untracked);
    }
  }

  lemma WithSlotShaped(c: Caps, qs: Qdiscs, p: nat, i: nat, v: Slot)
    requires p in qs && i < |qs[p].children| && AllShaped(c, qs)
    ensures AllShaped(c, WithSlot(qs, p, i, v))
  {
    ShapedSame(c, qs, WithSlot(qs, p, i, v));
  }

  lemma CountingShaped(c: Caps, qs: Qdiscs, h: nat, d: int)
    requires h in qs && AllShaped(c, qs)
    ensures AllShaped(c, Counting(qs, h, d))
  {
    ShapedSame(c, qs, Counting(qs, h, d));
  }

  lemma LinkedBase(c: Caps, l: Link, p: nat, i: nat, child: nat)
    requires Base(c, l) && p in l.qdiscs && i < |l.qdiscs[p].children| && !l.qdiscs[p].children[i].Child?
    ensures Base(c, SetUp(l, Linked(l.qdiscs, p, i, child)))
  {
    LinkedClosed(l.qdiscs, p, i, child);
    LinkedCounted(l.qdiscs, l.root, p, i, child);
    LinkedShaped(c, l.qdiscs, p, i, child);
  }

  lemma UnlinkBase(c: Caps, l: Link, p: nat, i: nat)
    requires Base(c, l) && p in l.qdiscs && i < |l.qdiscs[p].children|
    ensures Tracked(l.qdiscs, l.qdiscs[p].children[i])
    ensures Base(c, SetUp(l, Unlink(l.qdiscs, p, i))) && !Unlink(l.qdiscs, p, i)[p].children[i].Child?
  {
    UnlinkKeeps(l.qdiscs, l.root, p, i);
    assert !Unlink(l.qdiscs, p, i)[p].children[i].Child? && AllShaped(c, Unlink(l.qdiscs, p, i)) by {
      UnlinkOnly(l.qdiscs, p, i);
      ShapedSame(c, l.qdiscs, Unlink(l.qdiscs, p, i));
    }
  }

  function Grafted(c: Caps, l: Link, h: nat, child: nat, id: nat, bad: set<nat>): (int, Link)
    requires h in l.qdiscs && id < |l.qdiscs[h].children| ==> Tracked(l.qdiscs, l.qdiscs[h].children[id])
  {
    if h !in l.qdiscs then (0, l)
    else if id >= |l.qdiscs[h].children| then (EINVAL, l)
    else (0, Refreshed(SetUp(l, Linked(Unlink(l.qdiscs, h, id), h, id, child)), c.queues, bad))
  }

  lemma GraftedKeeps(c: Caps, l: Link, h: nat, child: nat, id: nat, bad: set<nat>)
    requires Inv(c, l)
    ensures h in l.qdiscs && id < |l.qdiscs[h].children| ==> Tracked(l.qdiscs, l.qdiscs[h].children[id])
    ensures Inv(c, Grafted(c, l, h, child, id, bad).1)
  {
    if h in l.qdiscs && id < |l.qdiscs[h].children| {
      UnlinkBase(c, l, h, id);
      var l1 := SetUp(l, Unlink(l.qdiscs, h, id));
      LinkedBase(c, l1, h, id, child);
      RefreshedInv(c, SetUp(l1, Linked(l1.qdiscs, h, id, child)), bad);
    }
  }

  function Unrooted(l: Link): (r: Link)
    requires l.root.Some? ==> l.root.value in l.qdiscs
    ensures r.qdiscs.Keys == l.qdiscs.Keys && r.root == None
  {
    if l.root.Some? then l.(qdiscs := Counting(l.qdiscs, l.root.value, -1), root := None) else l
  }

  function Rooted(l: Link, h: nat): (r: Link)
    ensures r.qdiscs.Keys == l.qdiscs.Keys
  {
    if h in l.qdiscs then l.(qdiscs := Counting(l.qdiscs, h, 1), root := Some(h)) else l
  }

  lemma RootMoves(c: Caps, qs: Qdiscs, from: Option<nat>, h: nat, delta: int, to: Option<nat>)
    requires h in qs && Closed(qs) && AllShaped(c, qs) && Counted(qs, from)
    requires (from == Some(h) && to == None && delta == -1) || (from == None && to == Some(h) && delta == 1)
    ensures var r := Counting(qs, h, delta); Closed(r) && AllShaped(c, r) && Counted(r, to)
  {
    var r := Counting(qs, h, delta);
    assert SameChildren(qs, r);
    assert Closed(r) by { ClosedSame(qs, r); }
    assert AllShaped(c, r) by { ShapedSame(c, qs, r); }
    CountedRoot(qs, from, r, to);
  }

  lemma UnrootedBase(c: Caps, l: Link)
    requires Base(c, l)
    ensures Base(c, Unrooted(l))
  {
    if l.root.Some? { RootMoves(c, l.qdiscs, l.root, l.root.value, -1, None); }
  }

  lemma RootedBase(c: Caps, l: Link, h: nat)
    requires Base(c, l) && l.root == None
    ensures Base(c, Rooted(l, h))
  {
    if h in l.qdiscs { RootMoves(c, l.qdiscs, None, h, 1, Some(h)); }
  }

  function RootSet(c: Caps, l: Link, h: nat, ingress: bool, bad: set<nat>): (int, Link)
    requires l.root.Some? ==> l.root.value in l.qdiscs
  {
    if ingress then (EOPNOTSUPP, l) else (0, Refreshed(Rooted(Unrooted(l), h), c.queues, bad))
  }

  lemma RootSetKeeps(c: Caps, l: Link, h: nat, ingress: bool, bad: set<nat>)
    requires Inv(c, l)
    ensures Inv(c, RootSet(c, l, h, ingress, bad).1)
  {
    if !ingress {
      UnrootedBase(c, l);
      RootedBase(c, Unrooted(l), h);
      RefreshedInv(c, Rooted(Unrooted(l), h), bad);
    }
  }

  // ---- destroying a qdisc ----

  /** nfp_abm_qdisc_clear_mq() does nothing for the root MQ of a device that is going away. */
  function Freed(qs: Qdiscs, h: nat, skip: bool): Qdiscs
    requires h in qs
  {
    (if qs[h].useCnt != 0 && !skip then ClearMq(qs, h) else qs) - {h}
  }

  /** The link when the slots of h have been taken but h is still known. */
  ghost function Emptied(l: Link, h: nat): (r: Link)
    requires h in l.qdiscs
    ensures r.qdiscs.Keys == l.qdiscs.Keys
  {
    var l1 := if l.root == Some(h) then Unrooted(l) else l;
    SetUp(l1, UnlinkFrom(l1.qdiscs, h, 0))
  }

  ghost function Destroyed(c: Caps, l: Link, h: nat, unregistering: bool, bad: set<nat>): Link
  {
    if h !in l.qdiscs then l
    else
      var wasRoot, l1 := l.root == Some(h), Emptied(l, h);
      var l2 := SetUp(l1, Freed(l1.qdiscs, h, Skips(l, h, unregistering)));
      if wasRoot then Refreshed(l2, c.queues, bad) else l2
  }

  /** tc destroys a qdisc only when no RED refers to it, and the root MQ of a device that is going away
      only when nothing does. */
  ghost predicate MayDestroy(l: Link, h: nat, unregistering: bool) {
    forall p: nat, i: nat :: Holds(l.qdiscs, p, i, h) && p != h ==>
      l.qdiscs[p].kind != Red && !(unregistering && l.root == Some(h) && h in l.qdiscs && l.qdiscs[h].kind == Mq)
  }

  lemma UnlinkAllOnly(qs: Qdiscs, h: nat)
    requires h in qs && Closed(qs)
    ensures OnlySlotsOf(qs, UnlinkFrom(qs, h, 0), h)
    ensures NoChildBelow(UnlinkFrom(qs, h, 0)[h], |qs[h].children|)
  {
    TrackedAll(qs, h);
    UnlinkFromOnly(qs, h, 0);
  }

  lemma UnlinkFromBase(c: Caps, l: Link, h: nat)
    requires Base(c, l) && h in l.qdiscs
    ensures Base(c, SetUp(l, UnlinkFrom(l.qdiscs, h, 0)))
  {
    UnlinkFromKeeps(l.qdiscs, l.root, h, 0);
    UnlinkAllShaped(c, l.qdiscs, h);
  }

  lemma UnlinkAllShaped(c: Caps, qs: Qdiscs, h: nat)
    requires h in qs && Closed(qs) && AllShaped(c, qs)
    ensures AllShaped(c, UnlinkFrom(qs, h, 0))
  {
    UnlinkAllOnly(qs, h);
    ShapedSame(c, qs, UnlinkFrom(qs, h, 0));
  }

  lemma HoldsBefore(a: Qdiscs, b: Qdiscs, h: nat)
    requires OnlySlotsOf(a, b, h) && NoChildBelow(b[h], |b[h].children|)
    ensures forall p: nat, i: nat, g: nat :: Holds(b, p, i, g) ==> p != h && Holds(a, p, i, g)
  {
  }

  lemma EmptiedBase(c: Caps, l: Link, h: nat)
    requires Base(c, l) && h in l.qdiscs
    ensures Base(c, Emptied(l, h))
  {
    if l.root == Some(h) {
      UnrootedBase(c, l);
      UnlinkFromBase(c, Unrooted(l), h);
    } else {
      UnlinkFromBase(c, l, h);
    }
  }

  lemma UnrootedOnly(l: Link, h: nat)
    requires l.root == Some(h) && h in l.qdiscs
    ensures OnlySlotsOf(l.qdiscs, Unrooted(l).qdiscs, h) && Unrooted(l).qdiscs[h].children == l.qdiscs[h].children
  {
  }

  lemma EmptiedOnly(c: Caps, l: Link, h: nat)
    requires Base(c, l) && h in l.qdiscs
    ensures OnlySlotsOf(l.qdiscs, Emptied(l, h).qdiscs, h)
    ensures NoChildBelow(Emptied(l, h).qdiscs[h], |l.qdiscs[h].children|)
  {
    if l.root == Some(h) {
      UnrootedBase(c, l);
      UnrootedOnly(l, h);
      UnlinkAllOnly(Unrooted(l).qdiscs, h);
      OnlySlotsTransitive(l.qdiscs, Unrooted(l).qdiscs, Emptied(l, h).qdiscs, h);
    } else {
      UnlinkAllOnly(l.qdiscs, h);
    }
  }

  lemma TrackedAll(qs: Qdiscs, h: nat)
    requires h in qs && Closed(qs)
    ensures AllTracked(qs, h)
  {
    forall i | 0 <= i < |qs[h].children| ensures Tracked(qs, qs[h].children[i]) {
      var s := qs[h].children[i];
      assert s.Child? ==> Holds(qs, h, i, s.handle);
    }
  }

  lemma OnlyMqLeft(c: Caps, l: Link, h: nat, unregistering: bool)
    requires Base(c, l) && h in l.qdiscs && MayDestroy(l, h, unregistering)
    ensures OnlyMqSlots(Emptied(l, h).qdiscs, h)
    ensures Skips(l, h, unregistering) ==> SlotsTo(Emptied(l, h).qdiscs, h) == {}
  {
    var qs := Emptied(l, h).qdiscs;
    EmptiedOnly(c, l, h);
    HoldsBefore(l.qdiscs, qs, h);
    forall p: nat, i: nat | Holds(qs, p, i, h) ensures p != h && qs[p].kind == Mq {
      assert Holds(l.qdiscs, p, i, h) && Shaped(c, l.qdiscs[p]);
    }
    assert forall s :: s in SlotsTo(qs, h) ==> Holds(qs, s.0, s.1, h);
  }

  lemma FreedClears(qs: Qdiscs, h: nat, skip: bool)
    requires h in qs && (qs[h].useCnt == 0 || skip ==> SlotsTo(qs, h) == {})
    ensures Freed(qs, h, skip) == ClearMq(qs, h) - {h}
  {
    if qs[h].useCnt == 0 || skip { ClearMqNone(qs, h); }
  }

  lemma UnusedHasNoSlots(qs: Qdiscs, root: Option<nat>, h: nat)
    requires Counted(qs, root) && h in qs && qs[h].useCnt == 0
    ensures SlotsTo(qs, h) == {}
  {
  }

  predicate Skips(l: Link, h: nat, unregistering: bool) {
    unregistering && l.root == Some(h) && h in l.qdiscs && l.qdiscs[h].kind == Mq
  }

  /** However the pointers to h are given up, none is left when h goes. */
  lemma FreedIsCleared(c: Caps, l: Link, h: nat, unregistering: bool)
    requires Base(c, l) && h in l.qdiscs && MayDestroy(l, h, unregistering)
    ensures var qs := Emptied(l, h).qdiscs;
            Freed(qs, h, Skips(l, h, unregistering)) == ClearMq(qs, h) - {h}
  {
    var qs := Emptied(l, h).qdiscs;
    EmptiedBase(c, l, h);
    OnlyMqLeft(c, l, h, unregistering);
    if qs[h].useCnt == 0 { UnusedHasNoSlots(qs, Emptied(l, h).root, h); }
    FreedClears(qs, h, Skips(l, h, unregistering));
  }

  lemma ClearMqShaped(c: Caps, qs: Qdiscs, h: nat)
    requires AllShaped(c, qs)
    ensures AllShaped(c, ClearMq(qs, h) - {h})
  {
  }

  lemma FreedBase(c: Caps, l: Link, h: nat, unregistering: bool)
    requires Base(c, l) && h in l.qdiscs && MayDestroy(l, h, unregistering)
    ensures var l1 := Emptied(l, h);
            Base(c, SetUp(l1, Freed(l1.qdiscs, h, Skips(l, h, unregistering))))
  {
    var l1 := Emptied(l, h);
    EmptiedBase(c, l, h);
    FreedIsCleared(c, l, h, unregistering);
    assert OnlyMqSlots(l1.qdiscs, h) by { OnlyMqLeft(c, l, h, unregistering); }
    assert NoChildBelow(l1.qdiscs[h], |l1.qdiscs[h].children|) by { EmptiedOnly(c, l, h); }
    ForgetCounted(l1.qdiscs, l1.root, h);
    ForgetClosed(l1.qdiscs, h);
    ClearMqShaped(c, l1.qdiscs, h);
  }

  lemma SlotsUntouched(a: Qdiscs, b: Qdiscs, h: nat, g: nat)
    requires OnlySlotsOf(a, b, h) && NoChildBelow(b[h], |b[h].children|)
    requires forall i: nat :: !Holds(a, h, i, g)
    ensures SlotsTo(a, g) == SlotsTo(b, g)
  {
    forall s | s in SlotsTo(a, g) ensures s in SlotsTo(b, g) { assert Holds(a, s.0, s.1, g) && Holds(b, s.0, s.1, g); }
    forall s | s in SlotsTo(b, g) ensures s in SlotsTo(a, g) { assert Holds(b, s.0, s.1, g) && Holds(a, s.0, s.1, g); }
  }

  lemma UseUntouched(c: Caps, l: Link, h: nat, qs: Qdiscs, g: nat)
    requires Inv(c, l) && NotRootMq(l, h) && Counted(qs, l.root)
    requires OnlySlotsOf(l.qdiscs, qs, h) && NoChildBelow(qs[h], |qs[h].children|)
    requires g in l.qdiscs && l.qdiscs[g].offloaded && l.qdiscs[g].kind != Mq
    ensures qs[g].useCnt == l.qdiscs[g].useCnt
  {
    forall i: nat ensures !Holds(l.qdiscs, h, i, g) { NotShared(c, l, h, i, g); }
    SlotsUntouched(l.qdiscs, qs, h, g);
  }

  /** Emptying a qdisc other than the root MQ leaves every offloaded qdisc in place. */
  lemma UnlinkAllPlaced(c: Caps, l: Link, h: nat)
    requires Inv(c, l) && h in l.qdiscs && NotRootMq(l, h)
    ensures Placed(c, SetUp(l, UnlinkFrom(l.qdiscs, h, 0)))
  {
    var qs := UnlinkFrom(l.qdiscs, h, 0);
    UnlinkFromKeeps(l.qdiscs, l.root, h, 0);
    UnlinkAllOnly(l.qdiscs, h);
    forall g | g in qs && qs[g].kind != Mq && qs[g].offloaded ensures qs[g].useCnt == l.qdiscs[g].useCnt {
      UseUntouched(c, l, h, qs, g);
    }
    PlacedSame(c, l, SetUp(l, qs));
  }

  lemma ForgetPlaced(c: Caps, l: Link, h: nat)
    requires Placed(c, l) && l.root != Some(h)
    ensures Placed(c, SetUp(l, ClearMq(l.qdiscs, h) - {h}))
  {
    PlacedSame(c, l, SetUp(l, ClearMq(l.qdiscs, h) - {h}));
  }

  lemma DestroyedKeeps(c: Caps, l: Link, h: nat, unregistering: bool, bad: set<nat>)
    requires Inv(c, l) && MayDestroy(l, h, unregistering)
    ensures Inv(c, Destroyed(c, l, h, unregistering, bad))
  {
    if h in l.qdiscs {
      var l1 := Emptied(l, h);
      var l2 := SetUp(l1, Freed(l1.qdiscs, h, Skips(l, h, unregistering)));
      FreedBase(c, l, h, unregistering);
      if l.root == Some(h) {
        RefreshedInv(c, l2, bad);
      } else {
        UnlinkAllPlaced(c, l, h);
        FreedIsCleared(c, l, h, unregistering);
        ForgetPlaced(c, l1, h);
      }
    }
  }

  lemma FreedKeepsSlot(l: Link, h: nat, p: nat, i: nat, skip: bool)
    requires h in l.qdiscs && p != h && Holds(l.qdiscs, p, i, h) && (l.qdiscs[p].kind != Mq || skip)
    ensures Holds(Freed(l.qdiscs, h, skip), p, i, h) && h !in Freed(l.qdiscs, h, skip)
  {
  }

  /** The rule tc has to keep to is exact: destroying h leaves no slot behind that points to it if and
      only if the rule holds. */
  lemma DestroyClosedExactly(c: Caps, l: Link, h: nat, unregistering: bool, bad: set<nat>)
    requires Inv(c, l) && h in l.qdiscs
    ensures Closed(Destroyed(c, l, h, unregistering, bad).qdiscs) <==> MayDestroy(l, h, unregistering)
  {
    if MayDestroy(l, h, unregistering) {
      DestroyedKeeps(c, l, h, unregistering, bad);
    } else {
      var p: nat, i: nat :| Holds(l.qdiscs, p, i, h) && p != h
        && (l.qdiscs[p].kind == Red || Skips(l, h, unregistering));
      EmptiedOnly(c, l, h);
      var l1 := Emptied(l, h);
      FreedKeepsSlot(l1, h, p, i, Skips(l, h, unregistering));
      assert Holds(Destroyed(c, l, h, unregistering, bad).qdiscs, p, i, h);
    }
  }

  // ---- all runs ----

  /** What tc and the configuration of the device guarantee about an event. */
  ghost predicate Enabled(c: Caps, l: Link, e: Event) {
    match e
    case GredReplace(_, p, _) => c.numBands <= |p.tab|
    case Destroy(h, unregistering) => MayDestroy(l, h, unregistering)
    case _ => true
  }

  ghost function Step(c: Caps, l: Link, e: Event, bad: set<nat>): (r: Link)
    requires Inv(c, l) && Enabled(c, l, e) && c.numBands <= MAX_DPS
    ensures Inv(c, r)
  {
    match e
    case MqCreate(h, noMem) =>
      CreateMqKeeps(c, l, h, noMem, bad);
      CreateMq(c, l, h, noMem, bad).1
    case RedReplace(h, limit, p, noMem) =>
      ReplaceRedKeeps(c, l, h, limit, p, noMem, bad);
      ReplaceRed(c, l, h, limit, p, noMem, bad).1
    case GredReplace(h, p, noMem) =>
      ReplaceGredKeeps(c, l, h, p, noMem, bad);
      ReplaceGred(c, l, h, p, noMem, bad).1
    case Graft(h, child, id) =>
      GraftedKeeps(c, l, h, child, id, bad);
      Grafted(c, l, h, child, id, bad).1
    case Destroy(h, unregistering) =>
      DestroyedKeeps(c, l, h, unregistering, bad);
      Destroyed(c, l, h, unregistering, bad)
    case SetRoot(h, ingress) =>
      RootSetKeeps(c, l, h, ingress, bad);
      RootSet(c, l, h, ingress, bad).1
    case PrioChange(hasPrio) =>
      RefreshedInv(c, l.(hasPrio := hasPrio), bad);
      Refreshed(l.(hasPrio := hasPrio), c.queues, bad)
  }

  lemma ReplaceRedKeeps(c: Caps, l: Link, h: nat, limit: bool, p: RedParams, noMem: bool, bad: set<nat>)
    requires Inv(c, l)
    ensures h in l.qdiscs ==> l.qdiscs[h].kind == Red ==> RedReady(l.qdiscs, h)
    ensures Inv(c, ReplaceRed(c, l, h, limit, p, noMem, bad).1)
  {
    RedConfiguredKeeps(c, l, h, limit, p, noMem);
    RefreshedInv(c, RedConfigured(c, l, h, limit, p, noMem).1, bad);
  }

  lemma ReplaceGredKeeps(c: Caps, l: Link, h: nat, p: GredParams, noMem: bool, bad: set<nat>)
    requires Inv(c, l) && c.numBands <= |p.tab| && c.numBands <= MAX_DPS
    ensures h in l.qdiscs ==> |l.qdiscs[h].bands| == MAX_DPS
    ensures Inv(c, ReplaceGred(c, l, h, p, noMem, bad).1)
  {
    var (err, qs) := Found(c, l.qdiscs, Gred, h, noMem);
    FoundKeeps(c, l, Gred, h, noMem);
    if err == 0 {
      GredParamsKeep(c, SetUp(l, qs), h, p);
      RefreshedInv(c, SetUp(l, qs[h := GredParamsSet(c, qs[h], p)]), bad);
    }
  }

  const NEW_LINK := Link(map[], None, false)

  datatype Tick = Tick(event: Event, bad: set<nat>)

  /** The states of a link after a sequence of notifications, if tc keeps to the rules. */
  ghost predicate Leads(c: Caps, l: Link, run: seq<Tick>, to: Link)
    requires Inv(c, l) && c.numBands <= MAX_DPS
    decreases |run|
  {
    if run == [] then l == to
    else Enabled(c, l, run[0].event) && Leads(c, Step(c, l, run[0].event, run[0].bad), run[1..], to)
  }

  lemma NewLinkInv(c: Caps)
    ensures Inv(c, NEW_LINK)
  {
  }

  ghost predicate Reachable(c: Caps, l: Link)
    requires c.numBands <= MAX_DPS
  {
    NewLinkInv(c);
    exists run :: Leads(c, NEW_LINK, run, l)
  }

  lemma {:induction false} LeadsInv(c: Caps, l: Link, run: seq<Tick>, to: Link)
    requires c.numBands <= MAX_DPS && Inv(c, l) && Leads(c, l, run, to)
    ensures Inv(c, to)
    decreases |run|
  {
    if run != [] { LeadsInv(c, Step(c, l, run[0].event, run[0].bad), run[1..], to); }
  }

  lemma {:induction false} LeadsOn(c: Caps, l: Link, run: seq<Tick>, mid: Link, t: Tick)
    requires c.numBands <= MAX_DPS && Inv(c, l) && Leads(c, l, run, mid) && Inv(c, mid) && Enabled(c, mid, t.event)
    ensures Leads(c, l, run + [t], Step(c, mid, t.event, t.bad))
    decreases |run|
  {
    if run == [] {
      assert (run + [t])[1..] == [];
    } else {
      assert (run + [t])[1..] == run[1..] + [t];
      LeadsOn(c, Step(c, l, run[0].event, run[0].bad), run[1..], mid, t);
    }
  }

  lemma ReachableOn(c: Caps, l: Link, e: Event, bad: set<nat>)
    requires c.numBands <= MAX_DPS && Reachable(c, l) && Inv(c, l) && Enabled(c, l, e)
    ensures Reachable(c, Step(c, l, e, bad))
  {
    NewLinkInv(c);
    var run :| Leads(c, NEW_LINK, run, l);
    LeadsOn(c, NEW_LINK, run, l, Tick(e, bad));
  }

  lemma ReachableInv(c: Caps, l: Link)
    requires c.numBands <= MAX_DPS && Reachable(c, l)
    ensures Inv(c, l)
  {
    var run :| Leads(c, NEW_LINK, run, l);
    LeadsInv(c, NEW_LINK, run, l);
  }

  lemma ReachableNew(c: Caps)
    requires c.numBands <= MAX_DPS
    ensures Reachable(c, NEW_LINK)
  {
    NewLinkInv(c);
    assert Leads(c, NEW_LINK, [], NEW_LINK);
  }

  lemma NewRedShape(c: Caps, l: Link, h: nat, p: RedParams)
    requires h !in l.qdiscs
    ensures var r := ReplaceRed(c, l, h, false, p, false, {}).1;
            h in r.qdiscs && r.qdiscs[h].kind == Red && |r.qdiscs[h].children| == 1
            && r == l.(qdiscs := l.qdiscs[h := r.qdiscs[h]])
  {
  }

  /** A RED that is configured for the first time is not used by anything. */
  lemma NewRed(c: Caps, l: Link, h: nat, p: RedParams) returns (r: Link)
    requires c.numBands <= MAX_DPS && Reachable(c, l) && h !in l.qdiscs
    ensures Reachable(c, r) && h in r.qdiscs && r.qdiscs[h].kind == Red && |r.qdiscs[h].children| == 1
    ensures r == l.(qdiscs := l.qdiscs[h := r.qdiscs[h]])
  {
    ReachableInv(c, l);
    ReachableOn(c, l, RedReplace(h, false, p, false), {});
    r := Step(c, l, RedReplace(h, false, p, false), {});
    NewRedShape(c, l, h, p);
  }

  lemma LinkedHolds(qs: Qdiscs, h: nat, child: nat)
    requires h in qs && child in qs && h != child && |qs[h].children| == 1 && Tracked(qs, qs[h].children[0])
    ensures var r := Linked(Unlink(qs, h, 0), h, 0, child);
            Holds(r, h, 0, child) && r.Keys == qs.Keys && r[h].kind == qs[h].kind
  {
  }

  lemma GraftHolds(c: Caps, l: Link, h: nat, child: nat)
    requires h in l.qdiscs && child in l.qdiscs && h != child && |l.qdiscs[h].children| == 1
    requires Tracked(l.qdiscs, l.qdiscs[h].children[0])
    ensures var r := Grafted(c, l, h, child, 0, {}).1;
            Holds(r.qdiscs, h, 0, child) && child in r.qdiscs && r.qdiscs[h].kind == l.qdiscs[h].kind
  {
    LinkedHolds(l.qdiscs, h, child);
  }

  /** A child that is grafted to a RED is found in its slot, and may not be destroyed from there on. */
  lemma GraftedStays(c: Caps, l: Link, h: nat, child: nat) returns (r: Link)
    requires c.numBands <= MAX_DPS && Reachable(c, l)
    requires h in l.qdiscs && child in l.qdiscs && h != child && l.qdiscs[h].kind == Red && |l.qdiscs[h].children| == 1
    ensures Reachable(c, r) && child in r.qdiscs && !MayDestroy(r, child, false)
  {
    ReachableInv(c, l);
    ReachableOn(c, l, Graft(h, child, 0), {});
    r := Step(c, l, Graft(h, child, 0), {});
    TrackedAll(l.qdiscs, h);
    GraftHolds(c, l, h, child);
  }

  /** A run after which the rule forbids to destroy a qdisc: RED 2 grafted to RED 1. */
  lemma ForbiddenDestroyReached(c: Caps, p: RedParams) returns (l: Link)
    requires c.numBands <= MAX_DPS
    ensures Reachable(c, l) && Inv(c, l) && 2 in l.qdiscs && !MayDestroy(l, 2, false)
    ensures !Closed(Destroyed(c, l, 2, false, {}).qdiscs)
  {
    ReachableNew(c);
    l := NewRed(c, NEW_LINK, 1, p);
    l := NewRed(c, l, 2, p);
    l := GraftedStays(c, l, 1, 2);
    ReachableInv(c, l);
    DestroyClosedExactly(c, l, 2, false, {});
  }

  /** In every run a use count is the number of attachment points. */
  lemma UseCountsExact(c: Caps, l: Link, h: nat)
    requires c.numBands <= MAX_DPS && Reachable(c, l) && h in l.qdiscs
    ensures l.qdiscs[h].useCnt == |SlotsTo(l.qdiscs, h)| + (if l.root == Some(h) then 1 else 0)
  {
    var run :| Leads(c, NEW_LINK, run, l);
    LeadsInv(c, NEW_LINK, run, l);
  }

  /** In every run an offloaded RED or GRED sits at exactly one queue, and that queue is the root MQ's. */
  lemma OffloadedAtOneQueue(c: Caps, l: Link, h: nat) returns (queue: nat)
    requires c.numBands <= MAX_DPS && Reachable(c, l)
    requires h in l.qdiscs && l.qdiscs[h].offloaded && l.qdiscs[h].kind != Mq
    ensures RootMq(l) && queue < c.queues && SlotsTo(l.qdiscs, h) == {(l.root.value, queue)}
  {
    var run :| Leads(c, NEW_LINK, run, l);
    LeadsInv(c, NEW_LINK, run, l);
    var m := l.root.value;
    queue :| queue < c.queues && Holds(l.qdiscs, m, queue, h);
    var slots := SlotsTo(l.qdiscs, h);
    assert (m, queue) in slots && |slots| <= 1;
    assert |slots - {(m, queue)}| == 0;
  }

  /** In every run, when a qdisc is forgotten its use count is the number of MQ slots that still point to
      it, so clearing those accounts for every use. */
  lemma NoUseLeftOver(c: Caps, l: Link, h: nat, unregistering: bool)
    requires c.numBands <= MAX_DPS && Reachable(c, l) && h in l.qdiscs && MayDestroy(l, h, unregistering)
    ensures var qs := Emptied(l, h).qdiscs;
            OnlyMqSlots(qs, h) && qs[h].useCnt == |SlotsTo(qs, h)|
  {
    var run :| Leads(c, NEW_LINK, run, l);
    LeadsInv(c, NEW_LINK, run, l);
    OnlyMqLeft(c, l, h, unregistering);
    EmptiedBase(c, l, h);
  }
}
