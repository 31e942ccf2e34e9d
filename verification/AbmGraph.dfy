/**
 The qdisc hierarchy of an ABM link (src/abm/qdisc.c): qdiscs recorded by the major part of their
 handle, the child slots through which they refer to each other, and their use counts.
 */
module AbmGraph {
  import opened Wrappers

  datatype Kind = Mq | Red | Gred

  datatype Slot = Empty | Untracked | Child(handle: nat)

  datatype Band = Band(ecn: bool, threshold: nat)

  datatype Qdisc = Qdisc(
    kind: Kind, useCnt: int, children: seq<Slot>, paramsOk: bool, mark: bool, offloaded: bool,
    numBands: nat, bands: seq<Band>)

  type Qdiscs = map<nat, Qdisc>

  datatype Link = Link(qdiscs: Qdiscs, root: Option<nat>, hasPrio: bool)

  const INFINITY: nat := 0x7FFF_FFFF
  const MAX_DPS: nat := 16
  const EINVAL: int := -22
  const ENOMEM: int := -12
  const EOPNOTSUPP: int := -95

  /** What the firmware offers, and the number of queues of the link. */
  datatype Caps = Caps(numBands: nat, drop: bool, marking: bool, defBand: nat, queues: nat)

  // ---- slots ----

  predicate Holds(qs: Qdiscs, p: nat, i: nat, h: nat) {
    p in qs && i < |qs[p].children| && qs[p].children[i] == Child(h)
  }

  /** Every child slot that points to h. */
  ghost function SlotsTo(qs: Qdiscs, h: nat): set<(nat, nat)> {
    set p, i | p in qs && 0 <= i < |qs[p].children| && Holds(qs, p, i, h) :: (p, i)
  }

  ghost function Users(qs: Qdiscs, root: Option<nat>, h: nat): nat {
    |SlotsTo(qs, h)| + (if root == Some(h) then 1 else 0)
  }

  ghost predicate Counted(qs: Qdiscs, root: Option<nat>) {
    forall h :: h in qs ==> qs[h].useCnt == Users(qs, root, h)
  }

  /** No slot points to a qdisc that is gone. */
  ghost predicate Closed(qs: Qdiscs) {
    forall p: nat, i: nat, h: nat :: Holds(qs, p, i, h) ==> h in qs
  }

  function Counting(qs: Qdiscs, h: nat, delta: int): (r: Qdiscs)
    requires h in qs
    ensures r.Keys == qs.Keys
  {
    qs[h := qs[h].(useCnt := qs[h].useCnt + delta)]
  }

  function WithSlot(qs: Qdiscs, p: nat, i: nat, v: Slot): (r: Qdiscs)
    requires p in qs && i < |qs[p].children|
    ensures r.Keys == qs.Keys
  {
    qs[p := qs[p].(children := qs[p].children[i := v])]
  }

  predicate SameChildren(a: Qdiscs, b: Qdiscs) {
    a.Keys == b.Keys && forall p :: p in a ==> a[p].children == b[p].children
  }

  lemma SameSlots(a: Qdiscs, b: Qdiscs, h: nat)
    requires SameChildren(a, b)
    ensures SlotsTo(a, h) == SlotsTo(b, h)
  {
    forall s | s in SlotsTo(a, h) ensures s in SlotsTo(b, h) { assert Holds(b, s.0, s.1, h); }
    forall s | s in SlotsTo(b, h) ensures s in SlotsTo(a, h) { assert Holds(a, s.0, s.1, h); }
  }

  lemma SlotsAfter(qs: Qdiscs, p: nat, i: nat, v: Slot, h: nat)
    requires p in qs && i < |qs[p].children|
    ensures SlotsTo(WithSlot(qs, p, i, v), h) ==
            SlotsTo(qs, h) - {(p, i)} + (if v == Child(h) then {(p, i)} else {})
  {
    var r := WithSlot(qs, p, i, v);
    forall s | s in SlotsTo(r, h)
      ensures s in SlotsTo(qs, h) - {(p, i)} + (if v == Child(h) then {(p, i)} else {})
    {
      assert Holds(r, s.0, s.1, h);
      assert s != (p, i) ==> Holds(qs, s.0, s.1, h);
    }
    forall s | s in SlotsTo(qs, h) - {(p, i)} + (if v == Child(h) then {(p, i)} else {})
      ensures s in SlotsTo(r, h)
    {
      assert s != (p, i) ==> Holds(qs, s.0, s.1, h);
      assert Holds(r, s.0, s.1, h);
    }
  }

  function Points(s: Slot, h: nat): int { if s == Child(h) then 1 else 0 }

  /** Storing v into a slot moves one use from the old occupant to the new one. */
  lemma UsersAfter(qs: Qdiscs, root: Option<nat>, p: nat, i: nat, v: Slot, h: nat)
    requires p in qs && i < |qs[p].children|
    ensures Users(WithSlot(qs, p, i, v), root, h) ==
            Users(qs, root, h) - Points(qs[p].children[i], h) + Points(v, h)
  {
    SlotsAfter(qs, p, i, v, h);
    assert (p, i) in SlotsTo(qs, h) <==> Holds(qs, p, i, h);
  }

  lemma UsersSame(a: Qdiscs, b: Qdiscs, root: Option<nat>, h: nat)
    requires SameChildren(a, b)
    ensures Users(a, root, h) == Users(b, root, h)
  {
    SameSlots(a, b, h);
  }

  // ---- taking slots away ----

  predicate Tracked(qs: Qdiscs, s: Slot) { s.Child? ==> s.handle in qs }

  function Unlink(qs: Qdiscs, p: nat, i: nat): (r: Qdiscs)
    requires p in qs && i < |qs[p].children| && Tracked(qs, qs[p].children[i])
    ensures r.Keys == qs.Keys && |r[p].children| == |qs[p].children|
  {
    match qs[p].children[i]
    case Child(c) => WithSlot(Counting(qs, c, -1), p, i, Empty)
    case _ => qs
  }

  lemma ClosedAfter(qs: Qdiscs, p: nat, i: nat, v: Slot)
    requires p in qs && i < |qs[p].children| && Closed(qs) && Tracked(qs, v)
    ensures Closed(WithSlot(qs, p, i, v))
  {
    var r := WithSlot(qs, p, i, v);
    forall q: nat, j: nat, h: nat | Holds(r, q, j, h) ensures h in r {
      assert (q, j) != (p, i) ==> Holds(qs, q, j, h);
    }
  }

  lemma ClosedSame(a: Qdiscs, b: Qdiscs)
    requires SameChildren(a, b) && Closed(a)
    ensures Closed(b)
  {
    forall q: nat, j: nat, h: nat | Holds(b, q, j, h) ensures h in b { assert Holds(a, q, j, h); }
  }

  lemma CountedSame(a: Qdiscs, b: Qdiscs, root: Option<nat>)
    requires SameChildren(a, b) && Counted(a, root)
    requires forall h :: h in a ==> b[h].useCnt == a[h].useCnt
    ensures Counted(b, root)
  {
    forall h | h in b ensures b[h].useCnt == Users(b, root, h) { UsersSame(a, b, root, h); }
  }

  /** Moving the root moves one use with it. */
  lemma CountedRoot(a: Qdiscs, from: Option<nat>, b: Qdiscs, to: Option<nat>)
    requires SameChildren(a, b) && Counted(a, from)
    requires forall h :: h in a ==>
               b[h].useCnt == a[h].useCnt - (if from == Some(h) then 1 else 0) + (if to == Some(h) then 1 else 0)
    ensures Counted(b, to)
  {
    forall h | h in b ensures b[h].useCnt == Users(b, to, h) { SameSlots(a, b, h); }
  }

  /** A slot changes together with the counts of the old and the new occupant. */
  lemma CountedAfter(qs: Qdiscs, root: Option<nat>, p: nat, i: nat, v: Slot, r: Qdiscs)
    requires p in qs && i < |qs[p].children| && Counted(qs, root) && r.Keys == qs.Keys
    requires SameChildren(WithSlot(qs, p, i, v), r)
    requires forall h :: h in qs ==>
               r[h].useCnt == qs[h].useCnt - Points(qs[p].children[i], h) + Points(v, h)
    ensures Counted(r, root)
  {
    forall h | h in r ensures r[h].useCnt == Users(r, root, h) {
      UsersAfter(qs, root, p, i, v, h);
      UsersSame(WithSlot(qs, p, i, v), r, root, h);
    }
  }

  lemma UnlinkShape(qs: Qdiscs, p: nat, i: nat, c: nat)
    requires Holds(qs, p, i, c) && c in qs
    ensures SameChildren(WithSlot(qs, p, i, Empty), Unlink(qs, p, i))
    ensures forall h :: h in qs ==>
              Unlink(qs, p, i)[h].useCnt == qs[h].useCnt - Points(Child(c), h) + Points(Empty, h)
  {
  }

  lemma UnlinkKeeps(qs: Qdiscs, root: Option<nat>, p: nat, i: nat)
    requires p in qs && i < |qs[p].children| && Closed(qs) && Counted(qs, root)
    ensures Tracked(qs, qs[p].children[i])
    ensures Closed(Unlink(qs, p, i)) && Counted(Unlink(qs, p, i), root)
  {
    if qs[p].children[i].Child? {
      var c := qs[p].children[i].handle;
      assert Holds(qs, p, i, c);
      UnlinkShape(qs, p, i, c);
      assert Closed(Unlink(qs, p, i)) by {
        ClosedAfter(qs, p, i, Empty);
        ClosedSame(WithSlot(qs, p, i, Empty), Unlink(qs, p, i));
      }
      assert Counted(Unlink(qs, p, i), root) by {
        CountedAfter(qs, root, p, i, Empty, Unlink(qs, p, i));
      }
    }
  }

  /** Unlinking the slots of p from number i on. */
  ghost function UnlinkFrom(qs: Qdiscs, p: nat, i: nat): (r: Qdiscs)
    requires p in qs && i <= |qs[p].children|
    ensures r.Keys == qs.Keys && |r[p].children| == |qs[p].children|
    decreases |qs[p].children| - i
  {
    if i == |qs[p].children| || !Tracked(qs, qs[p].children[i]) then qs
    else UnlinkFrom(Unlink(qs, p, i), p, i + 1)
  }

  /** Only the use counts and the slots of p change. */
  ghost predicate OnlySlotsOf(qs: Qdiscs, r: Qdiscs, p: nat) {
    r.Keys == qs.Keys && p in qs && |r[p].children| == |qs[p].children|
    && (forall h :: h in qs ==> r[h] == qs[h].(useCnt := r[h].useCnt, children := r[h].children))
    && (forall h :: h in qs && h != p ==> r[h].children == qs[h].children)
  }

  lemma UnlinkOnly(qs: Qdiscs, p: nat, i: nat)
    requires p in qs && i < |qs[p].children| && Tracked(qs, qs[p].children[i])
    ensures OnlySlotsOf(qs, Unlink(qs, p, i), p)
    ensures !Unlink(qs, p, i)[p].children[i].Child?
    ensures forall j :: 0 <= j < |qs[p].children| && j != i ==> Unlink(qs, p, i)[p].children[j] == qs[p].children[j]
  {
  }

  predicate NoChildBelow(q: Qdisc, i: nat) {
    forall j :: 0 <= j < |q.children| && j < i ==> !q.children[j].Child?
  }

  /** Taking any one slot of p keeps the property. */
  ghost predicate KeptByUnlink(good: Qdiscs -> bool, p: nat) {
    forall qs: Qdiscs, i: nat {:trigger good(qs), Tracked(qs, qs[p].children[i])} ::
      good(qs) && p in qs && i < |qs[p].children| ==> Tracked(qs, qs[p].children[i]) && good(Unlink(qs, p, i))
  }

  lemma {:induction false} UnlinkFromGood(good: Qdiscs -> bool, qs: Qdiscs, p: nat, i: nat)
    requires KeptByUnlink(good, p) && p in qs && i <= |qs[p].children| && good(qs)
    ensures good(UnlinkFrom(qs, p, i))
    decreases |qs[p].children| - i
  {
    if i < |qs[p].children| {
      assert Tracked(qs, qs[p].children[i]);
      UnlinkFromGood(good, Unlink(qs, p, i), p, i + 1);
    }
  }

  lemma UnlinkFromKeeps(qs: Qdiscs, root: Option<nat>, p: nat, i: nat)
    requires p in qs && i <= |qs[p].children| && Closed(qs) && Counted(qs, root)
    ensures Closed(UnlinkFrom(qs, p, i)) && Counted(UnlinkFrom(qs, p, i), root)
  {
    ghost var good: Qdiscs -> bool := r => Closed(r) && Counted(r, root);
    forall r: Qdiscs, j: nat | good(r) && p in r && j < |r[p].children|
      ensures Tracked(r, r[p].children[j]) && good(Unlink(r, p, j))
    {
      UnlinkKeeps(r, root, p, j);
    }
    UnlinkFromGood(good, qs, p, i);
  }

  predicate AllTracked(qs: Qdiscs, p: nat)
    requires p in qs
  {
    forall i :: 0 <= i < |qs[p].children| ==> Tracked(qs, qs[p].children[i])
  }

  lemma OnlySlotsTransitive(a: Qdiscs, b: Qdiscs, c: Qdiscs, p: nat)
    requires OnlySlotsOf(a, b, p) && OnlySlotsOf(b, c, p)
    ensures OnlySlotsOf(a, c, p)
  {
  }

  lemma UnlinkTracked(qs: Qdiscs, p: nat, i: nat)
    requires p in qs && i < |qs[p].children| && AllTracked(qs, p) && NoChildBelow(qs[p], i)
    ensures AllTracked(Unlink(qs, p, i), p) && NoChildBelow(Unlink(qs, p, i)[p], i + 1)
  {
    UnlinkOnly(qs, p, i);
  }

  lemma {:induction false} UnlinkFromOnly(qs: Qdiscs, p: nat, i: nat)
    requires p in qs && i <= |qs[p].children| && AllTracked(qs, p) && NoChildBelow(qs[p], i)
    ensures OnlySlotsOf(qs, UnlinkFrom(qs, p, i), p)
    ensures NoChildBelow(UnlinkFrom(qs, p, i)[p], |qs[p].children|)
    decreases |qs[p].children| - i
  {
    if i < |qs[p].children| {
      UnlinkTracked(qs, p, i);
      UnlinkOnly(qs, p, i);
      UnlinkFromOnly(Unlink(qs, p, i), p, i + 1);
      OnlySlotsTransitive(qs, Unlink(qs, p, i), UnlinkFrom(qs, p, i), p);
    }
  }

  // ---- forgetting a qdisc ----

  function Cleared(children: seq<Slot>, h: nat): (r: seq<Slot>)
    ensures |r| == |children|
    ensures forall i :: 0 <= i < |r| ==> r[i] == if children[i] == Child(h) then Empty else children[i]
  {
    seq(|children|, i requires 0 <= i < |children| => if children[i] == Child(h) then Empty else children[i])
  }

  /** nfp_abm_qdisc_clear_mq(): MQ slots lose their pointers to h. */
  function ClearMq(qs: Qdiscs, h: nat): (r: Qdiscs)
    ensures r.Keys == qs.Keys
  {
    map p: nat | p in qs :: if qs[p].kind == Mq then qs[p].(children := Cleared(qs[p].children, h)) else qs[p]
  }

  /** Only MQ slots other than its own point to h. */
  ghost predicate OnlyMqSlots(qs: Qdiscs, h: nat) {
    forall p: nat, i: nat :: Holds(qs, p, i, h) ==> p != h && qs[p].kind == Mq
  }

  lemma ClearMqOthers(qs: Qdiscs, h: nat, g: nat)
    requires g != h
    ensures SlotsTo(ClearMq(qs, h), g) == SlotsTo(qs, g)
  {
    var r := ClearMq(qs, h);
    forall s | s in SlotsTo(r, g) ensures s in SlotsTo(qs, g) { assert Holds(qs, s.0, s.1, g); }
    forall s | s in SlotsTo(qs, g) ensures s in SlotsTo(r, g) { assert Holds(r, s.0, s.1, g); }
  }

  lemma DropSlots(qs: Qdiscs, h: nat, g: nat)
    requires h in qs && NoChildBelow(qs[h], |qs[h].children|)
    ensures SlotsTo(qs - {h}, g) == SlotsTo(qs, g)
  {
    var r: Qdiscs := qs - {h};
    forall s | s in SlotsTo(r, g) ensures s in SlotsTo(qs, g) { assert Holds(qs, s.0, s.1, g); }
    forall s | s in SlotsTo(qs, g) ensures s in SlotsTo(r, g) { assert Holds(r, s.0, s.1, g); }
  }

  lemma ForgetCounted(qs: Qdiscs, root: Option<nat>, h: nat)
    requires h in qs && Counted(qs, root) && NoChildBelow(qs[h], |qs[h].children|)
    ensures Counted(ClearMq(qs, h) - {h}, root)
  {
    var mid: Qdiscs := ClearMq(qs, h);
    var r: Qdiscs := mid - {h};
    assert NoChildBelow(mid[h], |mid[h].children|);
    forall g | g in r ensures r[g].useCnt == Users(r, root, g) {
      ClearMqOthers(qs, h, g);
      DropSlots(mid, h, g);
    }
  }

  lemma ForgetClosed(qs: Qdiscs, h: nat)
    requires h in qs && Closed(qs) && OnlyMqSlots(qs, h)
    ensures Closed(ClearMq(qs, h) - {h})
  {
    var r: Qdiscs := ClearMq(qs, h) - {h};
    forall p: nat, i: nat, g: nat | Holds(r, p, i, g) ensures g in r {
      assert Holds(qs, p, i, g);
    }
  }

  /** With no slot pointing to it, clearing changes nothing. */
  lemma ClearMqNone(qs: Qdiscs, h: nat)
    requires SlotsTo(qs, h) == {}
    ensures ClearMq(qs, h) == qs
  {
    forall p | p in qs ensures ClearMq(qs, h)[p] == qs[p] {
      forall i | 0 <= i < |qs[p].children| ensures qs[p].children[i] != Child(h) {
        assert Holds(qs, p, i, h) ==> (p, i) in SlotsTo(qs, h);
      }
      assert Cleared(qs[p].children, h) == qs[p].children;
    }
  }
}
