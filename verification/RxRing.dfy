/**
 The buffers of an RX ring (src/nfp_net_dp.c, src/nfd3/dp.c): filled, given to the firmware, exchanged
 while packets arrive, gathered again by a reset, and freed. A ring of `cnt` slots holds cnt - 1 buffers.
 */
module RxRing {
  const ENOMEM: int := -12

  /** A buffer; 0 is NULL. */
  type Frag = nat

  /** D_IDX(): ring sizes are powers of two, so masking is taking the remainder. */
  function Idx(p: nat, cnt: nat): (i: nat)
    requires 0 < cnt
    ensures i < cnt
  {
    if p < cnt then p else Idx(p - cnt, cnt)
  }

  lemma {:induction false} IdxNext(p: nat, cnt: nat)
    requires 0 < cnt
    ensures Idx(p + 1, cnt) == if Idx(p, cnt) == cnt - 1 then 0 else Idx(p, cnt) + 1
    ensures Idx(p + cnt, cnt) == Idx(p, cnt)
    decreases p
  {
    if p >= cnt { IdxNext(p - cnt, cnt); }
  }

  // ---- the slots ----

  function One(a: Frag, f: Frag): nat { if a == f then 1 else 0 }

  /** How many slots hold f. */
  function Cnt(s: seq<Frag>, f: Frag): nat {
    if s == [] then 0 else Cnt(s[..|s| - 1], f) + One(s[|s| - 1], f)
  }

  lemma {:induction false} CntAfter(s: seq<Frag>, i: nat, v: Frag, f: Frag)
    requires i < |s|
    ensures Cnt(s[i := v], f) == Cnt(s, f) - One(s[i], f) + One(v, f)
    ensures One(s[i], f) <= Cnt(s, f)
  {
    var r, last := s[i := v], |s| - 1;
    if i == last {
      assert r[..last] == s[..last];
    } else {
      assert r[..last] == s[..last][i := v];
      CntAfter(s[..last], i, v, f);
    }
  }

  /** nfp_net_rx_ring_reset(): the last buffer moves into the hole. */
  function Gathered(s: seq<Frag>, hole: nat): (r: seq<Frag>)
    requires hole < |s|
    ensures |r| == |s|
  {
    s[hole := s[|s| - 1]][|s| - 1 := 0]
  }

  /** A reset keeps every buffer outside the hole and frees the last slot. */
  lemma GatheredKeeps(s: seq<Frag>, hole: nat, f: Frag)
    requires hole < |s| && f != 0
    ensures Cnt(Gathered(s, hole), f) == Cnt(s, f) - One(s[hole], f)
  {
    var last := |s| - 1;
    CntAfter(s, hole, s[last], f);
    CntAfter(s[hole := s[last]], last, 0, f);
  }

  // ---- the life of a ring ----

  /** Buffers are allocated, handed to the stack with a packet, or freed. */
  datatype Ring = Ring(bufs: seq<Frag>, wr: nat, rd: nat,
                       taken: multiset<Frag>, handed: multiset<Frag>, freed: multiset<Frag>)

  datatype Event =
    | Alloc(frags: seq<Frag>)   // fewer than the ring needs: allocation failed there
    | Feed                      // give the buffers to the firmware
    | Receive(frag: Frag)       // hand a packet to the stack and put a new buffer into the ring
    | Recycle                   // drop a packet and put its buffer back
    | Reset                     // gather the buffers after the device stopped
    | Free

  predicate Vacant(s: seq<Frag>) { forall i :: 0 <= i < |s| ==> s[i] == 0 }

  /** Empty, filled but not fed, or fed; only a fed ring has moved its pointers. */
  predicate IsEmpty(r: Ring) { Vacant(r.bufs) && r.wr == 0 && r.rd == 0 }

  predicate Front(s: seq<Frag>) { 0 < |s| && s[|s| - 1] == 0 && forall i :: 0 <= i < |s| - 1 ==> s[i] != 0 }

  predicate IsFilled(r: Ring) { Front(r.bufs) && r.wr == 0 && r.rd == 0 }

  predicate IsFed(r: Ring)
    requires 0 < |r.bufs|
  {
    r.wr == r.rd + |r.bufs| - 1
    && forall i :: 0 <= i < |r.bufs| && i != Idx(r.wr, |r.bufs|) ==> r.bufs[i] != 0
  }

  /** How often the ring is responsible for f; what a hole still shows does not count. */
  function Live(r: Ring, f: Frag): int
    requires 0 < |r.bufs|
  {
    Cnt(r.bufs, f) - (if r.wr == 0 then 0 else One(r.bufs[Idx(r.wr, |r.bufs|)], f))
  }

  ghost predicate Accounted(r: Ring)
    requires 0 < |r.bufs|
  {
    forall f: Frag :: f != 0 ==> r.taken[f] == Live(r, f) + r.handed[f] + r.freed[f]
  }

  predicate Shaped(r: Ring) {
    2 <= |r.bufs| && (IsEmpty(r) || IsFilled(r) || IsFed(r))
  }

  ghost predicate Inv(r: Ring) { Shaped(r) && Accounted(r) }

  predicate Enabled(r: Ring, e: Event)
    requires 0 < |r.bufs|
  {
    match e
    case Alloc(frags) => IsEmpty(r) && |frags| < |r.bufs| && 0 !in frags
    case Feed => IsFilled(r)
    case Receive(frag) => IsFed(r) && r.wr != 0 && frag != 0
    case Recycle => IsFed(r) && r.wr != 0
    case Reset => true
    case Free => !(IsFed(r) && r.wr != 0)
  }

  /** nfp_net_rx_ring_bufs_free() on the slots before the last. */
  function FreeAll(r: Ring): Ring
    requires 0 < |r.bufs|
  {
    var last := |r.bufs| - 1;
    r.(bufs := Cleared(r.bufs, last), freed := r.freed + multiset(NonNull(r.bufs[..last])))
  }

  function NonNull(s: seq<Frag>): seq<Frag> {
    if s == [] then []
    else NonNull(s[..|s| - 1]) + (if s[|s| - 1] != 0 then [s[|s| - 1]] else [])
  }

  function Filled(r: Ring, frags: seq<Frag>): Ring
    requires |frags| < |r.bufs|
  {
    r.(bufs := frags + r.bufs[|frags|..], taken := r.taken + multiset(frags))
  }

  function Step(r: Ring, e: Event): (t: Ring)
    requires 0 < |r.bufs| && Enabled(r, e)
    ensures |t.bufs| == |r.bufs|
  {
    var cnt := |r.bufs|;
    match e
    case Alloc(frags) => if |frags| < cnt - 1 then FreeAll(Filled(r, frags)) else Filled(r, frags)
    case Feed => r.(wr := cnt - 1)
    case Receive(frag) =>
      r.(bufs := r.bufs[Idx(r.wr, cnt) := frag], wr := r.wr + 1, rd := r.rd + 1,
         taken := r.taken + multiset{frag}, handed := r.handed + multiset{r.bufs[Idx(r.rd, cnt)]})
    case Recycle =>
      r.(bufs := r.bufs[Idx(r.wr, cnt) := r.bufs[Idx(r.rd, cnt)]], wr := r.wr + 1, rd := r.rd + 1)
    case Reset =>
      if r.wr == 0 && r.rd == 0 then r
      else r.(bufs := Gathered(r.bufs, Idx(r.wr, cnt)), wr := 0, rd := 0)
    case Free => FreeAll(r)
  }

  lemma {:induction false} NonNullCount(s: seq<Frag>, f: Frag)
    requires f != 0
    ensures multiset(NonNull(s))[f] == Cnt(s, f)
  {
    if s != [] { NonNullCount(s[..|s| - 1], f); }
  }

  lemma {:induction false} VacantCount(s: seq<Frag>, f: Frag)
    requires Vacant(s) && f != 0
    ensures Cnt(s, f) == 0
  {
    if s != [] { VacantCount(s[..|s| - 1], f); }
  }

  lemma {:induction false} CntConcat(s: seq<Frag>, t: seq<Frag>, f: Frag)
    ensures Cnt(s + t, f) == Cnt(s, f) + Cnt(t, f)
  {
    if t == [] {
      assert s + t == s;
    } else {
      assert (s + t)[..|s + t| - 1] == s + t[..|t| - 1];
      CntConcat(s, t[..|t| - 1], f);
    }
  }

  lemma {:induction false} MultisetCount(s: seq<Frag>, f: Frag)
    ensures multiset(s)[f] == Cnt(s, f)
  {
    if s != [] {
      assert s == s[..|s| - 1] + [s[|s| - 1]];
      MultisetCount(s[..|s| - 1], f);
    }
  }

  lemma FilledCount(r: Ring, frags: seq<Frag>, f: Frag)
    requires Inv(r) && IsEmpty(r) && |frags| < |r.bufs| && f != 0
    ensures Filled(r, frags).taken[f] == Live(Filled(r, frags), f) + r.handed[f] + r.freed[f]
  {
    CntConcat(frags, r.bufs[|frags|..], f);
    VacantCount(r.bufs, f);
    VacantCount(r.bufs[|frags|..], f);
    MultisetCount(frags, f);
  }

  lemma FreeAllCount(r: Ring, f: Frag)
    requires 0 < |r.bufs| && r.wr == 0 && r.bufs[|r.bufs| - 1] == 0 && f != 0
    ensures Live(FreeAll(r), f) == 0 && FreeAll(r).freed[f] == r.freed[f] + Live(r, f)
  {
    var last := |r.bufs| - 1;
    NonNullCount(r.bufs[..last], f);
    VacantCount(FreeAll(r).bufs, f);
  }

  lemma FreeAllKeeps(r: Ring)
    requires 2 <= |r.bufs| && r.wr == r.rd == 0 && r.bufs[|r.bufs| - 1] == 0 && Accounted(r)
    ensures Inv(FreeAll(r)) && IsEmpty(FreeAll(r))
  {
    forall f: Frag | f != 0
      ensures FreeAll(r).taken[f] == Live(FreeAll(r), f) + FreeAll(r).handed[f] + FreeAll(r).freed[f]
    {
      FreeAllCount(r, f);
    }
  }

  lemma AllocKeeps(r: Ring, frags: seq<Frag>)
    requires Inv(r) && Enabled(r, Alloc(frags))
    ensures Inv(Step(r, Alloc(frags)))
  {
    var t := Filled(r, frags);
    forall f: Frag | f != 0 ensures t.taken[f] == Live(t, f) + t.handed[f] + t.freed[f] { FilledCount(r, frags, f); }
    if |frags| < |r.bufs| - 1 { FreeAllKeeps(t); }
  }

  lemma FreeKeeps(r: Ring)
    requires Inv(r) && Enabled(r, Free)
    ensures Inv(Step(r, Free)) && IsEmpty(Step(r, Free))
  {
    FreeAllKeeps(r);
  }

  lemma FeedKeeps(r: Ring)
    requires Inv(r) && Enabled(r, Feed)
    ensures Inv(Step(r, Feed))
  {
    var t := Step(r, Feed);
    assert Idx(t.wr, |t.bufs|) == |t.bufs| - 1;
    forall f: Frag | f != 0 ensures Live(t, f) == Live(r, f) {}
  }

  /** The slot that is read next is the one after the hole, and becomes the hole. */
  lemma HoleMoves(r: Ring)
    requires 2 <= |r.bufs| && IsFed(r)
    ensures Idx(r.rd, |r.bufs|) == Idx(r.wr + 1, |r.bufs|) != Idx(r.wr, |r.bufs|)
  {
    IdxNext(r.rd, |r.bufs|);
    IdxNext(r.wr, |r.bufs|);
    assert r.wr + 1 == r.rd + |r.bufs|;
  }

  lemma RunShaped(r: Ring, e: Event)
    requires Inv(r) && Enabled(r, e) && (e.Receive? || e.Recycle?)
    ensures Shaped(Step(r, e))
  {
    HoleMoves(r);
  }

  lemma RunCount(r: Ring, e: Event, f: Frag)
    requires Inv(r) && Enabled(r, e) && (e.Receive? || e.Recycle?) && f != 0
    ensures var t := Step(r, e); t.taken[f] == Live(t, f) + t.handed[f] + t.freed[f]
  {
    var cnt := |r.bufs|;
    HoleMoves(r);
    CntAfter(r.bufs, Idx(r.wr, cnt), if e.Receive? then e.frag else r.bufs[Idx(r.rd, cnt)], f);
  }

  lemma RunKeeps(r: Ring, e: Event)
    requires Inv(r) && Enabled(r, e) && (e.Receive? || e.Recycle?)
    ensures Inv(Step(r, e))
  {
    RunShaped(r, e);
    forall f: Frag | f != 0
      ensures var t := Step(r, e); t.taken[f] == Live(t, f) + t.handed[f] + t.freed[f]
    {
      RunCount(r, e, f);
    }
  }

  /** A reset gathers the same buffers in front of the last slot, and a second one changes nothing. */
  lemma ResetGathers(r: Ring)
    requires Shaped(r) && IsFed(r)
    ensures var t := Step(r, Reset);
            Front(t.bufs) && t.wr == t.rd == 0 && Step(t, Reset) == t
            && forall f: Frag :: f != 0 ==> Cnt(t.bufs, f) == Live(r, f)
  {
    var hole := Idx(r.wr, |r.bufs|);
    forall f: Frag | f != 0 ensures Cnt(Gathered(r.bufs, hole), f) == Live(r, f) { GatheredKeeps(r.bufs, hole, f); }
  }

  lemma ResetKeeps(r: Ring)
    requires Inv(r)
    ensures Inv(Step(r, Reset)) && (IsEmpty(r) || IsFilled(Step(r, Reset)))
  {
    if r.wr != 0 { ResetGathers(r); }
  }

  lemma StepKeeps(r: Ring, e: Event)
    requires Inv(r) && Enabled(r, e)
    ensures Inv(Step(r, e))
  {
    match e
    case Alloc(frags) => AllocKeeps(r, frags);
    case Feed => FeedKeeps(r);
    case Receive(_) => RunKeeps(r, e);
    case Recycle => RunKeeps(r, e);
    case Reset => ResetKeeps(r);
    case Free => FreeKeeps(r);
  }

  predicate Legal(r: Ring, run: seq<Event>)
    requires 0 < |r.bufs|
    decreases |run|
  {
    run == [] || (Enabled(r, run[0]) && Legal(Step(r, run[0]), run[1..]))
  }

  function Exec(r: Ring, run: seq<Event>): (t: Ring)
    requires 0 < |r.bufs| && Legal(r, run)
    ensures |t.bufs| == |r.bufs|
    decreases |run|
  {
    if run == [] then r else Exec(Step(r, run[0]), run[1..])
  }

  lemma {:induction false} ExecInv(r: Ring, run: seq<Event>)
    requires Inv(r) && Legal(r, run)
    ensures Inv(Exec(r, run))
    decreases |run|
  {
    if run != [] {
      StepKeeps(r, run[0]);
      ExecInv(Step(r, run[0]), run[1..]);
    }
  }

  function New(cnt: nat): Ring {
    Ring(seq(cnt, _ => 0), 0, 0, multiset{}, multiset{}, multiset{})
  }

  lemma NewInv(cnt: nat)
    requires 2 <= cnt
    ensures Inv(New(cnt))
  {
    forall f: Frag | f != 0 ensures Live(New(cnt), f) == 0 { VacantCount(New(cnt).bufs, f); }
  }

  /** After any run that ends with a reset and freeing the ring, every buffer that was ever allocated has
      been handed on or freed, and exactly as often as it was allocated. */
  lemma EveryBufferReleasedOnce(cnt: nat, run: seq<Event>, frag: Frag)
    requires 2 <= cnt && Legal(New(cnt), run) && frag != 0
    ensures var r := Step(Exec(New(cnt), run), Reset);
            Enabled(r, Free) && var t := Step(r, Free); t.taken[frag] == t.handed[frag] + t.freed[frag]
  {
    NewInv(cnt);
    ExecInv(New(cnt), run);
    var r := Exec(New(cnt), run);
    ResetKeeps(r);
    FreeKeeps(Step(r, Reset));
    VacantCount(Step(Step(r, Reset), Free).bufs, frag);
  }

  // ---- in place ----

  /** The buffers before the first failed allocation. */
  function Until0(s: seq<Frag>): (r: seq<Frag>)
    ensures |r| <= |s| && r == s[..|r|] && 0 !in r && (|r| < |s| ==> s[|r|] == 0)
  {
    if s == [] || s[0] == 0 then [] else [s[0]] + Until0(s[1..])
  }

  lemma {:induction false} Until0Is(s: seq<Frag>, n: nat)
    requires n <= |s| && (n < |s| ==> s[n] == 0) && forall i :: 0 <= i < n ==> s[i] != 0
    ensures Until0(s) == s[..n]
  {
    var r := Until0(s);
    assert forall i :: 0 <= i < |r| ==> s[i] == r[i];
  }

  /** The slots after i allocations. */
  function Started(bufs: seq<Frag>, avail: seq<Frag>, i: nat): seq<Frag>
    requires i <= |avail| < |bufs|
  {
    avail[..i] + bufs[i..]
  }

  lemma StartedOn(bufs: seq<Frag>, avail: seq<Frag>, i: nat)
    requires Vacant(bufs) && i < |avail| < |bufs|
    ensures var t := Started(bufs, avail, i);
            Started(bufs, avail, i + 1) == t[i := avail[i]] && t[i := 0] == t
  {
  }

  /** The slots after the first i have been freed. */
  function Cleared(bufs: seq<Frag>, i: nat): seq<Frag>
    requires i <= |bufs|
  {
    seq(i, _ => 0) + bufs[i..]
  }

  lemma ClearedOn(bufs: seq<Frag>, i: nat)
    requires i < |bufs|
    ensures Cleared(bufs, i + 1) == Cleared(bufs, i)[i := 0] && Cleared(bufs, i)[i] == bufs[i]
  {
  }

  class Buffers {
    const rxbufs: array<Frag>
    var wrP: nat
    var rdP: nat
    ghost var taken: multiset<Frag>
    ghost var handed: multiset<Frag>
    ghost var freed: multiset<Frag>

    constructor (cnt: nat)
      requires 2 <= cnt
      ensures State() == New(cnt) && fresh(rxbufs)
    {
      rxbufs := new Frag[cnt](_ => 0);
      wrP, rdP := 0, 0;
      taken, handed, freed := multiset{}, multiset{}, multiset{};
    }

    ghost function State(): Ring
      reads this, rxbufs
    {
      Ring(rxbufs[..], wrP, rdP, taken, handed, freed)
    }

    method ResetRing()
      requires 0 < rxbufs.Length
      modifies this, rxbufs
      ensures State() == Step(old(State()), Reset)
    {
      if wrP == 0 && rdP == 0 {
        return;
      }
      var wrIdx, lastIdx := Idx(wrP, rxbufs.Length), rxbufs.Length - 1;
      rxbufs[wrIdx] := rxbufs[lastIdx];
      rxbufs[lastIdx] := 0;
      wrP, rdP := 0, 0;
    }

    method ClearSlots() returns (ghost log: seq<Frag>)
      requires 0 < rxbufs.Length
      modifies rxbufs
      ensures rxbufs[..] == Cleared(old(rxbufs[..]), rxbufs.Length - 1)
      ensures log == NonNull(old(rxbufs[..])[..rxbufs.Length - 1])
    {
      ghost var was := rxbufs[..];
      log := [];
      var i := 0;
      assert Cleared(was, 0) == was;
      while i < rxbufs.Length - 1
        invariant 0 <= i < rxbufs.Length == |was| && log == NonNull(was[..i]) && rxbufs[..] == Cleared(was, i)
      {
        assert was[..i + 1][..i] == was[..i];
        ClearedOn(was, i);
        if rxbufs[i] != 0 {
          log := log + [rxbufs[i]];
          rxbufs[i] := 0;
        }
        i := i + 1;
      }
    }

    method BufsFree()
      requires 0 < rxbufs.Length
      modifies this, rxbufs
      ensures State() == FreeAll(old(State()))
    {
      ghost var log := ClearSlots();
      freed := freed + multiset(log);
    }

    method FillSlots(avail: seq<Frag>) returns (n: nat)
      requires rxbufs.Length == |avail| + 1 && Vacant(rxbufs[..])
      modifies rxbufs
      ensures n <= |avail| && avail[..n] == Until0(avail) && rxbufs[..] == Started(old(rxbufs[..]), avail, n)
    {
      ghost var was := rxbufs[..];
      n := 0;
      while n < rxbufs.Length - 1
        invariant 0 <= n <= |avail| && |was| == rxbufs.Length && rxbufs[..] == Started(was, avail, n)
        invariant forall j :: 0 <= j < n ==> avail[j] != 0
      {
        StartedOn(was, avail, n);
        rxbufs[n] := avail[n];
        if rxbufs[n] == 0 {
          Until0Is(avail, n);
          return;
        }
        n := n + 1;
      }
      Until0Is(avail, n);
    }

    /** nfp_net_rx_ring_bufs_alloc(); `avail` is what the allocator returns, one after the other. */
    method BufsAlloc(avail: seq<Frag>) returns (err: int)
      requires 2 <= rxbufs.Length == |avail| + 1 && IsEmpty(State())
      modifies this, rxbufs
      ensures State() == Step(old(State()), Alloc(Until0(avail)))
      ensures err == if Until0(avail) == avail then 0 else ENOMEM
    {
      var n := FillSlots(avail);
      taken := taken + multiset(avail[..n]);
      if n < |avail| {
        BufsFree();
        return ENOMEM;
      }
      assert avail[..n] == avail;
      return 0;
    }

    /** nfp_nfd3_rx_give_one() */
    method GiveOne(frag: Frag)
      requires 0 < rxbufs.Length
      modifies this, rxbufs
      ensures State() ==
              old(State()).(bufs := old(rxbufs[..])[Idx(old(wrP), rxbufs.Length) := frag], wr := old(wrP) + 1)
    {
      rxbufs[Idx(wrP, rxbufs.Length)] := frag;
      wrP := wrP + 1;
    }

    method FillFreelist()
      requires IsFilled(State())
      modifies this, rxbufs
      ensures State() == Step(old(State()), Feed)
    {
      ghost var was := State();
      var i := 0;
      while i < rxbufs.Length - 1
        invariant 0 <= i < rxbufs.Length && State() == was.(wr := i)
      {
        assert rxbufs[..][i := rxbufs[i]] == rxbufs[..];
        GiveOne(rxbufs[i]);
        i := i + 1;
      }
    }
  }
}
