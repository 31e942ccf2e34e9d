/**
 Sharing of the ARM bridge's BARs between CPP areas (src/nfp_plat.c): an area takes a run of consecutive
 BARs, either one that already points where it needs or one that nobody uses.
 */
module PlatBars {
  const EEXIST: int := -17
  const ENOSPC: int := -28

  /** struct nfp_plat_bar */
  datatype Bar = Bar(locked: bool, usage: int, csr: nat)

  /** The run of BARs a live area holds, and the CSR value it asked for. */
  datatype Area = Area(first: nat, n: nat, csr: nat)

  /** One kind of BARs: the BARs, the live areas on them, and how often each was reserved when the device
      was probed. */
  datatype Table = Table(bars: seq<Bar>, areas: map<nat, Area>, reserved: seq<nat>)

  /** The CSR value of the j-th BAR of an area; CSRs are 32 bits wide. */
  function Csr(csr: nat, j: nat): nat { (csr + j) % 0x1_0000_0000 }

  predicate Covers(a: Area, i: nat) { a.first <= i < a.first + a.n }

  function Users(areas: map<nat, Area>, i: nat): set<nat> { set id | id in areas && Covers(areas[id], i) }

  predicate LockedIffUsed(bars: seq<Bar>) {
    forall i :: 0 <= i < |bars| ==> (bars[i].locked <==> bars[i].usage > 0)
  }

  predicate Counted(t: Table)
    requires |t.bars| == |t.reserved|
  {
    forall i :: 0 <= i < |t.bars| ==> t.bars[i].usage == t.reserved[i] + |Users(t.areas, i)|
  }

  predicate Points(bars: seq<Bar>, a: Area) {
    0 < a.n && a.first + a.n <= |bars|
    && forall i :: a.first <= i < a.first + a.n ==> bars[i].csr == Csr(a.csr, i - a.first)
  }

  predicate AllPoint(t: Table) { forall id :: id in t.areas ==> Points(t.bars, t.areas[id]) }

  /** BARs that nobody uses point nowhere. */
  predicate UnusedClear(bars: seq<Bar>) { forall i :: 0 <= i < |bars| && !bars[i].locked ==> bars[i].csr == 0 }

  predicate Inv(t: Table) {
    |t.bars| == |t.reserved| && LockedIffUsed(t.bars) && Counted(t) && AllPoint(t) && UnusedClear(t.bars)
  }

  // ---- searching ----

  predicate Matches(bars: seq<Bar>, i: nat, n: nat, csr: nat)
    requires i + n <= |bars|
  {
    forall k :: i <= k < i + n ==> bars[k].locked && bars[k].csr == Csr(csr, k - i)
  }

  predicate Unused(bars: seq<Bar>, i: nat, n: nat)
    requires i + n <= |bars|
  {
    forall k :: i <= k < i + n ==> !bars[k].locked
  }

  /** The first run that matches, or |bars| - n + 1. */
  function FirstMatch(bars: seq<Bar>, i: nat, n: nat, csr: nat): (r: nat)
    requires i <= |bars| - n + 1
    ensures i <= r <= |bars| - n + 1
    ensures r <= |bars| - n ==> Matches(bars, r, n, csr)
    ensures forall k :: i <= k < r ==> !Matches(bars, k, n, csr)
    decreases |bars| - i
  {
    if i > |bars| - n || Matches(bars, i, n, csr) then i else FirstMatch(bars, i + 1, n, csr)
  }

  function FirstUnused(bars: seq<Bar>, i: nat, n: nat): (r: nat)
    requires i <= |bars| - n + 1
    ensures i <= r <= |bars| - n + 1
    ensures r <= |bars| - n ==> Unused(bars, r, n)
    ensures forall k :: i <= k < r ==> !Unused(bars, k, n)
    decreases |bars| - i
  {
    if i > |bars| - n || Unused(bars, i, n) then i else FirstUnused(bars, i + 1, n)
  }

  // ---- taking and giving up a run ----

  function Locked(bars: seq<Bar>, i: nat, n: nat, csr: nat): (r: seq<Bar>)
    requires i + n <= |bars|
    ensures |r| == |bars|
  {
    seq(|bars|, k requires 0 <= k < |bars| =>
      if i <= k < i + n then Bar(true, bars[k].usage + 1, Csr(csr, k - i)) else bars[k])
  }

  /** bar_unlock() */
  function Unlock(b: Bar): Bar { if b.usage == 1 then Bar(false, 0, 0) else b.(usage := b.usage - 1) }

  function Unlocked(bars: seq<Bar>, i: nat, n: nat): (r: seq<Bar>)
    requires i + n <= |bars|
    ensures |r| == |bars|
  {
    seq(|bars|, k requires 0 <= k < |bars| => if i <= k < i + n then Unlock(bars[k]) else bars[k])
  }

  /** Where bar_find() puts an area, if anywhere. */
  function Found(t: Table, n: nat, csr: nat, canAlloc: bool): (r: nat)
    requires 0 < n <= |t.bars|
    ensures r <= |t.bars| - n ==> Matches(t.bars, r, n, csr) || Unused(t.bars, r, n)
  {
    var m := FirstMatch(t.bars, 0, n, csr);
    if m <= |t.bars| - n || !canAlloc then m else FirstUnused(t.bars, 0, n)
  }

  function Acquired(t: Table, id: nat, n: nat, csr: nat, canAlloc: bool): Table
    requires 0 < n <= |t.bars|
  {
    var i := Found(t, n, csr, canAlloc);
    if i > |t.bars| - n then t
    else t.(bars := Locked(t.bars, i, n, csr), areas := t.areas[id := Area(i, n, csr)])
  }

  function Released(t: Table, id: nat): Table
    requires id in t.areas && t.areas[id].first + t.areas[id].n <= |t.bars|
  {
    t.(bars := Unlocked(t.bars, t.areas[id].first, t.areas[id].n), areas := t.areas - {id})
  }

  /** Probing the device reserves a BAR and sets its CSR. */
  function Reserved(t: Table, i: nat, csr: nat): Table
    requires i < |t.bars| == |t.reserved|
  {
    t.(bars := t.bars[i := Bar(true, t.bars[i].usage + 1, csr)], reserved := t.reserved[i := t.reserved[i] + 1])
  }

  // ---- what every step keeps ----

  lemma UsersAdded(areas: map<nat, Area>, id: nat, a: Area, i: nat)
    requires id !in areas
    ensures Users(areas[id := a], i) == Users(areas, i) + (if Covers(a, i) then {id} else {})
    ensures |Users(areas[id := a], i)| == |Users(areas, i)| + (if Covers(a, i) then 1 else 0)
  {
    assert Users(areas[id := a], i) == Users(areas, i) + (if Covers(a, i) then {id} else {});
  }

  lemma UsersRemoved(areas: map<nat, Area>, id: nat, i: nat)
    requires id in areas
    ensures |Users(areas - {id}, i)| == |Users(areas, i)| - (if Covers(areas[id], i) then 1 else 0)
    ensures Covers(areas[id], i) ==> id in Users(areas, i)
  {
    assert Users(areas - {id}, i) == Users(areas, i) - {id};
  }

  /** A matching run keeps its CSRs when it is taken again, an unused one has no area to disturb. */
  lemma LockedPoints(t: Table, i: nat, n: nat, csr: nat, id: nat)
    requires Inv(t) && i + n <= |t.bars| && (Matches(t.bars, i, n, csr) || Unused(t.bars, i, n)) && id in t.areas
    ensures Points(Locked(t.bars, i, n, csr), t.areas[id])
  {
    var a := t.areas[id];
    forall k | a.first <= k < a.first + a.n ensures Locked(t.bars, i, n, csr)[k].csr == Csr(a.csr, k - a.first) {
      if i <= k < i + n {
        InUse(t, id, k);
      }
    }
  }

  lemma InUse(t: Table, id: nat, k: nat)
    requires Inv(t) && id in t.areas && Covers(t.areas[id], k)
    ensures k < |t.bars| && t.bars[k].usage > 0 && t.bars[k].locked
  {
    assert id in Users(t.areas, k);
    assert Points(t.bars, t.areas[id]);
  }

  function With(t: Table, id: nat, i: nat, n: nat, csr: nat): Table
    requires i + n <= |t.bars|
  {
    t.(bars := Locked(t.bars, i, n, csr), areas := t.areas[id := Area(i, n, csr)])
  }

  lemma AcquiredCounted(t: Table, id: nat, i: nat, n: nat, csr: nat)
    requires Inv(t) && id !in t.areas && i + n <= |t.bars|
    ensures var r := With(t, id, i, n, csr); |r.bars| == |r.reserved| && LockedIffUsed(r.bars) && Counted(r)
  {
    forall k | 0 <= k < |t.bars|
      ensures var r := With(t, id, i, n, csr); r.bars[k].usage == r.reserved[k] + |Users(r.areas, k)|
    {
      UsersAdded(t.areas, id, Area(i, n, csr), k);
    }
  }

  lemma AcquiredPoints(t: Table, id: nat, i: nat, n: nat, csr: nat)
    requires Inv(t) && 0 < n && i + n <= |t.bars| && (Matches(t.bars, i, n, csr) || Unused(t.bars, i, n))
    ensures AllPoint(With(t, id, i, n, csr))
  {
    var r := With(t, id, i, n, csr);
    forall g | g in r.areas ensures Points(r.bars, r.areas[g]) {
      if g != id { LockedPoints(t, i, n, csr, g); }
    }
  }

  lemma AcquireKeeps(t: Table, id: nat, n: nat, csr: nat, canAlloc: bool)
    requires Inv(t) && id !in t.areas && 0 < n <= |t.bars|
    ensures Inv(Acquired(t, id, n, csr, canAlloc))
  {
    var i := Found(t, n, csr, canAlloc);
    if i <= |t.bars| - n {
      AcquiredCounted(t, id, i, n, csr);
      AcquiredPoints(t, id, i, n, csr);
    }
  }

  lemma ReleaseKeeps(t: Table, id: nat)
    requires Inv(t) && id in t.areas
    ensures t.areas[id].first + t.areas[id].n <= |t.bars|
    ensures Inv(Released(t, id))
  {
    assert Points(t.bars, t.areas[id]);
    var r := Released(t, id);
    forall k | 0 <= k < |t.bars|
      ensures r.bars[k].usage == r.reserved[k] + |Users(r.areas, k)| && (r.bars[k].locked <==> r.bars[k].usage > 0)
    {
      UsersRemoved(t.areas, id, k);
      if Covers(t.areas[id], k) { InUse(t, id, k); }
    }
    forall g | g in r.areas ensures Points(r.bars, r.areas[g]) {
      ReleasedPoints(t, id, g);
    }
  }

  lemma ReleasedPoints(t: Table, id: nat, g: nat)
    requires Inv(t) && id in t.areas && g in t.areas && g != id
    ensures t.areas[id].first + t.areas[id].n <= |t.bars|
    ensures Points(Released(t, id).bars, t.areas[g])
  {
    var a := t.areas[g];
    assert Points(t.bars, a) && Points(t.bars, t.areas[id]);
    forall k | a.first <= k < a.first + a.n ensures Released(t, id).bars[k].csr == t.bars[k].csr {
      if Covers(t.areas[id], k) { SharedStays(t, id, g, k); }
    }
  }

  /** A BAR shared by two areas outlives the release of one. */
  lemma SharedStays(t: Table, id: nat, g: nat, k: nat)
    requires Inv(t) && id in t.areas && g in t.areas && g != id && Covers(t.areas[id], k) && Covers(t.areas[g], k)
    ensures k < |t.bars| && t.bars[k].usage >= 2
  {
    InUse(t, g, k);
    assert id in Users(t.areas, k) && g in Users(t.areas, k);
    assert {id, g} <= Users(t.areas, k);
    Subset({id, g}, Users(t.areas, k));
  }

  lemma {:induction false} Subset(a: set<nat>, b: set<nat>)
    requires a <= b
    ensures |a| <= |b|
    decreases |a|
  {
    if a != {} {
      var x :| x in a;
      Subset(a - {x}, b - {x});
    }
  }

  lemma ReserveKeeps(t: Table, i: nat, csr: nat)
    requires Inv(t) && i < |t.bars| && Users(t.areas, i) == {}
    ensures Inv(Reserved(t, i, csr))
  {
    var r := Reserved(t, i, csr);
    forall g | g in r.areas ensures Points(r.bars, r.areas[g]) {
      assert Points(t.bars, t.areas[g]);
      assert Covers(t.areas[g], i) ==> g in Users(t.areas, i);
    }
  }

  // ---- all runs ----

  datatype Event =
    | Reserve(bar: nat, csr: nat)
    | Acquire(id: nat, n: nat, csr: nat, canAlloc: bool)
    | Release(id: nat)

  predicate Enabled(t: Table, e: Event) {
    match e
    case Reserve(i, _) => i < |t.bars| == |t.reserved| && Users(t.areas, i) == {}
    case Acquire(id, n, _, _) => id !in t.areas && 0 < n <= |t.bars|
    case Release(id) => id in t.areas && t.areas[id].first + t.areas[id].n <= |t.bars|
  }

  function Step(t: Table, e: Event): Table
    requires Enabled(t, e)
  {
    match e
    case Reserve(i, csr) => Reserved(t, i, csr)
    case Acquire(id, n, csr, canAlloc) => Acquired(t, id, n, csr, canAlloc)
    case Release(id) => Released(t, id)
  }

  predicate Legal(t: Table, run: seq<Event>)
    decreases |run|
  {
    run == [] || (Enabled(t, run[0]) && Legal(Step(t, run[0]), run[1..]))
  }

  function Exec(t: Table, run: seq<Event>): Table
    requires Legal(t, run)
    decreases |run|
  {
    if run == [] then t else Exec(Step(t, run[0]), run[1..])
  }

  lemma StepKeeps(t: Table, e: Event)
    requires Inv(t) && Enabled(t, e)
    ensures Inv(Step(t, e))
  {
    match e
    case Reserve(i, csr) => ReserveKeeps(t, i, csr);
    case Acquire(id, n, csr, canAlloc) => AcquireKeeps(t, id, n, csr, canAlloc);
    case Release(id) => ReleaseKeeps(t, id);
  }

  lemma {:induction false} ExecInv(t: Table, run: seq<Event>)
    requires Inv(t) && Legal(t, run)
    ensures Inv(Exec(t, run))
    decreases |run|
  {
    if run != [] {
      StepKeeps(t, run[0]);
      ExecInv(Step(t, run[0]), run[1..]);
    }
  }

  function New(n: nat): Table { Table(seq(n, _ => Bar(false, 0, 0)), map[], seq(n, _ => 0)) }

  /** After any run a BAR is locked exactly while it is reserved or a live area covers it, and is used
      exactly once by each. */
  lemma UsageExact(n: nat, run: seq<Event>, i: nat)
    requires Legal(New(n), run) && i < |Exec(New(n), run).bars|
    ensures var t := Exec(New(n), run);
            i < |t.reserved| && t.bars[i].usage == t.reserved[i] + |Users(t.areas, i)|
            && (t.bars[i].locked <==> t.reserved[i] > 0 || Users(t.areas, i) != {})
            && (!t.bars[i].locked ==> t.bars[i].csr == 0)
  {
    NewInv(n);
    ExecInv(New(n), run);
  }

  lemma NewInv(n: nat)
    ensures Inv(New(n))
  {
    forall i: nat | i < n ensures Users(map[], i) == {} {}
  }

  /** After any run every BAR of a live area still points where that area needs it, so areas that share a
      BAR agree on it. */
  lemma AreasKeepTheirCsr(n: nat, run: seq<Event>, id: nat, j: nat)
    requires Legal(New(n), run) && id in Exec(New(n), run).areas && j < Exec(New(n), run).areas[id].n
    ensures var t := Exec(New(n), run);
            var a := t.areas[id];
            a.first + j < |t.bars| && t.bars[a.first + j].locked
            && t.bars[a.first + j].csr == (a.csr + j) % 0x1_0000_0000
  {
    NewInv(n);
    ExecInv(New(n), run);
    AreaKeepsCsr(Exec(New(n), run), id, j);
  }

  lemma AreaKeepsCsr(t: Table, id: nat, j: nat)
    requires Inv(t) && id in t.areas && j < t.areas[id].n
    ensures var a := t.areas[id];
            a.first + j < |t.bars| && t.bars[a.first + j].locked && t.bars[a.first + j].csr == Csr(a.csr, j)
  {
    assert Points(t.bars, t.areas[id]);
    InUse(t, id, t.areas[id].first + j);
  }

  // ---- in place ----

  class BarTable {
    const bars: array<Bar>
    var areas: map<nat, Area>
    ghost var reserved: seq<nat>

    constructor (n: nat)
      ensures State() == New(n) && fresh(bars)
    {
      bars := new Bar[n](_ => Bar(false, 0, 0));
      areas, reserved := map[], seq(n, _ => 0);
    }

    ghost function State(): Table
      reads this, bars
    {
      Table(bars[..], areas, reserved)
    }

    method FindMatch(n: nat, csr: nat) returns (i: nat)
      requires 0 < n <= bars.Length
      ensures i == FirstMatch(bars[..], 0, n, csr)
    {
      var max := bars.Length - n + 1;
      i := 0;
      while i < max
        invariant i <= max && FirstMatch(bars[..], i, n, csr) == FirstMatch(bars[..], 0, n, csr)
      {
        var j := 0;
        while j < n
          invariant j <= n && forall k :: i <= k < i + j ==> bars[k].locked && bars[k].csr == Csr(csr, k - i)
        {
          if !bars[i + j].locked || Csr(csr, j) != bars[i + j].csr {
            break;
          }
          j := j + 1;
        }
        if j == n {
          return;
        }
        i := i + 1;
      }
    }

    method FindUnused(n: nat) returns (i: nat)
      requires 0 < n <= bars.Length
      ensures i == FirstUnused(bars[..], 0, n)
    {
      var max := bars.Length - n + 1;
      i := 0;
      while i < max
        invariant i <= max && FirstUnused(bars[..], i, n) == FirstUnused(bars[..], 0, n)
      {
        var j := 0;
        while j < n
          invariant j <= n && forall k :: i <= k < i + j ==> !bars[k].locked
        {
          if bars[i + j].locked {
            break;
          }
          j := j + 1;
        }
        if j == n {
          return;
        }
        i := i + 1;
      }
    }

    method LockRun(i: nat, n: nat, csr: nat)
      requires i + n <= bars.Length
      modifies bars
      ensures bars[..] == Locked(old(bars[..]), i, n, csr)
    {
      var j := 0;
      while j < n
        invariant j <= n && bars[..] == Locked(old(bars[..]), i, j, csr)
      {
        bars[i + j] := Bar(true, bars[i + j].usage + 1, bars[i + j].csr);
        bars[i + j] := bars[i + j].(csr := Csr(csr, j));
        j := j + 1;
      }
    }

    /** bar_find() */
    method BarFind(id: nat, n: nat, csr: nat, canAlloc: bool) returns (err: int)
      requires Enabled(State(), Acquire(id, n, csr, canAlloc))
      modifies this, bars
      ensures State() == Step(old(State()), Acquire(id, n, csr, canAlloc))
      ensures err == if Found(old(State()), n, csr, canAlloc) <= bars.Length - n then 0
                     else if canAlloc then ENOSPC else EEXIST
    {
      var i := FindMatch(n, csr);
      if i > bars.Length - n {
        if !canAlloc {
          return EEXIST;
        }
        i := FindUnused(n);
        if i > bars.Length - n {
          return ENOSPC;
        }
      }
      LockRun(i, n, csr);
      areas := areas[id := Area(i, n, csr)];
      return 0;
    }

    /** nfp_plat_release() */
    method ReleaseArea(id: nat)
      requires Enabled(State(), Release(id))
      modifies this, bars
      ensures State() == Step(old(State()), Release(id))
    {
      var a := areas[id];
      UnlockRun(a.first, a.n);
      areas := areas - {id};
    }

    method UnlockRun(i: nat, n: nat)
      requires i + n <= bars.Length
      modifies bars
      ensures bars[..] == Unlocked(old(bars[..]), i, n)
    {
      var j := 0;
      while j < n
        invariant j <= n && bars[..] == Unlocked(old(bars[..]), i, j)
      {
        var b := bars[i + j];
        bars[i + j] := b.(usage := b.usage - 1);
        if bars[i + j].usage == 0 {
          bars[i + j] := Bar(false, 0, 0);
        }
        j := j + 1;
      }
    }
  }

  // ---- choosing between two kinds of BARs ----

  /** How many BARs of a kind an area needs and with which CSR value; `ok` says whether it may use them. */
  datatype Need = Need(ok: bool, n: nat, csr: nat)

  predicate Usable(t: Table, need: Need) { need.ok && 0 < need.n < |t.bars| }

  predicate Shareable(t: Table, need: Need) {
    Usable(t, need) && exists i: nat :: i + need.n <= |t.bars| && Matches(t.bars, i, need.n, need.csr)
  }

  predicate Allocatable(t: Table, need: Need) {
    Usable(t, need) && exists i: nat :: i + need.n <= |t.bars| && Unused(t.bars, i, need.n)
  }

  datatype Choice = Expansion | Bulk | Neither

  /** Sharing a run of either kind goes before allocating one, and expansion BARs before bulk BARs. */
  function Chosen(expa: Table, e: Need, bulk: Table, b: Need): Choice {
    if Shareable(expa, e) then Expansion else if Shareable(bulk, b) then Bulk
    else if Allocatable(expa, e) then Expansion else if Allocatable(bulk, b) then Bulk else Neither
  }

  /** bar_find() succeeds exactly when a run can be shared or, if that is allowed, allocated. */
  lemma FoundExactly(t: Table, need: Need, canAlloc: bool)
    requires Usable(t, need)
    ensures Found(t, need.n, need.csr, canAlloc) <= |t.bars| - need.n <==>
            Shareable(t, need) || (canAlloc && Allocatable(t, need))
    ensures Shareable(t, need) ==> Matches(t.bars, Found(t, need.n, need.csr, canAlloc), need.n, need.csr)
    ensures var i := Found(t, need.n, need.csr, canAlloc);
            i <= |t.bars| - need.n ==>
              forall k :: i <= k < i + need.n ==> (t.bars[k].locked <==> Shareable(t, need))
  {
    var m, u := FirstMatch(t.bars, 0, need.n, need.csr), FirstUnused(t.bars, 0, need.n);
    assert m <= |t.bars| - need.n ==> m + need.n <= |t.bars| && Matches(t.bars, m, need.n, need.csr);
    assert u <= |t.bars| - need.n ==> u + need.n <= |t.bars| && Unused(t.bars, u, need.n);
  }

  /** The kind of BARs an area gets: expansion BARs if some can be shared, or some can be allocated and no bulk BARs
      can be shared; bulk BARs if not and some can be shared or allocated. */
  lemma ChosenExactly(expa: Table, e: Need, bulk: Table, b: Need)
    ensures var choice := Chosen(expa, e, bulk, b);
            (choice == Expansion <==> Shareable(expa, e) || (Allocatable(expa, e) && !Shareable(bulk, b)))
            && (choice == Bulk <==>
                  !Shareable(expa, e) && (Shareable(bulk, b) || (!Allocatable(expa, e) && Allocatable(bulk, b))))
  {
  }

  /** An area that needs all BARs of a kind is never given them, even if nobody uses them; one that needs fewer, and may
      use them, gets them if they can be shared or allocated. */
  lemma AllBarsRefused(t: Table, need: Need)
    ensures need.n >= |t.bars| ==> !Usable(t, need) && !Shareable(t, need) && !Allocatable(t, need)
    ensures need.ok && 0 < need.n < |t.bars| ==> Usable(t, need)
  {
  }

  /** One attempt of bar_find_any(); a failing one changes nothing. */
  method Attempt(t: BarTable, id: nat, need: Need, canAlloc: bool) returns (found: bool)
    requires id !in t.areas && 0 < need.n
    modifies t, t.bars
    ensures found <==> Usable(old(t.State()), need)
                       && (Shareable(old(t.State()), need) || (canAlloc && Allocatable(old(t.State()), need)))
    ensures if found then 0 < need.n <= |old(t.State()).bars|
                          && t.State() == Acquired(old(t.State()), id, need.n, need.csr, canAlloc)
            else t.State() == old(t.State())
  {
    if !need.ok || need.n >= t.bars.Length {
      return false;
    }
    FoundExactly(t.State(), need, canAlloc);
    var err := t.BarFind(id, need.n, need.csr, canAlloc);
    return err == 0;
  }

  /** nfp_plat_acquire(): tries to share before it allocates. */
  method PlatAcquire(expa: BarTable, e: Need, bulk: BarTable, b: Need, id: nat) returns (choice: Choice)
    requires expa != bulk && expa.bars != bulk.bars && id !in expa.areas && id !in bulk.areas && 0 < e.n && 0 < b.n
    modifies expa, expa.bars, bulk, bulk.bars
    ensures choice == Chosen(old(expa.State()), e, old(bulk.State()), b)
    ensures if choice == Expansion
            then Usable(old(expa.State()), e) && expa.State() == Acquired(old(expa.State()), id, e.n, e.csr, true)
            else expa.State() == old(expa.State())
    ensures if choice == Bulk
            then Usable(old(bulk.State()), b) && bulk.State() == Acquired(old(bulk.State()), id, b.n, b.csr, true)
            else bulk.State() == old(bulk.State())
  {
    var found := Attempt(expa, id, e, false);
    if found {
      SameWhenShared(old(expa.State()), e, id);
      return Expansion;
    }
    found := Attempt(bulk, id, b, false);
    if found {
      SameWhenShared(old(bulk.State()), b, id);
      return Bulk;
    }
    found := Attempt(expa, id, e, true);
    if found {
      return Expansion;
    }
    found := Attempt(bulk, id, b, true);
    if found {
      return Bulk;
    }
    return Neither;
  }

  lemma SameWhenShared(t: Table, need: Need, id: nat)
    requires Usable(t, need) && Shareable(t, need)
    ensures Acquired(t, id, need.n, need.csr, false) == Acquired(t, id, need.n, need.csr, true)
  {
    FoundExactly(t, need, false);
  }
}
