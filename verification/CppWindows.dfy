/**
 Hardware windows of mapped CPP areas (src/nfp_dev_cpp.c). A mapping (VMA) is attached to its area when
 it faults; an area holds a window while a mapping is attached, and areas are evicted when windows run
 out.
 */
module CppWindows {
  import opened Wrappers

  const EAGAIN: int := -11
  const EBUSY: int := -16

  /** The attached mappings of every area, the area of every mapping, the active areas in the order in
      which they got their windows, and the areas that hold one. */
  datatype Cdev = Cdev(attached: map<nat, seq<nat>>, areaOf: map<nat, nat>, active: seq<nat>, held: set<nat>)

  predicate Distinct(s: seq<nat>) { forall i, j :: 0 <= i < j < |s| ==> s[i] != s[j] }

  /** The area of the mapping has not been freed. */
  predicate Live(c: Cdev, v: nat) { v in c.areaOf && c.areaOf[v] in c.attached }

  /** Attached mappings belong to the area they are attached to. */
  predicate Attached(c: Cdev) {
    (forall a :: a in c.attached ==> Distinct(c.attached[a]))
    && (forall a, v :: a in c.attached && v in c.attached[a] ==> v in c.areaOf && c.areaOf[v] == a)
  }

  /** An area holds a window iff a mapping is attached to it iff it is on the active list. */
  predicate Windows(c: Cdev) {
    Distinct(c.active)
    && (forall a :: a in c.held ==> a in c.attached)
    && (forall a :: a in c.active ==> a in c.attached)
    && (forall a :: a in c.attached ==> (a in c.held <==> c.attached[a] != []) && (a in c.held <==> a in c.active))
  }

  predicate Inv(c: Cdev) { Attached(c) && Windows(c) }

  function Without(s: seq<nat>, x: nat): (r: seq<nat>)
    ensures x !in r && |r| <= |s|
    ensures forall y :: y in r <==> y in s && y != x
    ensures x in s ==> |r| < |s|
  {
    if s == [] then [] else if s[0] == x then Without(s[1..], x) else [s[0]] + Without(s[1..], x)
  }

  lemma {:induction false} WithoutDistinct(s: seq<nat>, x: nat)
    requires Distinct(s)
    ensures Distinct(Without(s, x))
  {
    if s != [] {
      assert forall i, j :: 0 <= i < j < |s[1..]| ==> s[1..][i] == s[i + 1] && s[1..][j] == s[j + 1];
      WithoutDistinct(s[1..], x);
      if s[0] != x {
        assert s[0] !in s[1..];
      }
    }
  }

  predicate IsAttached(c: Cdev, v: nat) {
    v in c.areaOf && c.areaOf[v] in c.attached && v in c.attached[c.areaOf[v]]
  }

  // ---- attaching and detaching ----

  /** nfp_dev_cpp_vma_acquire(), with the result of acquiring a window. */
  function Acquired(c: Cdev, v: nat, window: int): (r: (int, Cdev))
    requires Live(c, v)
  {
    var a := c.areaOf[v];
    if v in c.attached[a] then (0, c)
    else if c.attached[a] != [] then (0, c.(attached := c.attached[a := c.attached[a] + [v]]))
    else if window < 0 then (window, c)
    else (0, c.(attached := c.attached[a := [v]], active := c.active + [a], held := c.held + {a}))
  }

  /** nfp_dev_cpp_vma_release() */
  function Released(c: Cdev, v: nat): Cdev
    requires Live(c, v)
  {
    var a := c.areaOf[v];
    if v !in c.attached[a] then c
    else
      var rest := Without(c.attached[a], v);
      var c1 := c.(attached := c.attached[a := rest]);
      if rest == [] then c1.(active := Without(c.active, a), held := c.held - {a}) else c1
  }

  lemma AcquireKeeps(c: Cdev, v: nat, window: int)
    requires Inv(c) && Live(c, v)
    ensures Inv(Acquired(c, v, window).1)
  {
    var a, r := c.areaOf[v], Acquired(c, v, window).1;
    if v !in c.attached[a] {
      assert forall w :: w in c.attached[a] ==> w != v;
    }
  }

  lemma ReleaseKeeps(c: Cdev, v: nat)
    requires Inv(c) && Live(c, v)
    ensures Inv(Released(c, v))
  {
    ReleaseAttached(c, v);
    ReleaseWindows(c, v);
  }

  lemma ReleaseAttached(c: Cdev, v: nat)
    requires Inv(c) && Live(c, v)
    ensures Attached(Released(c, v))
  {
    WithoutDistinct(c.attached[c.areaOf[v]], v);
  }

  lemma ReleaseWindows(c: Cdev, v: nat)
    requires Inv(c) && Live(c, v)
    ensures Windows(Released(c, v))
  {
    WithoutDistinct(c.active, c.areaOf[v]);
  }

  // ---- eviction ----

  /** Area a without mappings and without its window. */
  function Evicted(c: Cdev, a: nat): Cdev
    requires a in c.attached
  {
    c.(attached := c.attached[a := []], active := Without(c.active, a), held := c.held - {a})
  }

  lemma EvictedKeeps(c: Cdev, a: nat)
    requires Inv(c) && a in c.attached
    ensures Inv(Evicted(c, a))
  {
    WithoutDistinct(c.active, a);
  }

  /** The first active area that the faulting mapping does not need. */
  function Victim(active: seq<nat>, mine: Option<nat>): (r: Option<nat>)
    ensures r.Some? ==> r.value in active && mine != Some(r.value)
    ensures r.None? ==> forall a :: a in active ==> mine == Some(a)
  {
    if active == [] then None else if mine != Some(active[0]) then Some(active[0]) else Victim(active[1..], mine)
  }

  /** nfp_dev_cpp_vma_evict() */
  function EvictFor(c: Cdev, v: Option<nat>): (r: (int, Cdev))
    requires Inv(c) && (v.Some? ==> Live(c, v.value))
  {
    match v
    case None => (if c.active == [] then EAGAIN else 0, AllEvicted(c))
    case Some(w) =>
      match Victim(c.active, Some(c.areaOf[w]))
      case None => (EAGAIN, c)
      case Some(a) => (0, Evicted(c, a))
  }

  function AllEvicted(c: Cdev): Cdev {
    c.(attached := map a: nat | a in c.attached :: [], active := [], held := {})
  }

  /** Evicting for a mapping keeps the rest in order, never touches the area of that mapping, and fails
      only if no other area holds a window. */
  lemma EvictSparesMine(c: Cdev, v: nat)
    requires Inv(c) && Live(c, v)
    ensures var (err, r) := EvictFor(c, Some(v));
            var mine := c.areaOf[v];
            Inv(r) && r.attached[mine] == c.attached[mine] && (mine in r.held <==> mine in c.held)
            && err == (if exists a :: a in c.held && a != mine then 0 else -11)
            && (err == 0 ==> |r.held| == |c.held| - 1)
  {
    var mine := c.areaOf[v];
    match Victim(c.active, Some(mine))
    case Some(a) => EvictedKeeps(c, a);
    case None =>
      forall a | a in c.held ensures a == mine { assert a in c.active; }
  }

  lemma EvictAllFrees(c: Cdev)
    requires Inv(c)
    ensures Inv(AllEvicted(c)) && EvictFor(c, None).1.held == {}
    ensures EvictFor(c, None).0 == if c.held == {} then -11 else 0
  {
    if c.active != [] { assert c.active[0] in c.held; }
  }

  // ---- faults ----

  /** nfp_cpp_mmap_fault(): attach, if need be after an eviction. */
  function Faulted(c: Cdev, v: nat, first: int, second: int): (r: (int, Cdev))
    requires Inv(c) && Live(c, v)
  {
    if v in c.attached[c.areaOf[v]] then (1, c)
    else
      var (err, c1) := Acquired(c, v, first);
      if err >= 0 then (err, c1)
      else
        var (err2, c2) := EvictFor(c1, Some(v));
        if err2 == 0 then Acquired(c2, v, second) else (err2, c2)
  }

  lemma FaultKeeps(c: Cdev, v: nat, first: int, second: int)
    requires Inv(c) && Live(c, v)
    ensures Inv(Faulted(c, v, first, second).1)
    ensures Faulted(c, v, first, second).0 >= 0 <==> IsAttached(Faulted(c, v, first, second).1, v)
  {
    if v !in c.attached[c.areaOf[v]] {
      AcquireKeeps(c, v, first);
      var (err, c1) := Acquired(c, v, first);
      if err < 0 {
        EvictSparesMine(c1, v);
        var (err2, c2) := EvictFor(c1, Some(v));
        if err2 == 0 { AcquireKeeps(c2, v, second); }
      }
    }
  }

  /** A fault succeeds exactly if the mapping is attached already, its area has a window already, a window can be
      acquired for it, or one can be acquired after another area that has one was evicted. */
  lemma FaultSucceedsExactly(c: Cdev, v: nat, first: int, second: int)
    requires Inv(c) && Live(c, v)
    ensures var a := c.areaOf[v];
            Faulted(c, v, first, second).0 >= 0 <==>
            a in c.held || first >= 0 || (second >= 0 && exists b :: b in c.held && b != a)
    ensures Faulted(c, v, first, second).0 == 1 <==> v in c.attached[c.areaOf[v]]
  {
    EvictSparesMine(c, v);
  }

  /** A fault neither adds nor frees areas. */
  lemma FaultAreas(c: Cdev, v: nat, first: int, second: int)
    requires Inv(c) && Live(c, v)
    ensures var r := Faulted(c, v, first, second).1;
            r.areaOf == c.areaOf && r.attached.Keys == c.attached.Keys
  {
  }

  function Unmapped(c: Cdev, v: nat): Cdev
    requires Live(c, v)
  {
    var c1 := Released(c, v); c1.(areaOf := c1.areaOf - {v})
  }

  lemma UnmapKeeps(c: Cdev, v: nat)
    requires Inv(c) && Live(c, v)
    ensures Inv(Unmapped(c, v)) && Unmapped(c, v).attached.Keys == c.attached.Keys
    ensures Unmapped(c, v).areaOf == c.areaOf - {v}
  {
    ReleaseKeeps(c, v);
    var c1 := Released(c, v);
    assert v !in c1.attached[c.areaOf[v]];
    forall a, w | a in c1.attached && w in c1.attached[a] ensures w != v { assert c1.areaOf[w] == a; }
  }

  /** Areas to which nothing is attached are freed. */
  function Freed(c: Cdev, areas: set<nat>): Cdev { c.(attached := c.attached - areas) }

  lemma FreedKeeps(c: Cdev, areas: set<nat>)
    requires Inv(c) && forall a :: a in areas ==> a in c.attached && c.attached[a] == []
    ensures Inv(Freed(c, areas))
  {
  }

  // ---- all runs ----

  /** The device with the opener of the file that each area was requested with, and of the file that each
      mapping was made with. */
  datatype Node = Node(cdev: Cdev, owner: map<nat, nat>, opener: map<nat, nat>)

  predicate Valid(d: Node) {
    Inv(d.cdev) && d.owner.Keys == d.cdev.attached.Keys && d.opener.Keys == d.cdev.areaOf.Keys
  }

  datatype Event =
    | Map(v: nat, area: nat, opener: nat)
    | Copy(v: nat, from: nat)
    | Fault(v: nat, first: int, second: int)
    | Unmap(v: nat)
    | Purge
    | Request(area: nat, opener: nat)
    | Release(area: nat)
    | Close(opener: nat)

  /** The kernel closes a device file when no mapping made with it is left. */
  predicate MayClose(d: Node, o: nat)
    requires Valid(d)
  {
    forall v :: v in d.cdev.areaOf ==> d.opener[v] != o
  }

  function Owned(d: Node, o: nat): set<nat>
    requires Valid(d)
  {
    set a | a in d.cdev.attached && d.owner[a] == o
  }

  /** Closing comes to an area that some mapping is attached to. */
  predicate Bugs(d: Node, o: nat)
    requires Valid(d)
  {
    exists a :: a in Owned(d, o) && d.cdev.attached[a] != []
  }

  predicate Enabled(d: Node, e: Event)
    requires Valid(d)
  {
    var c := d.cdev;
    match e
    case Map(v, a, _) => v !in c.areaOf && a in c.attached
    case Copy(v, from) => v !in c.areaOf && from in c.areaOf
    case Fault(v, _, _) => Live(c, v)
    case Unmap(v) => Live(c, v)
    case Purge => true
    case Request(a, _) => a !in c.attached && forall v :: v in c.areaOf ==> c.areaOf[v] != a
    case Release(a) => a in c.attached
    case Close(o) => MayClose(d, o) && !Bugs(d, o)
  }

  function FreedAreas(d: Node, areas: set<nat>): Node { d.(cdev := Freed(d.cdev, areas), owner := d.owner - areas) }

  function Referring(d: Node, v: nat, a: nat, o: nat): Node {
    d.(cdev := d.cdev.(areaOf := d.cdev.areaOf[v := a]), opener := d.opener[v := o])
  }

  function Step(d: Node, e: Event): Node
    requires Valid(d) && Enabled(d, e)
  {
    var c := d.cdev;
    match e
    case Map(v, a, o) => Referring(d, v, a, o)
    case Copy(v, from) => Referring(d, v, c.areaOf[from], d.opener[from])
    case Fault(v, first, second) => d.(cdev := Faulted(c, v, first, second).1)
    case Unmap(v) => d.(cdev := Unmapped(c, v), opener := d.opener - {v})
    case Purge => d.(cdev := AllEvicted(c))
    case Request(a, o) => d.(cdev := c.(attached := c.attached[a := []]), owner := d.owner[a := o])
    case Release(a) => if c.attached[a] == [] then FreedAreas(d, {a}) else d
    case Close(o) => FreedAreas(d, Owned(d, o))
  }

  lemma ReferKeeps(d: Node, v: nat, a: nat, o: nat)
    requires Valid(d) && v !in d.cdev.areaOf
    ensures Valid(Referring(d, v, a, o))
  {
  }

  lemma FreeKeeps(d: Node, areas: set<nat>)
    requires Valid(d) && forall a :: a in areas ==> a in d.cdev.attached && d.cdev.attached[a] == []
    ensures Valid(FreedAreas(d, areas))
  {
    FreedKeeps(d.cdev, areas);
  }

  lemma StepKeeps(d: Node, e: Event)
    requires Valid(d) && Enabled(d, e)
    ensures Valid(Step(d, e))
  {
    match e
    case Map(v, a, o) => ReferKeeps(d, v, a, o);
    case Copy(v, from) => ReferKeeps(d, v, d.cdev.areaOf[from], d.opener[from]);
    case Fault(v, first, second) => FaultKeeps(d.cdev, v, first, second); FaultAreas(d.cdev, v, first, second);
    case Unmap(v) => UnmapKeeps(d.cdev, v);
    case Purge => EvictAllFrees(d.cdev);
    case Request(_, _) =>
    case Release(a) => if d.cdev.attached[a] == [] { FreeKeeps(d, {a}); }
    case Close(o) => FreeKeeps(d, Owned(d, o));
  }

  /** After a purge no area holds a window and no mapping is attached; no area and no mapping is gone. */
  lemma PurgeFrees(d: Node)
    requires Valid(d)
    ensures var r := Step(d, Purge);
            r.cdev.held == {} && r.cdev.active == [] && r.cdev.areaOf == d.cdev.areaOf && r.owner == d.owner
            && r.cdev.attached.Keys == d.cdev.attached.Keys && forall v :: !IsAttached(r.cdev, v)
  {
  }

  ghost predicate Leads(d: Node, run: seq<Event>, to: Node)
    requires Valid(d)
    decreases |run|
  {
    if run == [] then d == to
    else Enabled(d, run[0]) && (StepKeeps(d, run[0]); Leads(Step(d, run[0]), run[1..], to))
  }

  lemma {:induction false} LeadsValid(d: Node, run: seq<Event>, to: Node)
    requires Valid(d) && Leads(d, run, to)
    ensures Valid(to)
    decreases |run|
  {
    if run != [] {
      StepKeeps(d, run[0]);
      LeadsValid(Step(d, run[0]), run[1..], to);
    }
  }

  /** A device without areas and mappings. */
  function New(): Node { Node(Cdev(map[], map[], [], {}), map[], map[]) }

  /** In every run an area holds a window exactly while a mapping is attached, and exactly while it is on
      the active list. */
  lemma WindowIffAttached(run: seq<Event>, d: Node, a: nat)
    requires Leads(New(), run, d) && a in d.cdev.attached
    ensures var c := d.cdev;
            (a in c.held <==> exists v :: IsAttached(c, v) && c.areaOf[v] == a) && (a in c.held <==> a in c.active)
  {
    LeadsValid(New(), run, d);
    if d.cdev.attached[a] != [] {
      var v := d.cdev.attached[a][0];
      assert IsAttached(d.cdev, v) && d.cdev.areaOf[v] == a;
    }
  }

  // ---- areas that are freed while they are mapped ----

  /** The mapping refers to an area that was freed: its next fault and its unmapping reach freed memory. */
  predicate Dangling(c: Cdev, v: nat) { v in c.areaOf && c.areaOf[v] !in c.attached }

  /** A release only looks at attached mappings, so it leaves a mapping behind exactly if the area has
      mappings and none of them is attached. */
  lemma ReleaseDanglesExactly(d: Node, a: nat)
    requires Valid(d) && a in d.cdev.attached
    ensures var c := d.cdev;
            (exists v :: Dangling(Step(d, Release(a)).cdev, v) && c.areaOf[v] == a) <==>
            c.attached[a] == [] && exists v :: v in c.areaOf && c.areaOf[v] == a
  {
    var c := d.cdev;
    if c.attached[a] == [] && exists v :: v in c.areaOf && c.areaOf[v] == a {
      var v :| v in c.areaOf && c.areaOf[v] == a;
      assert Dangling(Step(d, Release(a)).cdev, v);
    }
  }

  /** The event frees area a. */
  predicate Frees(d: Node, e: Event, a: nat)
    requires Valid(d)
  {
    a in d.cdev.attached && ((e == Release(a) && d.cdev.attached[a] == []) || e == Close(d.owner[a]))
  }

  /** The event makes v refer to a freed area. */
  predicate Strands(d: Node, e: Event, v: nat)
    requires Valid(d)
  {
    (v in d.cdev.areaOf && Frees(d, e, d.cdev.areaOf[v])) || (e.Copy? && e.v == v && Dangling(d.cdev, e.from))
  }

  /** Nothing else makes a mapping refer to a freed area, and nothing repairs it. */
  lemma DanglingStep(d: Node, e: Event, v: nat)
    requires Valid(d) && Enabled(d, e)
    ensures Dangling(Step(d, e).cdev, v) <==> Dangling(d.cdev, v) || Strands(d, e, v)
  {
    if e.Fault? { FaultAreas(d.cdev, e.v, e.first, e.second); }
    if e.Unmap? { UnmapKeeps(d.cdev, e.v); }
  }

  /** In the run v came to refer to a freed area. */
  ghost predicate Stranded(d: Node, run: seq<Event>, v: nat)
    requires Valid(d)
    decreases |run|
  {
    run != [] && Enabled(d, run[0])
    && (Strands(d, run[0], v) || (StepKeeps(d, run[0]); Stranded(Step(d, run[0]), run[1..], v)))
  }

  /** Over all runs: a mapping refers to a freed area exactly if a release or a close freed it under the mapping,
      or the mapping is the copy of one that referred to a freed area. */
  lemma {:induction false} DanglesExactly(d: Node, run: seq<Event>, to: Node, v: nat)
    requires Valid(d) && Leads(d, run, to)
    ensures Dangling(to.cdev, v) <==> Dangling(d.cdev, v) || Stranded(d, run, v)
    decreases |run|
  {
    if run != [] {
      StepKeeps(d, run[0]);
      DanglingStep(d, run[0], v);
      DanglesExactly(Step(d, run[0]), run[1..], to, v);
    }
  }

  // ---- closing the device file ----

  /** The mapping was made with another file than the one its area was requested with. */
  predicate Foreign(d: Node, v: nat)
    requires Valid(d)
  {
    Live(d.cdev, v) && d.opener[v] != d.owner[d.cdev.areaOf[v]]
  }

  /** Closing runs into its BUG_ON() exactly if a mapping of another opener is attached to an area of this one. */
  lemma BugExactly(d: Node, o: nat)
    requires Valid(d) && MayClose(d, o)
    ensures Bugs(d, o) <==> exists v :: Foreign(d, v) && IsAttached(d.cdev, v) && d.owner[d.cdev.areaOf[v]] == o
  {
    var c := d.cdev;
    if Bugs(d, o) {
      var a :| a in Owned(d, o) && c.attached[a] != [];
      var v := c.attached[a][0];
      assert IsAttached(c, v) && c.areaOf[v] == a;
      assert Foreign(d, v);
    }
  }

  /** Closing comes to an end and leaves no mapping behind exactly if no mapping of another opener refers to an
      area of this one. */
  lemma CloseSafeExactly(d: Node, o: nat)
    requires Valid(d) && MayClose(d, o)
    ensures (!Bugs(d, o) && forall v :: Dangling(Step(d, Close(o)).cdev, v) ==> Dangling(d.cdev, v)) <==>
            forall v :: Foreign(d, v) ==> d.owner[d.cdev.areaOf[v]] != o
  {
    BugExactly(d, o);
    if !Bugs(d, o) {
      forall v ensures Dangling(Step(d, Close(o)).cdev, v) && !Dangling(d.cdev, v)
                       <==> Foreign(d, v) && d.owner[d.cdev.areaOf[v]] == o {
        DanglingStep(d, Close(o), v);
      }
    }
  }

  /** Every mapping is of an area of its own opener. */
  predicate Own(d: Node)
    requires Valid(d)
  {
    forall v :: v in d.cdev.areaOf ==> !Foreign(d, v)
  }

  predicate OwnEvent(d: Node, e: Event)
    requires Valid(d) && Enabled(d, e)
  {
    e.Map? ==> d.owner[e.area] == e.opener
  }

  lemma OwnStep(d: Node, e: Event)
    requires Valid(d) && Enabled(d, e) && Own(d) && OwnEvent(d, e)
    ensures Valid(Step(d, e)) && Own(Step(d, e))
  {
    StepKeeps(d, e);
    if e.Fault? { FaultAreas(d.cdev, e.v, e.first, e.second); }
    if e.Unmap? { UnmapKeeps(d.cdev, e.v); }
    forall v | v in Step(d, e).cdev.areaOf ensures !Foreign(Step(d, e), v) {
      assert v in d.cdev.areaOf ==> !Foreign(d, v);
      assert e.Copy? ==> !Foreign(d, e.from);
    }
  }

  /** Every mapping of the run is made with the file that its area was requested with. */
  ghost predicate OwnRun(d: Node, run: seq<Event>)
    requires Valid(d)
    decreases |run|
  {
    run != [] && Enabled(d, run[0]) ==>
      OwnEvent(d, run[0]) && (StepKeeps(d, run[0]); OwnRun(Step(d, run[0]), run[1..]))
  }

  /** Over all runs in which openers only map what they requested themselves: closing never runs into the BUG_ON()
      and leaves no mapping behind. */
  lemma {:induction false} OwnRunsCloseSafely(d: Node, run: seq<Event>, to: Node, o: nat)
    requires Valid(d) && Own(d) && Leads(d, run, to) && OwnRun(d, run)
    ensures Valid(to)
    ensures MayClose(to, o) ==>
              !Bugs(to, o) && forall v :: Dangling(Step(to, Close(o)).cdev, v) ==> Dangling(to.cdev, v)
    decreases |run|
  {
    if run == [] {
      if MayClose(to, o) { CloseSafeExactly(to, o); }
    } else {
      OwnStep(d, run[0]);
      OwnRunsCloseSafely(Step(d, run[0]), run[1..], to, o);
    }
  }

  // ---- runs that leave a mapping behind, or end in the BUG_ON() ----

  lemma Prepend(d: Node, e: Event, run: seq<Event>, to: Node)
    requires Valid(d) && Enabled(d, e) && Valid(Step(d, e)) && Leads(Step(d, e), run, to)
    ensures Leads(d, [e] + run, to)
  {
    assert ([e] + run)[1..] == run;
  }

  /** The area 0 of opener 1, and mapping 7 of it by opener o. */
  function Mapped(o: nat): (d: Node)
    ensures Valid(d)
  {
    Node(Cdev(map[0 := []], map[7 := 0], [], {}), map[0 := 1], map[7 := o])
  }

  lemma MappedReached(o: nat, run: seq<Event>, to: Node)
    requires Leads(Mapped(o), run, to)
    ensures Leads(New(), [Request(0, 1)] + ([Map(7, 0, o)] + run), to)
  {
    var d := Step(New(), Request(0, 1));
    StepKeeps(New(), Request(0, 1));
    assert Step(d, Map(7, 0, o)) == Mapped(o);
    Prepend(d, Map(7, 0, o), run, to);
    Prepend(New(), Request(0, 1), [Map(7, 0, o)] + run, to);
  }

  /** Requesting an area, mapping it and releasing it before the first access is enough. */
  lemma DanglingReached() returns (run: seq<Event>, d: Node)
    ensures Leads(New(), run, d) && Dangling(d.cdev, 7)
  {
    d := Step(Mapped(1), Release(0));
    StepKeeps(Mapped(1), Release(0));
    Prepend(Mapped(1), Release(0), [], d);
    MappedReached(1, [Release(0)] + [], d);
    run := [Request(0, 1)] + ([Map(7, 0, 1)] + ([Release(0)] + []));
  }

  /** So is closing the file the area was requested with, if another opener has mapped it. */
  lemma ClosedUnderMapping() returns (run: seq<Event>, d: Node)
    ensures Leads(New(), run, d) && Dangling(d.cdev, 7)
  {
    d := Step(Mapped(2), Close(1));
    StepKeeps(Mapped(2), Close(1));
    Prepend(Mapped(2), Close(1), [], d);
    MappedReached(2, [Close(1)] + [], d);
    run := [Request(0, 1)] + ([Map(7, 0, 2)] + ([Close(1)] + []));
  }

  /** After a first access of that opener, closing runs into the BUG_ON(). */
  lemma BugReached() returns (run: seq<Event>, d: Node)
    ensures Leads(New(), run, d) && Valid(d) && MayClose(d, 1) && Bugs(d, 1)
  {
    var e := Fault(7, 0, 0);
    d := Step(Mapped(2), e);
    StepKeeps(Mapped(2), e);
    assert 0 in Owned(d, 1) && d.cdev.attached[0] == [7];
    Prepend(Mapped(2), e, [], d);
    MappedReached(2, [e] + [], d);
    run := [Request(0, 1)] + ([Map(7, 0, 2)] + ([e] + []));
  }

  // ---- in place ----

  lemma {:induction false} WithoutFirst(s: seq<nat>)
    requires Distinct(s) && s != []
    ensures Without(s, s[0]) == s[1..]
  {
    WithoutNone(s[1..], s[0]);
  }

  lemma {:induction false} WithoutNone(s: seq<nat>, x: nat)
    requires x !in s
    ensures Without(s, x) == s
  {
    if s != [] {
      assert x !in s[1..];
      WithoutNone(s[1..], x);
    }
  }

  /** Detaching the mappings of area a one by one. */
  function Detached(c: Cdev, a: nat): Cdev
    requires Inv(c) && a in c.attached
    decreases |c.attached[a]|
  {
    if c.attached[a] == [] then c
    else
      ReleaseKeeps(c, c.attached[a][0]);
      Detached(Released(c, c.attached[a][0]), a)
  }

  lemma {:induction false} DetachedIs(c: Cdev, a: nat)
    requires Inv(c) && a in c.attached && c.attached[a] != []
    ensures Detached(c, a) == Evicted(c, a)
    decreases |c.attached[a]|
  {
    var v := c.attached[a][0];
    var c1 := Released(c, v);
    ReleaseKeeps(c, v);
    WithoutFirst(c.attached[a]);
    if c1.attached[a] != [] {
      DetachedIs(c1, a);
    }
  }

  lemma EvictOne(c: Cdev, a: nat)
    requires Inv(c) && a in c.active
    ensures a in c.attached && c.attached[a] != [] && Inv(Evicted(c, a))
    ensures AllEvicted(Evicted(c, a)) == AllEvicted(c) && |Evicted(c, a).active| < |c.active|
  {
    EvictedKeeps(c, a);
  }

  lemma NoneActive(c: Cdev)
    requires Inv(c) && c.active == []
    ensures AllEvicted(c) == c
  {
    assert c.held == {};
  }

  lemma FreedNone(d: Node)
    ensures FreedAreas(d, {}) == d
  {
  }

  lemma FreedMore(d: Node, areas: set<nat>, a: nat)
    ensures FreedAreas(FreedAreas(d, areas), {a}) == FreedAreas(d, areas + {a})
  {
  }

  /** Of the areas of an opener, those that were free of mappings and are freed, and those that remain. */
  predicate Part(d: Node, o: nat, done: set<nat>, todo: set<nat>)
    requires Valid(d)
  {
    done !! todo && done + todo == Owned(d, o) && forall a :: a in done ==> d.cdev.attached[a] == []
  }

  lemma StillThere(d: Node, o: nat, done: set<nat>, todo: set<nat>, a: nat)
    requires Valid(d) && Part(d, o, done, todo) && a in todo
    ensures a in Freed(d.cdev, done).attached && Freed(d.cdev, done).attached[a] == d.cdev.attached[a]
    ensures d.cdev.attached[a] != [] ==> Bugs(d, o)
    ensures d.cdev.attached[a] == [] ==> Part(d, o, done + {a}, todo - {a})
  {
    assert a in Owned(d, o);
  }

  lemma AllFreed(d: Node, o: nat, done: set<nat>)
    requires Valid(d) && MayClose(d, o) && Part(d, o, done, {})
    ensures !Bugs(d, o) && FreedAreas(d, done) == Step(d, Close(o)) && Valid(Step(d, Close(o)))
  {
    assert done == Owned(d, o);
    StepKeeps(d, Close(o));
  }

  class Device {
    var attached: map<nat, seq<nat>>
    var areaOf: map<nat, nat>
    var active: seq<nat>
    var held: set<nat>
    var owner: map<nat, nat>
    var opener: map<nat, nat>

    constructor ()
      ensures Files() == New()
    {
      attached, areaOf, active, held, owner, opener := map[], map[], [], {}, map[], map[];
    }

    ghost function Files(): Node
      reads this
    {
      Node(State(), owner, opener)
    }

    ghost function State(): Cdev
      reads this
    {
      Cdev(attached, areaOf, active, held)
    }

    method VmaAcquire(v: nat, window: int) returns (err: int)
      requires Live(State(), v)
      modifies this`attached, this`active, this`held
      ensures (err, State()) == Acquired(old(State()), v, window)
    {
      var a := areaOf[v];
      if v in attached[a] {
        return 0;
      }
      if attached[a] == [] {
        if window < 0 {
          return window;
        }
        active, held := active + [a], held + {a};
      }
      assert [] + [v] == [v];
      attached := attached[a := attached[a] + [v]];
      return 0;
    }

    method VmaRelease(v: nat)
      requires Live(State(), v)
      modifies this`attached, this`active, this`held
      ensures State() == Released(old(State()), v)
    {
      var a := areaOf[v];
      if v !in attached[a] {
        return;
      }
      attached := attached[a := Without(attached[a], v)];
      if attached[a] == [] {
        active, held := Without(active, a), held - {a};
      }
    }

    /** The loop of nfp_dev_cpp_vma_evict() that detaches every mapping of an area. */
    method DetachAll(a: nat)
      requires Inv(State()) && a in attached && attached[a] != []
      modifies this`attached, this`active, this`held
      ensures State() == Evicted(old(State()), a)
    {
      ghost var c := State();
      DetachedIs(c, a);
      while attached[a] != []
        invariant Inv(State()) && a in attached && Detached(State(), a) == Detached(c, a)
        decreases |attached[a]|
      {
        ReleaseKeeps(State(), attached[a][0]);
        VmaRelease(attached[a][0]);
      }
    }

    /** nfp_dev_cpp_vma_evict() for a faulting mapping. */
    method VmaEvict(v: nat) returns (err: int)
      requires Inv(State()) && Live(State(), v)
      modifies this`attached, this`active, this`held
      ensures (err, State()) == EvictFor(old(State()), Some(v))
    {
      var i := 0;
      while i < |active|
        invariant 0 <= i <= |active| && State() == old(State())
        invariant Victim(active[i..], Some(areaOf[v])) == Victim(active, Some(areaOf[v]))
      {
        var a := active[i];
        assert active[i..][0] == a && active[i..][1..] == active[i + 1..];
        if areaOf[v] != a {
          DetachAll(a);
          return 0;
        }
        i := i + 1;
      }
      return EAGAIN;
    }

    /** nfp_dev_cpp_vma_evict() for no mapping in particular. */
    method VmaEvictAll() returns (err: int)
      requires Inv(State())
      modifies this`attached, this`active, this`held
      ensures (err, State()) == EvictFor(old(State()), None)
    {
      ghost var c := State();
      err := EAGAIN;
      while active != []
        invariant Inv(State()) && AllEvicted(State()) == AllEvicted(c)
        invariant err == if State() == c then EAGAIN else 0
        decreases |active|
      {
        EvictOne(State(), active[0]);
        DetachAll(active[0]);
        err := 0;
      }
      NoneActive(State());
    }

    /** do_cpp_area_release() for an area that was found. */
    method ReleaseArea(a: nat) returns (err: int)
      requires Valid(Files()) && a in attached
      modifies this`attached, this`owner
      ensures Files() == Step(old(Files()), Release(a)) && Valid(Files())
      ensures err == if old(attached)[a] == [] then 0 else EBUSY
    {
      StepKeeps(Files(), Release(a));
      err := if attached[a] == [] then 0 else EBUSY;
      if err == 0 {
        attached, owner := attached - {a}, owner - {a};
      }
    }

    method FreeArea(a: nat)
      modifies this`attached, this`owner
      ensures Files() == FreedAreas(old(Files()), {a})
    {
      attached, owner := attached - {a}, owner - {a};
    }

    /** nfp_dev_cpp_release(): every area that was requested with the file is freed, up to the first that a mapping
        is attached to, which is a bug. */
    method CloseFile(o: nat) returns (bug: bool)
      requires Valid(Files()) && MayClose(Files(), o)
      modifies this`attached, this`owner
      ensures bug <==> Bugs(old(Files()), o)
      ensures !bug ==> Files() == Step(old(Files()), Close(o)) && Valid(Files())
    {
      ghost var d, done: set<nat> := Files(), {};
      var todo := set a | a in attached && owner[a] == o;
      FreedNone(d);
      while todo != {}
        invariant Part(d, o, done, todo) && Files() == FreedAreas(d, done)
        decreases |todo|
      {
        var a :| a in todo;
        StillThere(d, o, done, todo, a);
        if attached[a] != [] {
          return true;
        }
        FreedMore(d, done, a);
        FreeArea(a);
        todo, done := todo - {a}, done + {a};
      }
      AllFreed(d, o, done);
      return false;
    }

    /** nfp_cpp_mmap_fault(), with what acquiring a window returns before and after an eviction. */
    method MmapFault(v: nat, first: int, second: int) returns (err: int)
      requires Inv(State()) && Live(State(), v)
      modifies this`attached, this`active, this`held
      ensures (err, State()) == Faulted(old(State()), v, first, second) && Inv(State())
    {
      FaultKeeps(State(), v, first, second);
      if v in attached[areaOf[v]] {
        return 1;
      }
      ghost var c := State();
      AcquireKeeps(c, v, first);
      err := VmaAcquire(v, first);
      if err < 0 {
        EvictSparesMine(State(), v);
        err := VmaEvict(v);
        if err == 0 {
          err := VmaAcquire(v, second);
        }
      }
    }
  }
}
