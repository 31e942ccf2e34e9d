/**
 The CPP areas of a character device (src/nfp_dev_cpp.c): placing areas in the device's offset space,
 and sharing the few hardware windows between the areas that are mapped.
 */
module CppAreas {
  import opened Wrappers

  const PAGE_SIZE: nat := 4096
  const EINVAL: int := -22
  const ETXTBSY: int := -26
  const ENOENT: int := -2
  const EBUSY: int := -16

  // ---- placing areas ----

  /** struct nfp_cpp_area_request */
  datatype Area = Area(offset: nat, size: nat)

  predicate Collide(a: Area, b: Area) { a.offset < b.offset + b.size && a.offset + a.size > b.offset }

  predicate Free(areas: seq<Area>, a: Area) { forall i :: 0 <= i < |areas| ==> !Collide(a, areas[i]) }

  predicate Disjoint(areas: seq<Area>) {
    forall i, j :: 0 <= i < j < |areas| ==> !Collide(areas[i], areas[j])
  }

  /** nfp_dev_cpp_range_check() */
  method RangeCheck(areas: seq<Area>, a: Area) returns (err: int)
    ensures err == if Free(areas, a) then 0 else ETXTBSY
  {
    var i := 0;
    while i < |areas|
      invariant 0 <= i <= |areas| && Free(areas[..i], a)
    {
      if a.offset < areas[i].offset + areas[i].size && a.offset + a.size > areas[i].offset {
        assert Collide(a, areas[i]);
        return ETXTBSY;
      }
      i := i + 1;
    }
    assert areas[..i] == areas;
    return 0;
  }

  function EndOf(a: Area): nat { a.offset + a.size }

  /** The first of the candidate places behind areas i and up that is free. */
  function PlaceFrom(areas: seq<Area>, i: nat, size: nat): (r: Option<nat>)
    requires i <= |areas|
    ensures r.Some? ==> Free(areas, Area(r.value, size))
    ensures r.None? ==> forall k :: i <= k < |areas| ==> !Free(areas, Area(EndOf(areas[k]), size))
    decreases |areas| - i
  {
    if i == |areas| then None
    else if Free(areas, Area(EndOf(areas[i]), size)) then Some(EndOf(areas[i]))
    else PlaceFrom(areas, i + 1, size)
  }

  function Place(areas: seq<Area>, size: nat): Option<nat> {
    if Free(areas, Area(0, size)) then Some(0) else PlaceFrom(areas, 0, size)
  }

  lemma {:induction false} Furthest(areas: seq<Area>) returns (m: nat)
    requires areas != []
    ensures m < |areas| && forall i :: 0 <= i < |areas| ==> EndOf(areas[i]) <= EndOf(areas[m])
  {
    m := 0;
    var i := 1;
    while i < |areas|
      invariant 1 <= i <= |areas| && m < i && forall k :: 0 <= k < i ==> EndOf(areas[k]) <= EndOf(areas[m])
    {
      if EndOf(areas[i]) > EndOf(areas[m]) { m := i; }
      i := i + 1;
    }
  }

  /** Automatic placement always finds a place. */
  lemma PlaceFound(areas: seq<Area>, size: nat)
    ensures Place(areas, size).Some?
  {
    if !Free(areas, Area(0, size)) {
      var m := Furthest(areas);
      assert Free(areas, Area(EndOf(areas[m]), size));
    }
  }

  lemma AppendDisjoint(areas: seq<Area>, a: Area)
    requires Disjoint(areas) && Free(areas, a)
    ensures Disjoint(areas + [a])
  {
  }

  /** Areas that do not collide share no byte. */
  lemma NoSharedByte(areas: seq<Area>, i: nat, j: nat, byte: nat)
    requires Disjoint(areas) && i < |areas| && j < |areas| && i != j
    requires areas[i].offset <= byte < EndOf(areas[i])
    ensures !(areas[j].offset <= byte < EndOf(areas[j]))
  {
    assert if i < j then !Collide(areas[i], areas[j]) else !Collide(areas[j], areas[i]);
  }

  /** An offset of None asks for automatic placement. */
  predicate Acceptable(offset: Option<nat>, size: nat) {
    size % PAGE_SIZE == 0 && (offset.Some? ==> offset.value % PAGE_SIZE == 0)
  }

  /** Every area starts and ends at a page. */
  predicate Aligned(a: Area) { a.offset % 4096 == 0 && a.size % 4096 == 0 }

  predicate AllAligned(areas: seq<Area>) { forall i :: 0 <= i < |areas| ==> Aligned(areas[i]) }

  lemma EndAligned(a: Area)
    requires Aligned(a)
    ensures EndOf(a) % 4096 == 0
  {
  }

  /** Automatic placement among aligned areas is aligned. */
  lemma {:induction false} PlaceFromAligned(areas: seq<Area>, i: nat, size: nat)
    requires AllAligned(areas) && i <= |areas|
    ensures PlaceFrom(areas, i, size).Some? ==> PlaceFrom(areas, i, size).value % 4096 == 0
    decreases |areas| - i
  {
    if i < |areas| {
      EndAligned(areas[i]);
      PlaceFromAligned(areas, i + 1, size);
    }
  }

  // ---- releasing areas ----

  /** The first area at an offset, or |areas|. */
  function FirstAt(areas: seq<Area>, offset: nat): (r: nat)
    ensures r <= |areas| && (r < |areas| ==> areas[r].offset == offset)
    ensures forall i :: 0 <= i < r ==> areas[i].offset != offset
  {
    if areas == [] then 0 else if areas[0].offset == offset then 0 else 1 + FirstAt(areas[1..], offset)
  }

  function Dropped(areas: seq<Area>, i: nat): seq<Area>
    requires i < |areas|
  {
    areas[..i] + areas[i + 1..]
  }

  lemma DroppedDisjoint(areas: seq<Area>, k: nat)
    requires Disjoint(areas) && k < |areas|
    ensures Disjoint(Dropped(areas, k))
  {
    var r := Dropped(areas, k);
    forall i, j | 0 <= i < j < |r| ensures !Collide(r[i], r[j]) {
      assert r[i] == areas[if i < k then i else i + 1] && r[j] == areas[if j < k then j else j + 1];
    }
  }

  lemma {:induction false} FirstIs(areas: seq<Area>, offset: nat, k: nat)
    requires k < |areas| && areas[k].offset == offset && forall i :: 0 <= i < k ==> areas[i].offset != offset
    ensures FirstAt(areas, offset) == k
  {
  }

  /** Among areas that are not empty a release undoes the request that returned the offset. */
  lemma ReleaseUndoesRequest(areas: seq<Area>, a: Area)
    requires Free(areas, a) && a.size > 0 && forall i :: 0 <= i < |areas| ==> areas[i].size > 0
    ensures var all := areas + [a];
            FirstAt(all, a.offset) == |areas| && Dropped(all, FirstAt(all, a.offset)) == areas
  {
    var all := areas + [a];
    forall i | 0 <= i < |areas| ensures all[i].offset != a.offset { assert !Collide(a, areas[i]); }
    FirstIs(all, a.offset, |areas|);
  }

  class Areas {
    var list: seq<Area>

    constructor ()
      ensures list == []
    {
      list := [];
    }

    /** do_cpp_area_request(); `alloc` is what allocating the area returns. */
    method Request(offset: Option<nat>, size: nat, alloc: int) returns (err: int, at: nat)
      requires Disjoint(list) && AllAligned(list)
      modifies this
      ensures Disjoint(list) && AllAligned(list)
      ensures size % 4096 != 0 || (offset.Some? && offset.value % 4096 != 0) ==> err == EINVAL
      ensures err == EINVAL ==> size % 4096 != 0 || (offset.Some? && offset.value % 4096 != 0) || alloc == EINVAL
      ensures err == if !Acceptable(offset, size) then EINVAL
                     else if offset.Some? && !Free(old(list), Area(offset.value, size)) then ETXTBSY
                     else alloc
      ensures list == if err == 0 then old(list) + [Area(at, size)] else old(list)
      ensures err == 0 ==> Some(at) == if offset.Some? then offset else Place(old(list), size)
    {
      at := 0;
      if size % PAGE_SIZE != 0 {
        return EINVAL, at;
      }
      if offset.Some? && offset.value % PAGE_SIZE != 0 {
        return EINVAL, at;
      }
      err := 0;
      if offset.None? {
        PlaceFound(list, size);
        err := RangeCheck(list, Area(at, size));
        if err < 0 {
          var i := 0;
          while i < |list|
            invariant 0 <= i <= |list| && list == old(list)
            invariant PlaceFrom(list, i, size) == PlaceFrom(list, 0, size) && PlaceFrom(list, i, size).Some?
            invariant err < 0
          {
            at := list[i].offset + list[i].size;
            err := RangeCheck(list, Area(at, size));
            if err == 0 {
              break;
            }
            i := i + 1;
          }
        }
      } else {
        at := offset.value;
      }
      if err >= 0 {
        err := RangeCheck(list, Area(at, size));
        if err >= 0 {
          err := alloc;
          if err == 0 {
            AppendDisjoint(list, Area(at, size));
            PlaceFromAligned(list, 0, size);
            list := list + [Area(at, size)];
          }
        }
      }
    }

    /** do_cpp_area_release(); `mapped` are the areas with attached mappings. */
    method Release(offset: nat, mapped: set<Area>) returns (err: int)
      requires Disjoint(list) && AllAligned(list)
      modifies this
      ensures Disjoint(list) && AllAligned(list)
      ensures var k := FirstAt(old(list), offset);
              err == (if k == |old(list)| then ENOENT else if old(list)[k] in mapped then EBUSY else 0)
              && list == if err == 0 then Dropped(old(list), k) else old(list)
    {
      err := ENOENT;
      var i := 0;
      while i < |list|
        invariant 0 <= i <= |list| && list == old(list) && err == ENOENT
        invariant forall j :: 0 <= j < i ==> list[j].offset != offset
      {
        if list[i].offset == offset {
          FirstIs(list, offset, i);
          err := if list[i] !in mapped then 0 else EBUSY;
          if err == 0 {
            DroppedDisjoint(list, i);
            list := list[..i] + list[i + 1..];
          }
          return;
        }
        i := i + 1;
      }
    }
  }
}
