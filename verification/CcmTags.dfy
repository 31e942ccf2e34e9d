/**
 Tags of CCM requests (src/ccm.c): a bitmap of 2^16 tags handed out round-robin, with two cursors
 that bound how far apart the oldest and the newest outstanding request may be.
 */
module CcmTags {
  import opened Wrappers

  const TAGS: nat := 0x1_0000
  const SPAN: nat := 0xffff / 4

  /** `next` is the tag to allocate, `last` the oldest tag not known to be free. */
  datatype Tags = Tags(bits: set<nat>, next: nat, last: nat)

  /** u16 difference of the cursors. */
  function Used(t: Tags): nat { (t.next - t.last) % TAGS }

  predicate AllBusy(t: Tags) { Used(t) > SPAN }

  function Alloc(t: Tags): (Tags, Option<nat>) {
    if AllBusy(t) then (t, None)
    else (t.(bits := t.bits + {t.next}, next := (t.next + 1) % TAGS), Some(t.next))
  }

  predicate InRange(t: Tags) { t.next < TAGS && t.last < TAGS && forall b :: b in t.bits ==> b < TAGS }

  /** Where the `last` cursor stops. */
  function Advance(bits: set<nat>, next: nat, last: nat): (r: nat)
    requires next < TAGS && last < TAGS
    ensures r < TAGS
    decreases (next - last) % TAGS
  {
    if last in bits || last == next then last else Advance(bits, next, (last + 1) % TAGS)
  }

  function Free(t: Tags, tag: nat): Tags
    requires InRange(t)
  {
    var bits := t.bits - {tag};
    t.(bits := bits, last := Advance(bits, t.next, t.last))
  }

  /** struct nfp_ccm, its allocator part */
  class TagAllocator {
    const bitmap: array<bool>
    var allocNext: nat
    var allocLast: nat

    ghost predicate Valid()
      reads this
    {
      bitmap.Length == TAGS && allocNext < TAGS && allocLast < TAGS
    }

    ghost function State(): Tags
      reads this, bitmap
    {
      Tags((set b: nat | 0 <= b < bitmap.Length && bitmap[b]), allocNext, allocLast)
    }

    constructor ()
      ensures Valid() && fresh(bitmap) && State() == Tags({}, 0, 0)
    {
      bitmap := new bool[TAGS](_ => false);
      allocNext, allocLast := 0, 0;
    }

    method AllocTag() returns (tag: Option<nat>, warn: bool)
      requires Valid()
      modifies this, bitmap
      ensures Valid()
      ensures (State(), tag) == Alloc(old(State()))
      ensures warn == (tag.Some? && tag.value in old(State()).bits)
    {
      warn := false;
      var usedTags := (allocNext - allocLast) % TAGS;
      if usedTags > SPAN {
        return None, false;
      }
      warn := bitmap[allocNext];
      bitmap[allocNext] := true;
      tag := Some(allocNext);
      allocNext := (allocNext + 1) % TAGS;
      assert State().bits == old(State()).bits + {old(allocNext)};
    }

    method ClearBit(tag: nat) returns (warn: bool)
      requires Valid() && tag < TAGS
      modifies bitmap
      ensures State() == old(State()).(bits := old(State()).bits - {tag}) && warn == (tag !in old(State()).bits)
    {
      warn := !bitmap[tag];
      bitmap[tag] := false;
      assert State().bits == old(State()).bits - {tag};
    }

    method FreeTag(tag: nat) returns (warn: bool)
      requires Valid() && tag < TAGS
      modifies this, bitmap
      ensures Valid()
      ensures State() == Free(old(State()), tag)
      ensures warn == (tag !in old(State()).bits)
    {
      warn := ClearBit(tag);
      AdvanceLast(State().bits);
    }

    method AdvanceLast(ghost bits: set<nat>)
      requires Valid() && forall b: nat :: b < TAGS ==> (b in bits <==> bitmap[b])
      modifies this`allocLast
      ensures Valid() && allocLast == Advance(bits, allocNext, old(allocLast))
    {
      while !bitmap[allocLast] && allocLast != allocNext
        invariant Valid() && Advance(bits, allocNext, allocLast) == Advance(bits, allocNext, old(allocLast))
        decreases (allocNext - allocLast) % TAGS
      {
        allocLast := (allocLast + 1) % TAGS;
      }
    }
  }

  // ---- requests in flight ----

  /** A received reply; `from` is the serial number of the request it answers, for reasoning only. */
  datatype Reply = Reply(tag: nat, from: nat)

  /** Requests are numbered in the order of their tag allocation.  `oldest` is the serial number
      under the `last` cursor, `freed` lists requests in the order in which their tags were freed
      and `delivered` pairs each answered request with the request its reply was for. */
  datatype State = State(
    tags: Tags, replies: seq<Reply>,
    count: nat, oldest: nat, inflight: set<nat>, freed: seq<nat>, delivered: seq<(nat, nat)>)

  const INIT: State := State(Tags({}, 0, 0), [], 0, 0, {}, [], [])

  function TagOf(k: nat): nat { k % TAGS }

  datatype Event =
    | Start            // communicate() asks for a tag
    | Rx(from: nat)    // the firmware answers request `from`
    | Poll(k: nat)     // request k looks for its reply
    | Drop(k: nat)     // request k looks a last time and gives its tag up

  predicate Enabled(s: State, e: Event) {
    match e
    case Start => true
    case Rx(from) => from < s.count
    case Poll(k) => k in s.inflight
    case Drop(k) => k in s.inflight
  }

  function FindReply(replies: seq<Reply>, tag: nat): (i: nat)
    ensures i <= |replies| && (i < |replies| ==> replies[i].tag == tag)
    ensures forall j :: 0 <= j < i ==> replies[j].tag != tag
  {
    if replies == [] || replies[0].tag == tag then 0 else 1 + FindReply(replies[1..], tag)
  }

  function NextOldest(inflight: set<nat>, oldest: nat, count: nat): (r: nat)
    requires oldest <= count
    ensures oldest <= r <= count
    decreases count - oldest
  {
    if oldest in inflight || oldest == count then oldest else NextOldest(inflight, oldest + 1, count)
  }

  function FreeOf(s: State, k: nat): State
    requires InRange(s.tags) && s.oldest <= s.count
  {
    s.(tags := Free(s.tags, TagOf(k)), inflight := s.inflight - {k}, freed := s.freed + [k],
       oldest := NextOldest(s.inflight - {k}, s.oldest, s.count))
  }

  /** __nfp_ccm_reply(): free the tag and take the first reply that carries it. */
  function Take(s: State, k: nat): State
    requires InRange(s.tags) && s.oldest <= s.count
  {
    var i := FindReply(s.replies, TagOf(k));
    if i == |s.replies| then s
    else FreeOf(s, k).(replies := s.replies[..i] + s.replies[i + 1..],
                       delivered := s.delivered + [(k, s.replies[i].from)])
  }

  function Apply(s: State, e: Event): State
    requires InRange(s.tags) && s.oldest <= s.count
  {
    match e
    case Start =>
      var (tags, tag) := Alloc(s.tags);
      if tag.None? then s else s.(tags := tags, count := s.count + 1, inflight := s.inflight + {s.count})
    case Rx(from) =>
      if TagOf(from) in s.tags.bits then s.(replies := s.replies + [Reply(TagOf(from), from)]) else s
    case Poll(k) => Take(s, k)
    case Drop(k) => if FindReply(s.replies, TagOf(k)) < |s.replies| then Take(s, k) else FreeOf(s, k)
  }

  function Image(ks: set<nat>): set<nat> { set k | k in ks :: TagOf(k) }

  ghost predicate WindowOk(s: State) {
    && s.oldest <= s.count <= s.oldest + SPAN + 1
    && s.tags == Tags(Image(s.inflight), TagOf(s.count), TagOf(s.oldest))
    && (forall k :: k in s.inflight ==> s.oldest <= k < s.count)
    && (s.oldest < s.count ==> s.oldest in s.inflight)
  }

  ghost predicate FreedOk(s: State) {
    && (forall i, j :: 0 <= i < j < |s.freed| ==> s.freed[i] != s.freed[j])
    && (forall k: nat :: k in s.freed <==> k < s.count && k !in s.inflight)
  }

  ghost predicate RepliesOk(s: State) {
    && (forall i :: 0 <= i < |s.replies| ==>
          s.replies[i].from < s.count && s.replies[i].tag == TagOf(s.replies[i].from))
    && (forall i :: 0 <= i < |s.delivered| ==>
          s.delivered[i].1 < s.count && TagOf(s.delivered[i].0) == TagOf(s.delivered[i].1)
          && s.delivered[i].0 in s.freed)
  }

  ghost predicate Inv(s: State) { WindowOk(s) && FreedOk(s) && RepliesOk(s) }

  /** Inside a window shorter than the tag space, tags name requests uniquely. */
  lemma TagUnique(inflight: set<nat>, oldest: nat, k: nat, count: nat)
    requires oldest <= k <= count <= oldest + SPAN + 1
    requires forall x :: x in inflight ==> oldest <= x < count
    ensures TagOf(k) in Image(inflight) <==> k in inflight
    ensures TagOf(k) == TagOf(count) <==> k == count
  {
    if TagOf(k) in Image(inflight) {
      var x :| x in inflight && TagOf(x) == TagOf(k);
      SameTag(x, k);
    }
    SameTag(k, count);
  }

  lemma SameTag(a: nat, b: nat)
    ensures TagOf(a) == TagOf(b) <==> (b - a) % TAGS == 0
    ensures TagOf(a) == TagOf(b) && a != b ==> a + TAGS <= b || b + TAGS <= a
  {
  }

  lemma AdvanceFollows(inflight: set<nat>, oldest: nat, count: nat)
    requires oldest <= count <= oldest + SPAN + 1
    requires forall x :: x in inflight ==> oldest <= x < count
    ensures Advance(Image(inflight), TagOf(count), TagOf(oldest)) == TagOf(NextOldest(inflight, oldest, count))
    ensures forall x :: x in inflight ==> NextOldest(inflight, oldest, count) <= x
    ensures var r := NextOldest(inflight, oldest, count); r < count ==> r in inflight
    decreases count - oldest
  {
    TagUnique(inflight, oldest, oldest, count);
    if oldest !in inflight && oldest != count {
      assert TagOf(oldest + 1) == (TagOf(oldest) + 1) % TAGS;
      AdvanceFollows(inflight, oldest + 1, count);
    }
  }

  lemma WindowRange(s: State)
    requires WindowOk(s)
    ensures InRange(s.tags) && Used(s.tags) == s.count - s.oldest
  {
  }

  lemma FreeKeeps(s: State, k: nat)
    requires Inv(s) && k in s.inflight
    ensures InRange(s.tags) && WindowOk(FreeOf(s, k)) && FreedOk(FreeOf(s, k))
    ensures TagOf(k) in s.tags.bits
  {
    WindowRange(s);
    var rest := s.inflight - {k};
    assert Image(s.inflight) - {TagOf(k)} == Image(rest) by {
      forall x | x in rest ensures TagOf(x) != TagOf(k) { SameTag(x, k); }
    }
    AdvanceFollows(rest, s.oldest, s.count);
    var t := FreeOf(s, k);
    assert forall x: nat :: x in t.freed <==> x in s.freed || x == k;
  }

  lemma ImageAdds(ks: set<nat>, k: nat)
    ensures Image(ks + {k}) == Image(ks) + {TagOf(k)}
  {
  }

  lemma TagNext(k: nat)
    ensures TagOf(k + 1) == (TagOf(k) + 1) % TAGS
  {
  }

  lemma StartWindow(s: State)
    requires WindowOk(s) && InRange(s.tags) && !AllBusy(s.tags)
    ensures Alloc(s.tags).1 == Some(TagOf(s.count)) && TagOf(s.count) !in s.tags.bits
    ensures WindowOk(Apply(s, Start)) && Apply(s, Start).count == s.count + 1
    ensures Apply(s, Start).inflight == s.inflight + {s.count}
  {
    WindowRange(s);
    TagUnique(s.inflight, s.oldest, s.count, s.count);
    ImageAdds(s.inflight, s.count);
    TagNext(s.count);
  }

  lemma StartKeeps(s: State)
    requires Inv(s)
    ensures InRange(s.tags) && Inv(Apply(s, Start))
    ensures Alloc(s.tags).1.Some? ==> Alloc(s.tags).1.value !in s.tags.bits
  {
    WindowRange(s);
    if !AllBusy(s.tags) {
      StartWindow(s);
    }
  }

  lemma RxKeeps(s: State, from: nat)
    requires Inv(s) && Enabled(s, Rx(from)) && InRange(s.tags)
    ensures Inv(Apply(s, Rx(from)))
  {
  }

  lemma TakeKeeps(s: State, k: nat)
    requires Inv(s) && k in s.inflight && InRange(s.tags)
    ensures Inv(Take(s, k))
  {
    FreeKeeps(s, k);
  }

  lemma StepKeeps(s: State, e: Event)
    requires Inv(s) && Enabled(s, e)
    ensures InRange(s.tags) && Inv(Apply(s, e))
  {
    WindowRange(s);
    match e
    case Start => StartKeeps(s);
    case Rx(from) => RxKeeps(s, from);
    case Poll(k) => TakeKeeps(s, k);
    case Drop(k) => TakeKeeps(s, k); FreeKeeps(s, k);
  }

  // ---- runs ----

  ghost predicate Legal(s: State, es: seq<Event>)
    requires Inv(s)
    decreases |es|
  {
    es == [] || (Enabled(s, es[0]) && (StepKeeps(s, es[0]); Legal(Apply(s, es[0]), es[1..])))
  }

  ghost function Exec(s: State, es: seq<Event>): (r: State)
    requires Inv(s) && Legal(s, es)
    ensures Inv(r)
    decreases |es|
  {
    if es == [] then s else StepKeeps(s, es[0]); Exec(Apply(s, es[0]), es[1..])
  }

  ghost predicate Reachable(s: State) {
    exists es :: Inv(INIT) && Legal(INIT, es) && s == Exec(INIT, es)
  }

  /** A request's tag is as far into the window as its number is behind the oldest. */
  lemma TagPlace(s: State, k: nat)
    requires Inv(s) && k in s.inflight
    ensures TagOf(k) < TAGS && (TagOf(k) - s.tags.last) % TAGS == k - s.oldest < Used(s.tags)
  {
    WindowRange(s);
    Distance(k, s.oldest);
  }

  lemma Distance(k: nat, oldest: nat)
    requires oldest <= k < oldest + TAGS
    ensures (TagOf(k) - TagOf(oldest)) % TAGS == k - oldest
  {
  }

  /** All tags in use lie in the cyclic window from `last` up to `next`, which is at most SPAN + 1
      long and starts at a tag in use; requests in flight and tags in use correspond one to one. */
  lemma TagWindow(s: State)
    requires Reachable(s)
    ensures Used(s.tags) <= SPAN + 1
    ensures forall b :: b in s.tags.bits ==> b < TAGS && (b - s.tags.last) % TAGS < Used(s.tags)
    ensures Used(s.tags) > 0 ==> s.tags.last in s.tags.bits
    ensures s.tags.bits == Image(s.inflight) && |s.tags.bits| == |s.inflight|
  {
    assert Inv(s);
    WindowRange(s);
    forall b | b in s.tags.bits
      ensures b < TAGS && (b - s.tags.last) % TAGS < Used(s.tags)
    {
      var k :| k in s.inflight && TagOf(k) == b;
      TagPlace(s, k);
    }
    ImageSize(s.inflight, s.oldest);
  }

  lemma {:induction false} ImageSize(ks: set<nat>, oldest: nat)
    requires forall k :: k in ks ==> oldest <= k < oldest + TAGS
    ensures |Image(ks)| == |ks|
    decreases ks
  {
    if ks != {} {
      var k :| k in ks;
      ImageSize(ks - {k}, oldest);
      forall x | x in ks - {k} ensures TagOf(x) != TagOf(k) { SameTag(x, k); }
      assert Image(ks) == Image(ks - {k}) + {TagOf(k)};
    }
  }

  /** Neither warning of the allocator can fire: a tag handed out was free, a tag freed was in use. */
  lemma NoDoubleUse(s: State, k: nat)
    requires Reachable(s)
    ensures Alloc(s.tags).1.Some? ==> Alloc(s.tags).1.value !in s.tags.bits
    ensures k in s.inflight ==> TagOf(k) in s.tags.bits
  {
    StartKeeps(s);
    if k in s.inflight { FreeKeeps(s, k); }
  }

  /** Every request in flight or freed: each is freed at most once, and never while in flight. */
  lemma FreedOnce(s: State)
    requires Reachable(s)
    ensures forall i, j :: 0 <= i < j < |s.freed| ==> s.freed[i] != s.freed[j]
    ensures forall k: nat :: k < s.count <==> k in s.inflight || k in s.freed
    ensures forall k: nat :: !(k in s.inflight && k in s.freed)
  {
    assert Inv(s);
  }

  /** Tags recur with period 2^16 exactly, so between two uses of a tag there are 2^16 - 1 others. */
  lemma TagPeriod(s: State, k: nat)
    requires Reachable(s) && Alloc(s.tags).1.Some? && k < s.count
    ensures Alloc(s.tags).1.value == TagOf(k) <==> (s.count - k) % TAGS == 0
    ensures Alloc(s.tags).1.value == TagOf(k) ==> k + TAGS <= s.count
  {
    SameTag(k, s.count);
  }

  /** A request gets a tag exactly if each one in flight is among the last 16383 requests, and then the tag is its
      number modulo 2^16; otherwise nothing changes. */
  lemma AllocExactly(s: State)
    requires Reachable(s)
    ensures InRange(s.tags) && s.oldest <= s.count
    ensures var (tags, tag) := Alloc(s.tags);
            if forall k :: k in s.inflight ==> s.count - k <= 16383
            then tag == Some(s.count % 0x1_0000) && Apply(s, Start).inflight == s.inflight + {s.count}
            else tag == None && Apply(s, Start) == s
  {
    assert Inv(s);
    WindowRange(s);
    if !AllBusy(s.tags) {
      StartWindow(s);
    } else {
      assert s.oldest in s.inflight;
    }
  }

  /** A request that looks for its reply takes the first one that carries its tag out of the queue, and is over; without
      one nothing changes. */
  lemma PollExactly(s: State, k: nat)
    requires Reachable(s) && k in s.inflight
    ensures InRange(s.tags) && s.oldest <= s.count
    ensures var t := Apply(s, Poll(k));
            if forall i :: 0 <= i < |s.replies| ==> s.replies[i].tag != TagOf(k) then t == s
            else exists i: nat :: i < |s.replies| && s.replies[i].tag == TagOf(k)
                   && (forall j :: 0 <= j < i ==> s.replies[j].tag != TagOf(k))
                   && t.replies == s.replies[..i] + s.replies[i + 1..]
                   && t.delivered == s.delivered + [(k, s.replies[i].from)] && t.inflight == s.inflight - {k}
  {
    assert Inv(s);
    WindowRange(s);
    var i := FindReply(s.replies, TagOf(k));
    if i < |s.replies| { assert s.replies[i].tag == TagOf(k); }
  }

  /** A request is only ever given a reply to itself, or to a request at least 2^16 numbers away. */
  lemma DeliveryOff(s: State, i: nat)
    requires Reachable(s) && i < |s.delivered|
    ensures var (k, from) := s.delivered[i];
            k in s.freed && from < s.count && (k == from || k + TAGS <= from || from + TAGS <= k)
  {
    assert Inv(s);
    SameTag(s.delivered[i].0, s.delivered[i].1);
  }

  // ---- a firmware that answers once and in time ----

  /** At most one answer per request, and none after 2^16 newer requests. */
  ghost predicate Timely(s: State, answered: set<nat>, e: Event) {
    e.Rx? ==> e.from !in answered && s.count <= e.from + TAGS
  }

  ghost function Answered(answered: set<nat>, e: Event): set<nat> {
    if e.Rx? then answered + {e.from} else answered
  }

  ghost predicate QueueOk(s: State, answered: set<nat>) {
    && (forall i :: 0 <= i < |s.replies| ==> s.replies[i].from in s.inflight && s.replies[i].from in answered)
    && (forall i, j :: 0 <= i < j < |s.replies| ==> s.replies[i].from != s.replies[j].from)
    && (forall i :: 0 <= i < |s.delivered| ==> s.delivered[i].0 == s.delivered[i].1)
  }

  /** Every answer to a request in flight is waiting for it. */
  ghost predicate Waiting(s: State, k: nat) { exists i :: 0 <= i < |s.replies| && s.replies[i].from == k }

  ghost predicate NoneLost(s: State, answered: set<nat>) {
    (forall k :: k in answered ==> k < s.count) && forall k :: k in s.inflight && k in answered ==> Waiting(s, k)
  }

  lemma TimelyStep(s: State, answered: set<nat>, e: Event)
    requires Inv(s) && Enabled(s, e) && QueueOk(s, answered) && Timely(s, answered, e)
    ensures InRange(s.tags) && QueueOk(Apply(s, e), Answered(answered, e))
  {
    WindowRange(s);
    match e
    case Start =>
    case Rx(from) =>
      if TagOf(from) in s.tags.bits {
        var k :| k in s.inflight && TagOf(k) == TagOf(from);
        SameTag(k, from);
      }
    case Poll(k) => TimelyTake(s, answered, k);
    case Drop(k) => TimelyTake(s, answered, k);
  }

  lemma TimelyTake(s: State, answered: set<nat>, k: nat)
    requires Inv(s) && InRange(s.tags) && QueueOk(s, answered) && k in s.inflight
    ensures QueueOk(Take(s, k), answered)
    ensures FindReply(s.replies, TagOf(k)) == |s.replies| ==> QueueOk(FreeOf(s, k), answered)
  {
    forall i | 0 <= i < |s.replies|
      ensures s.replies[i].tag == TagOf(k) <==> s.replies[i].from == k
    {
      SameTag(s.replies[i].from, k);
    }
  }

  ghost predicate TimelyRun(s: State, answered: set<nat>, es: seq<Event>)
    requires Inv(s) && Legal(s, es)
    decreases |es|
  {
    es == [] || (Timely(s, answered, es[0]) &&
                 (StepKeeps(s, es[0]); TimelyRun(Apply(s, es[0]), Answered(answered, es[0]), es[1..])))
  }

  lemma RxNotLost(s: State, answered: set<nat>, from: nat)
    requires Inv(s) && InRange(s.tags) && Enabled(s, Rx(from)) && NoneLost(s, answered)
    ensures NoneLost(Apply(s, Rx(from)), answered + {from})
  {
    var t := Apply(s, Rx(from));
    forall k | k in t.inflight && k in answered + {from} ensures Waiting(t, k) {
      if k in answered {
        var i :| 0 <= i < |s.replies| && s.replies[i].from == k;
        assert t.replies[i] == s.replies[i];
      } else {
        assert TagOf(k) in Image(s.inflight);
        assert t.replies[|s.replies|].from == k;
      }
    }
  }

  lemma TakeIs(s: State, k: nat, i: nat)
    requires InRange(s.tags) && s.oldest <= s.count && i == FindReply(s.replies, TagOf(k)) < |s.replies|
    ensures var t := Take(s, k);
            t.replies == s.replies[..i] + s.replies[i + 1..] && t.inflight == s.inflight - {k} && t.count == s.count
  {
  }

  lemma DroppedAt(rs: seq<Reply>, i: nat, j: nat)
    requires i < |rs| && j < |rs| && j != i
    ensures var k := if j < i then j else j - 1; (rs[..i] + rs[i + 1..])[k] == rs[j]
  {
  }

  lemma FoundNotLost(s: State, answered: set<nat>, k: nat, i: nat)
    requires Inv(s) && InRange(s.tags) && QueueOk(s, answered) && NoneLost(s, answered) && k in s.inflight
    requires i == FindReply(s.replies, TagOf(k)) < |s.replies|
    ensures NoneLost(Take(s, k), answered)
  {
    var t := Take(s, k);
    TakeIs(s, k, i);
    SameTag(s.replies[i].from, k);
    forall x | x in t.inflight && x in answered ensures Waiting(t, x) {
      var j :| 0 <= j < |s.replies| && s.replies[j].from == x;
      DroppedAt(s.replies, i, j);
    }
  }

  lemma FreedNotLost(s: State, answered: set<nat>, k: nat)
    requires Inv(s) && InRange(s.tags) && NoneLost(s, answered)
    ensures NoneLost(FreeOf(s, k), answered)
  {
    var t := FreeOf(s, k);
    forall x | x in t.inflight && x in answered ensures Waiting(t, x) {
      var j :| 0 <= j < |s.replies| && s.replies[j].from == x;
      assert t.replies[j] == s.replies[j];
    }
  }

  lemma TakeNotLost(s: State, answered: set<nat>, k: nat)
    requires Inv(s) && InRange(s.tags) && QueueOk(s, answered) && NoneLost(s, answered) && k in s.inflight
    ensures NoneLost(Take(s, k), answered)
    ensures FindReply(s.replies, TagOf(k)) == |s.replies| ==> NoneLost(FreeOf(s, k), answered)
  {
    var i := FindReply(s.replies, TagOf(k));
    if i < |s.replies| { FoundNotLost(s, answered, k, i); } else { FreedNotLost(s, answered, k); }
  }

  lemma NotLostStep(s: State, answered: set<nat>, e: Event)
    requires Inv(s) && Enabled(s, e) && QueueOk(s, answered) && NoneLost(s, answered)
    ensures InRange(s.tags) && NoneLost(Apply(s, e), Answered(answered, e))
  {
    WindowRange(s);
    match e
    case Start => StartNotLost(s, answered);
    case Rx(from) => RxNotLost(s, answered, from);
    case Poll(k) => TakeNotLost(s, answered, k);
    case Drop(k) => TakeNotLost(s, answered, k);
  }

  lemma StartNotLost(s: State, answered: set<nat>)
    requires Inv(s) && InRange(s.tags) && NoneLost(s, answered)
    ensures NoneLost(Apply(s, Start), answered)
  {
    var t := Apply(s, Start);
    forall k | k in t.inflight && k in answered ensures Waiting(t, k) {
      var i :| 0 <= i < |s.replies| && s.replies[i].from == k;
      assert t.replies[i] == s.replies[i];
    }
  }

  /** The requests that the firmware answered in the run, after those before. */
  ghost function AllAnswered(answered: set<nat>, es: seq<Event>): (r: set<nat>)
    ensures forall k :: k in r <==> k in answered || Rx(k) in es
    decreases |es|
  {
    if es == [] then answered else AllAnswered(Answered(answered, es[0]), es[1..])
  }

  lemma {:induction false} TimelyRunQueue(s: State, answered: set<nat>, es: seq<Event>)
    requires Inv(s) && Legal(s, es) && QueueOk(s, answered) && NoneLost(s, answered) && TimelyRun(s, answered, es)
    ensures var all := AllAnswered(answered, es); QueueOk(Exec(s, es), all) && NoneLost(Exec(s, es), all)
    decreases |es|
  {
    if es != [] {
      TimelyStep(s, answered, es[0]);
      NotLostStep(s, answered, es[0]);
      StepKeeps(s, es[0]);
      TimelyRunQueue(Apply(s, es[0]), Answered(answered, es[0]), es[1..]);
    }
  }

  /** Then every request gets its own reply, every queued reply has a waiting request, and the queue
      is empty once nothing is in flight, as the check at clean-up expects. */
  lemma TimelyFirmware(es: seq<Event>)
    requires Inv(INIT) && Legal(INIT, es) && TimelyRun(INIT, {}, es)
    ensures var s := Exec(INIT, es);
            && (forall i :: 0 <= i < |s.delivered| ==> s.delivered[i].0 == s.delivered[i].1)
            && (forall i :: 0 <= i < |s.replies| ==> s.replies[i].from in s.inflight)
            && (s.inflight == {} ==> s.replies == [])
  {
    TimelyRunQueue(INIT, {}, es);
    var s := Exec(INIT, es);
    if s.replies != [] { assert s.replies[0].from in s.inflight; }
  }

  lemma OwnReplyFirst(s: State, answered: set<nat>, k: nat)
    requires Inv(s) && QueueOk(s, answered) && NoneLost(s, answered) && k in s.inflight
    ensures var i := FindReply(s.replies, TagOf(k));
            if k in answered then i < |s.replies| && s.replies[i].from == k else i == |s.replies|
  {
    var i := FindReply(s.replies, TagOf(k));
    if k in answered {
      var j :| 0 <= j < |s.replies| && s.replies[j].from == k;
      assert s.replies[j].tag == TagOf(k);
    }
    if i < |s.replies| { SameTag(s.replies[i].from, k); }
  }

  /** Then a request that looks for its reply finds it exactly if the firmware has answered it, and is over; one that
      looks a last time is over in any case. */
  lemma TimelyDelivery(es: seq<Event>, k: nat)
    requires Inv(INIT) && Legal(INIT, es) && TimelyRun(INIT, {}, es) && k in Exec(INIT, es).inflight
    ensures var s := Exec(INIT, es);
            InRange(s.tags)
            && var poll, drop := Apply(s, Poll(k)), Apply(s, Drop(k));
               if Rx(k) in es
               then poll == drop && poll.delivered == s.delivered + [(k, k)] && poll.inflight == s.inflight - {k}
               else poll == s && drop.delivered == s.delivered && drop.inflight == s.inflight - {k}
  {
    var s := Exec(INIT, es);
    TimelyRunQueue(INIT, {}, es);
    WindowRange(s);
    OwnReplyFirst(s, AllAnswered({}, es), k);
  }

  /** Without that, a second answer to one request stays queued after the request is over, where the
      next request with the same tag would find it. */
  lemma DuplicateReplyStays(s: State, k: nat) returns (s1: State, s2: State, s3: State)
    requires Reachable(s) && k in s.inflight && s.replies == []
    ensures InRange(s.tags) && Enabled(s, Rx(k)) && s1 == Apply(s, Rx(k))
    ensures InRange(s1.tags) && s1.oldest <= s1.count && Enabled(s1, Rx(k)) && s2 == Apply(s1, Rx(k))
    ensures InRange(s2.tags) && s2.oldest <= s2.count && Enabled(s2, Poll(k)) && s3 == Apply(s2, Poll(k))
    ensures k !in s3.inflight && s3.replies == [Reply(TagOf(k), k)]
  {
    FreeKeeps(s, k);
    s1 := Apply(s, Rx(k));
    s2 := Apply(s1, Rx(k));
    s3 := Apply(s2, Poll(k));
  }
}
