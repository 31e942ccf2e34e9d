/**
 The cache in front of BPF map operations (src/bpf/cmsg.c).

 The firmware owns the map; the host keeps the entries of the last GETFIRST or GETNEXT reply and
 answers LOOKUP and GETNEXT from them.  Writers block the cache between cache_get() and
 cache_put(), and a generation counter, 32 bits wide, tells a filler that a writer finished.
 */
module BpfCache {
  import opened Wrappers

  type Byte = x: int | 0 <= x < 256
  type Key = seq<Byte>
  type Value = seq<Byte>

  datatype Entry = Entry(key: Key, value: Value)
  datatype Op = Lookup | Update | Delete | GetNext | GetFirst

  const GEN_MOD: nat := 0x1_0000_0000
  const CACHE_TIME_NS: int := 250 * 1000

  predicate Invalidates(op: Op) { op == Update || op == Delete }
  predicate Capable(op: Op) { op == Lookup || op == GetNext }
  predicate Fills(op: Op) { op == GetFirst || op == GetNext }

  // ---- the firmware map, in its iteration order ----

  predicate DistinctKeys(m: seq<Entry>) {
    forall i, j :: 0 <= i < j < |m| ==> m[i].key != m[j].key
  }

  /** First position of a key, or the length. */
  function IndexOf(m: seq<Entry>, key: Key): (i: nat)
    ensures i <= |m| && (i < |m| ==> m[i].key == key)
    ensures forall k :: 0 <= k < i ==> m[k].key != key
  {
    if m == [] || m[0].key == key then 0 else 1 + IndexOf(m[1..], key)
  }

  function MapLookup(m: seq<Entry>, key: Key): Option<Value> {
    var i := IndexOf(m, key);
    if i < |m| then Some(m[i].value) else None
  }

  function MapNext(m: seq<Entry>, key: Key): Option<Key> {
    var i := IndexOf(m, key);
    if i + 1 < |m| then Some(m[i + 1].key) else None
  }

  /** `r` is a run of consecutive entries of the map. */
  ghost predicate Segment(r: seq<Entry>, m: seq<Entry>) {
    exists o :: 0 <= o && o + |r| <= |m| && SegmentAt(r, m, o)
  }

  predicate SegmentAt(r: seq<Entry>, m: seq<Entry>, o: nat)
    requires o + |r| <= |m|
  {
    forall i :: 0 <= i < |r| ==> r[i] == m[o + i]
  }

  // ---- the cache, as cache_get() and cache_put() change it under the lock ----

  datatype Cache = Cache(entries: Option<seq<Entry>>, to: int, gen: nat, blockers: nat)

  /** What cache_get() tells its caller: an answer, or how many entries to ask the firmware for. */
  datatype Got = Hit(answer: Answer) | Miss(n: nat, gen: nat)
  datatype Answer = AValue(value: Value) | AKey(key: Key)

  function CacheFind(entries: seq<Entry>, op: Op, key: Key): Option<Answer> {
    var i := IndexOf(entries, key);
    if i == |entries| then None
    else if op == Lookup then Some(AValue(entries[i].value))
    else if i + 1 == |entries| then None
    else Some(AKey(entries[i + 1].key))
  }

  function Get(c: Cache, op: Op, key: Key, now: int, cacheCnt: nat): (Cache, Got) {
    var n := if Fills(op) && c.blockers == 0 then cacheCnt else 1;
    var miss := Miss(n, c.gen);
    if Invalidates(op) then (c.(blockers := c.blockers + 1, entries := None), miss)
    else if !Capable(op) || c.entries.None? then (c, miss)
    else if c.to < now then (c.(entries := None), miss)
    else
      match CacheFind(c.entries.value, op, key)
      case Some(a) => (c, Hit(a))
      case None => (c, miss)
  }

  function Put(c: Cache, op: Op, reply: Option<seq<Entry>>, gen: nat, now: int): Cache
    requires Invalidates(op) ==> 0 < c.blockers
  {
    var c1 := if Invalidates(op) then c.(blockers := c.blockers - 1, gen := (c.gen + 1) % GEN_MOD) else c;
    if Fills(op) && c1.blockers == 0 && c1.gen == gen then c1.(to := now + CACHE_TIME_NS, entries := reply) else c1
  }

  /** struct nfp_bpf_map */
  class BpfMap {
    var cache: Option<seq<Entry>>
    var cacheTo: int
    var cacheGen: nat
    var cacheBlockers: nat

    constructor ()
      ensures State() == Cache(None, 0, 0, 0)
    {
      cache, cacheTo, cacheGen, cacheBlockers := None, 0, 0, 0;
    }

    function State(): Cache
      reads this
    {
      Cache(cache, cacheTo, cacheGen, cacheBlockers)
    }

    method CacheGet(op: Op, key: Key, now: int, cacheCnt: nat) returns (got: Got)
      modifies this
      ensures (State(), got) == Get(old(State()), op, key, now, cacheCnt)
    {
      var n := if Fills(op) then cacheCnt else 1;
      if cacheBlockers != 0 {
        n := 1;
      }
      got := Miss(n, cacheGen);
      if Invalidates(op) {
        cacheBlockers := cacheBlockers + 1;
        cache := None;
        return;
      }
      if !Capable(op) || cache.None? {
        return;
      }
      if cacheTo < now {
        cache := None;
        return;
      }
      var entries := cache.value;
      var i := 0;
      while i < |entries|
        invariant 0 <= i <= |entries| && got == Miss(n, cacheGen) && State() == old(State())
        invariant forall k :: 0 <= k < i ==> entries[k].key != key
      {
        if entries[i].key == key {
          IndexOfIs(entries, key, i);
          if op == Lookup {
            got := Hit(AValue(entries[i].value));
            return;
          }
          if i + 1 == |entries| {
            break;
          }
          got := Hit(AKey(entries[i + 1].key));
          return;
        }
        i := i + 1;
      }
      if i == |entries| { IndexOfIs(entries, key, i); }
    }

    method CachePut(op: Op, reply: Option<seq<Entry>>, gen: nat, now: int)
      requires Invalidates(op) ==> 0 < cacheBlockers
      modifies this
      ensures State() == Put(old(State()), op, reply, gen, now)
    {
      var blocker, filler := Invalidates(op), Fills(op);
      if blocker || filler {
        if blocker {
          cacheBlockers := cacheBlockers - 1;
          cacheGen := (cacheGen + 1) % GEN_MOD;
        }
        if filler && cacheBlockers == 0 && cacheGen == gen {
          cacheTo := now + CACHE_TIME_NS;
          cache := reply;
        }
      }
    }
  }

  lemma IndexOfIs(m: seq<Entry>, key: Key, i: nat)
    requires i <= |m| && (i < |m| ==> m[i].key == key)
    requires forall k :: 0 <= k < i ==> m[k].key != key
    ensures IndexOf(m, key) == i
  {
  }

  // ---- calls in flight ----

  /** A call between its cache_get() and its cache_put().  `writes` is how many writers had finished
      when it started and `started` is when that was; both are only for reasoning. */
  datatype Call = Call(op: Op, key: Key, n: nat, gen: nat, writes: nat, started: nat, reply: Option<Reply>)

  /** The firmware's answer: the entries it could give, and whether it reports an error behind them. */
  datatype Reply = Reply(entries: seq<Entry>, error: bool)

  /** entry_op() keeps a batched reply with some entries in spite of an error after them. */
  function Usable(n: nat, r: Option<Reply>): Option<seq<Entry>> {
    if r.Some? && (!r.value.error || (n > 1 && r.value.entries != [])) then Some(r.value.entries) else None
  }

  /** `clock` counts steps; `lastWriter` is the last moment at which some writer was in flight; `filled` is the time at
      which the cache was last filled. */
  datatype State = State(
    fw: seq<Entry>, cache: Cache, calls: map<nat, Call>,
    writes: nat, clock: nat, lastWriter: int, cacheStarted: nat, filled: int)

  function Init(fw: seq<Entry>): State {
    State(fw, Cache(None, 0, 0, 0), map[], 0, 0, -1, 0, 0)
  }

  datatype Event =
    | Begin(id: nat, op: Op, key: Key, now: int, cacheCnt: nat)
    | Write(id: nat, fw: seq<Entry>)
    | Read(id: nat, reply: Reply)
    | End(id: nat, now: int)

  /** Firmware answers to fillers list consecutive entries; only writers change the map, and only
      between their cache_get() and cache_put(); fewer than 2^32 writers finish during one call. */
  ghost predicate Enabled(s: State, e: Event) {
    match e
    case Begin(id, _, _, _, _) => id !in s.calls
    case Write(id, fw) => id in s.calls && Invalidates(s.calls[id].op) && DistinctKeys(fw)
    case Read(id, reply) => id in s.calls && !Invalidates(s.calls[id].op) && Segment(reply.entries, s.fw)
    case End(id, _) => id in s.calls && s.writes - s.calls[id].writes < GEN_MOD
  }

  function Tick(s: State): State {
    s.(clock := s.clock + 1, lastWriter := if s.cache.blockers > 0 then s.clock + 1 else s.lastWriter)
  }

  function DoBegin(s: State, id: nat, op: Op, key: Key, now: int, cacheCnt: nat): State {
    var (c, got) := Get(s.cache, op, key, now, cacheCnt);
    var s1 := s.(cache := c);
    if got.Hit? then s1
    else s1.(calls := s.calls[id := Call(op, key, got.n, got.gen, s.writes, s.clock, None)])
  }

  /** The call's reply replaces the cache. */
  predicate Installs(c: Cache, call: Call) {
    Fills(call.op) && c.blockers == 0 && c.gen == call.gen
  }

  function DoEnd(s: State, id: nat, now: int): State
    requires id in s.calls && (Invalidates(s.calls[id].op) ==> 0 < s.cache.blockers)
  {
    var call := s.calls[id];
    var c := Put(s.cache, call.op, Usable(call.n, call.reply), call.gen, now);
    s.(cache := c, calls := s.calls - {id},
       writes := if Invalidates(call.op) then s.writes + 1 else s.writes,
       cacheStarted := if Installs(s.cache, call) then call.started else s.cacheStarted,
       filled := if Installs(s.cache, call) then now else s.filled)
  }

  function Apply(s: State, e: Event): State
    requires e.Write? || e.Read? || e.End? ==> e.id in s.calls
    requires e.End? && Invalidates(s.calls[e.id].op) ==> 0 < s.cache.blockers
  {
    match e
    case Begin(id, op, key, now, cnt) => Tick(DoBegin(s, id, op, key, now, cnt))
    case Write(id, fw) => Tick(s.(fw := fw, calls := s.calls[id := s.calls[id].(reply := Some(Reply([], false)))]))
    case Read(id, reply) => Tick(s.(calls := s.calls[id := s.calls[id].(reply := Some(reply))]))
    case End(id, now) => Tick(DoEnd(s, id, now))
  }

  // ---- the invariant ----

  function Writers(calls: map<nat, Call>): set<nat> {
    set id | id in calls && Invalidates(calls[id].op)
  }

  /** No writer finished since the call started and none is in flight: none overlapped it. */
  ghost predicate CallOk(s: State, c: Call) {
    && c.writes <= s.writes
    && c.gen == c.writes % GEN_MOD
    && c.started <= s.clock
    && (Fills(c.op) && c.writes == s.writes && s.cache.blockers == 0 ==>
          && s.lastWriter < c.started
          && (c.reply.Some? ==> Segment(c.reply.value.entries, s.fw)))
  }

  ghost predicate CacheOk(s: State) {
    s.cache.entries.Some? ==>
      && s.cache.blockers == 0
      && s.lastWriter < s.cacheStarted
      && s.cache.to == s.filled + CACHE_TIME_NS
      && Segment(s.cache.entries.value, s.fw)
  }

  ghost predicate Counted(s: State) {
    && s.cache.blockers == |Writers(s.calls)|
    && s.cache.gen == s.writes % GEN_MOD
    && s.lastWriter <= s.clock
    && (s.cache.blockers == 0 ==> s.lastWriter < s.clock)
  }

  ghost predicate CallsOk(s: State) { forall id :: id in s.calls ==> CallOk(s, s.calls[id]) }

  ghost predicate Inv(s: State) { DistinctKeys(s.fw) && Counted(s) && CacheOk(s) && CallsOk(s) }

  lemma WritersAdd(calls: map<nat, Call>, id: nat, c: Call)
    requires id !in calls
    ensures |Writers(calls[id := c])| == |Writers(calls)| + if Invalidates(c.op) then 1 else 0
  {
    assert Writers(calls[id := c]) == Writers(calls) + if Invalidates(c.op) then {id} else {};
  }

  lemma WritersRemove(calls: map<nat, Call>, id: nat)
    requires id in calls
    ensures |Writers(calls - {id})| == |Writers(calls)| - if Invalidates(calls[id].op) then 1 else 0
  {
    assert Writers(calls - {id}) == Writers(calls) - if Invalidates(calls[id].op) then {id} else {};
  }

  lemma BeginKeeps(s: State, id: nat, op: Op, key: Key, now: int, cacheCnt: nat)
    requires Inv(s) && id !in s.calls
    ensures Inv(Tick(DoBegin(s, id, op, key, now, cacheCnt)))
  {
    var t := DoBegin(s, id, op, key, now, cacheCnt);
    if id in t.calls { WritersAdd(s.calls, id, t.calls[id]); }
    assert forall i :: i in s.calls ==> CallOk(s, s.calls[i]);
  }

  lemma AnswerKeeps(s: State, e: Event)
    requires Inv(s) && Enabled(s, e) && (e.Write? || e.Read?)
    ensures Inv(Apply(s, e))
  {
    var t := Apply(s, e);
    assert Writers(t.calls) == Writers(s.calls);
    if e.Write? { assert e.id in Writers(s.calls); }
    assert forall i :: i in s.calls ==> CallOk(s, s.calls[i]);
  }

  lemma EndCallOk(s: State, id: nat, now: int, c: Call)
    requires Inv(s) && Enabled(s, End(id, now)) && CallOk(s, c)
    requires Invalidates(s.calls[id].op) ==> 0 < s.cache.blockers
    ensures CallOk(Apply(s, End(id, now)), c)
  {
  }

  lemma EndCacheOk(s: State, id: nat, now: int)
    requires Inv(s) && Enabled(s, End(id, now)) && (Invalidates(s.calls[id].op) ==> 0 < s.cache.blockers)
    ensures CacheOk(Apply(s, End(id, now)))
  {
    assert CallOk(s, s.calls[id]);
  }

  lemma EndCalls(s: State, id: nat, now: int)
    requires Inv(s) && Enabled(s, End(id, now)) && (Invalidates(s.calls[id].op) ==> 0 < s.cache.blockers)
    ensures CallsOk(Apply(s, End(id, now)))
  {
    var t := Apply(s, End(id, now));
    forall i | i in t.calls ensures CallOk(t, t.calls[i]) {
      assert t.calls[i] == s.calls[i];
      EndCallOk(s, id, now, s.calls[i]);
    }
  }

  lemma EndCounted(s: State, id: nat, now: int)
    requires Counted(s) && Enabled(s, End(id, now)) && (Invalidates(s.calls[id].op) ==> 0 < s.cache.blockers)
    ensures Counted(Apply(s, End(id, now)))
  {
    WritersRemove(s.calls, id);
  }

  lemma EndKeeps(s: State, id: nat, now: int)
    requires Inv(s) && Enabled(s, End(id, now))
    ensures Invalidates(s.calls[id].op) ==> 0 < s.cache.blockers
    ensures Inv(Apply(s, End(id, now)))
  {
    if Invalidates(s.calls[id].op) { assert id in Writers(s.calls); }
    EndCounted(s, id, now);
    EndCacheOk(s, id, now);
    EndCalls(s, id, now);
  }

  lemma StepKeeps(s: State, e: Event)
    requires Inv(s) && Enabled(s, e)
    ensures e.End? && Invalidates(s.calls[e.id].op) ==> 0 < s.cache.blockers
    ensures Inv(Apply(s, e))
  {
    match e
    case Begin(id, op, key, now, cnt) => BeginKeeps(s, id, op, key, now, cnt);
    case End(id, now) => EndKeeps(s, id, now);
    case _ => AnswerKeeps(s, e);
  }

  // ---- runs ----

  ghost predicate Legal(s: State, es: seq<Event>)
    requires Inv(s)
    decreases |es|
  {
    es == [] || (Enabled(s, es[0]) && (StepKeeps(s, es[0]); Legal(Apply(s, es[0]), es[1..])))
  }

  ghost function Exec(s: State, es: seq<Event>): (r: State)
    requires Inv(s) && Legal(s, es)
    ensures Inv(r)
    decreases |es|
  {
    if es == [] then s else StepKeeps(s, es[0]); Exec(Apply(s, es[0]), es[1..])
  }

  /** Reached from an empty cache over some firmware map by calls interleaved in any way. */
  ghost predicate Reachable(s: State) {
    exists fw, es :: DistinctKeys(fw) && Inv(Init(fw)) && Legal(Init(fw), es) && s == Exec(Init(fw), es)
  }

  /** While the cache holds entries, no update or delete is in flight, and none was at any moment
      since the request that filled it started. */
  lemma NoWriterSinceFill(s: State)
    requires Reachable(s) && s.cache.entries.Some?
    ensures Writers(s.calls) == {} && s.lastWriter < s.cacheStarted
  {
  }

  /** A hit returns what the firmware would return at that moment. */
  lemma HitAgreesWithFirmware(s: State, op: Op, key: Key, now: int, cacheCnt: nat)
    requires Reachable(s) && Get(s.cache, op, key, now, cacheCnt).1.Hit?
    ensures var a := Get(s.cache, op, key, now, cacheCnt).1.answer;
            || (op == Lookup && a.AValue? && MapLookup(s.fw, key) == Some(a.value))
            || (op == GetNext && a.AKey? && MapNext(s.fw, key) == Some(a.key))
  {
    var r := s.cache.entries.value;
    assert Inv(s);
    var o :| 0 <= o && o + |r| <= |s.fw| && SegmentAt(r, s.fw, o);
    var i := IndexOf(r, key);
    assert r[i] == s.fw[o + i];
    assert i + 1 < |r| ==> r[i + 1] == s.fw[o + i + 1];
    IndexOfIs(s.fw, key, o + i);
  }

  /** The entry at position i answers the request. */
  predicate Answers(entries: seq<Entry>, op: Op, key: Key, i: nat) {
    i < |entries| && entries[i].key == key && (op == Lookup || (op == GetNext && i + 1 < |entries|))
  }

  lemma FoundExactly(entries: seq<Entry>, op: Op, key: Key)
    requires DistinctKeys(entries) && Capable(op)
    ensures CacheFind(entries, op, key).Some? <==> exists i: nat :: Answers(entries, op, key, i)
  {
    if i: nat :| Answers(entries, op, key, i) { IndexOfIs(entries, key, i); }
    if CacheFind(entries, op, key).Some? { assert Answers(entries, op, key, IndexOf(entries, key)); }
  }

  lemma SegmentDistinct(r: seq<Entry>, m: seq<Entry>)
    requires Segment(r, m) && DistinctKeys(m)
    ensures DistinctKeys(r)
  {
    var o :| 0 <= o && o + |r| <= |m| && SegmentAt(r, m, o);
    forall i, j | 0 <= i < j < |r| ensures r[i].key != r[j].key { assert r[i] == m[o + i] && r[j] == m[o + j]; }
  }

  /** In every run a request is answered from the cache exactly if it is a lookup or a getnext, the cache was filled at
      most 250 microseconds ago and not dropped since, and holds the key, and for a getnext an entry behind it. */
  lemma HitExactly(s: State, op: Op, key: Key, now: int, cacheCnt: nat)
    requires Reachable(s)
    ensures Get(s.cache, op, key, now, cacheCnt).1.Hit? <==>
            (op == Lookup || op == GetNext) && s.cache.entries.Some? && now <= s.filled + 250_000
            && exists i: nat :: Answers(s.cache.entries.value, op, key, i)
  {
    assert Inv(s);
    if s.cache.entries.Some? && Capable(op) {
      SegmentDistinct(s.cache.entries.value, s.fw);
      FoundExactly(s.cache.entries.value, op, key);
    }
  }

  /** What a request does to the cache: an update or delete drops the entries and blocks it, a lookup or getnext drops
      entries that are too old, and nothing else changes. */
  lemma GetEffect(s: State, op: Op, key: Key, now: int, cacheCnt: nat)
    requires Reachable(s)
    ensures var (c, got) := Get(s.cache, op, key, now, cacheCnt);
            c.gen == s.cache.gen && c.to == s.cache.to
            && c.blockers == s.cache.blockers + (if op == Update || op == Delete then 1 else 0)
            && (c.entries == None || c.entries == s.cache.entries)
            && (c.entries == None <==>
                  s.cache.entries == None || op == Update || op == Delete
                  || ((op == Lookup || op == GetNext) && s.filled + 250_000 < now))
            && (got.Miss? ==>
                  got.gen == s.cache.gen
                  && got.n == if (op == GetFirst || op == GetNext) && Writers(s.calls) == {} then cacheCnt else 1)
  {
    assert Inv(s);
    if Writers(s.calls) != {} { var w :| w in Writers(s.calls); assert |Writers(s.calls)| > 0; }
  }

  /** A filler that no writer overlapped leaves its reply in the cache, and lookups of what is in it hit from there on,
      for 250 microseconds; a reply with an error is kept only if it holds entries of a batch. */
  lemma FillThenHit(s: State, id: nat, now: int, r: Reply, i: nat, later: int, cacheCnt: nat)
    requires Reachable(s) && Enabled(s, End(id, now)) && Fills(s.calls[id].op) && s.calls[id].reply == Some(r)
    requires Writers(s.calls) == {} && s.writes == s.calls[id].writes && i < |r.entries|
    ensures var c := Apply(s, End(id, now)).cache;
            if r.error && s.calls[id].n <= 1 then c.entries == None
            else c.entries == Some(r.entries)
                 && (later <= now + 250_000 ==>
                       Get(c, Lookup, r.entries[i].key, later, cacheCnt).1 == Hit(AValue(r.entries[i].value)))
  {
    assert Inv(s) && CallOk(s, s.calls[id]);
    SegmentDistinct(r.entries, s.fw);
    IndexOfIs(r.entries, r.entries[i].key, i);
  }

  /** Writers are what the blocker count counts, and every one of them makes a later hit impossible
      until its cache_put(). */
  lemma WriterBlocksHits(s: State, id: nat, op: Op, key: Key, now: int, cacheCnt: nat)
    requires Reachable(s) && id in s.calls && Invalidates(s.calls[id].op)
    ensures s.cache.blockers == |Writers(s.calls)|
    ensures Get(s.cache, op, key, now, cacheCnt).1.Miss?
    ensures Get(s.cache, op, key, now, cacheCnt).1.n == 1
  {
    assert Inv(s) && id in Writers(s.calls);
  }

  lemma Congruent(a: int, b: int)
    ensures a % GEN_MOD == b % GEN_MOD <==> (a - b) % GEN_MOD == 0
  {
  }

  /** Exactly when a finishing filler replaces the cache: no writer is in flight, and the number of
      writers that finished meanwhile is a multiple of 2^32, so none unless the counter wrapped. */
  lemma InstallExactly(s: State, id: nat)
    requires Reachable(s) && id in s.calls && Fills(s.calls[id].op)
    ensures Installs(s.cache, s.calls[id]) <==>
            Writers(s.calls) == {} && (s.writes - s.calls[id].writes) % GEN_MOD == 0
  {
    assert Inv(s) && CallOk(s, s.calls[id]);
    Congruent(s.writes, s.calls[id].writes);
    if Writers(s.calls) != {} { var w :| w in Writers(s.calls); assert |Writers(s.calls)| > 0; }
  }
}
