/**
 Dump specifications as lists (src/nfp_net_debugdump.c): which TLVs the two traversals visit, and what a dump of a given
 level of a given specification holds.
 */
module DebugDumpSpec {
  import opened DebugDump
  import opened DebugDumpFill
  import opened DebugDumpTheorems
  import opened DebugDumpReadBack

  // ---- traversing what was written ----

  /** The bytes of one TLV. */
  function Encode(t: Tlv): seq<Byte> { ToBe32(t.typ) + ToBe32(|t.body|) + t.body }

  function EncodeAll(ts: seq<Tlv>): seq<Byte> {
    if ts == [] then [] else Encode(ts[0]) + EncodeAll(ts[1..])
  }

  /** Type and length fit, the body is whole words, and the TLV is not the end mark. */
  predicate Encodable(t: Tlv) {
    t.typ < 0x1_0000_0000 && |t.body| < 0x1_0000_0000 && |t.body| % 4 == 0 && (t.typ != 0 || t.body != [])
  }

  predicate AllEncodable(ts: seq<Tlv>) { forall i :: 0 <= i < |ts| ==> Encodable(ts[i]) }

  /** A traversal ends here: too little is left for a TLV, or the end mark follows. */
  predicate EndsWalk(tail: seq<Byte>) {
    |tail| < 8 || (Be32(tail, 0) == 0 && Be32(tail, 4) == 0)
  }

  lemma SameNumber(d: seq<Byte>, o: nat, e: seq<Byte>, i: nat)
    requires o + i + 4 <= |d| && i + 4 <= |e| && forall k :: i <= k < i + 4 ==> d[o + k] == e[k]
    ensures Be32(d, o + i) == Be32(e, i)
  {
  }

  lemma NextEncoded(d: seq<Byte>, p: nat, t: Tlv, rest: seq<Byte>)
    requires Encodable(t) && p <= |d| && d[p..] == Encode(t) + rest
    ensures NextTlv(d, p) == Got(t, p + 8 + |t.body|) && d[p + 8 + |t.body|..] == rest
  {
    var e := d[p..];
    assert forall k :: 0 <= k < |e| ==> e[k] == d[p + k];
    assert d[p..p + 8] == ToBe32(t.typ) + ToBe32(|t.body|) by { assert d[p..p + 8] == e[..8]; }
    HeaderReads(d, p, ToBe32(t.typ), ToBe32(|t.body|));
    Be32Inverse(t.typ);
    Be32Inverse(|t.body|);
    assert d[p + 8..p + 8 + |t.body|] == e[8..8 + |t.body|] == t.body;
    assert d[p + 8 + |t.body|..] == e[8 + |t.body|..] == rest;
  }

  lemma NextStops(d: seq<Byte>, p: nat, tail: seq<Byte>)
    requires p <= |d| && d[p..] == tail && EndsWalk(tail)
    ensures NextTlv(d, p) == Stop
  {
    assert |d| - p == |tail|;
    if |tail| >= 8 {
      assert forall k :: 0 <= k < 8 ==> d[p + k] == tail[k];
      SameNumber(d, p, tail, 0);
      SameNumber(d, p, tail, 4);
    }
  }

  lemma WalkStep(d: seq<Byte>, p: nat, t: Tlv, next: nat)
    requires p <= |d| && NextTlv(d, p) == Got(t, next)
    ensures Walk(d, p) == Walked([t] + Walk(d, next).tlvs, Walk(d, next).ok)
  {
  }

  lemma EncodeFirst(ts: seq<Tlv>, tail: seq<Byte>)
    requires ts != []
    ensures EncodeAll(ts) + tail == Encode(ts[0]) + (EncodeAll(ts[1..]) + tail)
  {
  }

  /** Traversing TLVs written one behind the other visits exactly those. */
  lemma {:induction false} WalkEncoded(d: seq<Byte>, p: nat, ts: seq<Tlv>, tail: seq<Byte>)
    requires AllEncodable(ts) && p <= |d| && d[p..] == EncodeAll(ts) + tail && EndsWalk(tail)
    ensures Walk(d, p) == Walked(ts, true)
    decreases |ts|
  {
    if ts == [] {
      assert EncodeAll(ts) + tail == tail;
      NextStops(d, p, tail);
    } else {
      var next := p + 8 + |ts[0].body|;
      EncodeFirst(ts, tail);
      NextEncoded(d, p, ts[0], EncodeAll(ts[1..]) + tail);
      WalkStep(d, p, ts[0], next);
      WalkEncoded(d, next, ts[1..], tail);
      assert ts == [ts[0]] + ts[1..];
    }
  }

  /** A TLV starts here that is longer than what is left, or not whole words long. */
  predicate Malformed(tail: seq<Byte>) {
    !EndsWalk(tail) && (Be32(tail, 4) > |tail| - 8 || Be32(tail, 4) % 4 != 0)
  }

  lemma {:induction false} ToBeInverse(b: seq<Byte>)
    requires |b| == 4
    ensures ToBe32(Be32(b, 0)) == b
  {
    var n := Be32(b, 0);
    var b0: int, b1: int, b2: int, b3: int := b[0], b[1], b[2], b[3];
    var n2 := 256 * b0 + b1;
    var n1 := 256 * n2 + b2;
    assert n == 256 * n1 + b3;
    assert n / 256 == n1 && n1 / 256 == n2 && n2 / 256 == b0;
    assert ToBe(b[0], 1) == [b[0]];
    assert ToBe(n2, 2) == [b[0], b[1]];
    assert ToBe(n1, 3) == [b[0], b[1], b[2]];
  }

  lemma NextDecodes(d: seq<Byte>, p: nat)
    requires p <= |d|
    ensures match NextTlv(d, p)
            case Stop => EndsWalk(d[p..])
            case Bad => Malformed(d[p..])
            case Got(t, next) => Encodable(t) && d[p..] == Encode(t) + d[next..]
  {
    var tail := d[p..];
    if |tail| >= 8 {
      SameNumber(d, p, tail, 0);
      SameNumber(d, p, tail, 4);
      if NextTlv(d, p).Got? { GotDecodes(d, p); }
    }
  }

  lemma HeaderDecodes(d: seq<Byte>, p: nat)
    requires p + 8 <= |d|
    ensures ToBe32(Be32(d, p)) == d[p..p + 4] && ToBe32(Be32(d, p + 4)) == d[p + 4..p + 8]
  {
    SameNumber(d, p, d[p..p + 4], 0);
    SameNumber(d, p + 4, d[p + 4..p + 8], 0);
    ToBeInverse(d[p..p + 4]);
    ToBeInverse(d[p + 4..p + 8]);
  }

  lemma FourParts(d: seq<Byte>, p: nat, next: nat)
    requires p + 8 <= next <= |d|
    ensures d[p..] == d[p..p + 4] + d[p + 4..p + 8] + d[p + 8..next] + d[next..]
  {
  }

  lemma GotDecodes(d: seq<Byte>, p: nat)
    requires p <= |d| && NextTlv(d, p).Got?
    ensures var t, next := NextTlv(d, p).tlv, NextTlv(d, p).next; Encodable(t) && d[p..] == Encode(t) + d[next..]
  {
    HeaderDecodes(d, p);
    FourParts(d, p, NextTlv(d, p).next);
  }

  /** Any bytes: a traversal visits TLVs that are written one behind the other, and succeeds iff they end where it may
      end, and not in a malformed one. */
  lemma {:induction false} WalkDecodes(d: seq<Byte>, p: nat) returns (tail: seq<Byte>)
    requires p <= |d|
    ensures AllEncodable(Walk(d, p).tlvs) && d[p..] == EncodeAll(Walk(d, p).tlvs) + tail
    ensures if Walk(d, p).ok then EndsWalk(tail) else Malformed(tail)
    decreases |d| - p
  {
    NextDecodes(d, p);
    match NextTlv(d, p)
    case Stop => tail := d[p..];
    case Bad => tail := d[p..];
    case Got(t, next) =>
      tail := WalkDecodes(d, next);
      EncodeFirst([t] + Walk(d, next).tlvs, tail);
      assert ([t] + Walk(d, next).tlvs)[1..] == Walk(d, next).tlvs;
  }

  // ---- the TLVs of one level ----

  /** The TLVs inside those of the level, in order. */
  function Inside(ts: seq<Tlv>, level: nat): seq<Tlv> {
    if ts == [] then []
    else (if ts[0].typ == level then Walk(ts[0].body, 0).tlvs else []) + Inside(ts[1..], level)
  }

  predicate InsideOk(ts: seq<Tlv>, level: nat) {
    forall i :: 0 <= i < |ts| && ts[i].typ == level ==> Walk(ts[i].body, 0).ok
  }

  lemma InsideOn(t: Tlv, ts: seq<Tlv>, level: nat)
    ensures InsideOk([t] + ts, level) <==> (t.typ == level ==> Walk(t.body, 0).ok) && InsideOk(ts, level)
    ensures Inside([t] + ts, level) == (if t.typ == level then Walk(t.body, 0).tlvs else []) + Inside(ts, level)
  {
    assert ([t] + ts)[1..] == ts;
    if InsideOk([t] + ts, level) {
      forall i | 0 <= i < |ts| && ts[i].typ == level ensures Walk(ts[i].body, 0).ok {
        assert ([t] + ts)[i + 1] == ts[i];
      }
      assert ([t] + ts)[0] == t;
    }
  }

  /** For every specification: the traversals succeed iff it and all its TLVs of the level are well formed, and then
      visit exactly the TLVs inside those of the level, in order. */
  lemma {:induction false} VisitsExactly(spec: seq<Byte>, p: nat, level: nat)
    requires p <= |spec|
    ensures var v, w := Visits(spec, p, level), Walk(spec, p);
            (v.ok <==> w.ok && InsideOk(w.tlvs, level)) && (v.ok ==> v.tlvs == Inside(w.tlvs, level))
    decreases |spec| - p
  {
    match NextTlv(spec, p)
    case Stop =>
    case Bad =>
    case Got(t, next) =>
      VisitsExactly(spec, next, level);
      InsideOn(t, Walk(spec, next).tlvs, level);
  }

  // ---- specifications ----

  /** A level and what it asks for. */
  datatype Level = Level(number: nat, asks: seq<Tlv>)

  function TopOf(l: Level): Tlv { Tlv(l.number, EncodeAll(l.asks)) }

  function Tops(ls: seq<Level>): (r: seq<Tlv>)
    ensures |r| == |ls|
    ensures forall i :: 0 <= i < |ls| ==> r[i] == TopOf(ls[i])
  {
    seq(|ls|, i requires 0 <= i < |ls| => TopOf(ls[i]))
  }

  predicate Writable(ls: seq<Level>) {
    forall i :: 0 <= i < |ls| ==> AllEncodable(ls[i].asks) && Encodable(TopOf(ls[i]))
  }

  /** What the levels of that number ask for. */
  function Asked(ls: seq<Level>, level: nat): seq<Tlv> {
    if ls == [] then [] else (if ls[0].number == level then ls[0].asks else []) + Asked(ls[1..], level)
  }

  lemma BodyWalks(l: Level)
    requires AllEncodable(l.asks)
    ensures Walk(TopOf(l).body, 0) == Walked(l.asks, true)
  {
    assert EncodeAll(l.asks)[0..] == EncodeAll(l.asks) + [];
    WalkEncoded(EncodeAll(l.asks), 0, l.asks, []);
  }

  lemma {:induction false} InsideAsked(ls: seq<Level>, level: nat)
    requires Writable(ls)
    ensures InsideOk(Tops(ls), level) && Inside(Tops(ls), level) == Asked(ls, level)
    decreases |ls|
  {
    if ls != [] {
      BodyWalks(ls[0]);
      InsideAsked(ls[1..], level);
      assert Tops(ls) == [TopOf(ls[0])] + Tops(ls[1..]);
      InsideOn(TopOf(ls[0]), Tops(ls[1..]), level);
    }
  }

  /** The bytes of a specification. */
  ghost predicate Specifies(spec: seq<Byte>, ls: seq<Level>) {
    Writable(ls) && exists tail :: EndsWalk(tail) && spec == EncodeAll(Tops(ls)) + tail
  }

  lemma TopsEncodable(ls: seq<Level>)
    requires Writable(ls)
    ensures AllEncodable(Tops(ls))
  {
  }

  /** Both traversals of a specification visit exactly what its levels of the number ask for, in order. */
  lemma SpecVisits(spec: seq<Byte>, ls: seq<Level>, level: nat)
    requires Specifies(spec, ls)
    ensures Visits(spec, 0, level) == Walked(Asked(ls, level), true)
  {
    var tail :| EndsWalk(tail) && spec == EncodeAll(Tops(ls)) + tail;
    TopsEncodable(ls);
    assert spec[0..] == spec;
    WalkEncoded(spec, 0, Tops(ls), tail);
    InsideAsked(ls, level);
    VisitsExactly(spec, 0, level);
  }

  // ---- dumps of specifications ----

  /** Dumping a level of a specification into a buffer of the calculated size succeeds iff that size is not
      truncated and no register range runs on forever; it depends on what that level asks for, and on nothing else. */
  lemma SpecDumpSucceeds(m: Mem, env: Env, spec: seq<Byte>, ls: seq<Level>, level: nat, total: nat)
    requires Specifies(spec, ls) && total == 16 + TotalSize(env, Asked(ls, level)) && |m.bytes| == U32(total)
    ensures var r := Dumped(m, env, Visits(spec, 0, level), level);
            (r.err == 0 <==> total < 0x1_0000_0000 && NoneHangs(Items(env, Asked(ls, level))))
            && (r.err == 0 ==> r.dumped == |m.bytes|)
  {
    SpecVisits(spec, ls, level);
    CalculatedSizeSuffices(m, env, Visits(spec, 0, level), level, total);
  }

  /** A finished dump of a level walks back as the prolog and one TLV for each one that this level asks for, in order,
      each with its type, its length and what its filler copied into it. */
  lemma SpecDumpWalksBack(m: Mem, env: Env, spec: seq<Byte>, ls: seq<Level>, level: nat, asked: seq<Tlv>)
    requires Specifies(spec, ls) && asked == Asked(ls, level) && Narrow(env, asked)
    requires |m.bytes| == 16 + TotalSize(env, asked) && Dumped(m, env, Visits(spec, 0, level), level).err == 0
    ensures var w := Walk(Dumped(m, env, Visits(spec, 0, level), level).mem.bytes, 0);
            w.ok && Found(w.tlvs, [Prolog(level)] + Items(env, asked))
  {
    SpecVisits(spec, ls, level);
    DumpWalksBack(m, env, Visits(spec, 0, level), level);
  }
}
