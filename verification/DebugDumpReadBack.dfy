/**
 Reading a finished debug dump (src/nfp_net_debugdump.c): a traversal of the dump finds the prolog and one
 TLV for every TLV of the specification, and each holds what its filler copied.
 */
module DebugDumpReadBack {
  import opened DebugDump
  import opened DebugDumpFill
  import opened DebugDumpTheorems

  // ---- what a write leaves behind ----

  lemma {:induction false} PutAt(m: Mem, o: nat, bytes: seq<Byte>, k: nat)
    requires k < |m.bytes|
    ensures Put(m, o, bytes).bytes[k] == if o <= k < o + |bytes| then bytes[k - o] else m.bytes[k]
    decreases |bytes|
  {
    if |bytes| > 0 {
      PutAt(PutByte(m, o, bytes[0]), o + 1, bytes[1..], k);
    }
  }

  /** The bytes from `from` up to `to` are the same in both buffers. */
  predicate Same(a: Mem, b: Mem, from: nat, to: nat) {
    |a.bytes| == |b.bytes| && from <= to <= |a.bytes| && a.bytes[from..to] == b.bytes[from..to]
  }

  lemma PutApart(m: Mem, o: nat, bytes: seq<Byte>, from: nat, to: nat)
    requires from <= to <= |m.bytes| && (o + |bytes| <= from || to <= o)
    ensures Same(Put(m, o, bytes), m, from, to)
  {
    forall k | from <= k < to ensures Put(m, o, bytes).bytes[k] == m.bytes[k] {
      PutAt(m, o, bytes, k);
    }
  }

  lemma PutLands(m: Mem, o: nat, bytes: seq<Byte>)
    requires o + |bytes| <= |m.bytes|
    ensures Put(m, o, bytes).bytes[o..o + |bytes|] == bytes
  {
    forall k | o <= k < o + |bytes| ensures Put(m, o, bytes).bytes[k] == bytes[k - o] {
      PutAt(m, o, bytes, k);
    }
  }

  predicate Apart(p: Piece, off: nat, end: nat) { p.off + |p.bytes| <= off || end <= p.off }

  lemma {:induction false} PiecesApart(m: Mem, base: nat, ps: seq<Piece>, off: nat, end: nat)
    requires off <= end && base + end <= |m.bytes| && forall i :: 0 <= i < |ps| ==> Apart(ps[i], off, end)
    ensures Same(PutPieces(m, base, ps), m, base + off, base + end)
    decreases |ps|
  {
    if |ps| > 0 {
      PutApart(m, base + ps[0].off, ps[0].bytes, base + off, base + end);
      PiecesApart(Put(m, base + ps[0].off, ps[0].bytes), base, ps[1..], off, end);
    }
  }

  /** Pieces behind piece k leave it alone. */
  predicate Undisturbed(ps: seq<Piece>, k: nat)
    requires k < |ps|
  {
    forall i :: k < i < |ps| ==> Apart(ps[i], ps[k].off, ps[k].off + |ps[k].bytes|)
  }

  /** A piece that no later piece overwrites is found in the buffer. */
  lemma {:induction false} PieceLands(m: Mem, base: nat, ps: seq<Piece>, k: nat)
    requires k < |ps| && Undisturbed(ps, k) && base + ps[k].off + |ps[k].bytes| <= |m.bytes|
    ensures var o := base + ps[k].off;
            PutPieces(m, base, ps).bytes[o..o + |ps[k].bytes|] == ps[k].bytes
    decreases |ps|
  {
    var n := Put(m, base + ps[0].off, ps[0].bytes);
    if k > 0 {
      PieceLands(n, base, ps[1..], k - 1);
    } else {
      PutLands(m, base + ps[0].off, ps[0].bytes);
      PiecesApart(n, base, ps[1..], ps[0].off, ps[0].off + |ps[0].bytes|);
    }
  }

  // ---- what filling leaves behind ----

  predicate From(ps: seq<Piece>, lo: nat) { forall i :: 0 <= i < |ps| ==> lo <= ps[i].off }

  predicate Behind(ps: seq<Piece>) { From(ps, 8) }

  predicate AllBehind(its: seq<Item>) { forall i :: 0 <= i < |its| ==> Behind(its[i].pieces) }

  /** Filling on from offset o leaves everything before it alone. */
  lemma {:induction false} FillKeeps(m: Mem, o: nat, its: seq<Item>)
    requires AllBehind(its) && o <= |m.bytes|
    ensures Same(Fill(m, o, its).mem, m, 0, o)
    decreases |its|
  {
    if |its| > 0 && o + its[0].size <= |m.bytes| {
      EmitKeeps(m, o, its[0]);
    }
    if |its| > 0 && o + its[0].size <= |m.bytes| && !its[0].hangs {
      FillKeeps(Emit(m, o, its[0]), o + its[0].size, its[1..]);
      SameShorter(Fill(m, o, its).mem, Emit(m, o, its[0]), o + its[0].size, o);
    }
  }

  lemma SameShorter(a: Mem, b: Mem, to: nat, less: nat)
    requires Same(a, b, 0, to) && less <= to
    ensures Same(a, b, 0, less)
  {
    assert a.bytes[0..less] == a.bytes[0..to][0..less] && b.bytes[0..less] == b.bytes[0..to][0..less];
  }

  lemma EmitKeeps(m: Mem, o: nat, it: Item)
    requires Behind(it.pieces) && o <= |m.bytes|
    ensures Same(Emit(m, o, it), m, 0, o)
  {
    var n := Put(m, o, Header(it.typ, it.size));
    PutApart(m, o, Header(it.typ, it.size), 0, o);
    LowApart(n, o, it.pieces);
  }

  lemma {:induction false} LowApart(m: Mem, base: nat, ps: seq<Piece>)
    requires base <= |m.bytes|
    ensures Same(PutPieces(m, base, ps), m, 0, base)
    decreases |ps|
  {
    if |ps| > 0 {
      PutApart(m, base + ps[0].off, ps[0].bytes, 0, base);
      LowApart(Put(m, base + ps[0].off, ps[0].bytes), base, ps[1..]);
    }
  }

  /** The body of a TLV holds every piece that was copied into it and not overwritten. */
  predicate Carries(it: Item, body: seq<Byte>) {
    8 + |body| == it.size
    && forall k :: 0 <= k < |it.pieces| && Undisturbed(it.pieces, k) ==> Holds(body, it.pieces[k])
  }

  /** A piece inside the TLV is found at its place behind the header. */
  predicate Holds(body: seq<Byte>, p: Piece) {
    8 <= p.off && p.off + |p.bytes| <= 8 + |body| ==> body[p.off - 8..p.off - 8 + |p.bytes|] == p.bytes
  }

  /** The bytes of d from o on are these TLVs, one behind the other. */
  predicate Held(d: seq<Byte>, o: nat, its: seq<Item>)
    decreases |its|
  {
    if |its| == 0 then o == |d|
    else
      var next := o + its[0].size;
      o + 8 <= next <= |d| && d[o..o + 8] == Header(its[0].typ, its[0].size)
      && Carries(its[0], d[o + 8..next]) && Held(d, next, its[1..])
  }

  lemma EmitHolds(m: Mem, o: nat, it: Item)
    requires Behind(it.pieces) && 8 <= it.size && o + it.size <= |m.bytes|
    ensures var d := Emit(m, o, it).bytes;
            d[o..o + 8] == Header(it.typ, it.size) && Carries(it, d[o + 8..o + it.size])
  {
    var h := Header(it.typ, it.size);
    var n, d := Put(m, o, h), Emit(m, o, it).bytes;
    PutLands(m, o, h);
    PiecesApart(n, o, it.pieces, 0, 8);
    var body := d[o + 8..o + it.size];
    assert 8 + |body| == it.size;
    forall k | 0 <= k < |it.pieces| && Undisturbed(it.pieces, k) ensures Holds(body, it.pieces[k]) {
      PieceHeld(n, o, it, k, body);
    }
    assert Carries(it, body);
  }

  lemma SliceOf(d: seq<Byte>, lo: nat, hi: nat, from: nat, to: nat)
    requires lo <= hi <= |d| && from <= to <= hi - lo
    ensures d[lo..hi][from..to] == d[lo + from..lo + to]
  {
    var a, b := d[lo..hi][from..to], d[lo + from..lo + to];
    assert |a| == |b| && forall i :: 0 <= i < |a| ==> a[i] == d[lo..hi][from + i] == d[lo + from + i] == b[i];
  }

  lemma PieceHeld(n: Mem, o: nat, it: Item, k: nat, body: seq<Byte>)
    requires 8 <= it.size && o + it.size <= |n.bytes| && k < |it.pieces| && Undisturbed(it.pieces, k)
    requires body == PutPieces(n, o, it.pieces).bytes[o + 8..o + it.size]
    ensures Holds(body, it.pieces[k])
  {
    var p := it.pieces[k];
    if 8 <= p.off && p.off + |p.bytes| <= it.size {
      PieceLands(n, o, it.pieces, k);
      SliceOf(PutPieces(n, o, it.pieces).bytes, o + 8, o + it.size, p.off - 8, p.off - 8 + |p.bytes|);
    }
  }

  lemma HeldOn(a: Mem, b: Mem, o: nat, it: Item, rest: seq<Item>)
    requires 8 <= it.size && Same(a, b, 0, o + it.size)
    requires b.bytes[o..o + 8] == Header(it.typ, it.size) && Carries(it, b.bytes[o + 8..o + it.size])
    requires Held(a.bytes, o + it.size, rest)
    ensures Held(a.bytes, o, [it] + rest)
  {
    var next := o + it.size;
    assert ([it] + rest)[1..] == rest;
    assert a.bytes[o..o + 8] == a.bytes[0..next][o..o + 8] == b.bytes[0..next][o..o + 8] == b.bytes[o..o + 8];
    assert a.bytes[o + 8..next] == a.bytes[0..next][o + 8..next]
           == b.bytes[0..next][o + 8..next] == b.bytes[o + 8..next];
  }

  lemma FillHoldsOn(e: Mem, o: nat, it: Item, rest: seq<Item>, d: Mem)
    requires 8 <= it.size && AllBehind(rest) && o + it.size <= |e.bytes|
    requires e.bytes[o..o + 8] == Header(it.typ, it.size) && Carries(it, e.bytes[o + 8..o + it.size])
    requires d == Fill(e, o + it.size, rest).mem && Held(d.bytes, o + it.size, rest)
    ensures Held(d.bytes, o, [it] + rest)
  {
    FillKeeps(e, o + it.size, rest);
    HeldOn(d, e, o, it, rest);
  }

  lemma FillHoldsBoth(m: Mem, o: nat, it: Item, rest: seq<Item>, d: Mem)
    requires Behind(it.pieces) && 8 <= it.size && AllBehind(rest) && o + it.size <= |m.bytes|
    requires d == Fill(Emit(m, o, it), o + it.size, rest).mem && Held(d.bytes, o + it.size, rest)
    ensures Held(d.bytes, o, [it] + rest)
  {
    EmitHolds(m, o, it);
    FillHoldsOn(Emit(m, o, it), o, it, rest, d);
  }

  /** What is filled into a buffer with just enough space stays there, whatever else is copied. */
  lemma {:induction false} FillHolds(m: Mem, o: nat, its: seq<Item>)
    requires AllBehind(its) && AllHeaded(its) && NoneHangs(its) && o + Total(its) == |m.bytes|
    ensures Held(Fill(m, o, its).mem.bytes, o, its)
    decreases |its|
  {
    if |its| > 0 {
      var it, rest := its[0], its[1..];
      FillHolds(Emit(m, o, it), o + it.size, rest);
      FillHoldsBoth(m, o, it, rest, Fill(m, o, its).mem);
      assert its == [it] + rest;
    }
  }

  // ---- walking the dump ----

  /** A TLV that a traversal can find. */
  predicate Walkable(it: Item) {
    8 <= it.size < 0x1_0000_0000 && it.size % 4 == 0 && it.typ < 0x1_0000_0000 && (it.typ != 0 || 8 < it.size)
  }

  predicate AllWalkable(its: seq<Item>) { forall i :: 0 <= i < |its| ==> Walkable(its[i]) }

  lemma HeaderReads(d: seq<Byte>, o: nat, a: seq<Byte>, b: seq<Byte>)
    requires o + 8 <= |d| && |a| == |b| == 4 && d[o..o + 8] == a + b
    ensures Be32(d, o) == Be32(a, 0) && Be32(d, o + 4) == Be32(b, 0)
  {
    assert forall i :: 0 <= i < 4 ==> d[o + i] == d[o..o + 8][i] == a[i];
    assert forall i :: 0 <= i < 4 ==> d[o + 4 + i] == d[o..o + 8][4 + i] == b[i];
  }

  lemma HeldReads(d: seq<Byte>, o: nat, it: Item)
    requires Walkable(it) && o + it.size <= |d| && d[o..o + 8] == Header(it.typ, it.size)
    ensures NextTlv(d, o) == Got(Tlv(it.typ, d[o + 8..o + it.size]), o + it.size)
  {
    HeaderReads(d, o, ToBe32(it.typ), ToBe32(it.size - 8));
    Be32Inverse(it.typ);
    Be32Inverse(it.size - 8);
  }

  /** These TLVs have the types of the items and hold what was copied for them. */
  predicate Found(ts: seq<Tlv>, its: seq<Item>) {
    |ts| == |its| && forall i :: 0 <= i < |its| ==> ts[i].typ == its[i].typ && Carries(its[i], ts[i].body)
  }

  lemma FoundOn(t: Tlv, ts: seq<Tlv>, it: Item, its: seq<Item>)
    requires t.typ == it.typ && Carries(it, t.body) && Found(ts, its)
    ensures Found([t] + ts, [it] + its)
  {
  }

  lemma HeldWalksOn(d: seq<Byte>, o: nat, it: Item, next: nat, rest: seq<Item>)
    requires Walkable(it) && next == o + it.size <= |d| && d[o..o + 8] == Header(it.typ, it.size)
    requires Carries(it, d[o + 8..next]) && Walk(d, next).ok && Found(Walk(d, next).tlvs, rest)
    ensures Walk(d, o).ok && Found(Walk(d, o).tlvs, [it] + rest)
  {
    HeldReads(d, o, it);
    FoundOn(Tlv(it.typ, d[o + 8..next]), Walk(d, next).tlvs, it, rest);
  }

  /** A traversal finds the TLVs that the bytes hold, and nothing else. */
  lemma {:induction false} HeldWalks(d: seq<Byte>, o: nat, its: seq<Item>)
    requires AllWalkable(its) && o <= |d| && Held(d, o, its)
    ensures Walk(d, o).ok && Found(Walk(d, o).tlvs, its)
    decreases |its|
  {
    if |its| > 0 {
      var next := o + its[0].size;
      HeldWalks(d, next, its[1..]);
      HeldWalksOn(d, o, its[0], next, its[1..]);
      assert its == [its[0]] + its[1..];
    }
  }

  lemma FromConcat(ps: seq<Piece>, qs: seq<Piece>, lo: nat)
    requires From(ps, lo) && From(qs, lo)
    ensures From(ps + qs, lo)
  {
  }

  ghost predicate StoresAt(read: (nat, nat, nat) -> Copied) {
    forall addr: nat, ctx: nat, dest: nat :: From(read(addr, ctx, dest).pieces, dest)
  }

  lemma FromLower(ps: seq<Piece>, lo: nat, less: nat)
    requires From(ps, lo) && less <= lo
    ensures From(ps, less)
  {
  }

  lemma {:induction false} ContextsStart(read: (nat, nat, nat) -> Copied, r: nat, addr: nat, ctx: nat, dest: nat)
    requires ctx <= IND_CONTEXTS && StoresAt(read)
    ensures From(ReadContexts(read, r, addr, ctx, dest).pieces, dest)
    decreases addr, IND_CONTEXTS - ctx
  {
    if ctx < IND_CONTEXTS && read(addr, ctx, dest).err == 0 {
      var rest := ReadContexts(read, r, addr, ctx + 1, dest + r).pieces;
      ContextsStart(read, r, addr, ctx + 1, dest + r);
      FromLower(rest, dest + r, dest);
      FromConcat(read(addr, ctx, dest).pieces, rest, dest);
    }
  }

  /** Pieces at or behind `lo`, or in the header of a register dump. */
  predicate Clear(ps: seq<Piece>, lo: nat) {
    forall i :: 0 <= i < |ps| ==> 8 <= ps[i].off && (lo <= ps[i].off || ps[i].off + |ps[i].bytes| <= 32)
  }

  lemma ClearConcat(ps: seq<Piece>, qs: seq<Piece>, lo: nat)
    requires Clear(ps, lo) && Clear(qs, lo)
    ensures Clear(ps + qs, lo)
  {
  }

  lemma FromClear(ps: seq<Piece>, lo: nat, less: nat)
    requires From(ps, lo) && less <= lo && 8 <= lo
    ensures Clear(ps, less)
  {
  }

  /** A turn copies nothing before its place. */
  ghost predicate Onward(turn: (nat, nat) -> Copied) {
    forall addr: nat, dest: nat :: From(turn(addr, dest).pieces, dest)
  }

  /** The loop copies nothing before its place, but for what it reports. */
  lemma {:induction false} RangeClear(turn: (nat, nat) -> Copied, r: nat, stride: nat, addr: nat, max: nat, dest: nat,
                                      left: nat, lo: nat)
    requires 0 < r && Onward(turn) && 8 <= dest && lo <= dest
    ensures Clear(Range(turn, r, stride, addr, max, dest, left).pieces, lo)
    decreases left
  {
    if addr < max && r <= left {
      var c := turn(addr, dest);
      FromClear(c.pieces, dest, lo);
      if c.err == 0 {
        var rest := Range(turn, r, stride, U32(addr + r), max, dest + stride, left - r).pieces;
        RangeClear(turn, r, stride, U32(addr + r), max, dest + stride, left - r, lo);
        ClearConcat(c.pieces, rest, lo);
      } else {
        ClearConcat(c.pieces, ReadError(c.err, addr), lo);
      }
    }
  }

  lemma RegTurnOnward(env: Env, id: seq<Byte>, r: nat)
    ensures Onward(RegTurn(env, id, r))
  {
  }

  lemma ContextsStore(env: Env, id: seq<Byte>, r: nat)
    ensures StoresAt(Contexts(env, id, r))
  {
  }

  lemma IndirectTurnOnward(env: Env, t: Tlv)
    requires CsrValid(t)
    ensures Onward(IndirectTurn(env, t))
  {
    var read, r := Contexts(env, t.body[..4], RegSize(t)), RegSize(t);
    ContextsStore(env, t.body[..4], r);
    forall addr: nat, dest: nat ensures From(ReadContexts(read, r, addr, 0, dest).pieces, dest) {
      ContextsStart(read, r, addr, 0, dest);
    }
  }

  lemma CsrItemFrom(header: seq<Piece>, turn: (nat, nat) -> Copied, r: nat, stride: nat, addr: nat, max: nat)
    requires 0 < r && From(header, 8) && Onward(turn)
    ensures From(header + Range(turn, r, stride, addr, max, 32, ADDRESSES).pieces, 8)
  {
    RangeClear(turn, r, stride, addr, max, 32, ADDRESSES, 8);
    FromConcat(header, Range(turn, r, stride, addr, max, 32, ADDRESSES).pieces, 8);
  }

  lemma CsrBehind(env: Env, t: Tlv)
    requires t.typ <= TYPE_INDIRECT_ME_CSR
    ensures Behind(ItemOf(env, t).pieces)
  {
    if IsIndirect(t) {
      IndirectTurnOnward(env, t);
      CsrItemFrom(CsrHeader(t), IndirectTurn(env, t), RegSize(t), RegSize(t) * IND_CONTEXTS, CsrAddr(t), MaxAddr(t));
    } else if CsrValid(t) {
      var turn := RegTurn(env, t.body[..4], RegSize(t));
      RegTurnOnward(env, t.body[..4], RegSize(t));
      CsrItemFrom(CsrHeader(t), turn, RegSize(t), RegSize(t), CsrAddr(t), MaxAddr(t));
    }
  }

  lemma RtsymBehind(env: Env, t: Tlv)
    requires t.typ == TYPE_RTSYM
    ensures Behind(ItemOf(env, t).pieces)
  {
  }

  /** No filler touches the header of its TLV. */
  lemma ItemBehind(env: Env, t: Tlv)
    ensures Behind(ItemOf(env, t).pieces)
  {
    if t.typ <= TYPE_INDIRECT_ME_CSR {
      CsrBehind(env, t);
    } else if t.typ == TYPE_RTSYM {
      RtsymBehind(env, t);
    }
  }

  lemma ItemWalkable(env: Env, t: Tlv)
    requires t.typ < 0x1_0000_0000 && RawSize(env, t) < 0x1_0000_0000
    ensures Walkable(ItemOf(env, t))
  {
    PassesAgree(env, t);
    var blocks := SizeAligned(env, t);
    FourDivides(Size(env, t), blocks);
  }

  lemma FourDivides(size: nat, blocks: nat)
    requires size == 8 * blocks
    ensures size % 4 == 0
  {
  }

  lemma ItemsGood(env: Env, ts: seq<Tlv>)
    requires Typed(ts) && Narrow(env, ts)
    ensures AllBehind(Items(env, ts)) && AllWalkable(Items(env, ts))
  {
    forall i | 0 <= i < |ts| ensures Behind(Items(env, ts)[i].pieces) && Walkable(Items(env, ts)[i]) {
      ItemBehind(env, ts[i]);
      ItemWalkable(env, ts[i]);
    }
  }

  lemma WithProlog(level: nat, its: seq<Item>)
    requires AllBehind(its) && AllWalkable(its)
    ensures var all := [Prolog(level)] + its;
            AllBehind(all) && AllWalkable(all) && AllHeaded(all) && Total(all) == 16 + Total(its)
  {
    assert ([Prolog(level)] + its)[1..] == its;
  }

  /** For every specification whose sizes are not truncated, aligned or not: walking the finished dump
      gives the prolog and one TLV per visited TLV, in order, with its type, its length and what its
      filler copied into it. */
  lemma DumpWalksBack(m: Mem, env: Env, v: Walked, level: nat)
    requires Typed(v.tlvs) && Narrow(env, v.tlvs) && |m.bytes| == 16 + TotalSize(env, v.tlvs)
    requires Dumped(m, env, v, level).err == 0
    ensures var w := Walk(Dumped(m, env, v, level).mem.bytes, 0);
            w.ok && Found(w.tlvs, [Prolog(level)] + Items(env, v.tlvs))
  {
    DumpExact(m, env, v, level);
    DumpedIs(m, env, v, level);
    ItemsWalkBack(m, env, v.tlvs, level);
  }

  lemma ItemsWalkBack(m: Mem, env: Env, ts: seq<Tlv>, level: nat)
    requires Typed(ts) && Narrow(env, ts) && |m.bytes| == 16 + TotalSize(env, ts) && NoneHangs(Items(env, ts))
    ensures var w := Walk(Fill(Emit(m, 0, Prolog(level)), 16, Items(env, ts)).mem.bytes, 0);
            w.ok && Found(w.tlvs, [Prolog(level)] + Items(env, ts))
  {
    var its := Items(env, ts);
    var all := [Prolog(level)] + its;
    ItemsGood(env, ts);
    WithProlog(level, its);
    TotalsAgree(env, ts);
    FillOn(m, 0, Prolog(level), its);
    FillHolds(m, 0, all);
    HeldWalks(Fill(m, 0, all).mem.bytes, 0, all);
  }
}
