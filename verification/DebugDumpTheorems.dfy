/**
 What the two passes of a debug dump (src/nfp_net_debugdump.c) owe each other: they agree on every size
 and every error, the filling pass ends where the sizing pass said, and the dump can be read back.
 */
module DebugDumpTheorems {
  import opened DebugDump
  import opened DebugDumpFill

  // ---- the two passes agree on every TLV ----

  lemma AlignU32(h: nat, n: nat)
    ensures U32(h + Align8(U32(n))) == U32(h + Align8(n))
  {
    var q := n / 0x1_0000_0000;
    assert n + 7 == U32(n) + 7 + 8 * (0x2000_0000 * q);
    assert Blocks8(n) == Blocks8(U32(n)) + 0x2000_0000 * q;
    assert h + Align8(n) == h + Align8(U32(n)) + 0x1_0000_0000 * q;
  }

  /** Why a TLV cannot be dumped, or 0. */
  function Refusal(env: Env, t: Tlv): int {
    var n := StrLen(t.body);
    if t.typ == TYPE_FWNAME || t.typ == TYPE_HWINFO then 0
    else if t.typ <= TYPE_INDIRECT_ME_CSR then if CsrValid(t) then 0 else EINVAL
    else if t.typ == TYPE_RTSYM then
      if n == |t.body| then EINVAL else if t.body[..n] in env.syms then 0 else ENOENT
    else if t.typ == TYPE_HWINFO_FIELD then
      if n == |t.body| then EINVAL else if t.body[..n] in env.field then 0 else ENOENT
    else EOPNOTSUPP
  }

  /** The filling pass announces the size that the sizing pass adds, and refuses a TLV for reason e, or not
      if e is 0. */
  predicate Agrees(env: Env, t: Tlv, it: Item, raw: nat, e: int) {
    it.size == U32(raw) && if e == 0 then it.typ == t.typ else it == ErrorItem(t, e) && raw == ErrorTlvSize(t)
  }

  lemma CsrsAgree(env: Env, t: Tlv)
    requires t.typ <= TYPE_INDIRECT_ME_CSR
    ensures Agrees(env, t, ItemOf(env, t), RawSize(env, t), Refusal(env, t))
  {
    if CsrValid(t) {
      AlignU32(Align8(32), DumpLen(t) * IND_CONTEXTS);
    }
  }

  lemma RtsymsAgree(env: Env, t: Tlv)
    requires t.typ == TYPE_RTSYM
    ensures Agrees(env, t, ItemOf(env, t), RawSize(env, t), Refusal(env, t))
  {
    var n := StrLen(t.body);
    if n < |t.body| && t.body[..n] in env.syms {
      AlignU32(RtsymHeader(t.body[..n]), env.syms[t.body[..n]].size);
    }
  }

  lemma OthersAgree(env: Env, t: Tlv)
    requires t.typ > TYPE_RTSYM
    ensures Agrees(env, t, ItemOf(env, t), RawSize(env, t), Refusal(env, t))
  {
  }

  /** Each filler announces the size that the size calculation added for its TLV, and the two passes
      refuse the same TLVs. */
  lemma PassesAgree(env: Env, t: Tlv)
    ensures ItemOf(env, t).size == Size(env, t)
    ensures if Refusal(env, t) == 0 then ItemOf(env, t).typ == t.typ
            else ItemOf(env, t) == ErrorItem(t, Refusal(env, t)) && RawSize(env, t) == ErrorTlvSize(t)
  {
    if t.typ <= TYPE_INDIRECT_ME_CSR {
      CsrsAgree(env, t);
    } else if t.typ == TYPE_RTSYM {
      RtsymsAgree(env, t);
    } else {
      OthersAgree(env, t);
    }
  }

  lemma {:induction false} TotalsAgree(env: Env, ts: seq<Tlv>)
    ensures Total(Items(env, ts)) == TotalSize(env, ts)
  {
    if ts != [] {
      PassesAgree(env, ts[0]);
      TotalsAgree(env, ts[1..]);
    }
  }

  // ---- the filling pass ends where the sizing pass said ----

  /** Some TLV that is reached with `room` bytes of space never comes to an end. */
  predicate HangsWithin(its: seq<Item>, room: int) {
    |its| > 0 && its[0].size <= room && (its[0].hangs || HangsWithin(its[1..], room - its[0].size))
  }

  predicate NoneHangs(its: seq<Item>) { forall i :: 0 <= i < |its| ==> !its[i].hangs }

  lemma {:induction false} FillExact(m: Mem, o: nat, its: seq<Item>)
    requires o <= |m.bytes|
    ensures var r := Fill(m, o, its);
            (r.err == 0 <==> o + Total(its) <= |m.bytes| && NoneHangs(its))
            && (r.err == 0 ==> r.dumped == o + Total(its))
            && (r.err == NEVER <==> HangsWithin(its, |m.bytes| - o))
            && (r.err == 0 || r.err == ENOSPC || r.err == NEVER)
    decreases |its|
  {
    if its != [] && o + its[0].size <= |m.bytes| && !its[0].hangs {
      FillExact(Emit(m, o, its[0]), o + its[0].size, its[1..]);
      assert NoneHangs(its) <==> NoneHangs(its[1..]) by { assert its == [its[0]] + its[1..]; }
    }
  }

  /** For every specification: filling returns success iff the specification is well formed, the TLVs fit the
      buffer and none of them hangs, and then it is as long as they are together. */
  lemma DumpExact(m: Mem, env: Env, v: Walked, level: nat)
    ensures var r, total, its := Dumped(m, env, v, level), 16 + TotalSize(env, v.tlvs), Items(env, v.tlvs);
            (r.err == 0 <==> v.ok && total <= |m.bytes| && NoneHangs(its)) && (r.err == 0 ==> r.dumped == total)
            && (r.err == NEVER <==> HangsWithin(its, |m.bytes| - 16))
            && (r.err == 0 || r.err == ENOSPC || r.err == NEVER || (r.err == EINVAL && !v.ok))
  {
    var f := Fill(m, 0, [Prolog(level)]);
    FillOne(m, 0, Prolog(level));
    if f.err == 0 {
      FillExact(f.mem, f.dumped, Items(env, v.tlvs));
    }
    TotalsAgree(env, v.tlvs);
  }

  lemma NotTruncated(n: nat, size: nat)
    requires size == U32(n)
    ensures (n <= size <==> n < 0x1_0000_0000) && (n <= size ==> n == size)
  {
  }

  lemma Suffices(r: Filled, total: nat, size: nat, ends: bool)
    requires (r.err == 0 <==> total <= size && ends) && (r.err == 0 ==> r.dumped == total) && size == U32(total)
    ensures (r.err == 0 <==> total < 0x1_0000_0000 && ends) && (r.err == 0 ==> r.dumped == size)
  {
    NotTruncated(total, size);
  }

  /** A buffer of the calculated size suffices iff that size was not truncated to 32 bits and nothing hangs. */
  lemma CalculatedSizeSuffices(m: Mem, env: Env, v: Walked, level: nat, total: nat)
    requires v.ok && total == 16 + TotalSize(env, v.tlvs) && |m.bytes| == U32(total)
    ensures var r := Dumped(m, env, v, level);
            (r.err == 0 <==> total < 0x1_0000_0000 && NoneHangs(Items(env, v.tlvs)))
            && (r.err == 0 ==> r.dumped == |m.bytes|)
  {
    DumpExact(m, env, v, level);
    Suffices(Dumped(m, env, v, level), total, |m.bytes|, NoneHangs(Items(env, v.tlvs)));
  }

  // ---- when every write stays in the buffer ----

  function Max(a: nat, b: nat): nat { if a < b then b else a }

  function EndOf(p: Piece): nat { if |p.bytes| == 0 then 0 else p.off + |p.bytes| }

  /** Where the furthest of the pieces ends. */
  function Reach(ps: seq<Piece>): nat {
    if |ps| == 0 then 0 else Max(EndOf(ps[0]), Reach(ps[1..]))
  }

  lemma {:induction false} ReachConcat(ps: seq<Piece>, qs: seq<Piece>)
    ensures Reach(ps + qs) == Max(Reach(ps), Reach(qs))
  {
    if ps == [] {
      assert ps + qs == qs;
    } else {
      assert (ps + qs)[1..] == ps[1..] + qs;
      ReachConcat(ps[1..], qs);
    }
  }

  lemma ReachOne(p: Piece)
    ensures Reach([p]) == EndOf(p)
  {
  }

  lemma ReachTwo(p: Piece, q: Piece)
    ensures Reach([p, q]) == Max(EndOf(p), EndOf(q))
  {
    assert [p, q] == [p] + [q];
    ReachConcat([p], [q]);
  }

  lemma {:induction false} PutStrays(m: Mem, o: nat, bytes: seq<Byte>)
    ensures Put(m, o, bytes).strayed == (m.strayed || (|bytes| > 0 && |m.bytes| < o + |bytes|))
    decreases |bytes|
  {
    if |bytes| > 0 {
      PutStrays(PutByte(m, o, bytes[0]), o + 1, bytes[1..]);
    }
  }

  lemma {:induction false} PiecesStray(m: Mem, base: nat, ps: seq<Piece>)
    requires base <= |m.bytes|
    ensures PutPieces(m, base, ps).strayed == (m.strayed || |m.bytes| < base + Reach(ps))
    decreases |ps|
  {
    if |ps| > 0 {
      PutStrays(m, base + ps[0].off, ps[0].bytes);
      PiecesStray(Put(m, base + ps[0].off, ps[0].bytes), base, ps[1..]);
    }
  }

  lemma EmitStrays(m: Mem, o: nat, it: Item)
    requires o + 8 <= |m.bytes|
    ensures Emit(m, o, it).strayed == (m.strayed || |m.bytes| < o + Reach(it.pieces))
  {
    PutStrays(m, o, Header(it.typ, it.size));
    PiecesStray(Put(m, o, Header(it.typ, it.size)), o, it.pieces);
  }

  predicate AllHeaded(its: seq<Item>) { forall i :: 0 <= i < |its| ==> 8 <= its[i].size }

  /** Each TLV reaches at most to the end of the TLVs that follow it. */
  predicate Stays(its: seq<Item>) {
    |its| == 0 || (Reach(its[0].pieces) <= Total(its) && Stays(its[1..]))
  }

  /** A TLV that hangs writes more than the address space holds. */
  predicate HangsFar(its: seq<Item>) {
    forall i :: 0 <= i < |its| && its[i].hangs ==> ADDRESSES <= Reach(its[i].pieces)
  }

  lemma {:induction false} FillStays(m: Mem, o: nat, its: seq<Item>)
    requires AllHeaded(its) && o + Total(its) == |m.bytes| < ADDRESSES && HangsFar(its)
    ensures Fill(m, o, its).mem.strayed == (m.strayed || !Stays(its))
    decreases |its|
  {
    if |its| > 0 {
      EmitStrays(m, o, its[0]);
      if !its[0].hangs {
        FillStays(Emit(m, o, its[0]), o + its[0].size, its[1..]);
      }
    }
  }

  /** n rounded up to whole registers of r bytes. */
  function RoundReg(n: nat, r: nat): nat
    requires 0 < r
  {
    if n == 0 then 0 else if n <= r then r else r + RoundReg(n - r, r)
  }

  lemma {:induction false} RoundRegAligned(n: nat, r: nat)
    requires RegWidth(r)
    ensures n <= RoundReg(n, r) <= Align8(n) && (n % r == 0 <==> RoundReg(n, r) == n)
  {
    if n > 8 {
      RoundRegAligned(n - 8, r);
      assert RoundReg(n, r) == 8 + RoundReg(n - 8, r);
      assert if r == 4 then n % 4 == (n - 8) % 4 else n % 8 == (n - 8) % 8;
    }
  }

  lemma ReachError(code: int, addr: nat)
    ensures Reach(ReadError(code, addr)) == 32
  {
    ReachTwo(ReadError(code, addr)[0], ReadError(code, addr)[1]);
  }

  /** The bytes of k registers of r bytes. */
  function Span(k: nat, r: nat): nat {
    if k == 0 then 0 else r + Span(k - 1, r)
  }

  lemma SpanAll(r: nat)
    ensures Span(IND_CONTEXTS, r) == r * IND_CONTEXTS
  {
    assert Span(1, r) == r;
    assert Span(2, r) == 2 * r;
    assert Span(4, r) == 2 * r + Span(2, r);
    assert Span(6, r) == 2 * r + Span(4, r);
  }

  /** Reading one context stores at most a register, and exactly one if it succeeds. */
  ghost predicate Sound(read: (nat, nat, nat) -> Copied, r: nat) {
    forall addr: nat, ctx: nat, dest: nat {:trigger Reach(read(addr, ctx, dest).pieces)} ::
      Reach(read(addr, ctx, dest).pieces) <= dest + r
      && (read(addr, ctx, dest).err == 0 ==> Reach(read(addr, ctx, dest).pieces) == dest + r)
  }

  lemma ContextReach(env: Env, id: seq<Byte>, r: nat, addr: nat, ctx: nat, dest: nat)
    requires 0 < r
    ensures var c := ReadContext(env, id, r, addr, ctx, dest);
            Reach(c.pieces) <= dest + r && (c.err == 0 ==> Reach(c.pieces) == dest + r)
  {
    var p := Piece(dest, Checked(env.pointer(id, addr, r, ctx), r).bytes);
    var q := Piece(dest, Checked(env.indirect(id, addr, r, ctx), r).bytes);
    ReachOne(p);
    ReachConcat([p], [q]);
    ReachOne(q);
    ReachConcat([], [p] + [q]);
    ReachConcat([], [p]);
  }

  lemma ContextsSound(env: Env, id: seq<Byte>, r: nat)
    requires 0 < r
    ensures Sound(Contexts(env, id, r), r)
  {
    forall addr: nat, ctx: nat, dest: nat
      ensures var c := ReadContext(env, id, r, addr, ctx, dest);
              Reach(c.pieces) <= dest + r && (c.err == 0 ==> Reach(c.pieces) == dest + r)
    {
      ContextReach(env, id, r, addr, ctx, dest);
    }
  }

  // ---- how far the loop over a register range reaches ----

  /** The cursor passes the end of the address space before it reaches `max`. */
  predicate Wraps(r: nat, addr: nat, max: nat)
    requires 0 < r
  {
    addr < max && addr + RoundReg(max - addr, r) >= ADDRESSES
  }

  /** A turn copies at most `stride` bytes. */
  ghost predicate Within(turn: (nat, nat) -> Copied, stride: nat) {
    forall addr: nat, dest: nat {:trigger Reach(turn(addr, dest).pieces)} ::
      Reach(turn(addr, dest).pieces) <= dest + stride
  }

  lemma RangeOn(turn: (nat, nat) -> Copied, r: nat, stride: nat, addr: nat, max: nat, dest: nat, left: nat)
    requires 0 < r <= left && addr < max && 32 <= dest && Within(turn, stride)
    ensures var c := turn(addr, dest);
            var all := Range(turn, r, stride, addr, max, dest, left);
            if c.err != 0 then Reach(all.pieces) <= dest + stride && !all.hangs
            else
              var rest := Range(turn, r, stride, U32(addr + r), max, dest + stride, left - r);
              Reach(all.pieces) == Max(Reach(c.pieces), Reach(rest.pieces)) && all.hangs == rest.hangs
  {
    var c := turn(addr, dest);
    if c.err != 0 {
      ReachError(c.err, addr);
      ReachConcat(c.pieces, ReadError(c.err, addr));
    } else {
      ReachConcat(c.pieces, Range(turn, r, stride, U32(addr + r), max, dest + stride, left - r).pieces);
    }
  }

  lemma RangeNone(turn: (nat, nat) -> Copied, r: nat, stride: nat, addr: nat, max: nat, dest: nat, left: nat)
    requires 0 < r && max <= addr
    ensures Range(turn, r, stride, addr, max, dest, left) == Ran([], false)
  {
  }

  /** Where a loop over n bytes of registers ends that copies `stride` bytes for each register. */
  function Ends(dest: nat, n: nat, r: nat, stride: nat): nat
    requires 0 < r
    decreases n
  {
    if n == 0 then dest else if n <= r then dest + stride else Ends(dest + stride, n - r, r, stride)
  }

  lemma {:induction false} EndsPlain(dest: nat, n: nat, r: nat)
    requires 0 < r
    ensures Ends(dest, n, r, r) == dest + RoundReg(n, r)
    decreases n
  {
    if n > r { EndsPlain(dest + r, n - r, r); }
  }

  lemma {:induction false} EndsWide(dest: nat, n: nat, r: nat)
    requires 0 < r
    ensures Ends(dest, n, r, r * IND_CONTEXTS) == dest + 8 * RoundReg(n, r)
    decreases n
  {
    if n > r { EndsWide(dest + r * IND_CONTEXTS, n - r, r); }
  }

  lemma {:induction false} EndsAtLeast(dest: nat, n: nat, r: nat, stride: nat)
    requires 0 < r && 0 < n
    ensures dest + stride <= Ends(dest, n, r, stride)
    decreases n
  {
    if n > r { EndsAtLeast(dest + stride, n - r, r, stride); }
  }

  /** One turn of a cursor that does not wrap. */
  lemma NoWrapOn(r: nat, addr: nat, max: nat)
    requires 0 < r && addr < max && !Wraps(r, addr, max)
    ensures U32(addr + r) == addr + r && r <= RoundReg(max - addr, r)
    ensures addr + r < max ==> !Wraps(r, addr + r, max) && RoundReg(max - addr, r) == r + RoundReg(max - (addr + r), r)
  {
  }

  lemma EndsOn(dest: nat, n: nat, r: nat, stride: nat)
    requires 0 < r && 0 < n
    ensures dest + stride <= Ends(dest, n, r, stride)
    ensures r < n ==> Ends(dest, n, r, stride) == Ends(dest + stride, n - r, r, stride)
  {
    EndsAtLeast(dest, n, r, stride);
  }

  /** A loop whose cursor does not wrap ends, and copies at most `stride` bytes for every register it touches. */
  lemma {:induction false} RangeBound(turn: (nat, nat) -> Copied, r: nat, stride: nat, addr: nat, max: nat, dest: nat,
                                      left: nat, end: nat)
    requires 0 < r && Within(turn, stride) && 32 <= dest && addr < max && !Wraps(r, addr, max)
    requires RoundReg(max - addr, r) <= left && end == Ends(dest, max - addr, r, stride)
    ensures var all := Range(turn, r, stride, addr, max, dest, left); Reach(all.pieces) <= end && !all.hangs
    decreases left
  {
    NoWrapOn(r, addr, max);
    EndsOn(dest, max - addr, r, stride);
    RangeOn(turn, r, stride, addr, max, dest, left);
    if addr + r < max {
      RangeBound(turn, r, stride, addr + r, max, dest + stride, left - r, end);
    } else {
      RangeNone(turn, r, stride, addr + r, max, dest + stride, left - r);
    }
  }

  ghost predicate TurnOk(turn: (nat, nat) -> Copied, addr: nat) {
    forall dest: nat {:trigger turn(addr, dest)} :: turn(addr, dest).err == 0
  }

  /** A turn that succeeds copies exactly `stride` bytes. */
  ghost predicate Exact(turn: (nat, nat) -> Copied, stride: nat) {
    forall addr: nat, dest: nat {:trigger Reach(turn(addr, dest).pieces)} ::
      turn(addr, dest).err == 0 ==> Reach(turn(addr, dest).pieces) == dest + stride
  }

  /** All registers of the range can be read. */
  ghost predicate RangeRead(turn: (nat, nat) -> Copied, r: nat, addr: nat, max: nat)
    requires 0 < r
    decreases max - addr
  {
    addr < max ==> TurnOk(turn, addr) && RangeRead(turn, r, addr + r, max)
  }

  /** It copies exactly that much if all registers can be read. */
  lemma {:induction false} RangeExact(turn: (nat, nat) -> Copied, r: nat, stride: nat, addr: nat, max: nat, dest: nat,
                                      left: nat, end: nat)
    requires 0 < r && Within(turn, stride) && Exact(turn, stride) && RangeRead(turn, r, addr, max)
    requires 32 <= dest && addr < max && !Wraps(r, addr, max)
    requires RoundReg(max - addr, r) <= left && end == Ends(dest, max - addr, r, stride)
    ensures Reach(Range(turn, r, stride, addr, max, dest, left).pieces) == end
    decreases left
  {
    NoWrapOn(r, addr, max);
    EndsOn(dest, max - addr, r, stride);
    RangeOn(turn, r, stride, addr, max, dest, left);
    assert turn(addr, dest).err == 0 && Reach(turn(addr, dest).pieces) == dest + stride;
    if addr + r < max {
      RangeExact(turn, r, stride, addr + r, max, dest + stride, left - r, end);
    } else {
      RangeNone(turn, r, stride, addr + r, max, dest + stride, left - r);
    }
  }

  // ---- a loop that never ends ----

  /** The place of an address among those that are a whole number of registers apart. */
  function Phase(a: nat, r: nat): nat { if r == 4 then a % 4 else a % 8 }

  lemma PhaseAdds(a: nat, r: nat)
    requires RegWidth(r)
    ensures Phase(a + r, r) == Phase(a, r)
  {
  }

  lemma RemainderOf4(n: nat, k: nat, rest: nat)
    requires n == 4 * k + rest && rest < 4
    ensures n % 4 == rest
  {
  }

  lemma RemainderOf8(n: nat, k: nat, rest: nat)
    requires n == 8 * k + rest && rest < 8
    ensures n % 8 == rest
  {
  }

  lemma WholeRounds(b: nat, q: nat)
    ensures (b + 4 * q) % 4 == b % 4 && (b + 8 * q) % 8 == b % 8
  {
    RemainderOf4(b + 4 * q, b / 4 + q, b % 4);
    RemainderOf8(b + 8 * q, b / 8 + q, b % 8);
  }

  lemma PhaseRound(b: nat, r: nat)
    requires RegWidth(r)
    ensures Phase(b + ADDRESSES, r) == Phase(b, r)
  {
    WholeRounds(b, if r == 4 then 0x4000_0000 else 0x2000_0000);
  }

  lemma PhaseStays(a: nat, r: nat)
    requires RegWidth(r) && a < ADDRESSES
    ensures Phase(U32(a + r), r) == Phase(a, r)
  {
    PhaseAdds(a, r);
    if ADDRESSES <= a + r {
      PhaseRound(a + r - ADDRESSES, r);
    }
  }

  /** Every register of that phase lies below `max`. */
  ghost predicate PhaseBelow(a: nat, r: nat, max: nat) {
    forall b: nat {:trigger Phase(b, r)} :: b < ADDRESSES && Phase(b, r) == Phase(a, r) ==> b < max
  }

  lemma {:induction false} RoundPhase(a: nat, n: nat, r: nat)
    requires RegWidth(r) && 0 < n
    ensures Phase(a + RoundReg(n, r), r) == Phase(a, r) && RoundReg(n, r) < n + r
    decreases n
  {
    if n > r {
      RoundPhase(a, n - r, r);
      PhaseAdds(a + RoundReg(n - r, r), r);
    } else {
      PhaseAdds(a, r);
    }
  }

  lemma SamePhase(v: nat, t: nat, r: nat)
    requires RegWidth(r) && v < t && Phase(v, r) == Phase(t, r)
    ensures v + r <= t
  {
  }

  /** A cursor that wraps never reaches `max`. */
  lemma WrapsBelow(r: nat, addr: nat, max: nat)
    requires RegWidth(r) && Wraps(r, addr, max)
    ensures PhaseBelow(addr, r, max)
  {
    var top := addr + RoundReg(max - addr, r);
    RoundPhase(addr, max - addr, r);
    forall b: nat | b < ADDRESSES && Phase(b, r) == Phase(addr, r) ensures b < max {
      SamePhase(b, top, r);
    }
  }

  /** Every register of that phase can be read. */
  ghost predicate PhaseOk(turn: (nat, nat) -> Copied, a: nat, r: nat) {
    forall b: nat {:trigger Phase(b, r)} :: b < ADDRESSES && Phase(b, r) == Phase(a, r) ==> TurnOk(turn, b)
  }

  /** A turn that succeeds copies at least four bytes. */
  ghost predicate Copies(turn: (nat, nat) -> Copied) {
    forall addr: nat, dest: nat {:trigger Reach(turn(addr, dest).pieces)} ::
      turn(addr, dest).err == 0 ==> dest + 4 <= Reach(turn(addr, dest).pieces)
  }

  lemma PhaseMoves(turn: (nat, nat) -> Copied, a: nat, r: nat, max: nat)
    requires RegWidth(r) && a < ADDRESSES && PhaseBelow(a, r, max) && PhaseOk(turn, a, r)
    ensures PhaseBelow(U32(a + r), r, max) && PhaseOk(turn, U32(a + r), r)
  {
    PhaseStays(a, r);
  }

  lemma PhaseAt(turn: (nat, nat) -> Copied, a: nat, r: nat, max: nat)
    requires a < ADDRESSES && PhaseBelow(a, r, max) && PhaseOk(turn, a, r)
    ensures a < max && TurnOk(turn, a)
  {
    var p := Phase(a, r);
    assert forall b: nat {:trigger Phase(b, r)} :: b < ADDRESSES && Phase(b, r) == p ==> b < max && TurnOk(turn, b);
    assert Phase(a, r) == p;
  }

  /** If every register can be read, the loop goes on, and writes on. */
  lemma {:induction false} GoesOn(turn: (nat, nat) -> Copied, r: nat, stride: nat, addr: nat, max: nat, dest: nat,
                                  left: nat)
    requires RegWidth(r) && r <= stride && Within(turn, stride) && Copies(turn) && 32 <= dest
    requires addr < ADDRESSES && PhaseBelow(addr, r, max) && PhaseOk(turn, addr, r)
    ensures var all := Range(turn, r, stride, addr, max, dest, left);
            all.hangs && (r <= left ==> dest + left - r + 4 <= Reach(all.pieces) + r)
    decreases left
  {
    PhaseAt(turn, addr, r, max);
    if r <= left {
      assert turn(addr, dest).err == 0;
      RangeOn(turn, r, stride, addr, max, dest, left);
      PhaseMoves(turn, addr, r, max);
      GoesOn(turn, r, stride, U32(addr + r), max, dest + stride, left - r);
      assert dest + 4 <= Reach(turn(addr, dest).pieces);
    }
  }

  /** The result of a turn does not depend on where it copies to. */
  ghost predicate Steady(turn: (nat, nat) -> Copied) {
    forall addr: nat, dest: nat, to: nat {:trigger turn(addr, dest), turn(addr, to)} ::
      turn(addr, dest).err == turn(addr, to).err
  }

  predicate WholeRegs(d: nat, r: nat) { Phase(d, r) == 0 }

  lemma StepBack(addr: nat, d: nat, r: nat)
    requires RegWidth(r) && 0 < d && WholeRegs(d, r)
    ensures r <= d && WholeRegs(d - r, r) && U32(U32(addr + r) + (d - r)) == U32(addr + d)
  {
    WholeLess(d, r);
    U32Adds(addr + r, d - r);
    assert addr + r + (d - r) == addr + d;
  }

  lemma WholeLess(d: nat, r: nat)
    requires RegWidth(r) && 0 < d && WholeRegs(d, r)
    ensures r <= d && WholeRegs(d - r, r)
  {
  }

  /** A loop that never ends visits, below `max`, every register that is a whole number of them away, and
      reads it. */
  lemma {:induction false} HangVisits(turn: (nat, nat) -> Copied, r: nat, stride: nat, addr: nat, max: nat, dest: nat,
                                      left: nat, d: nat)
    requires RegWidth(r) && Steady(turn) && addr < ADDRESSES && WholeRegs(left, r) && WholeRegs(d, r) && d < left
    requires Range(turn, r, stride, addr, max, dest, left).hangs
    ensures U32(addr + d) < max && TurnOk(turn, U32(addr + d))
    decreases left
  {
    assert turn(addr, dest).err == 0;
    if d == 0 {
      assert U32(addr + d) == addr;
    } else {
      StepBack(addr, d, r);
      LeftOn(left, r, d);
      HangVisits(turn, r, stride, U32(addr + r), max, dest + stride, left - r, d - r);
    }
  }

  lemma LeftOn(left: nat, r: nat, d: nat)
    requires RegWidth(r) && WholeRegs(left, r) && WholeRegs(d, r) && 0 < d < left
    ensures r <= left && WholeRegs(left - r, r) && r <= d && d - r < left - r
  {
  }

  lemma Gap(a: nat, b: nat, r: nat)
    requires RegWidth(r) && a <= b && Phase(a, r) == Phase(b, r)
    ensures WholeRegs(b - a, r)
  {
    var d := b - a;
    assert b == a + d;
  }

  /** How far ahead of `a` the register `b` of the same phase is. */
  lemma Ahead(a: nat, b: nat, r: nat) returns (d: nat)
    requires RegWidth(r) && a < ADDRESSES && b < ADDRESSES && Phase(a, r) == Phase(b, r)
    ensures d < ADDRESSES && WholeRegs(d, r) && U32(a + d) == b
  {
    if a <= b {
      d := b - a;
      Gap(a, b, r);
    } else {
      d := b + ADDRESSES - a;
      PhaseRound(b, r);
      Gap(a, b + ADDRESSES, r);
    }
  }

  /** A loop never ends exactly if its cursor wraps and every register of its phase can be read. */
  lemma RangeHangsExactly(turn: (nat, nat) -> Copied, r: nat, stride: nat, addr: nat, max: nat, dest: nat)
    requires RegWidth(r) && r <= stride && Within(turn, stride) && Copies(turn) && Steady(turn)
    requires 32 <= dest && addr < ADDRESSES && max < ADDRESSES
    ensures var all := Range(turn, r, stride, addr, max, dest, ADDRESSES);
            (all.hangs <==> Wraps(r, addr, max) && PhaseOk(turn, addr, r))
            && (all.hangs ==> ADDRESSES <= Reach(all.pieces))
  {
    if Wraps(r, addr, max) && PhaseOk(turn, addr, r) {
      WrapsBelow(r, addr, max);
      GoesOn(turn, r, stride, addr, max, dest, ADDRESSES);
    } else if addr < max && !Wraps(r, addr, max) {
      RangeBound(turn, r, stride, addr, max, dest, ADDRESSES, Ends(dest, max - addr, r, stride));
    } else if Range(turn, r, stride, addr, max, dest, ADDRESSES).hangs {
      HangReads(turn, r, stride, addr, max, dest);
    }
  }

  lemma HangReads(turn: (nat, nat) -> Copied, r: nat, stride: nat, addr: nat, max: nat, dest: nat)
    requires RegWidth(r) && Steady(turn) && addr < ADDRESSES
    requires Range(turn, r, stride, addr, max, dest, ADDRESSES).hangs
    ensures PhaseOk(turn, addr, r)
  {
    forall b: nat | b < ADDRESSES && Phase(b, r) == Phase(addr, r) ensures TurnOk(turn, b) {
      var d := Ahead(addr, b, r);
      HangVisits(turn, r, stride, addr, max, dest, ADDRESSES, d);
    }
  }

  // ---- the turns of the two register dumps ----

  lemma RegTurnGood(env: Env, id: seq<Byte>, r: nat)
    requires RegWidth(r)
    ensures Within(RegTurn(env, id, r), r) && Copies(RegTurn(env, id, r)) && Steady(RegTurn(env, id, r))
  {
    forall addr: nat, dest: nat ensures var c := CopyRead(ReadReg(env, id, r, addr), dest);
                                        Reach(c.pieces) <= dest + r && (c.err == 0 ==> dest + 4 <= Reach(c.pieces)) {
      ReachOne(Piece(dest, ReadReg(env, id, r, addr).bytes));
    }
  }

  lemma {:induction false} ContextsSteady(env: Env, id: seq<Byte>, r: nat, addr: nat, ctx: nat, dest: nat, to: nat)
    requires ctx <= IND_CONTEXTS
    ensures var read := Contexts(env, id, r);
            ReadContexts(read, r, addr, ctx, dest).err == ReadContexts(read, r, addr, ctx, to).err
    decreases addr, IND_CONTEXTS - ctx
  {
    if ctx < IND_CONTEXTS { ContextsSteady(env, id, r, addr, ctx + 1, dest + r, to + r); }
  }

  lemma {:induction false} ContextsExact(read: (nat, nat, nat) -> Copied, r: nat, addr: nat, ctx: nat, dest: nat)
    requires ctx < IND_CONTEXTS && 0 < r && Sound(read, r)
    ensures var c := ReadContexts(read, r, addr, ctx, dest);
            Reach(c.pieces) <= dest + Span(IND_CONTEXTS - ctx, r)
            && (c.err == 0 ==> Reach(c.pieces) == dest + Span(IND_CONTEXTS - ctx, r))
    decreases addr, IND_CONTEXTS - ctx
  {
    var c := read(addr, ctx, dest);
    ReachConcat(c.pieces, ReadContexts(read, r, addr, ctx + 1, dest + r).pieces);
    if ctx + 1 < IND_CONTEXTS {
      ContextsExact(read, r, addr, ctx + 1, dest + r);
    }
  }

  lemma IndirectTurnGood(env: Env, t: Tlv, turn: (nat, nat) -> Copied, r: nat)
    requires CsrValid(t) && turn == IndirectTurn(env, t) && r == RegSize(t)
    ensures Within(turn, r * IND_CONTEXTS) && Exact(turn, r * IND_CONTEXTS) && Steady(turn) && Copies(turn)
  {
    var read := Contexts(env, t.body[..4], r);
    ContextsSound(env, t.body[..4], r);
    SpanAll(r);
    forall addr: nat, dest: nat ensures var c := ReadContexts(read, r, addr, 0, dest);
                                        Reach(c.pieces) <= dest + r * IND_CONTEXTS
                                        && (c.err == 0 ==> Reach(c.pieces) == dest + r * IND_CONTEXTS) {
      ContextsExact(read, r, addr, 0, dest);
    }
    forall addr: nat, dest: nat, to: nat
      ensures ReadContexts(read, r, addr, 0, dest).err == ReadContexts(read, r, addr, 0, to).err
    {
      ContextsSteady(env, t.body[..4], r, addr, 0, dest, to);
    }
  }

  // ---- how far each TLV reaches ----

  /** A TLV of types 0 to 3 that is not refused. */
  predicate IsCsr(t: Tlv) { t.typ <= TYPE_INDIRECT_ME_CSR && CsrValid(t) }

  predicate IsIndirect(t: Tlv) { t.typ == TYPE_INDIRECT_ME_CSR && CsrValid(t) }

  /** The registers that a range touches end before the end of the address space. */
  predicate NoWrap(t: Tlv)
    requires CsrValid(t)
  {
    CsrAddr(t) + DumpLen(t) < ADDRESSES ==> CsrAddr(t) + RoundReg(DumpLen(t), RegSize(t)) < ADDRESSES
  }

  /** The addresses of a range end where they should, or the sum wraps and there are none. */
  lemma MaxAddrIs(t: Tlv)
    requires CsrValid(t)
    ensures if CsrAddr(t) + DumpLen(t) < ADDRESSES then MaxAddr(t) == CsrAddr(t) + DumpLen(t)
            else MaxAddr(t) < CsrAddr(t)
    ensures Wraps(RegSize(t), CsrAddr(t), MaxAddr(t)) <==> !NoWrap(t)
  {
  }

  ghost function TurnOf(env: Env, t: Tlv): (nat, nat) -> Copied
    requires CsrValid(t)
  {
    if t.typ == TYPE_INDIRECT_ME_CSR then IndirectTurn(env, t) else RegTurn(env, t.body[..4], RegSize(t))
  }

  lemma ReachCsrHeader(t: Tlv)
    requires CsrValid(t)
    ensures Reach(CsrHeader(t)) == 24
  {
    ReachTwo(CsrHeader(t)[0], CsrHeader(t)[1]);
  }

  lemma CsrItemReach(env: Env, t: Tlv)
    requires IsCsr(t)
    ensures var all := if IsIndirect(t) then IndirectRange(env, t) else CsrRange(env, t);
            Reach(ItemOf(env, t).pieces) == Max(24, Reach(all.pieces)) && ItemOf(env, t).hangs == all.hangs
  {
    ReachCsrHeader(t);
    ReachConcat(CsrHeader(t), if IsIndirect(t) then IndirectRange(env, t).pieces else CsrRange(env, t).pieces);
  }

  lemma CsrHangs(env: Env, t: Tlv, turn: (nat, nat) -> Copied, r: nat)
    requires IsCsr(t) && !IsIndirect(t) && r == RegSize(t) && turn == TurnOf(env, t)
    ensures CsrRange(env, t).hangs <==> !NoWrap(t) && PhaseOk(turn, CsrAddr(t), r)
    ensures CsrRange(env, t).hangs ==> ADDRESSES <= Reach(CsrRange(env, t).pieces)
  {
    MaxAddrIs(t);
    RegTurnGood(env, t.body[..4], r);
    RangeHangsExactly(turn, r, r, CsrAddr(t), MaxAddr(t), 32);
  }

  lemma IndirectHangs(env: Env, t: Tlv, turn: (nat, nat) -> Copied, r: nat)
    requires IsIndirect(t) && r == RegSize(t) && turn == TurnOf(env, t)
    ensures IndirectRange(env, t).hangs <==> !NoWrap(t) && PhaseOk(turn, CsrAddr(t), r)
    ensures IndirectRange(env, t).hangs ==> ADDRESSES <= Reach(IndirectRange(env, t).pieces)
  {
    MaxAddrIs(t);
    IndirectTurnGood(env, t, turn, r);
    RangeHangsExactly(turn, r, r * IND_CONTEXTS, CsrAddr(t), MaxAddr(t), 32);
  }

  /** The registers of the TLV can all be read and its cursor wraps. */
  ghost predicate Endless(env: Env, t: Tlv) {
    IsCsr(t) && !NoWrap(t) && PhaseOk(TurnOf(env, t), CsrAddr(t), RegSize(t))
  }

  /** A filler never comes to an end exactly if it dumps registers, its cursor wraps around the address space,
      and every register it comes by can be read; it then writes more than the address space holds. */
  lemma HangsExactly(env: Env, t: Tlv)
    ensures ItemOf(env, t).hangs <==> Endless(env, t)
    ensures ItemOf(env, t).hangs ==> ADDRESSES <= Reach(ItemOf(env, t).pieces)
  {
    if IsCsr(t) {
      CsrItemReach(env, t);
      if IsIndirect(t) {
        IndirectHangs(env, t, TurnOf(env, t), RegSize(t));
      } else {
        CsrHangs(env, t, TurnOf(env, t), RegSize(t));
      }
    }
  }

  lemma CsrReach(env: Env, t: Tlv)
    requires IsCsr(t) && !IsIndirect(t) && NoWrap(t)
    ensures Reach(ItemOf(env, t).pieces) <= 32 + Align8(DumpLen(t))
  {
    var turn, r, addr, max := RegTurn(env, t.body[..4], RegSize(t)), RegSize(t), CsrAddr(t), MaxAddr(t);
    MaxAddrIs(t);
    CsrItemReach(env, t);
    if addr < max {
      RegTurnGood(env, t.body[..4], r);
      EndsPlain(32, DumpLen(t), r);
      RangeBound(turn, r, r, addr, max, 32, ADDRESSES, 32 + RoundReg(DumpLen(t), r));
      RoundRegAligned(DumpLen(t), r);
    } else {
      RangeNone(turn, r, r, addr, max, 32, ADDRESSES);
    }
  }

  lemma RtsymReach(key: seq<Byte>, sym: Sym, size: nat)
    ensures Reach(RtsymName(key, size) + RtsymPlace(sym) + RtsymData(sym, size, RtsymHeader(key)))
            <= RtsymHeader(key) + size
  {
    var name, place, data := RtsymName(key, size), RtsymPlace(sym), RtsymData(sym, size, RtsymHeader(key));
    ReachConcat(name + place, data);
    ReachConcat(name, place);
    assert name == [name[0]] + [name[1], name[2]];
    ReachConcat([name[0]], [name[1], name[2]]);
    ReachOne(name[0]);
    ReachTwo(name[1], name[2]);
    if !sym.absolute {
      ReachTwo(place[0], place[1]);
    }
    ReachOne(data[0]);
    if |data| == 2 {
      ReachTwo(data[0], data[1]);
    }
  }

  lemma ErrorReach(t: Tlv, error: int)
    ensures Reach(ErrorItem(t, error).pieces) <= ErrorTlvSize(t)
  {
    var ps := ErrorItem(t, error).pieces;
    ReachTwo(ps[0], ps[1]);
  }

  lemma FieldReach(key: seq<Byte>, value: seq<Byte>)
    ensures Reach(HwinfoFieldPieces(key, value)) == 8 + |key| + |value| + 2
  {
    var ps := HwinfoFieldPieces(key, value);
    ReachTwo(ps[0], ps[1]);
  }

  lemma SymbolInside(env: Env, t: Tlv)
    requires t.typ == TYPE_RTSYM && Refusal(env, t) == 0
    ensures Reach(ItemOf(env, t).pieces) <= RawSize(env, t)
  {
    var key := t.body[..StrLen(t.body)];
    RtsymReach(key, env.syms[key], U32(env.syms[key].size));
  }

  lemma FieldInside(env: Env, t: Tlv)
    requires t.typ == TYPE_HWINFO_FIELD && Refusal(env, t) == 0
    ensures Reach(ItemOf(env, t).pieces) <= RawSize(env, t)
  {
    var key := t.body[..StrLen(t.body)];
    FieldReach(key, env.field[key]);
  }

  /** Every filler but the one for indirect registers stays inside the TLV it announced, unless the cursor of a
      register range wraps. */
  lemma OthersInside(env: Env, t: Tlv)
    requires !IsIndirect(t) && (IsCsr(t) ==> NoWrap(t))
    ensures Reach(ItemOf(env, t).pieces) <= RawSize(env, t)
  {
    PassesAgree(env, t);
    if Refusal(env, t) != 0 {
      ErrorReach(t, Refusal(env, t));
    } else if t.typ == TYPE_FWNAME {
      ReachOne(Piece(8, env.fwname));
    } else if t.typ == TYPE_HWINFO {
      ReachOne(Piece(8, env.hwinfo));
    } else if t.typ <= TYPE_ME_CSR {
      CsrReach(env, t);
    } else if t.typ == TYPE_RTSYM {
      SymbolInside(env, t);
    } else {
      FieldInside(env, t);
    }
  }

  /** How far the last register of an indirect range reaches beyond what the range asks for; a range whose
      end wraps around is not read at all. */
  function Overhang(t: Tlv): int
    requires IsIndirect(t)
  {
    if CsrAddr(t) + DumpLen(t) < ADDRESSES then 8 * RoundReg(DumpLen(t), RegSize(t)) - 8 * DumpLen(t) else 0
  }

  /** All registers that the loop comes by can be read. */
  ghost predicate FullyRead(env: Env, t: Tlv)
    requires IsCsr(t)
  {
    if NoWrap(t) then RangeRead(TurnOf(env, t), RegSize(t), CsrAddr(t), MaxAddr(t))
    else PhaseOk(TurnOf(env, t), CsrAddr(t), RegSize(t))
  }

  lemma IndirectBound(env: Env, t: Tlv, turn: (nat, nat) -> Copied, r: nat, addr: nat, max: nat, end: nat)
    requires IsIndirect(t) && turn == TurnOf(env, t) && r == RegSize(t) && addr < max && !Wraps(r, addr, max)
    requires addr + RoundReg(max - addr, r) < ADDRESSES && end == 32 + 8 * RoundReg(max - addr, r)
    ensures Reach(Range(turn, r, r * IND_CONTEXTS, addr, max, 32, ADDRESSES).pieces) <= end
  {
    IndirectTurnGood(env, t, turn, r);
    EndsWide(32, max - addr, r);
    RangeBound(turn, r, r * IND_CONTEXTS, addr, max, 32, ADDRESSES, end);
  }

  lemma IndirectExact(env: Env, t: Tlv, turn: (nat, nat) -> Copied, r: nat, addr: nat, max: nat, end: nat)
    requires IsIndirect(t) && turn == TurnOf(env, t) && r == RegSize(t) && addr < max && !Wraps(r, addr, max)
    requires addr + RoundReg(max - addr, r) < ADDRESSES && end == 32 + 8 * RoundReg(max - addr, r)
    requires RangeRead(turn, r, addr, max)
    ensures Reach(Range(turn, r, r * IND_CONTEXTS, addr, max, 32, ADDRESSES).pieces) == end
  {
    IndirectTurnGood(env, t, turn, r);
    EndsWide(32, max - addr, r);
    RangeExact(turn, r, r * IND_CONTEXTS, addr, max, 32, ADDRESSES, end);
  }

  lemma IndirectReach(env: Env, t: Tlv, turn: (nat, nat) -> Copied, r: nat, end: nat)
    requires IsIndirect(t) && NoWrap(t) && CsrAddr(t) < MaxAddr(t) && turn == TurnOf(env, t) && r == RegSize(t)
    requires end == 32 + 8 * RoundReg(DumpLen(t), r)
    ensures var reach := Reach(IndirectRange(env, t).pieces); reach <= end && (FullyRead(env, t) ==> reach == end)
  {
    MaxAddrIs(t);
    IndirectBound(env, t, turn, r, CsrAddr(t), MaxAddr(t), end);
    if FullyRead(env, t) {
      IndirectExact(env, t, turn, r, CsrAddr(t), MaxAddr(t), end);
    }
  }

  lemma IndirectTlvReach(env: Env, t: Tlv)
    requires IsIndirect(t) && NoWrap(t)
    ensures var reach, end := Reach(ItemOf(env, t).pieces), 32 + 8 * DumpLen(t) + Overhang(t);
            reach <= end && (FullyRead(env, t) && CsrAddr(t) < MaxAddr(t) ==> reach == end)
  {
    MaxAddrIs(t);
    CsrItemReach(env, t);
    RoundRegAligned(DumpLen(t), RegSize(t));
    if CsrAddr(t) < MaxAddr(t) {
      IndirectReach(env, t, TurnOf(env, t), RegSize(t), 32 + 8 * RoundReg(DumpLen(t), RegSize(t)));
    } else {
      RangeNone(IndirectTurn(env, t), RegSize(t), RegSize(t) * IND_CONTEXTS, CsrAddr(t), MaxAddr(t), 32, ADDRESSES);
    }
  }

  lemma IndirectRawSize(env: Env, t: Tlv)
    requires IsIndirect(t)
    ensures RawSize(env, t) == 32 + 8 * DumpLen(t) && 0 <= Overhang(t)
    ensures DumpLen(t) % RegSize(t) == 0 ==> Overhang(t) == 0
    ensures CsrAddr(t) + DumpLen(t) < ADDRESSES && Overhang(t) == 0 ==> DumpLen(t) % RegSize(t) == 0
    ensures 0 < Overhang(t) ==> CsrAddr(t) < MaxAddr(t)
  {
    MaxAddrIs(t);
    RoundRegAligned(DumpLen(t), RegSize(t));
  }

  lemma IndirectStays(env: Env, t: Tlv, after: nat, reach: nat, size: nat)
    requires IsIndirect(t) && NoWrap(t) && reach == Reach(ItemOf(env, t).pieces) && size == RawSize(env, t)
    ensures Overhang(t) <= after ==> reach <= size + after
    ensures (Overhang(t) > 0 ==> FullyRead(env, t)) && reach <= size + after ==> Overhang(t) <= after
  {
    IndirectTlvReach(env, t);
    IndirectRawSize(env, t);
  }

  /** The TLV writes beyond what it announced, if its registers can be read. */
  predicate SticksOut(t: Tlv) { IsCsr(t) && (!NoWrap(t) || (IsIndirect(t) && Overhang(t) > 0)) }

  /** A range that can be read stays inside its TLV exactly if its cursor does not wrap and, for indirect
      registers, whole registers are asked for. */
  lemma InsideExactly(env: Env, t: Tlv)
    requires IsCsr(t) && FullyRead(env, t) && RawSize(env, t) < ADDRESSES
    ensures Reach(ItemOf(env, t).pieces) <= RawSize(env, t) <==> !SticksOut(t)
  {
    HangsExactly(env, t);
    if NoWrap(t) {
      if IsIndirect(t) {
        IndirectStays(env, t, 0, Reach(ItemOf(env, t).pieces), RawSize(env, t));
        IndirectRawSize(env, t);
      } else {
        OthersInside(env, t);
      }
    }
  }

  // ---- when the dump stays in its buffer ----

  /** Every range that sticks out can be read as far as its loop goes. */
  ghost predicate AllRead(env: Env, ts: seq<Tlv>) {
    forall i :: 0 <= i < |ts| && SticksOut(ts[i]) ==> FullyRead(env, ts[i])
  }

  /** No single TLV has its size truncated. */
  predicate Narrow(env: Env, ts: seq<Tlv>) { forall i :: 0 <= i < |ts| ==> RawSize(env, ts[i]) < 0x1_0000_0000 }

  /** The cursor does not wrap, and what sticks out of an indirect range fits the `after` bytes behind it. */
  predicate Fits(t: Tlv, after: nat) {
    (IsCsr(t) ==> NoWrap(t)) && (IsIndirect(t) ==> Overhang(t) <= after)
  }

  /** Every TLV stays inside itself and those behind it. */
  predicate Covered(env: Env, ts: seq<Tlv>) {
    |ts| == 0 || (Fits(ts[0], TotalSize(env, ts[1..])) && Covered(env, ts[1..]))
  }

  lemma NarrowSize(env: Env, t: Tlv)
    requires RawSize(env, t) < 0x1_0000_0000
    ensures 8 <= Size(env, t) == RawSize(env, t)
  {
    var _ := SizeAligned(env, t);
  }

  /** A TLV reaches at most to the end of the `after` bytes behind it. */
  ghost predicate TlvStays(env: Env, t: Tlv, after: nat) { Reach(ItemOf(env, t).pieces) <= Size(env, t) + after }

  lemma TlvStaysIff(env: Env, t: Tlv, after: nat)
    requires RawSize(env, t) < 0x1_0000_0000 && Size(env, t) + after < ADDRESSES
    ensures Fits(t, after) ==> TlvStays(env, t, after)
    ensures (SticksOut(t) ==> FullyRead(env, t)) && TlvStays(env, t, after) ==> Fits(t, after)
  {
    NarrowSize(env, t);
    HangsExactly(env, t);
    if IsIndirect(t) && NoWrap(t) {
      IndirectStays(env, t, after, Reach(ItemOf(env, t).pieces), RawSize(env, t));
    } else if !IsIndirect(t) && (IsCsr(t) ==> NoWrap(t)) {
      OthersInside(env, t);
    }
  }

  lemma {:induction false} StaysIff(env: Env, ts: seq<Tlv>)
    requires Narrow(env, ts) && TotalSize(env, ts) < ADDRESSES
    ensures AllHeaded(Items(env, ts))
    ensures Covered(env, ts) ==> Stays(Items(env, ts))
    ensures AllRead(env, ts) && Stays(Items(env, ts)) ==> Covered(env, ts)
    decreases |ts|
  {
    if |ts| > 0 {
      var rest := ts[1..];
      NarrowSize(env, ts[0]);
      TlvStaysIff(env, ts[0], TotalSize(env, rest));
      PassesAgree(env, ts[0]);
      TotalsAgree(env, rest);
      StaysIff(env, rest);
    }
  }

  lemma ItemsHangFar(env: Env, ts: seq<Tlv>)
    ensures HangsFar(Items(env, ts))
  {
    forall i | 0 <= i < |ts| && Items(env, ts)[i].hangs ensures ADDRESSES <= Reach(Items(env, ts)[i].pieces) {
      HangsExactly(env, ts[i]);
    }
  }

  lemma DumpedIs(m: Mem, env: Env, v: Walked, level: nat)
    requires v.ok && 16 <= |m.bytes|
    ensures Dumped(m, env, v, level) == Fill(Emit(m, 0, Prolog(level)), 16, Items(env, v.tlvs))
  {
    FillOne(m, 0, Prolog(level));
  }

  /** A clean buffer of the calculated size, and sizes that are not truncated. */
  predicate Sized(m: Mem, env: Env, v: Walked) {
    v.ok && Narrow(env, v.tlvs) && |m.bytes| == 16 + TotalSize(env, v.tlvs) < ADDRESSES && !m.strayed
  }

  /** Whatever the device answers: a write leaves the buffer exactly if some TLV reaches beyond all that follow. */
  lemma DumpStaysIff(m: Mem, env: Env, v: Walked, level: nat)
    requires Sized(m, env, v)
    ensures Dumped(m, env, v, level).mem.strayed <==> !Stays(Items(env, v.tlvs))
  {
    DumpedIs(m, env, v, level);
    ReachOne(Piece(8, ToBe32(level)));
    EmitStrays(m, 0, Prolog(level));
    StaysIff(env, v.tlvs);
    TotalsAgree(env, v.tlvs);
    ItemsHangFar(env, v.tlvs);
    FillStays(Emit(m, 0, Prolog(level)), 16, Items(env, v.tlvs));
  }

  lemma {:induction false} CoveredNeverHangs(env: Env, ts: seq<Tlv>)
    requires Covered(env, ts)
    ensures NoneHangs(Items(env, ts))
    decreases |ts|
  {
    if |ts| > 0 {
      HangsExactly(env, ts[0]);
      CoveredNeverHangs(env, ts[1..]);
      assert Items(env, ts) == [ItemOf(env, ts[0])] + Items(env, ts[1..]);
    }
  }

  /** Whatever the device answers, the dump of a covered specification ends and never leaves its buffer. */
  lemma CoveredStays(m: Mem, env: Env, v: Walked, level: nat)
    requires Sized(m, env, v) && Covered(env, v.tlvs)
    ensures var r := Dumped(m, env, v, level); r.err == 0 && !r.mem.strayed
  {
    DumpStaysIff(m, env, v, level);
    StaysIff(env, v.tlvs);
    CoveredNeverHangs(env, v.tlvs);
    DumpExact(m, env, v, level);
  }

  /** With readable registers the dump stays in its buffer exactly if the specification is covered. */
  lemma DumpStaysExactly(m: Mem, env: Env, v: Walked, level: nat)
    requires Sized(m, env, v) && AllRead(env, v.tlvs)
    ensures !Dumped(m, env, v, level).mem.strayed <==> Covered(env, v.tlvs)
  {
    DumpStaysIff(m, env, v, level);
    StaysIff(env, v.tlvs);
  }

  lemma {:induction false} HangsInTotal(its: seq<Item>)
    ensures HangsWithin(its, Total(its)) <==> !NoneHangs(its)
    decreases |its|
  {
    if |its| > 0 {
      HangsInTotal(its[1..]);
      assert NoneHangs(its) <==> !its[0].hangs && NoneHangs(its[1..]) by { assert its == [its[0]] + its[1..]; }
    }
  }

  lemma {:induction false} HangStrays(its: seq<Item>)
    requires Total(its) < ADDRESSES && HangsFar(its) && Stays(its)
    ensures NoneHangs(its)
    decreases |its|
  {
    if |its| > 0 {
      HangStrays(its[1..]);
      assert its == [its[0]] + its[1..];
    }
  }

  lemma NoneEndless(env: Env, ts: seq<Tlv>)
    ensures NoneHangs(Items(env, ts)) <==> forall i :: 0 <= i < |ts| ==> !Endless(env, ts[i])
  {
    forall i | 0 <= i < |ts| ensures Items(env, ts)[i].hangs <==> Endless(env, ts[i]) {
      HangsExactly(env, ts[i]);
    }
  }

  /** Filling a buffer of the calculated size never comes to an end exactly if some cursor wraps and meets no
      register that cannot be read; every such dump leaves its buffer. */
  lemma NeverEndsExactly(m: Mem, env: Env, v: Walked, level: nat)
    requires Sized(m, env, v)
    ensures var r := Dumped(m, env, v, level);
            (r.err == NEVER <==> exists i :: 0 <= i < |v.tlvs| && Endless(env, v.tlvs[i]))
            && (r.err == NEVER ==> r.mem.strayed)
  {
    var its := Items(env, v.tlvs);
    NoneEndless(env, v.tlvs);
    TotalsAgree(env, v.tlvs);
    HangsInTotal(its);
    DumpExact(m, env, v, level);
    DumpStaysIff(m, env, v, level);
    if Stays(its) {
      ItemsHangFar(env, v.tlvs);
      HangStrays(its);
    }
  }

  lemma WholeFits(env: Env, t: Tlv, after: nat)
    requires IsCsr(t) ==> DumpLen(t) % RegSize(t) == 0
    ensures Fits(t, after)
  {
    if IsCsr(t) {
      RoundRegAligned(DumpLen(t), RegSize(t));
    }
  }

  lemma {:induction false} WholeRegistersCovered(env: Env, ts: seq<Tlv>)
    requires forall i :: 0 <= i < |ts| && IsCsr(ts[i]) ==> DumpLen(ts[i]) % RegSize(ts[i]) == 0
    ensures Covered(env, ts)
    decreases |ts|
  {
    if |ts| > 0 {
      WholeFits(env, ts[0], TotalSize(env, ts[1..]));
      WholeRegistersCovered(env, ts[1..]);
    }
  }

  // ---- two specifications that are not covered ----

  function Zeros(n: nat): (r: seq<Byte>)
    ensures |r| == n
  {
    seq(n, _ => 0)
  }

  /** A device on which every access succeeds. */
  function Device(): Env {
    var give := (id: seq<Byte>, addr: nat, n: nat, ctx: nat) => Data(Zeros(n));
    Env([], [], map[], map[], (id: seq<Byte>, addr: nat, n: nat) => Data(Zeros(n)),
        (id: seq<Byte>, addr: nat, ctx: nat) => 0, give, give)
  }

  lemma {:induction false} DeviceContexts(id: seq<Byte>, r: nat, addr: nat, ctx: nat, dest: nat)
    requires ctx <= IND_CONTEXTS
    ensures ReadContexts(Contexts(Device(), id, r), r, addr, ctx, dest).err == 0
    decreases addr, IND_CONTEXTS - ctx
  {
    if ctx < IND_CONTEXTS {
      DeviceContexts(id, r, addr, ctx + 1, dest + r);
    }
  }

  lemma DeviceReg(id: seq<Byte>, r: nat, addr: nat)
    ensures ReadReg(Device(), id, r, addr).err == 0
  {
  }

  lemma DeviceReads(t: Tlv, addr: nat)
    requires CsrValid(t)
    ensures TurnOk(TurnOf(Device(), t), addr)
  {
    var id, r := t.body[..4], RegSize(t);
    if t.typ == TYPE_INDIRECT_ME_CSR {
      forall dest: nat ensures IndirectTurn(Device(), t)(addr, dest).err == 0 {
        DeviceContexts(id, r, addr, 0, dest);
      }
    } else {
      DeviceReg(id, r, addr);
      assert forall dest: nat :: RegTurn(Device(), id, r)(addr, dest).err == 0;
    }
  }

  /** A request for two bytes of the 32-bit indirect registers at address 0. */
  function TwoBytes(): Tlv { Tlv(TYPE_INDIRECT_ME_CSR, [0, 0, 0, 0] + [0, 0, 0, 0] + [0, 0, 0, 2] + [0, 0, 0, 32]) }

  lemma TwoBytesIs()
    ensures var t := TwoBytes(); IsIndirect(t) && DumpLen(t) == 2 && RegSize(t) == 4 && CsrAddr(t) == 0
  {
  }

  lemma TwoBytesRead()
    ensures IsCsr(TwoBytes()) && FullyRead(Device(), TwoBytes())
  {
    TwoBytesIs();
    MaxAddrIs(TwoBytes());
    DeviceReads(TwoBytes(), 0);
  }

  /** The size calculation reserves 16 bytes for that request and the filler writes 32. */
  lemma TwoBytesOverrun(m: Mem, level: nat)
    requires |m.bytes| == 16 + TotalSize(Device(), [TwoBytes()]) && !m.strayed
    ensures |m.bytes| == 64
    ensures var r := Dumped(m, Device(), Walked([TwoBytes()], true), level);
            r.err == 0 && r.dumped == 64 && r.mem.strayed
  {
    var env, t := Device(), TwoBytes();
    TwoBytesIs();
    IndirectRawSize(env, t);
    assert TotalSize(env, [t]) == 48;
    TwoBytesRead();
    DumpStaysExactly(m, env, Walked([t], true), level);
    HangsExactly(env, t);
    DumpExact(m, env, Walked([t], true), level);
  }

  /** A request for four bytes of the 64-bit registers at the last register of the address space. */
  function LastRegister(): Tlv { Tlv(TYPE_ME_CSR, [0, 0, 0, 0] + [255, 255, 255, 248] + [0, 0, 0, 4] + [0, 0, 0, 64]) }

  lemma LastRegisterIs()
    ensures var t := LastRegister(); IsCsr(t) && DumpLen(t) == 4 && RegSize(t) == 8 && CsrAddr(t) == 0xFFFF_FFF8
  {
  }

  lemma LastRegisterHangs()
    ensures IsCsr(LastRegister()) && !NoWrap(LastRegister()) && FullyRead(Device(), LastRegister())
    ensures ItemOf(Device(), LastRegister()).hangs
  {
    var t := LastRegister();
    LastRegisterIs();
    forall b: nat | b < ADDRESSES && Phase(b, 8) == Phase(CsrAddr(t), 8) ensures TurnOk(TurnOf(Device(), t), b) {
      DeviceReads(t, b);
    }
    HangsExactly(Device(), t);
  }

  /** The cursor goes from that register to 0, below the end again: the dump never ends and leaves its buffer. */
  lemma LastRegisterNeverEnds(m: Mem, level: nat)
    requires |m.bytes| == 16 + TotalSize(Device(), [LastRegister()]) && !m.strayed
    ensures |m.bytes| == 56
    ensures var r := Dumped(m, Device(), Walked([LastRegister()], true), level); r.err == NEVER && r.mem.strayed
  {
    var env, t := Device(), LastRegister();
    LastRegisterIs();
    assert RawSize(env, t) == 40;
    assert TotalSize(env, [t]) == 40;
    LastRegisterHangs();
    NeverEndsExactly(m, env, Walked([t], true), level);
  }
}
