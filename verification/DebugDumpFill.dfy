/**
 The second pass of a debug dump (src/nfp_net_debugdump.c): filling a buffer. Every filler computes
 the size of its TLV itself, announces it and then copies into the buffer.
 */
module DebugDumpFill {
  import opened DebugDump

  /** The dump buffer, and whether some byte was written past its end. Such bytes are not kept. */
  datatype Mem = Mem(bytes: seq<Byte>, strayed: bool)

  function PutByte(m: Mem, o: nat, x: Byte): Mem {
    if o < |m.bytes| then m.(bytes := m.bytes[o := x]) else m.(strayed := true)
  }

  function Put(m: Mem, o: nat, bytes: seq<Byte>): (r: Mem)
    ensures |r.bytes| == |m.bytes|
    decreases |bytes|
  {
    if |bytes| == 0 then m else Put(PutByte(m, o, bytes[0]), o + 1, bytes[1..])
  }

  /** Bytes copied to offset `off` from the start of the TLV. */
  datatype Piece = Piece(off: nat, bytes: seq<Byte>)

  function PutPieces(m: Mem, base: nat, ps: seq<Piece>): (r: Mem)
    ensures |r.bytes| == |m.bytes|
    decreases |ps|
  {
    if |ps| == 0 then m else PutPieces(Put(m, base + ps[0].off, ps[0].bytes), base, ps[1..])
  }

  lemma {:induction false} PutOn(m: Mem, base: nat, p: Piece, ps: seq<Piece>)
    ensures PutPieces(m, base, [p] + ps) == PutPieces(Put(m, base + p.off, p.bytes), base, ps)
  {
    assert ([p] + ps)[1..] == ps;
  }

  lemma {:induction false} PutConcat(m: Mem, base: nat, ps: seq<Piece>, qs: seq<Piece>)
    ensures PutPieces(m, base, ps + qs) == PutPieces(PutPieces(m, base, ps), base, qs)
    decreases |ps|
  {
    if ps == [] {
      assert ps + qs == qs;
    } else {
      assert (ps + qs)[1..] == ps[1..] + qs;
      PutConcat(Put(m, base + ps[0].off, ps[0].bytes), base, ps[1..], qs);
    }
  }

  lemma {:induction false} PutSingle(m: Mem, base: nat, p: Piece)
    ensures PutPieces(m, base, [p]) == Put(m, base + p.off, p.bytes)
  {
    assert [p] + [] == [p];
    PutOn(m, base, p, []);
  }

  function Header(typ: nat, size: nat): (r: seq<Byte>)
    ensures |r| == 8
  {
    ToBe32(typ) + ToBe32(size - 8)
  }

  /** One TLV of the dump: its type, the size its filler announces, what that copies behind the header, and
      whether it never comes to an end. */
  datatype Item = Item(typ: nat, size: nat, pieces: seq<Piece>, hangs: bool)

  /** What stands for the result of a filler that does not return. */
  const NEVER: int := 1

  function Total(its: seq<Item>): nat {
    if its == [] then 0 else its[0].size + Total(its[1..])
  }

  function Emit(m: Mem, o: nat, it: Item): (r: Mem)
    ensures |r.bytes| == |m.bytes|
  {
    PutPieces(Put(m, o, Header(it.typ, it.size)), o, it.pieces)
  }

  /** What filling one TLV after the other leads to. */
  datatype Filled = Filled(mem: Mem, dumped: nat, err: int)

  function Fill(m: Mem, o: nat, its: seq<Item>): (r: Filled)
    ensures |r.mem.bytes| == |m.bytes|
    decreases |its|
  {
    if |its| == 0 then Filled(m, o, 0)
    else if o + its[0].size > |m.bytes| then Filled(m, o, ENOSPC)
    else if its[0].hangs then Filled(Emit(m, o, its[0]), o + its[0].size, NEVER)
    else Fill(Emit(m, o, its[0]), o + its[0].size, its[1..])
  }

  lemma {:induction false} FillOn(m: Mem, o: nat, it: Item, its: seq<Item>)
    ensures Fill(m, o, [it] + its) ==
            if o + it.size > |m.bytes| then Filled(m, o, ENOSPC)
            else if it.hangs then Filled(Emit(m, o, it), o + it.size, NEVER)
            else Fill(Emit(m, o, it), o + it.size, its)
  {
    assert ([it] + its)[1..] == its;
  }

  lemma {:induction false} FillOne(m: Mem, o: nat, it: Item)
    ensures Fill(m, o, [it]) ==
            if o + it.size > |m.bytes| then Filled(m, o, ENOSPC)
            else Filled(Emit(m, o, it), o + it.size, if it.hangs then NEVER else 0)
  {
    assert [it] + [] == [it];
    FillOn(m, o, it, []);
  }

  lemma {:induction false} FillConcat(m: Mem, o: nat, a: seq<Item>, c: seq<Item>)
    ensures Fill(m, o, a + c) == var f := Fill(m, o, a); if f.err != 0 then f else Fill(f.mem, f.dumped, c)
    decreases |a|
  {
    if a == [] {
      assert a + c == c;
    } else {
      assert a + c == [a[0]] + (a[1..] + c);
      FillOn(m, o, a[0], a[1..] + c);
      if o + a[0].size <= |m.bytes| && !a[0].hangs {
        FillConcat(Emit(m, o, a[0]), o + a[0].size, a[1..], c);
      }
    }
  }

  // ---- what each filler announces and copies ----

  /** nfp_dump_error_tlv() */
  function ErrorItem(t: Tlv, error: int): Item {
    var specSize := 8 + |t.body|;
    Item(TYPE_ERROR, U32(Align8(16 + specSize)),
         [Piece(8, ToBe32(error)), Piece(16, ToBe32(t.typ) + ToBe32(|t.body|) + t.body)], false)
  }

  /** nfp_dump_fwname() */
  function FwnameItem(env: Env): Item {
    Item(TYPE_FWNAME, U32(8 + Align8(|env.fwname| + 1)), [Piece(8, env.fwname)], false)
  }

  /** nfp_dump_hwinfo() */
  function HwinfoItem(env: Env): Item {
    Item(TYPE_HWINFO, U32(8 + Align8(|env.hwinfo|)), [Piece(8, env.hwinfo)], false)
  }

  function HwinfoFieldPieces(key: seq<Byte>, value: seq<Byte>): seq<Piece> {
    [Piece(8, key + [0]), Piece(8 + |key| + 1, value + [0])]
  }

  /** nfp_dump_hwinfo_field() */
  function HwinfoFieldItem(env: Env, t: Tlv): Item {
    var n := StrLen(t.body);
    if n == |t.body| then ErrorItem(t, EINVAL)
    else
      var key := t.body[..n];
      if key !in env.field then ErrorItem(t, ENOENT)
      else
        var value := env.field[key];
        Item(TYPE_HWINFO_FIELD, U32(8 + Align8(n + |value| + 2)), HwinfoFieldPieces(key, value), false)
  }

  predicate IsXpb(id: seq<Byte>) { |id| == 4 && id[0] == TARGET_XPB && id[1] == 0 && id[2] == 0 }

  predicate RegWidth(r: nat) { r == 4 || r == 8 }

  /** One register: an XPB read is always 32 bits wide, stores nothing if it fails, and reports its own error code. */
  function ReadReg(env: Env, id: seq<Byte>, r: nat, addr: nat): (b: Stored)
    ensures |b.bytes| <= r || |b.bytes| == 4
  {
    if IsXpb(id) then
      var b := Checked(env.read(id, addr, 4), 4);
      if b.err != 0 then Stored([], b.err) else b
    else
      var b := Checked(env.read(id, addr, r), r);
      if b.err != 0 then Stored(b.bytes, EIO) else b
  }

  function ReadError(code: int, addr: nat): seq<Piece> { [Piece(24, ToBe32(code)), Piece(28, ToBe32(addr))] }

  // ---- the loop over a register range ----

  /** What the accesses of one turn copy, and their result. */
  datatype Copied = Copied(pieces: seq<Piece>, err: int)

  /** What the loop copies, and whether it never ends. */
  datatype Ran = Ran(pieces: seq<Piece>, hangs: bool)

  /** The loop over registers from `addr` up to `max`; `turn(addr, dest)` is one turn of it. The cursor has 32
      bits. `left` bytes of the address space have not been visited: when there are none left the cursor is
      where it started, and the loop goes on forever. */
  function Range(turn: (nat, nat) -> Copied, r: nat, stride: nat, addr: nat, max: nat, dest: nat, left: nat): Ran
    requires 0 < r
    decreases left
  {
    if addr >= max then Ran([], false)
    else if left < r then Ran([], true)
    else
      var c := turn(addr, dest);
      if c.err != 0 then Ran(c.pieces + ReadError(c.err, addr), false)
      else
        var rest := Range(turn, r, stride, U32(addr + r), max, dest + stride, left - r);
        Ran(c.pieces + rest.pieces, rest.hangs)
  }

  /** The pieces ps and then those of the loop. */
  function RangeFrom(ps: seq<Piece>, turn: (nat, nat) -> Copied, r: nat, stride: nat, addr: nat, max: nat, dest: nat,
                     left: nat): Ran
    requires 0 < r
    decreases left
  {
    if addr >= max then Ran(ps, false)
    else if left < r then Ran(ps, true)
    else
      var c := turn(addr, dest);
      if c.err != 0 then Ran(ps + c.pieces + ReadError(c.err, addr), false)
      else RangeFrom(ps + c.pieces, turn, r, stride, U32(addr + r), max, dest + stride, left - r)
  }

  lemma {:induction false} RangeFromIs(ps: seq<Piece>, turn: (nat, nat) -> Copied, r: nat, stride: nat, addr: nat,
                                       max: nat, dest: nat, left: nat)
    requires 0 < r
    ensures var all := Range(turn, r, stride, addr, max, dest, left);
            RangeFrom(ps, turn, r, stride, addr, max, dest, left) == Ran(ps + all.pieces, all.hangs)
    decreases left
  {
    if addr < max && r <= left {
      var c := turn(addr, dest);
      if c.err == 0 {
        RangeFromIs(ps + c.pieces, turn, r, stride, U32(addr + r), max, dest + stride, left - r);
      }
    }
  }

  /** The bytes of the address space. */
  const ADDRESSES: nat := 0x1_0000_0000

  function CopyRead(b: Stored, dest: nat): Copied { Copied([Piece(dest, b.bytes)], b.err) }

  /** One turn of nfp_dump_csr_range(). */
  function RegTurn(env: Env, id: seq<Byte>, r: nat): (nat, nat) -> Copied {
    (addr: nat, dest: nat) => CopyRead(ReadReg(env, id, r, addr), dest)
  }

  ghost predicate ReadsRegs(turn: (nat, nat) -> Copied, env: Env, id: seq<Byte>, r: nat) {
    forall addr: nat, dest: nat {:trigger CopyRead(ReadReg(env, id, r, addr), dest)} ::
      turn(addr, dest) == CopyRead(ReadReg(env, id, r, addr), dest)
  }

  lemma RegTurnReads(env: Env, id: seq<Byte>, r: nat)
    ensures ReadsRegs(RegTurn(env, id, r), env, id, r)
  {
  }

  function CsrHeader(t: Tlv): seq<Piece>
    requires CsrValid(t)
  {
    [Piece(8, t.body[..12]), Piece(20, t.body[12..16])]
  }

  function RegSize(t: Tlv): (r: nat)
    requires CsrValid(t)
    ensures RegWidth(r)
  {
    Be32(t.body, 12) / 8
  }

  function DumpLen(t: Tlv): nat requires CsrValid(t) { Be32(t.body, 8) }
  function CsrAddr(t: Tlv): nat requires CsrValid(t) { Be32(t.body, 4) }
  function MaxAddr(t: Tlv): nat requires CsrValid(t) { U32(CsrAddr(t) + DumpLen(t)) }

  /** The loop of nfp_dump_csr_range(). */
  function CsrRange(env: Env, t: Tlv): Ran
    requires CsrValid(t)
  {
    Range(RegTurn(env, t.body[..4], RegSize(t)), RegSize(t), RegSize(t), CsrAddr(t), MaxAddr(t), 32, ADDRESSES)
  }

  /** nfp_dump_csr_range() */
  function CsrItem(env: Env, t: Tlv): Item {
    if !CsrValid(t) then ErrorItem(t, EINVAL)
    else
      Item(t.typ, U32(Align8(32) + Align8(DumpLen(t))), CsrHeader(t) + CsrRange(env, t).pieces, CsrRange(env, t).hangs)
  }

  /** One access after the other, up to the first that fails. */
  function Then(c: Copied, d: Copied): Copied { if c.err != 0 then c else Copied(c.pieces + d.pieces, d.err) }

  /** nfp_read_indirect_csr(): the value of the context pointer is stored first, then that of the register. */
  function ReadContext(env: Env, id: seq<Byte>, r: nat, addr: nat, ctx: nat, dest: nat): Copied {
    Then(Copied([], env.select(id, addr, ctx)),
         Then(CopyRead(Checked(env.pointer(id, addr, r, ctx), r), dest),
              CopyRead(Checked(env.indirect(id, addr, r, ctx), r), dest)))
  }

  function Contexts(env: Env, id: seq<Byte>, r: nat): (nat, nat, nat) -> Copied {
    (addr: nat, ctx: nat, dest: nat) => ReadContext(env, id, r, addr, ctx, dest)
  }

  ghost predicate Reads(read: (nat, nat, nat) -> Copied, env: Env, id: seq<Byte>, r: nat) {
    forall addr: nat, ctx: nat, dest: nat {:trigger ReadContext(env, id, r, addr, ctx, dest)} ::
      read(addr, ctx, dest) == ReadContext(env, id, r, addr, ctx, dest)
  }

  lemma ContextsRead(env: Env, id: seq<Byte>, r: nat)
    ensures Reads(Contexts(env, id, r), env, id, r)
  {
  }

  /** nfp_read_all_indirect_csr_ctx() from context `ctx` on. */
  function ReadContexts(read: (nat, nat, nat) -> Copied, r: nat, addr: nat, ctx: nat, dest: nat): Copied
    requires ctx <= IND_CONTEXTS
    decreases addr, IND_CONTEXTS - ctx
  {
    if ctx == IND_CONTEXTS then Copied([], 0)
    else Then(read(addr, ctx, dest), ReadContexts(read, r, addr, ctx + 1, dest + r))
  }

  /** The pieces ps and then those of the contexts from `ctx` on. */
  function ContextsFrom(ps: seq<Piece>, read: (nat, nat, nat) -> Copied, r: nat, addr: nat, ctx: nat, dest: nat): Copied
    requires ctx <= IND_CONTEXTS
    decreases addr, IND_CONTEXTS - ctx
  {
    if ctx == IND_CONTEXTS then Copied(ps, 0)
    else
      var c := read(addr, ctx, dest);
      if c.err != 0 then Copied(ps + c.pieces, c.err) else ContextsFrom(ps + c.pieces, read, r, addr, ctx + 1, dest + r)
  }

  lemma {:induction false} ContextsFromIs(ps: seq<Piece>, read: (nat, nat, nat) -> Copied, r: nat, addr: nat, ctx: nat,
                                          dest: nat)
    requires ctx <= IND_CONTEXTS
    ensures var c := ReadContexts(read, r, addr, ctx, dest);
            ContextsFrom(ps, read, r, addr, ctx, dest) == Copied(ps + c.pieces, c.err)
    decreases addr, IND_CONTEXTS - ctx
  {
    if ctx < IND_CONTEXTS {
      var c := read(addr, ctx, dest);
      if c.err == 0 {
        ContextsFromIs(ps + c.pieces, read, r, addr, ctx + 1, dest + r);
      }
    }
  }

  /** One turn of nfp_dump_indirect_csr_range(). */
  function ContextTurn(read: (nat, nat, nat) -> Copied, r: nat): (nat, nat) -> Copied {
    (addr: nat, dest: nat) => ReadContexts(read, r, addr, 0, dest)
  }

  ghost predicate TurnsBy(turn: (nat, nat) -> Copied, read: (nat, nat, nat) -> Copied, r: nat) {
    forall addr: nat, dest: nat {:trigger ReadContexts(read, r, addr, 0, dest)} ::
      turn(addr, dest) == ReadContexts(read, r, addr, 0, dest)
  }

  lemma ContextTurns(read: (nat, nat, nat) -> Copied, r: nat)
    ensures TurnsBy(ContextTurn(read, r), read, r)
  {
  }

  function IndirectTurn(env: Env, t: Tlv): (nat, nat) -> Copied
    requires CsrValid(t)
  {
    ContextTurn(Contexts(env, t.body[..4], RegSize(t)), RegSize(t))
  }

  /** The loop of nfp_dump_indirect_csr_range(). */
  function IndirectRange(env: Env, t: Tlv): Ran
    requires CsrValid(t)
  {
    Range(IndirectTurn(env, t), RegSize(t), RegSize(t) * IND_CONTEXTS, CsrAddr(t), MaxAddr(t), 32, ADDRESSES)
  }

  /** nfp_dump_indirect_csr_range() */
  function IndirectCsrItem(env: Env, t: Tlv): Item {
    if !CsrValid(t) then ErrorItem(t, EINVAL)
    else
      var dataLength := U32(DumpLen(t) * IND_CONTEXTS);
      Item(t.typ, U32(Align8(32) + Align8(dataLength)), CsrHeader(t) + IndirectRange(env, t).pieces,
           IndirectRange(env, t).hangs)
  }

  function RtsymHeader(key: seq<Byte>): nat { Align8(25 + |key| + 1) }

  function RtsymName(key: seq<Byte>, size: nat): seq<Piece> {
    [Piece(24, [(RtsymHeader(key) - 25) % 256]), Piece(25, key + [0]), Piece(16, ToBe32(size))]
  }

  function RtsymPlace(sym: Sym): seq<Piece> {
    if sym.absolute then [] else [Piece(8, [sym.target, ACTION_RW, 0, sym.domain]), Piece(12, ToBe32(sym.addr))]
  }

  function RtsymData(sym: Sym, size: nat, header: nat): seq<Piece> {
    var b := Checked(sym.data(size), size);
    [Piece(header, b.bytes)] + if b.err != 0 then [Piece(20, ToBe32(b.err))] else []
  }

  /** nfp_dump_single_rtsym(); the size of the symbol is truncated to 32 bits here. */
  function RtsymItem(env: Env, t: Tlv): Item {
    var n := StrLen(t.body);
    if n == |t.body| then ErrorItem(t, EINVAL)
    else
      var key := t.body[..n];
      if key !in env.syms then ErrorItem(t, ENOENT)
      else
        var sym := env.syms[key];
        var size := U32(sym.size);
        Item(t.typ, U32(RtsymHeader(key) + Align8(size)),
             RtsymName(key, size) + RtsymPlace(sym) + RtsymData(sym, size, RtsymHeader(key)), false)
  }

  /** nfp_dump_for_tlv() */
  function ItemOf(env: Env, t: Tlv): Item {
    if t.typ == TYPE_FWNAME then FwnameItem(env)
    else if t.typ <= TYPE_ME_CSR then CsrItem(env, t)
    else if t.typ == TYPE_INDIRECT_ME_CSR then IndirectCsrItem(env, t)
    else if t.typ == TYPE_RTSYM then RtsymItem(env, t)
    else if t.typ == TYPE_HWINFO then HwinfoItem(env)
    else if t.typ == TYPE_HWINFO_FIELD then HwinfoFieldItem(env, t)
    else ErrorItem(t, EOPNOTSUPP)
  }

  function Items(env: Env, ts: seq<Tlv>): (r: seq<Item>)
    ensures |r| == |ts|
    ensures forall i :: 0 <= i < |ts| ==> r[i] == ItemOf(env, ts[i])
  {
    if ts == [] then [] else [ItemOf(env, ts[0])] + Items(env, ts[1..])
  }

  lemma {:induction false} ItemsConcat(env: Env, a: seq<Tlv>, c: seq<Tlv>)
    ensures Items(env, a + c) == Items(env, a) + Items(env, c)
  {
    if a == [] {
      assert a + c == c;
    } else {
      assert (a + c)[1..] == a[1..] + c;
      ItemsConcat(env, a[1..], c);
    }
  }

  /** Filling for a traversal, which reports -EINVAL if it ends at a malformed TLV. */
  function FillWalk(m: Mem, o: nat, env: Env, w: Walked): (r: Filled)
    ensures |r.mem.bytes| == |m.bytes|
  {
    var f := Fill(m, o, Items(env, w.tlvs));
    if f.err == 0 && !w.ok then f.(err := EINVAL) else f
  }

  /** Filling for a traversal in two parts. */
  lemma FillWalkConcat(m: Mem, o: nat, env: Env, ts: seq<Tlv>, rest: Walked)
    ensures FillWalk(m, o, env, Walked(ts + rest.tlvs, rest.ok)) ==
            var f := Fill(m, o, Items(env, ts));
            if f.err != 0 then f else FillWalk(f.mem, f.dumped, env, rest)
  {
    ItemsConcat(env, ts, rest.tlvs);
    FillConcat(m, o, Items(env, ts), Items(env, rest.tlvs));
  }

  lemma OneItem(m: Mem, o: nat, env: Env, t: Tlv, rest: Walked)
    ensures Items(env, [t]) == [ItemOf(env, t)]
    ensures FillWalk(m, o, env, Walked([t] + rest.tlvs, rest.ok)) ==
            var f := Fill(m, o, [ItemOf(env, t)]);
            if f.err != 0 then f else FillWalk(f.mem, f.dumped, env, rest)
  {
    assert Items(env, [t]) == [ItemOf(env, t)];
    FillWalkConcat(m, o, env, [t], rest);
  }

  /** nfp_dump_populate_prolog() */
  function Prolog(level: nat): Item { Item(TYPE_PROLOG, Align8(12), [Piece(8, ToBe32(level))], false) }

  /** nfp_net_dump_populate_buffer() on a buffer m. */
  function Dumped(m: Mem, env: Env, v: Walked, level: nat): (r: Filled)
    ensures |r.mem.bytes| == |m.bytes|
  {
    var f := Fill(m, 0, [Prolog(level)]);
    if f.err != 0 then f else FillWalk(f.mem, f.dumped, env, v)
  }

  // ---- the fillers in place ----

  /** struct nfp_dump_state */
  class Dump {
    const buf: array<Byte>
    var dumpedSize: nat
    ghost var strayed: bool
    // The TLV being filled in: where it starts, the buffer once its header was written, and what was copied since.
    ghost var base: nat
    ghost var announced: Mem
    ghost var copied: seq<Piece>

    ghost function View(): (m: Mem)
      reads this, buf
    {
      Mem(buf[..], strayed)
    }

    ghost predicate Valid()
      reads this, buf
    {
      dumpedSize <= buf.Length && View() == PutPieces(announced, base, copied)
    }

    constructor (buf: array<Byte>)
      ensures Valid() && this.buf == buf && dumpedSize == 0 && !strayed
    {
      this.buf := buf;
      dumpedSize := 0;
      strayed := false;
      base := 0;
      announced := Mem(buf[..], false);
      copied := [];
    }

    /** Bytes past the end of the buffer are not part of the model: they are dropped, and remembered. */
    method Write(o: nat, bytes: seq<Byte>)
      modifies this`strayed, buf
      ensures View() == Put(old(View()), o, bytes)
    {
      ghost var want := Put(View(), o, bytes);
      var i := 0;
      while i < |bytes|
        invariant 0 <= i <= |bytes|
        invariant Put(View(), o + i, bytes[i..]) == want
      {
        assert bytes[i..][1..] == bytes[i + 1..];
        if o + i < buf.Length {
          buf[o + i] := bytes[i];
        } else {
          strayed := true;
        }
        i := i + 1;
      }
    }

    /** Copies to offset `off` of the TLV that starts at `start`. */
    method CopyAt(start: nat, off: nat, bytes: seq<Byte>)
      requires Valid() && start == base
      modifies this`strayed, this`copied, buf
      ensures Valid() && copied == old(copied) + [Piece(off, bytes)]
    {
      PutConcat(announced, base, copied, [Piece(off, bytes)]);
      PutSingle(View(), base, Piece(off, bytes));
      Write(start + off, bytes);
      copied := copied + [Piece(off, bytes)];
    }

    method AddTlv(typ: nat, total: nat) returns (err: int)
      requires Valid()
      modifies this, buf
      ensures Valid()
      ensures if old(dumpedSize) + total > buf.Length
              then err == ENOSPC && dumpedSize == old(dumpedSize) && View() == old(View())
              else err == 0 && dumpedSize == old(dumpedSize) + total && base == old(dumpedSize)
                   && announced == Put(old(View()), old(dumpedSize), Header(typ, total)) && copied == []
    {
      if total > buf.Length {
        return ENOSPC;
      }
      if buf.Length - total < dumpedSize {
        return ENOSPC;
      }
      Write(dumpedSize, ToBe32(typ) + ToBe32(total - 8));
      base, announced, copied := dumpedSize, View(), [];
      dumpedSize := dumpedSize + total;
      return 0;
    }

    /** The state after filling in one TLV. */
    ghost predicate Wrote(before: Mem, start: nat, it: Item, err: int)
      reads this, buf
    {
      Valid() && Filled(View(), dumpedSize, err) == Fill(before, start, [it])
    }

    /** A TLV is filled in when everything behind its header has been copied. */
    lemma Finishes(before: Mem, start: nat, it: Item, hung: bool)
      requires Valid() && base == start && start + it.size <= |before.bytes| && dumpedSize == start + it.size
      requires announced == Put(before, start, Header(it.typ, it.size)) && Ran(copied, hung) == Ran(it.pieces, it.hangs)
      ensures Wrote(before, start, it, if hung then NEVER else 0)
    {
      FillOne(before, start, it);
    }

    lemma TooLong(before: Mem, start: nat, it: Item)
      requires Valid() && View() == before && dumpedSize == start && start + it.size > |before.bytes|
      ensures Wrote(before, start, it, ENOSPC)
    {
      FillOne(before, start, it);
    }

    method DumpErrorTlv(t: Tlv, error: int) returns (err: int)
      requires Valid()
      modifies this, buf
      ensures Wrote(old(View()), old(dumpedSize), ErrorItem(t, error), err)
    {
      var start := dumpedSize;
      FillOne(View(), start, ErrorItem(t, error));
      var specSize := 8 + |t.body|;
      var total := U32(Align8(16 + specSize));
      err := AddTlv(TYPE_ERROR, total);
      if err != 0 {
        return;
      }
      CopyAt(start, 8, ToBe32(error));
      CopyAt(start, 16, ToBe32(t.typ) + ToBe32(|t.body|) + t.body);
      assert copied == ErrorItem(t, error).pieces;
    }

    method DumpFwname(env: Env) returns (err: int)
      requires Valid()
      modifies this, buf
      ensures Wrote(old(View()), old(dumpedSize), FwnameItem(env), err)
    {
      var start := dumpedSize;
      FillOne(View(), start, FwnameItem(env));
      var total := U32(8 + Align8(|env.fwname| + 1));
      err := AddTlv(TYPE_FWNAME, total);
      if err != 0 {
        return;
      }
      CopyAt(start, 8, env.fwname);
      assert copied == FwnameItem(env).pieces;
    }

    method DumpHwinfo(env: Env) returns (err: int)
      requires Valid()
      modifies this, buf
      ensures Wrote(old(View()), old(dumpedSize), HwinfoItem(env), err)
    {
      var start := dumpedSize;
      FillOne(View(), start, HwinfoItem(env));
      var total := U32(8 + Align8(|env.hwinfo|));
      err := AddTlv(TYPE_HWINFO, total);
      if err != 0 {
        return;
      }
      CopyAt(start, 8, env.hwinfo);
      assert copied == HwinfoItem(env).pieces;
    }

    method DumpHwinfoField(env: Env, t: Tlv) returns (err: int)
      requires Valid()
      modifies this, buf
      ensures Wrote(old(View()), old(dumpedSize), HwinfoFieldItem(env, t), err)
    {
      var keyLen := StrLen(t.body);
      if keyLen == |t.body| {
        err := DumpErrorTlv(t, EINVAL);
        return;
      }
      var key := t.body[..keyLen];
      if key !in env.field {
        err := DumpErrorTlv(t, ENOENT);
        return;
      }
      var value := env.field[key];
      var start := dumpedSize;
      FillOne(View(), start, HwinfoFieldItem(env, t));
      var total := U32(8 + Align8(keyLen + |value| + 2));
      err := AddTlv(TYPE_HWINFO_FIELD, total);
      if err != 0 {
        return;
      }
      CopyAt(start, 8, key + [0]);
      CopyAt(start, 8 + keyLen + 1, value + [0]);
      assert copied == HwinfoFieldPieces(key, value);
    }

    /** The error fields of the header of a register dump. */
    method NoteReadError(start: nat, code: int, addr: nat)
      requires Valid() && start == base
      modifies this`strayed, this`copied, buf
      ensures Valid() && copied == old(copied) + ReadError(code, addr)
    {
      CopyAt(start, 24, ToBe32(code));
      CopyAt(start, 28, ToBe32(addr));
      assert copied == old(copied) + ReadError(code, addr);
    }

    method DumpCsrHeader(start: nat, t: Tlv)
      requires Valid() && start == base && CsrValid(t) && copied == []
      modifies this`strayed, this`copied, buf
      ensures Valid() && copied == CsrHeader(t)
    {
      CopyAt(start, 8, t.body[..12]);
      CopyAt(start, 20, t.body[12..16]);
    }

    /** One turn of the loop: the register, or what could be read of it and the error. */
    method ReadRegister(start: nat, env: Env, id: seq<Byte>, r: nat, addr: nat, dest: nat,
                        ghost turn: (nat, nat) -> Copied) returns (err: int)
      requires Valid() && start == base && ReadsRegs(turn, env, id, r)
      modifies this`strayed, this`copied, buf
      ensures Valid() && TookTurn(old(copied), turn(addr, dest), addr, err)
    {
      var b := ReadReg(env, id, r, addr);
      assert turn(addr, dest) == CopyRead(b, dest);
      CopyAt(start, dest, b.bytes);
      err := b.err;
      if err != 0 {
        NoteReadError(start, err, addr);
      }
    }

    ghost predicate TookTurn(before: seq<Piece>, c: Copied, addr: nat, err: int)
      reads this
    {
      err == c.err && copied == if err != 0 then before + c.pieces + ReadError(err, addr) else before + c.pieces
    }

    method DumpRegisters(start: nat, env: Env, id: seq<Byte>, r: nat, from: nat, max: nat,
                         ghost turn: (nat, nat) -> Copied)
      returns (hung: bool)
      requires Valid() && start == base && 0 < r && ReadsRegs(turn, env, id, r)
      modifies this`strayed, this`copied, buf
      ensures Valid() && Ran(copied, hung) == RangeFrom(old(copied), turn, r, r, from, max, 32, ADDRESSES)
    {
      ghost var want := RangeFrom(copied, turn, r, r, from, max, 32, ADDRESSES);
      var addr: nat, dest: nat, left: nat := from, 32, ADDRESSES;
      while addr < max && r <= left
        invariant Valid() && RangeFrom(copied, turn, r, r, addr, max, dest, left) == want
        decreases left
      {
        var err := ReadRegister(start, env, id, r, addr, dest, turn);
        if err != 0 {
          return false;
        }
        addr, dest, left := U32(addr + r), dest + r, left - r;
      }
      return addr < max;
    }

    method FillRange(start: nat, env: Env, t: Tlv, r: nat, addr: nat, max: nat, ghost turn: (nat, nat) -> Copied)
      returns (hung: bool)
      requires Valid() && start == base && CsrValid(t) && copied == [] && 0 < r && ReadsRegs(turn, env, t.body[..4], r)
      modifies this`strayed, this`copied, buf
      ensures var all := Range(turn, r, r, addr, max, 32, ADDRESSES);
              Valid() && Ran(copied, hung) == Ran(CsrHeader(t) + all.pieces, all.hangs)
    {
      DumpCsrHeader(start, t);
      RangeFromIs(copied, turn, r, r, addr, max, 32, ADDRESSES);
      hung := DumpRegisters(start, env, t.body[..4], r, addr, max, turn);
    }

    method FillCsr(start: nat, env: Env, t: Tlv) returns (hung: bool)
      requires Valid() && start == base && CsrValid(t) && copied == []
      modifies this`strayed, this`copied, buf
      ensures Valid() && Ran(copied, hung) == Ran(CsrHeader(t) + CsrRange(env, t).pieces, CsrRange(env, t).hangs)
    {
      RegTurnReads(env, t.body[..4], RegSize(t));
      hung := FillRange(start, env, t, RegSize(t), CsrAddr(t), MaxAddr(t), RegTurn(env, t.body[..4], RegSize(t)));
    }

    method DumpCsrRange(env: Env, t: Tlv) returns (err: int)
      requires Valid()
      modifies this, buf
      ensures Wrote(old(View()), old(dumpedSize), CsrItem(env, t), err)
    {
      if !CsrValid(t) {
        err := DumpErrorTlv(t, EINVAL);
        return;
      }
      var headerSize := Align8(32);
      var total := U32(headerSize + Align8(Be32(t.body, 8)));
      var start := dumpedSize;
      ghost var before, it := View(), CsrItem(env, t);
      err := AddTlv(t.typ, total);
      if err != 0 {
        TooLong(before, start, it);
        return;
      }
      var hung := FillCsr(start, env, t);
      Finishes(before, start, it, hung);
      err := if hung then NEVER else 0;
    }

    method ReadIndirectCsr(start: nat, env: Env, id: seq<Byte>, r: nat, addr: nat, ctx: nat, dest: nat)
      returns (err: int)
      requires Valid() && start == base
      modifies this`strayed, this`copied, buf
      ensures Valid() && err == ReadContext(env, id, r, addr, ctx, dest).err
      ensures copied == old(copied) + ReadContext(env, id, r, addr, ctx, dest).pieces
    {
      err := env.select(id, addr, ctx);
      if err != 0 {
        return;
      }
      var ptr := Checked(env.pointer(id, addr, r, ctx), r);
      CopyAt(start, dest, ptr.bytes);
      if ptr.err != 0 {
        return ptr.err;
      }
      var b := Checked(env.indirect(id, addr, r, ctx), r);
      CopyAt(start, dest, b.bytes);
      return b.err;
    }

    method ReadAllContexts(start: nat, env: Env, id: seq<Byte>, r: nat, addr: nat, dest: nat,
                           ghost read: (nat, nat, nat) -> Copied) returns (err: int)
      requires Valid() && start == base && Reads(read, env, id, r)
      modifies this`strayed, this`copied, buf
      ensures Valid() && Copied(copied, err) == ContextsFrom(old(copied), read, r, addr, 0, dest)
    {
      ghost var want := ContextsFrom(copied, read, r, addr, 0, dest);
      var ctx: nat, at: nat := 0, dest;
      while ctx < IND_CONTEXTS
        invariant 0 <= ctx <= IND_CONTEXTS && Valid() && ContextsFrom(copied, read, r, addr, ctx, at) == want
      {
        err := ReadIndirectCsr(start, env, id, r, addr, ctx, at);
        if err != 0 {
          return;
        }
        ctx, at := ctx + 1, at + r;
      }
      return 0;
    }

    /** One turn of the loop: all contexts of a register, or those before the one that failed and the error. */
    method ReadRegisterContexts(start: nat, env: Env, id: seq<Byte>, r: nat, addr: nat, dest: nat,
                                ghost read: (nat, nat, nat) -> Copied, ghost turn: (nat, nat) -> Copied)
      returns (err: int)
      requires Valid() && start == base && Reads(read, env, id, r) && TurnsBy(turn, read, r)
      modifies this`strayed, this`copied, buf
      ensures Valid() && TookTurn(old(copied), turn(addr, dest), addr, err)
    {
      ContextsFromIs(copied, read, r, addr, 0, dest);
      err := ReadAllContexts(start, env, id, r, addr, dest, read);
      if err != 0 {
        NoteReadError(start, err, addr);
      }
    }

    method DumpIndirectRegisters(start: nat, env: Env, id: seq<Byte>, r: nat, from: nat, max: nat,
                                 ghost read: (nat, nat, nat) -> Copied, ghost turn: (nat, nat) -> Copied)
      returns (hung: bool)
      requires Valid() && start == base && 0 < r && Reads(read, env, id, r) && TurnsBy(turn, read, r)
      modifies this`strayed, this`copied, buf
      ensures Valid()
      ensures Ran(copied, hung) == RangeFrom(old(copied), turn, r, r * IND_CONTEXTS, from, max, 32, ADDRESSES)
    {
      ghost var want := RangeFrom(copied, turn, r, r * IND_CONTEXTS, from, max, 32, ADDRESSES);
      var addr: nat, dest: nat, left: nat := from, 32, ADDRESSES;
      while addr < max && r <= left
        invariant Valid() && RangeFrom(copied, turn, r, r * IND_CONTEXTS, addr, max, dest, left) == want
        decreases left
      {
        var err := ReadRegisterContexts(start, env, id, r, addr, dest, read, turn);
        if err != 0 {
          return false;
        }
        addr, dest, left := U32(addr + r), dest + r * IND_CONTEXTS, left - r;
      }
      return addr < max;
    }

    method FillIndirectRange(start: nat, env: Env, t: Tlv, r: nat, addr: nat, max: nat,
                             ghost read: (nat, nat, nat) -> Copied, ghost turn: (nat, nat) -> Copied)
      returns (hung: bool)
      requires Valid() && start == base && CsrValid(t) && copied == [] && 0 < r
      requires Reads(read, env, t.body[..4], r) && TurnsBy(turn, read, r)
      modifies this`strayed, this`copied, buf
      ensures var all := Range(turn, r, r * IND_CONTEXTS, addr, max, 32, ADDRESSES);
              Valid() && Ran(copied, hung) == Ran(CsrHeader(t) + all.pieces, all.hangs)
    {
      DumpCsrHeader(start, t);
      RangeFromIs(copied, turn, r, r * IND_CONTEXTS, addr, max, 32, ADDRESSES);
      hung := DumpIndirectRegisters(start, env, t.body[..4], r, addr, max, read, turn);
    }

    method FillIndirectCsr(start: nat, env: Env, t: Tlv) returns (hung: bool)
      requires Valid() && start == base && CsrValid(t) && copied == []
      modifies this`strayed, this`copied, buf
      ensures Valid()
      ensures Ran(copied, hung) == Ran(CsrHeader(t) + IndirectRange(env, t).pieces, IndirectRange(env, t).hangs)
    {
      ghost var read := Contexts(env, t.body[..4], RegSize(t));
      ContextsRead(env, t.body[..4], RegSize(t));
      ContextTurns(read, RegSize(t));
      hung := FillIndirectRange(start, env, t, RegSize(t), CsrAddr(t), MaxAddr(t), read, IndirectTurn(env, t));
    }

    method DumpIndirectCsrRange(env: Env, t: Tlv) returns (err: int)
      requires Valid()
      modifies this, buf
      ensures Wrote(old(View()), old(dumpedSize), IndirectCsrItem(env, t), err)
    {
      if !CsrValid(t) {
        err := DumpErrorTlv(t, EINVAL);
        return;
      }
      var headerSize := Align8(32);
      var dataLength := U32(Be32(t.body, 8) * IND_CONTEXTS);
      var total := U32(headerSize + Align8(dataLength));
      var start := dumpedSize;
      ghost var before, it := View(), IndirectCsrItem(env, t);
      err := AddTlv(t.typ, total);
      if err != 0 {
        TooLong(before, start, it);
        return;
      }
      var hung := FillIndirectCsr(start, env, t);
      Finishes(before, start, it, hung);
      err := if hung then NEVER else 0;
    }

    method DumpRtsymHeader(start: nat, key: seq<Byte>, sym: Sym, size: nat, header: nat)
      requires Valid() && start == base && header == RtsymHeader(key) && copied == []
      modifies this`strayed, this`copied, buf
      ensures Valid() && copied == RtsymName(key, size) + RtsymPlace(sym)
    {
      CopyAt(start, 24, [(header - 25) % 256]);
      CopyAt(start, 25, key + [0]);
      CopyAt(start, 16, ToBe32(size));
      if !sym.absolute {
        CopyAt(start, 8, [sym.target, ACTION_RW, 0, sym.domain]);
        CopyAt(start, 12, ToBe32(sym.addr));
      }
      assert copied == RtsymName(key, size) + RtsymPlace(sym);
    }

    method DumpRtsymData(start: nat, sym: Sym, size: nat, header: nat)
      requires Valid() && start == base
      modifies this`strayed, this`copied, buf
      ensures Valid() && copied == old(copied) + RtsymData(sym, size, header)
    {
      var b := Checked(sym.data(size), size);
      CopyAt(start, header, b.bytes);
      if b.err != 0 {
        CopyAt(start, 20, ToBe32(b.err));
      }
      assert copied == old(copied) + RtsymData(sym, size, header);
    }

    method DumpSingleRtsym(env: Env, t: Tlv) returns (err: int)
      requires Valid()
      modifies this, buf
      ensures Wrote(old(View()), old(dumpedSize), RtsymItem(env, t), err)
    {
      var keyLen := StrLen(t.body);
      if keyLen == |t.body| {
        err := DumpErrorTlv(t, EINVAL);
        return;
      }
      var key := t.body[..keyLen];
      if key !in env.syms {
        err := DumpErrorTlv(t, ENOENT);
        return;
      }
      var sym := env.syms[key];
      var size, header := U32(sym.size), Align8(25 + keyLen + 1);
      var total := U32(header + Align8(size));
      var start := dumpedSize;
      FillOne(View(), start, RtsymItem(env, t));
      err := AddTlv(t.typ, total);
      if err != 0 {
        return;
      }
      DumpRtsymHeader(start, key, sym, size, header);
      DumpRtsymData(start, sym, size, header);
    }

    method DumpForTlv(env: Env, t: Tlv) returns (err: int)
      requires Valid()
      modifies this, buf
      ensures Wrote(old(View()), old(dumpedSize), ItemOf(env, t), err)
    {
      if t.typ == TYPE_FWNAME {
        err := DumpFwname(env);
      } else if t.typ <= TYPE_ME_CSR {
        err := DumpCsrRange(env, t);
      } else if t.typ == TYPE_INDIRECT_ME_CSR {
        err := DumpIndirectCsrRange(env, t);
      } else if t.typ == TYPE_RTSYM {
        err := DumpSingleRtsym(env, t);
      } else if t.typ == TYPE_HWINFO {
        err := DumpHwinfo(env);
      } else if t.typ == TYPE_HWINFO_FIELD {
        err := DumpHwinfoField(env, t);
      } else {
        err := DumpErrorTlv(t, EOPNOTSUPP);
      }
    }

    method DumpLevel(env: Env, data: seq<Byte>) returns (err: int)
      requires Valid()
      modifies this, buf
      ensures Valid()
      ensures Filled(View(), dumpedSize, err) == FillWalk(old(View()), old(dumpedSize), env, Walk(data, 0))
    {
      ghost var want := FillWalk(View(), dumpedSize, env, Walk(data, 0));
      var p := 0;
      while true
        invariant p <= |data| && Valid()
        invariant FillWalk(View(), dumpedSize, env, Walk(data, p)) == want
        decreases |data| - p
      {
        match NextTlv(data, p)
        case Stop => return 0;
        case Bad => return EINVAL;
        case Got(t, next) =>
          OneItem(View(), dumpedSize, env, t, Walk(data, next));
          err := DumpForTlv(env, t);
          if err != 0 {
            return;
          }
          p := next;
      }
    }

    method PopulateProlog(level: nat) returns (err: int)
      requires Valid()
      modifies this, buf
      ensures Wrote(old(View()), old(dumpedSize), Prolog(level), err)
    {
      var start := dumpedSize;
      FillOne(View(), start, Prolog(level));
      err := AddTlv(TYPE_PROLOG, Align8(12));
      if err != 0 {
        return;
      }
      CopyAt(start, 8, ToBe32(level));
      assert copied == Prolog(level).pieces;
    }

    method PopulateBuffer(env: Env, spec: seq<Byte>, level: nat) returns (err: int)
      requires Valid() && dumpedSize == 0
      modifies this, buf
      ensures Valid()
      ensures Filled(View(), dumpedSize, err) == Dumped(old(View()), env, Visits(spec, 0, level), level)
    {
      err := PopulateProlog(level);
      if err != 0 {
        return;
      }
      ghost var want := FillWalk(View(), dumpedSize, env, Visits(spec, 0, level));
      var p := 0;
      while true
        invariant p <= |spec| && Valid()
        invariant FillWalk(View(), dumpedSize, env, Visits(spec, p, level)) == want
        decreases |spec| - p
      {
        match NextTlv(spec, p)
        case Stop => return 0;
        case Bad => return EINVAL;
        case Got(t, next) =>
          if t.typ == level {
            ghost var w, rest := Walk(t.body, 0), Visits(spec, next, level);
            if w.ok {
              FillWalkConcat(View(), dumpedSize, env, w.tlvs, rest);
            }
            err := DumpLevel(env, t.body);
            if err != 0 {
              return;
            }
          }
          p := next;
      }
    }
  }
}
