/**
 What the TLVs of a finished debug dump (src/nfp_net_debugdump.c) say: refused TLVs, hwinfo fields,
 symbols and registers are found in them again.
 */
module DebugDumpContents {
  import opened DebugDump
  import opened DebugDumpFill
  import opened DebugDumpTheorems
  import opened DebugDumpReadBack

  lemma CarriesPiece(it: Item, body: seq<Byte>, k: nat, p: Piece)
    requires Carries(it, body) && k < |it.pieces| && it.pieces[k] == p && Undisturbed(it.pieces, k)
    requires 8 <= p.off && p.off + |p.bytes| <= it.size
    ensures body[p.off - 8..p.off - 8 + |p.bytes|] == p.bytes
  {
  }

  function Key(t: Tlv): seq<Byte> { t.body[..StrLen(t.body)] }

  // ---- how long the TLVs are ----

  /** The smallest number of whole blocks of eight that holds so many bytes. */
  predicate Tight(n: nat, used: nat) { used <= n < used + 8 && n % 8 == 0 }

  lemma AlignTight(n: nat)
    ensures Tight(Align8(n), n)
  {
  }

  /** What a TLV of the dump has to hold behind its header. */
  function Needs(env: Env, t: Tlv): nat {
    if Refusal(env, t) != 0 then 16 + |t.body|
    else if t.typ <= TYPE_ME_CSR then 24 + Be32(t.body, 8)
    else if t.typ == TYPE_INDIRECT_ME_CSR then 24 + 8 * Be32(t.body, 8)
    else if t.typ == TYPE_RTSYM then RtsymHeader(Key(t)) - 8 + env.syms[Key(t)].size
    else if t.typ == TYPE_HWINFO then |env.hwinfo|
    else if t.typ == TYPE_HWINFO_FIELD then |Key(t)| + 1 + |env.field[Key(t)]| + 1
    else |env.fwname| + 1
  }

  lemma BlocksAdd(n: nat, m: nat, k: nat)
    requires n == 8 * k
    ensures Align8(n + m) == n + Align8(m)
  {
  }

  lemma RegisterSizes(env: Env, t: Tlv)
    requires Refusal(env, t) == 0 && t.typ <= TYPE_INDIRECT_ME_CSR
    ensures RawSize(env, t) == 8 + Align8(Needs(env, t))
  {
    PassesAgree(env, t);
    if t.typ <= TYPE_ME_CSR {
      BlocksAdd(24, Be32(t.body, 8), 3);
    } else {
      BlocksAdd(24, 8 * Be32(t.body, 8), 3);
    }
  }

  lemma SymbolSize(env: Env, t: Tlv)
    requires Refusal(env, t) == 0 && t.typ == TYPE_RTSYM
    ensures RawSize(env, t) == 8 + Align8(Needs(env, t))
  {
    BlocksAdd(RtsymHeader(Key(t)) - 8, env.syms[Key(t)].size, Blocks8(25 + |Key(t)| + 1) - 1);
  }

  lemma OtherSizes(env: Env, t: Tlv)
    requires Refusal(env, t) != 0 || t.typ == TYPE_FWNAME || t.typ == TYPE_HWINFO || t.typ == TYPE_HWINFO_FIELD
    ensures RawSize(env, t) == 8 + Align8(Needs(env, t))
  {
    PassesAgree(env, t);
    if Refusal(env, t) != 0 { BlocksAdd(8, 16 + |t.body|, 1); }
  }

  /** Every TLV is as long as it has to be, in whole blocks of eight. */
  lemma SizeExactly(env: Env, t: Tlv)
    ensures 8 <= RawSize(env, t) && Tight(RawSize(env, t) - 8, Needs(env, t))
  {
    PassesAgree(env, t);
    AlignTight(Needs(env, t));
    if Refusal(env, t) != 0 {
      OtherSizes(env, t);
    } else if t.typ <= TYPE_INDIRECT_ME_CSR {
      RegisterSizes(env, t);
    } else if t.typ == TYPE_RTSYM {
      SymbolSize(env, t);
    } else {
      OtherSizes(env, t);
    }
  }

  /** The prolog holds the level that was asked for. */
  lemma PrologHoldsLevel(level: nat, body: seq<Byte>)
    requires level < 0x1_0000_0000 && Carries(Prolog(level), body)
    ensures Be32(body, 0) == level
  {
    CarriesPiece(Prolog(level), body, 0, Piece(8, ToBe32(level)));
    Be32Inverse(level);
    assert forall i :: 0 <= i < 4 ==> body[i] == body[0..4][i] == ToBe32(level)[i];
  }

  lemma SpecReads(t: Tlv, spec: seq<Byte>)
    requires t.typ < 0x1_0000_0000 && |t.body| < 0x1_0000_0000 && |t.body| % 4 == 0 && (t.typ != 0 || t.body != [])
    requires spec == ToBe32(t.typ) + ToBe32(|t.body|) + t.body
    ensures NextTlv(spec, 0) == Got(t, |spec|)
  {
    assert spec[0..8] == ToBe32(t.typ) + ToBe32(|t.body|) && spec[8..8 + |t.body|] == t.body;
    HeaderReads(spec, 0, ToBe32(t.typ), ToBe32(|t.body|));
    Be32Inverse(t.typ);
    Be32Inverse(|t.body|);
  }

  /** A TLV that is refused is found, byte for byte, in the error TLV that stands for it, behind the reason. */
  lemma ErrorEmbedsSpec(env: Env, t: Tlv, body: seq<Byte>)
    requires Refusal(env, t) != 0 && RawSize(env, t) < 0x1_0000_0000 && Carries(ItemOf(env, t), body)
    requires t.typ < 0x1_0000_0000 && |t.body| % 4 == 0 && (t.typ != 0 || t.body != [])
    ensures ItemOf(env, t).typ == TYPE_ERROR && 16 + |t.body| <= |body|
    ensures body[0..4] == ToBe32(Refusal(env, t)) && NextTlv(body[8..16 + |t.body|], 0) == Got(t, 8 + |t.body|)
  {
    PassesAgree(env, t);
    NarrowSize(env, t);
    var it := ItemOf(env, t);
    var spec := ToBe32(t.typ) + ToBe32(|t.body|) + t.body;
    CarriesPiece(it, body, 0, Piece(8, ToBe32(Refusal(env, t))));
    CarriesPiece(it, body, 1, Piece(16, spec));
    SpecReads(t, spec);
  }

  lemma {:induction false} StrLenIs(d: seq<Byte>, n: nat)
    requires n < |d| && d[n] == 0 && forall i :: 0 <= i < n ==> d[i] != 0
    ensures StrLen(d) == n
  {
  }

  lemma TwoStrings(body: seq<Byte>, key: seq<Byte>, value: seq<Byte>)
    requires 0 !in key && 0 !in value && |key| + |value| + 2 <= |body|
    requires body[0..|key| + 1] == key + [0] && body[|key| + 1..|key| + 1 + |value| + 1] == value + [0]
    ensures StrLen(body) == |key| && body[..|key|] == key
    ensures StrLen(body[|key| + 1..]) == |value| && body[|key| + 1..][..|value|] == value
  {
    var rest := body[|key| + 1..];
    forall i | 0 <= i <= |key| ensures body[i] == (key + [0])[i] { assert body[0..|key| + 1][i] == (key + [0])[i]; }
    forall i | 0 <= i <= |value| ensures rest[i] == (value + [0])[i] {
      assert body[|key| + 1..|key| + 1 + |value| + 1][i] == (value + [0])[i];
    }
    StrLenIs(body, |key|);
    StrLenIs(rest, |value|);
  }

  lemma FieldInItem(it: Item, body: seq<Byte>, key: seq<Byte>, value: seq<Byte>)
    requires Carries(it, body) && it.pieces == HwinfoFieldPieces(key, value) && 8 + |key| + |value| + 2 <= it.size
    ensures |key| + |value| + 2 <= |body|
    ensures body[0..|key| + 1] == key + [0] && body[|key| + 1..|key| + 1 + |value| + 1] == value + [0]
  {
    CarriesPiece(it, body, 0, Piece(8, key + [0]));
    CarriesPiece(it, body, 1, Piece(8 + |key| + 1, value + [0]));
  }

  lemma FieldStrings(it: Item, body: seq<Byte>, key: seq<Byte>, value: seq<Byte>)
    requires Carries(it, body) && it.pieces == HwinfoFieldPieces(key, value) && 8 + |key| + |value| + 2 <= it.size
    requires 0 !in key && 0 !in value
    ensures StrLen(body) == |key| && body[..|key|] == key
    ensures |key| + 1 <= |body| && StrLen(body[|key| + 1..]) == |value| && body[|key| + 1..][..|value|] == value
  {
    FieldInItem(it, body, key, value);
    TwoStrings(body, key, value);
  }

  lemma FieldItemIs(env: Env, t: Tlv)
    requires t.typ == TYPE_HWINFO_FIELD && Refusal(env, t) == 0 && RawSize(env, t) < 0x1_0000_0000
    ensures ItemOf(env, t).pieces == HwinfoFieldPieces(Key(t), env.field[Key(t)])
    ensures 8 + |Key(t)| + |env.field[Key(t)]| + 2 <= ItemOf(env, t).size
  {
  }

  /** A hwinfo field is dumped as two strings: the name that was asked for and its value. */
  lemma FieldHoldsKeyAndValue(env: Env, t: Tlv, body: seq<Byte>)
    requires t.typ == TYPE_HWINFO_FIELD && Refusal(env, t) == 0 && 0 !in env.field[Key(t)]
    requires RawSize(env, t) < 0x1_0000_0000 && Carries(ItemOf(env, t), body)
    ensures var key, value := Key(t), env.field[Key(t)];
            StrLen(body) == |key| && body[..|key|] == key
            && |key| + 1 <= |body| && StrLen(body[|key| + 1..]) == |value| && body[|key| + 1..][..|value|] == value
  {
    FieldItemIs(env, t);
    FieldStrings(ItemOf(env, t), body, Key(t), env.field[Key(t)]);
  }

  /** Name, size and data of a symbol are where its header says. */
  predicate HoldsSymbol(body: seq<Byte>, key: seq<Byte>, header: nat, data: seq<Byte>) {
    8 <= header && header - 8 + |data| <= |body| && 18 + |key| <= |body|
    && body[header - 8..header - 8 + |data|] == data && body[17..18 + |key|] == key + [0]
    && body[8..12] == ToBe32(|data|) && body[16] == (header - 25) % 256 && 26 + |key| <= header < 34 + |key|
  }

  lemma SymbolUndisturbed(key: seq<Byte>, sym: Sym, size: nat)
    requires Checked(sym.data(size), size).err == 0
    ensures var ps := RtsymName(key, size) + RtsymPlace(sym) + RtsymData(sym, size, RtsymHeader(key));
            |ps| >= 4 && ps[|ps| - 1] == Piece(RtsymHeader(key), Checked(sym.data(size), size).bytes)
            && ps[0] == Piece(24, [(RtsymHeader(key) - 25) % 256]) && Undisturbed(ps, 0)
            && ps[1] == Piece(25, key + [0]) && ps[2] == Piece(16, ToBe32(size))
            && Undisturbed(ps, 1) && Undisturbed(ps, 2) && Undisturbed(ps, |ps| - 1)
  {
  }

  lemma ThreePieces(it: Item, body: seq<Byte>, key: seq<Byte>, header: nat, data: seq<Byte>)
    requires Carries(it, body) && 4 <= |it.pieces| && 26 + |key| <= header < 34 + |key| && header + |data| <= it.size
    requires it.pieces[0] == Piece(24, [(header - 25) % 256]) && Undisturbed(it.pieces, 0)
    requires it.pieces[|it.pieces| - 1] == Piece(header, data) && Undisturbed(it.pieces, |it.pieces| - 1)
    requires it.pieces[1] == Piece(25, key + [0]) && Undisturbed(it.pieces, 1)
    requires it.pieces[2] == Piece(16, ToBe32(|data|)) && Undisturbed(it.pieces, 2)
    ensures HoldsSymbol(body, key, header, data)
  {
    CarriesPiece(it, body, 0, it.pieces[0]);
    assert body[16] == body[16..17][0];
    CarriesPiece(it, body, |it.pieces| - 1, Piece(header, data));
    CarriesPiece(it, body, 1, Piece(25, key + [0]));
    CarriesPiece(it, body, 2, Piece(16, ToBe32(|data|)));
  }

  lemma NotCut(h: nat, n: nat)
    requires h + Align8(n) < 0x1_0000_0000
    ensures U32(n) == n && U32(h + Align8(n)) == h + Align8(n)
  {
  }

  lemma SymbolItemIs(env: Env, t: Tlv, sym: Sym)
    requires t.typ == TYPE_RTSYM && Refusal(env, t) == 0 && sym == env.syms[Key(t)] && RawSize(env, t) < 0x1_0000_0000
    ensures ItemOf(env, t).pieces ==
            RtsymName(Key(t), sym.size) + RtsymPlace(sym) + RtsymData(sym, sym.size, RtsymHeader(Key(t)))
    ensures RtsymHeader(Key(t)) + sym.size <= ItemOf(env, t).size
  {
    NotCut(RtsymHeader(Key(t)), sym.size);
  }

  /** A symbol that can be read is dumped whole, behind its header. */
  lemma SymbolHoldsData(env: Env, t: Tlv, body: seq<Byte>, sym: Sym)
    requires t.typ == TYPE_RTSYM && Refusal(env, t) == 0 && sym == env.syms[Key(t)]
    requires RawSize(env, t) < 0x1_0000_0000 && Carries(ItemOf(env, t), body)
    requires sym.data(sym.size).Data? && |sym.data(sym.size).bytes| == sym.size
    ensures HoldsSymbol(body, Key(t), RtsymHeader(Key(t)), sym.data(sym.size).bytes)
  {
    SymbolItemIs(env, t, sym);
    SymbolUndisturbed(Key(t), sym, sym.size);
    ThreePieces(ItemOf(env, t), body, Key(t), RtsymHeader(Key(t)), sym.data(sym.size).bytes);
  }

  /** What a failed or short read of a symbol is reported as. */
  function ReadCode(r: Read): int { if r.Fail? && r.code < 0 then r.code else EIO }

  /** A symbol that cannot be read, or not whole, has the reason in its header. */
  lemma SymbolNotesError(env: Env, t: Tlv, body: seq<Byte>, sym: Sym)
    requires t.typ == TYPE_RTSYM && Refusal(env, t) == 0 && sym == env.syms[Key(t)]
    requires RawSize(env, t) < 0x1_0000_0000 && Carries(ItemOf(env, t), body)
    requires sym.data(sym.size).Fail? || |sym.data(sym.size).bytes| != sym.size
    ensures 16 <= |body| && body[12..16] == ToBe32(ReadCode(sym.data(sym.size)))
  {
    var e := ReadCode(sym.data(sym.size));
    SymbolItemIs(env, t, sym);
    ErrorLast(Key(t), sym, sym.size, e);
    var it := ItemOf(env, t);
    CarriesPiece(it, body, |it.pieces| - 1, Piece(20, ToBe32(e)));
  }

  lemma ErrorLast(key: seq<Byte>, sym: Sym, size: nat, e: int)
    requires Checked(sym.data(size), size).err == e != 0
    ensures var ps := RtsymName(key, size) + RtsymPlace(sym) + RtsymData(sym, size, RtsymHeader(key));
            |ps| > 0 && ps[|ps| - 1] == Piece(20, ToBe32(e)) && Undisturbed(ps, |ps| - 1)
  {
  }

  /** A number that does not fit is written without its upper part. */
  lemma Be32Low(n: nat)
    ensures Be32(ToBe32(n), 0) == U32(n)
  {
    var n1 := n / 256;
    var n2 := n1 / 256;
    var n3 := n2 / 256;
    assert ToBe(n3, 1) == [n3 % 256];
    assert ToBe(n2, 2) == [n3 % 256, n2 % 256];
    assert ToBe32(n) == [n3 % 256, n2 % 256, n1 % 256, n % 256] by {
      assert ToBe(n1, 3) == ToBe(n2, 2) + [n1 % 256];
    }
    LowPart(n, n1, n2, n3);
  }

  lemma LowPart(n: nat, n1: nat, n2: nat, n3: nat)
    requires n1 == n / 256 && n2 == n1 / 256 && n3 == n2 / 256
    ensures n3 % 256 * 0x100_0000 + n2 % 256 * 0x1_0000 + n1 % 256 * 0x100 + n % 256 == U32(n)
  {
    var low := n3 % 256 * 0x100_0000 + n2 % 256 * 0x1_0000 + n1 % 256 * 0x100 + n % 256;
    assert n == 0x1_0000_0000 * (n3 / 256) + low;
  }

  /** The place of a symbol that is not absolute: target, read-write action, no token, island, and the address without
      its upper part. */
  lemma SymbolHoldsPlace(env: Env, t: Tlv, body: seq<Byte>, sym: Sym)
    requires t.typ == TYPE_RTSYM && Refusal(env, t) == 0 && sym == env.syms[Key(t)] && !sym.absolute
    requires RawSize(env, t) < 0x1_0000_0000 && Carries(ItemOf(env, t), body)
    ensures 8 <= |body| && body[0..4] == [sym.target, ACTION_RW, 0, sym.domain] && Be32(body, 4) == U32(sym.addr)
  {
    SymbolItemIs(env, t, sym);
    PlaceUndisturbed(Key(t), sym, sym.size);
    PlaceFound(ItemOf(env, t), body, sym);
  }

  lemma PlaceUndisturbed(key: seq<Byte>, sym: Sym, size: nat)
    requires !sym.absolute
    ensures var ps := RtsymName(key, size) + RtsymPlace(sym) + RtsymData(sym, size, RtsymHeader(key));
            |ps| >= 5 && ps[3] == Piece(8, [sym.target, ACTION_RW, 0, sym.domain])
            && ps[4] == Piece(12, ToBe32(sym.addr))
            && Undisturbed(ps, 3) && Undisturbed(ps, 4)
  {
  }

  lemma PlaceFound(it: Item, body: seq<Byte>, sym: Sym)
    requires Carries(it, body) && |it.pieces| >= 5 && 16 <= it.size
    requires it.pieces[3] == Piece(8, [sym.target, ACTION_RW, 0, sym.domain]) && Undisturbed(it.pieces, 3)
    requires it.pieces[4] == Piece(12, ToBe32(sym.addr)) && Undisturbed(it.pieces, 4)
    ensures 8 <= |body| && body[0..4] == [sym.target, ACTION_RW, 0, sym.domain] && Be32(body, 4) == U32(sym.addr)
  {
    CarriesPiece(it, body, 3, it.pieces[3]);
    CarriesPiece(it, body, 4, it.pieces[4]);
    assert forall i :: 0 <= i < 4 ==> body[4 + i] == body[4..8][i] == ToBe32(sym.addr)[i];
    Be32Low(sym.addr);
  }

  /** The firmware name is dumped whole, with room for a terminating zero. */
  lemma FwnameHoldsName(env: Env, t: Tlv, body: seq<Byte>)
    requires t.typ == TYPE_FWNAME && RawSize(env, t) < 0x1_0000_0000 && Carries(ItemOf(env, t), body)
    ensures ItemOf(env, t).typ == TYPE_FWNAME && |env.fwname| < |body| && body[..|env.fwname|] == env.fwname
  {
    PassesAgree(env, t);
    NarrowSize(env, t);
    CarriesPiece(ItemOf(env, t), body, 0, Piece(8, env.fwname));
  }

  /** The hwinfo strings are dumped whole. */
  lemma HwinfoHoldsAll(env: Env, t: Tlv, body: seq<Byte>)
    requires t.typ == TYPE_HWINFO && RawSize(env, t) < 0x1_0000_0000 && Carries(ItemOf(env, t), body)
    ensures ItemOf(env, t).typ == TYPE_HWINFO && |env.hwinfo| <= |body| && body[..|env.hwinfo|] == env.hwinfo
  {
    PassesAgree(env, t);
    NarrowSize(env, t);
    CarriesPiece(ItemOf(env, t), body, 0, Piece(8, env.hwinfo));
  }

  // ---- registers ----

  /** A piece is copied and not overwritten by what is copied after it. */
  ghost predicate Landed(ps: seq<Piece>, p: Piece) {
    exists k :: 0 <= k < |ps| && ps[k] == p && Undisturbed(ps, k)
  }

  predicate AllApart(ps: seq<Piece>, p: Piece) {
    forall i :: 0 <= i < |ps| ==> Apart(ps[i], p.off, p.off + |p.bytes|)
  }

  lemma LandedBefore(ps: seq<Piece>, qs: seq<Piece>, p: Piece)
    requires Landed(ps, p) && AllApart(qs, p)
    ensures Landed(ps + qs, p)
  {
    var all := ps + qs;
    var k :| 0 <= k < |ps| && ps[k] == p && Undisturbed(ps, k);
    forall i | k < i < |all| ensures Apart(all[i], p.off, p.off + |p.bytes|) {
      assert all[i] == if i < |ps| then ps[i] else qs[i - |ps|];
    }
    assert all[k] == p && Undisturbed(all, k);
  }

  lemma LandedBehind(ps: seq<Piece>, qs: seq<Piece>, p: Piece)
    requires Landed(qs, p)
    ensures Landed(ps + qs, p)
  {
    var all := ps + qs;
    var k :| 0 <= k < |qs| && qs[k] == p && Undisturbed(qs, k);
    forall i | |ps| + k < i < |all| ensures Apart(all[i], p.off, p.off + |p.bytes|) {
      assert all[i] == qs[i - |ps|];
    }
    assert all[|ps| + k] == p && Undisturbed(all, |ps| + k);
  }

  lemma LandedAlone(p: Piece)
    ensures Landed([p], p)
  {
    assert [p][0] == p && Undisturbed([p], 0);
  }

  lemma LandedCarried(it: Item, body: seq<Byte>, p: Piece)
    requires Carries(it, body) && Landed(it.pieces, p) && 8 <= p.off && p.off + |p.bytes| <= it.size
    ensures body[p.off - 8..p.off - 8 + |p.bytes|] == p.bytes
  {
    var k :| 0 <= k < |it.pieces| && it.pieces[k] == p && Undisturbed(it.pieces, k);
    CarriesPiece(it, body, k, p);
  }

  lemma ClearApart(ps: seq<Piece>, p: Piece)
    requires 32 <= p.off && Clear(ps, p.off + |p.bytes|)
    ensures AllApart(ps, p)
  {
  }

  lemma LandsUnlessTouched(ps: seq<Piece>, rest: seq<Piece>, p: Piece, lo: nat)
    requires Landed(ps, p) && 32 <= p.off && p.off + |p.bytes| <= lo && Clear(rest, lo)
    ensures Landed(ps + rest, p)
  {
    ClearApart(rest, p);
    LandedBefore(ps, rest, p);
  }

  lemma RangeParts(turn: (nat, nat) -> Copied, r: nat, stride: nat, addr: nat, max: nat, dest: nat, left: nat)
      returns (rest: seq<Piece>)
    requires 0 < r <= left && Onward(turn) && addr < max && 32 <= dest
    ensures Clear(rest, dest + stride)
    ensures Range(turn, r, stride, addr, max, dest, left).pieces == turn(addr, dest).pieces + rest
  {
    var c := turn(addr, dest);
    if c.err != 0 {
      rest := ReadError(c.err, addr);
    } else {
      rest := Range(turn, r, stride, U32(addr + r), max, dest + stride, left - r).pieces;
      RangeClear(turn, r, stride, U32(addr + r), max, dest + stride, left - r, dest + stride);
    }
  }

  /** The first k registers of a range can be read. */
  ghost predicate TurnsOk(turn: (nat, nat) -> Copied, r: nat, addr: nat, k: nat)
    decreases k
  {
    k > 0 ==> TurnOk(turn, addr) && TurnsOk(turn, r, addr + r, k - 1)
  }

  /** What is copied in turn k of the loop, and not overwritten in that turn, is not overwritten later. */
  lemma {:induction false} RangeLands(turn: (nat, nat) -> Copied, r: nat, stride: nat, addr: nat, max: nat, dest: nat,
                                      left: nat, k: nat, p: Piece)
    requires 0 < r && Onward(turn) && 32 <= dest && addr + Span(k, r) < max < ADDRESSES && Span(k, r) + r <= left
    requires TurnsOk(turn, r, addr, k) && Landed(turn(addr + Span(k, r), dest + Span(k, stride)).pieces, p)
    requires dest <= p.off && p.off + |p.bytes| <= dest + Span(k, stride) + stride
    requires dest + Span(k, stride) <= p.off
    ensures Landed(Range(turn, r, stride, addr, max, dest, left).pieces, p)
    decreases k
  {
    if k == 0 {
      var rest := RangeParts(turn, r, stride, addr, max, dest, left);
      LandsUnlessTouched(turn(addr, dest).pieces, rest, p, dest + stride);
    } else {
      RangeLands(turn, r, stride, addr + r, max, dest + stride, left - r, k - 1, p);
      assert turn(addr, dest).err == 0 && U32(addr + r) == addr + r;
      LandedBehind(turn(addr, dest).pieces, Range(turn, r, stride, addr + r, max, dest + stride, left - r).pieces, p);
    }
  }

  /** Error and address are copied to their places and not overwritten. */
  ghost predicate Notes(ps: seq<Piece>, e: int, addr: nat) {
    Landed(ps, Piece(24, ToBe32(e))) && Landed(ps, Piece(28, ToBe32(addr)))
  }

  lemma ErrorLands(code: int, addr: nat)
    ensures Notes(ReadError(code, addr), code, addr)
  {
    var ps := ReadError(code, addr);
    assert ps[0] == Piece(24, ToBe32(code)) && Undisturbed(ps, 0);
    assert ps[1] == Piece(28, ToBe32(addr)) && Undisturbed(ps, 1);
  }

  lemma NotesBehind(first: seq<Piece>, rest: seq<Piece>, e: int, addr: nat)
    requires Notes(rest, e, addr)
    ensures Notes(first + rest, e, addr)
  {
    LandedBehind(first, rest, Piece(24, ToBe32(e)));
    LandedBehind(first, rest, Piece(28, ToBe32(addr)));
  }

  lemma RangeStops(turn: (nat, nat) -> Copied, r: nat, stride: nat, addr: nat, max: nat, dest: nat, left: nat, e: int)
    requires 0 < r <= left && addr < max && turn(addr, dest).err == e != 0
    ensures Range(turn, r, stride, addr, max, dest, left).pieces == turn(addr, dest).pieces + ReadError(e, addr)
  {
  }

  lemma RangeNext(turn: (nat, nat) -> Copied, r: nat, stride: nat, addr: nat, max: nat, dest: nat, left: nat)
    requires 0 < r <= left && addr < max && addr + r < ADDRESSES && turn(addr, dest).err == 0
    ensures Range(turn, r, stride, addr, max, dest, left).pieces ==
            turn(addr, dest).pieces + Range(turn, r, stride, addr + r, max, dest + stride, left - r).pieces
  {
    assert U32(addr + r) == addr + r;
  }

  /** The loop ends at the first turn that fails, and notes its error and its address. */
  lemma {:induction false} RangeNotes(turn: (nat, nat) -> Copied, r: nat, stride: nat, addr: nat, max: nat, dest: nat,
                                      left: nat, k: nat, at: nat, e: int)
    requires 0 < r && at == addr + Span(k, r) < max < ADDRESSES && Span(k, r) + r <= left
    requires TurnsOk(turn, r, addr, k) && turn(at, dest + Span(k, stride)).err == e != 0
    ensures Notes(Range(turn, r, stride, addr, max, dest, left).pieces, e, at)
    decreases k
  {
    var first := turn(addr, dest).pieces;
    var rest := ReadError(e, addr);
    if k == 0 {
      RangeStops(turn, r, stride, addr, max, dest, left, e);
      ErrorLands(e, addr);
    } else {
      assert turn(addr, dest).err == 0;
      rest := Range(turn, r, stride, addr + r, max, dest + stride, left - r).pieces;
      RangeNext(turn, r, stride, addr, max, dest, left);
      RangeNotes(turn, r, stride, addr + r, max, dest + stride, left - r, k - 1, at, e);
    }
    NotesBehind(first, rest, e, at);
  }

  lemma {:induction false} SpanIs(k: nat)
    ensures Span(k, 4) == 4 * k && Span(k, 8) == 8 * k
  {
    if k > 0 {
      SpanIs(k - 1);
    }
  }

  lemma SpanInside(k: nat, r: nat)
    requires RegWidth(r) && Span(k, r) < ADDRESSES
    ensures Span(k, r) + r <= ADDRESSES
  {
    SpanIs(k);
  }

  lemma {:induction false} SpanFits(k: nat, r: nat, n: nat)
    requires RegWidth(r) && Span(k, r) < n
    ensures Span(k, r) + r <= RoundReg(n, r)
  {
    if k > 0 {
      SpanFits(k - 1, r, n - r);
    }
  }

  /** The TLV is a header and what the loop copies. */
  ghost predicate Dumps(it: Item, header: seq<Piece>, turn: (nat, nat) -> Copied, r: nat, stride: nat, addr: nat,
                        n: nat)
  {
    RegWidth(r) && Onward(turn) && addr + n < ADDRESSES
    && it.pieces == header + Range(turn, r, stride, addr, addr + n, 32, ADDRESSES).pieces
  }

  /** What turn k copies for the TLV, and does not overwrite, is not overwritten later. */
  lemma DumpLands(it: Item, header: seq<Piece>, turn: (nat, nat) -> Copied, r: nat, stride: nat, addr: nat, n: nat,
                  k: nat, p: Piece, dest: nat)
    requires Dumps(it, header, turn, r, stride, addr, n) && dest == 32 + Span(k, stride)
    requires Span(k, r) < n && TurnsOk(turn, r, addr, k) && Landed(turn(addr + Span(k, r), dest).pieces, p)
    requires dest <= p.off && p.off + |p.bytes| <= dest + stride
    ensures Landed(it.pieces, p)
  {
    SpanInside(k, r);
    RangeLands(turn, r, stride, addr, addr + n, 32, ADDRESSES, k, p);
    LandedBehind(header, Range(turn, r, stride, addr, addr + n, 32, ADDRESSES).pieces, p);
  }

  /** What turn k copies into the TLV is found there. */
  lemma DumpHolds(it: Item, body: seq<Byte>, header: seq<Piece>, turn: (nat, nat) -> Copied, r: nat, stride: nat,
                  addr: nat, n: nat, k: nat, at: nat, bytes: seq<Byte>, dest: nat)
    requires Dumps(it, header, turn, r, stride, addr, n) && Carries(it, body) && dest == 32 + Span(k, stride)
    requires Span(k, r) < n && TurnsOk(turn, r, addr, k)
    requires Landed(turn(addr + Span(k, r), dest).pieces, Piece(at + 8, bytes))
    requires dest <= at + 8 && at + 8 + |bytes| <= dest + stride && at + |bytes| <= |body|
    ensures body[at..at + |bytes|] == bytes
  {
    DumpLands(it, header, turn, r, stride, addr, n, k, Piece(at + 8, bytes), dest);
    LandedCarried(it, body, Piece(at + 8, bytes));
  }

  lemma NotesLand(it: Item, header: seq<Piece>, turn: (nat, nat) -> Copied, r: nat, stride: nat, addr: nat, n: nat,
                  k: nat, at: nat, dest: nat, e: int)
    requires Dumps(it, header, turn, r, stride, addr, n) && dest == 32 + Span(k, stride)
    requires Span(k, r) < n && at == addr + Span(k, r) && TurnsOk(turn, r, addr, k) && turn(at, dest).err == e != 0
    ensures Notes(it.pieces, e, at)
  {
    SpanInside(k, r);
    RangeNotes(turn, r, stride, addr, addr + n, 32, ADDRESSES, k, at, e);
    NotesBehind(header, Range(turn, r, stride, addr, addr + n, 32, ADDRESSES).pieces, e, at);
  }

  lemma NotesCarried(it: Item, body: seq<Byte>, e: int, at: nat)
    requires Carries(it, body) && 24 <= |body| && Notes(it.pieces, e, at)
    ensures body[16..20] == ToBe32(e) && body[20..24] == ToBe32(at)
  {
    LandedCarried(it, body, Piece(24, ToBe32(e)));
    LandedCarried(it, body, Piece(28, ToBe32(at)));
  }

  /** The header of a range that ends early has the error and the address of the register that could not be read. */
  lemma DumpNotes(it: Item, body: seq<Byte>, header: seq<Piece>, turn: (nat, nat) -> Copied, r: nat, stride: nat,
                  addr: nat, n: nat, k: nat, at: nat, dest: nat, e: int)
    requires Dumps(it, header, turn, r, stride, addr, n) && Carries(it, body) && 24 <= |body|
    requires Span(k, r) < n && at == addr + Span(k, r) && TurnsOk(turn, r, addr, k)
    requires dest == 32 + Span(k, stride) && turn(at, dest).err == e != 0
    ensures body[16..20] == ToBe32(e) && body[20..24] == ToBe32(at)
  {
    NotesLand(it, header, turn, r, stride, addr, n, k, at, dest, e);
    NotesCarried(it, body, e, at);
  }

  lemma CsrSizeIs(env: Env, t: Tlv)
    requires t.typ <= TYPE_ME_CSR && CsrValid(t) && RawSize(env, t) < ADDRESSES
    ensures ItemOf(env, t).size == 32 + Align8(DumpLen(t))
  {
  }

  lemma CsrItemIs(env: Env, t: Tlv, turn: (nat, nat) -> Copied, r: nat)
    requires t.typ <= TYPE_ME_CSR && CsrValid(t) && CsrAddr(t) + DumpLen(t) < ADDRESSES
    requires r == RegSize(t) && turn == RegTurn(env, t.body[..4], r)
    ensures Dumps(ItemOf(env, t), CsrHeader(t), turn, r, r, CsrAddr(t), DumpLen(t))
  {
    MaxAddrIs(t);
    RegTurnOnward(env, t.body[..4], r);
  }

  lemma RegFits(k: nat, r: nat, n: nat, size: nat)
    requires RegWidth(r) && Span(k, r) < n && size == 32 + Align8(n)
    ensures 32 + Span(k, r) + r <= size
  {
    SpanFits(k, r, n);
    RoundRegAligned(n, r);
  }

  lemma RegTurnLands(env: Env, id: seq<Byte>, r: nat, addr: nat, dest: nat)
    requires RegWidth(r)
    ensures var reg := ReadReg(env, id, r, addr).bytes;
            |reg| <= r && Landed(RegTurn(env, id, r)(addr, dest).pieces, Piece(dest, reg))
  {
    LandedAlone(Piece(dest, ReadReg(env, id, r, addr).bytes));
  }

  lemma CsrInItem(env: Env, id: seq<Byte>, it: Item, body: seq<Byte>, header: seq<Piece>, turn: (nat, nat) -> Copied,
                  r: nat, addr: nat, n: nat, k: nat, at: nat, reg: seq<Byte>)
    requires Dumps(it, header, turn, r, r, addr, n) && it.size == 32 + Align8(n) && Carries(it, body)
    requires turn == RegTurn(env, id, r) && Span(k, r) < n && TurnsOk(turn, r, addr, k)
    requires at == 24 + Span(k, r) && reg == ReadReg(env, id, r, addr + Span(k, r)).bytes
    ensures at + |reg| <= |body| && body[at..at + |reg|] == reg
  {
    RegFits(k, r, n, it.size);
    RegTurnLands(env, id, r, addr + Span(k, r), at + 8);
    DumpHolds(it, body, header, turn, r, r, addr, n, k, at, reg, at + 8);
  }

  /** Register k of a CSR range, as far as it can be read, is found at its place if those before it can be read. */
  lemma CsrHoldsRegister(env: Env, t: Tlv, it: Item, body: seq<Byte>, turn: (nat, nat) -> Copied, r: nat, addr: nat,
                         n: nat, k: nat, at: nat, reg: seq<Byte>)
    requires t.typ <= TYPE_ME_CSR && CsrValid(t) && r == RegSize(t) && addr == CsrAddr(t) && n == DumpLen(t)
    requires addr + n < ADDRESSES && RawSize(env, t) < ADDRESSES && it == ItemOf(env, t) && Carries(it, body)
    requires Span(k, r) < n && turn == RegTurn(env, t.body[..4], r) && TurnsOk(turn, r, addr, k)
    requires at == 24 + Span(k, r) && reg == ReadReg(env, t.body[..4], r, addr + Span(k, r)).bytes
    ensures at + |reg| <= |body| && body[at..at + |reg|] == reg
  {
    CsrSizeIs(env, t);
    CsrItemIs(env, t, turn, r);
    CsrInItem(env, t.body[..4], it, body, CsrHeader(t), turn, r, addr, n, k, at, reg);
  }

  /** How much of a register is read at once: XPB registers have 32 bits, whatever is asked for. */
  function Width(id: seq<Byte>, r: nat): nat
    requires |id| == 4
  {
    if id[0] == 14 && id[1] == 0 && id[2] == 0 then 4 else r
  }

  /** Reading a register gives what the device gives for that width; a failed or short read is -EIO, except that an XPB
      read reports its own error. */
  lemma ReadRegExactly(env: Env, id: seq<Byte>, r: nat, addr: nat)
    requires |id| == 4
    ensures var b, w := ReadReg(env, id, r, addr), Width(id, r);
            var got := env.read(id, addr, w);
            (b.err == 0 <==> got.Data? && |got.bytes| == w) && (b.err == 0 ==> b.bytes == got.bytes)
            && (b.err != 0 ==> b.err == if IsXpb(id) then ReadCode(got) else EIO)
    ensures IsXpb(id) <==> id[0] == 14 && id[1] == 0 && id[2] == 0
  {
  }

  /** Register k of a CSR range, if it and those before it can be read, is found at its place. */
  lemma CsrHoldsValue(env: Env, t: Tlv, it: Item, body: seq<Byte>, turn: (nat, nat) -> Copied, r: nat, addr: nat,
                      n: nat, k: nat, at: nat)
    requires t.typ <= TYPE_ME_CSR && CsrValid(t) && r == RegSize(t) && addr == CsrAddr(t) && n == DumpLen(t)
    requires addr + n < ADDRESSES && RawSize(env, t) < ADDRESSES && it == ItemOf(env, t) && Carries(it, body)
    requires Span(k, r) < n && at == 24 + Span(k, r)
    requires turn == RegTurn(env, t.body[..4], r) && TurnsOk(turn, r, addr, k)
    requires ReadReg(env, t.body[..4], r, addr + Span(k, r)).err == 0
    ensures var w := Width(t.body[..4], r);
            at + w <= |body| && env.read(t.body[..4], addr + Span(k, r), w) == Data(body[at..at + w])
  {
    var id := t.body[..4];
    ReadRegExactly(env, id, r, addr + Span(k, r));
    CsrHoldsRegister(env, t, it, body, turn, r, addr, n, k, at, ReadReg(env, id, r, addr + Span(k, r)).bytes);
  }

  /** If register k is the first that cannot be read, error and address are noted in the header of the range. */
  lemma CsrNotesError(env: Env, t: Tlv, it: Item, body: seq<Byte>, turn: (nat, nat) -> Copied, r: nat, addr: nat,
                      n: nat, k: nat, at: nat, e: int)
    requires t.typ <= TYPE_ME_CSR && CsrValid(t) && r == RegSize(t) && addr == CsrAddr(t) && n == DumpLen(t)
    requires addr + n < ADDRESSES && RawSize(env, t) < ADDRESSES && it == ItemOf(env, t) && Carries(it, body)
    requires Span(k, r) < n && turn == RegTurn(env, t.body[..4], r) && TurnsOk(turn, r, addr, k)
    requires at == addr + Span(k, r) && e == ReadReg(env, t.body[..4], r, at).err != 0
    ensures 24 <= |body| && body[16..20] == ToBe32(e) && body[20..24] == ToBe32(at)
  {
    CsrSizeIs(env, t);
    CsrItemIs(env, t, turn, r);
    DumpNotes(it, body, CsrHeader(t), turn, r, r, addr, n, k, at, 32 + Span(k, r), e);
  }

  // ---- indirect registers ----

  /** Contexts 0 to c of the register can be read. */
  ghost predicate ContextsUpTo(read: (nat, nat, nat) -> Copied, addr: nat, c: nat) {
    forall ctx: nat, dest: nat :: ctx <= c ==> read(addr, ctx, dest).err == 0
  }

  /** What reading context c stores, and does not overwrite, is among the pieces of the register. */
  lemma {:induction false} ContextLands(read: (nat, nat, nat) -> Copied, r: nat, addr: nat, ctx: nat, dest: nat, c: nat,
                                        p: Piece)
    requires StoresAt(read) && ctx <= c < IND_CONTEXTS && ContextsUpTo(read, addr, c) && 32 <= dest
    requires p.off == dest + Span(c - ctx, r) && |p.bytes| <= r && Landed(read(addr, c, p.off).pieces, p)
    ensures Landed(ReadContexts(read, r, addr, ctx, dest).pieces, p)
    decreases addr, c - ctx
  {
    var first, rest := read(addr, ctx, dest).pieces, ReadContexts(read, r, addr, ctx + 1, dest + r).pieces;
    if ctx == c {
      ContextsStart(read, r, addr, ctx + 1, dest + r);
      FromClear(rest, dest + r, p.off + |p.bytes|);
      ClearApart(rest, p);
      LandedBefore(first, rest, p);
    } else {
      ContextLands(read, r, addr, ctx + 1, dest + r, c, p);
      LandedBehind(first, rest, p);
    }
  }

  lemma {:induction false} SpanBelow(c: nat, d: nat, r: nat)
    requires c < d
    ensures Span(c, r) + r <= Span(d, r)
  {
    if c > 0 {
      SpanBelow(c - 1, d - 1, r);
    }
  }

  lemma ValueLands(env: Env, id: seq<Byte>, r: nat, addr: nat, ctx: nat, dest: nat)
    requires ReadContext(env, id, r, addr, ctx, dest).err == 0
    ensures var value := Checked(env.indirect(id, addr, r, ctx), r).bytes;
            Landed(ReadContext(env, id, r, addr, ctx, dest).pieces, Piece(dest, value))
            && |value| == r && env.indirect(id, addr, r, ctx) == Data(value)
  {
    var p := Piece(dest, Checked(env.pointer(id, addr, r, ctx), r).bytes);
    var q := Piece(dest, Checked(env.indirect(id, addr, r, ctx), r).bytes);
    LandedAlone(q);
    LandedBehind([p], [q], q);
    LandedBehind([], [p] + [q], q);
  }

  /** The turns read all contexts of a register of the device. */
  ghost predicate ByContexts(turn: (nat, nat) -> Copied, read: (nat, nat, nat) -> Copied, env: Env, id: seq<Byte>,
                             r: nat)
  {
    TurnsBy(turn, read, r) && Reads(read, env, id, r) && StoresAt(read)
  }

  lemma ContextRead(read: (nat, nat, nat) -> Copied, addr: nat, c: nat, dest: nat)
    requires ContextsUpTo(read, addr, c)
    ensures read(addr, c, dest).err == 0
  {
  }

  lemma RegisterLands(env: Env, id: seq<Byte>, read: (nat, nat, nat) -> Copied, r: nat, addr: nat, c: nat, dest: nat,
                      p: Piece)
    requires 32 <= dest && c < IND_CONTEXTS && Reads(read, env, id, r) && StoresAt(read) && ContextsUpTo(read, addr, c)
    requires p == Piece(dest + Span(c, r), Checked(env.indirect(id, addr, r, c), r).bytes)
    ensures Landed(ReadContexts(read, r, addr, 0, dest).pieces, p)
    ensures |p.bytes| == r && env.indirect(id, addr, r, c) == Data(p.bytes)
  {
    assert read(addr, c, p.off) == ReadContext(env, id, r, addr, c, p.off);
    ContextRead(read, addr, c, p.off);
    ValueLands(env, id, r, addr, c, p.off);
    ContextLands(read, r, addr, 0, dest, c, p);
  }

  lemma TurnLands(turn: (nat, nat) -> Copied, read: (nat, nat, nat) -> Copied, env: Env, id: seq<Byte>, r: nat,
                  addr: nat, c: nat, dest: nat, off: nat, value: seq<Byte>)
    requires 32 <= dest && c < IND_CONTEXTS && ByContexts(turn, read, env, id, r) && ContextsUpTo(read, addr, c)
    requires off == dest + Span(c, r) && value == Checked(env.indirect(id, addr, r, c), r).bytes
    ensures Landed(turn(addr, dest).pieces, Piece(off, value)) && off + |value| <= dest + r * IND_CONTEXTS
    ensures |value| == r && env.indirect(id, addr, r, c) == Data(value)
  {
    RegisterLands(env, id, read, r, addr, c, dest, Piece(off, value));
    ContextFits(c, r);
  }

  lemma ContextFits(c: nat, r: nat)
    requires c < IND_CONTEXTS
    ensures Span(c, r) + r <= r * IND_CONTEXTS
  {
    SpanBelow(c, IND_CONTEXTS, r);
    SpanAll(r);
  }

  lemma IndirectInItem(env: Env, id: seq<Byte>, it: Item, body: seq<Byte>, header: seq<Piece>,
                       turn: (nat, nat) -> Copied, read: (nat, nat, nat) -> Copied, r: nat, stride: nat, addr: nat,
                       n: nat, k: nat, reg: nat, c: nat, at: nat)
    requires Dumps(it, header, turn, r, stride, addr, n) && ByContexts(turn, read, env, id, r) && Carries(it, body)
    requires stride == r * IND_CONTEXTS && Span(k, r) < n && TurnsOk(turn, r, addr, k)
    requires c < IND_CONTEXTS && reg == addr + Span(k, r) && ContextsUpTo(read, reg, c)
    requires at == 24 + Span(k, stride) + Span(c, r) && at + r <= |body|
    ensures env.indirect(id, reg, r, c) == Data(body[at..at + r])
  {
    var dest, value := 32 + Span(k, stride), Checked(env.indirect(id, reg, r, c), r).bytes;
    TurnLands(turn, read, env, id, r, reg, c, dest, at + 8, value);
    DumpHolds(it, body, header, turn, r, stride, addr, n, k, at, value, dest);
  }

  lemma IndirectTurns(env: Env, t: Tlv, turn: (nat, nat) -> Copied, read: (nat, nat, nat) -> Copied, r: nat)
    requires CsrValid(t) && r == RegSize(t) && turn == IndirectTurn(env, t) && read == Contexts(env, t.body[..4], r)
    ensures Onward(turn) && ByContexts(turn, read, env, t.body[..4], r)
  {
    IndirectTurnOnward(env, t);
    ContextTurns(read, r);
    ContextsRead(env, t.body[..4], r);
    ContextsStore(env, t.body[..4], r);
  }

  lemma IndirectPieces(env: Env, t: Tlv)
    requires IsIndirect(t)
    ensures ItemOf(env, t).pieces == CsrHeader(t) + IndirectRange(env, t).pieces
  {
  }

  lemma IndirectRangeIs(env: Env, t: Tlv, turn: (nat, nat) -> Copied, r: nat, addr: nat, max: nat)
    requires IsIndirect(t) && turn == IndirectTurn(env, t) && r == RegSize(t) && addr == CsrAddr(t) && max == MaxAddr(t)
    ensures IndirectRange(env, t) == Range(turn, r, r * IND_CONTEXTS, addr, max, 32, ADDRESSES)
  {
  }

  lemma IndirectItemIs(env: Env, t: Tlv, turn: (nat, nat) -> Copied, read: (nat, nat, nat) -> Copied, r: nat)
    requires IsIndirect(t) && CsrAddr(t) + DumpLen(t) < ADDRESSES && r == RegSize(t) && turn == IndirectTurn(env, t)
    requires read == Contexts(env, t.body[..4], r)
    ensures Dumps(ItemOf(env, t), CsrHeader(t), turn, r, r * IND_CONTEXTS, CsrAddr(t), DumpLen(t))
    ensures ByContexts(turn, read, env, t.body[..4], r)
  {
    MaxAddrIs(t);
    IndirectTurns(env, t, turn, read, r);
    IndirectPieces(env, t);
    IndirectRangeIs(env, t, turn, r, CsrAddr(t), CsrAddr(t) + DumpLen(t));
  }

  /** Context c of register k of an indirect range, if it and all before it can be read and it lies inside
      the TLV, is found at its place. */
  lemma IndirectHoldsRegister(env: Env, t: Tlv, it: Item, body: seq<Byte>, turn: (nat, nat) -> Copied,
                              read: (nat, nat, nat) -> Copied, r: nat, addr: nat, n: nat, k: nat, reg: nat, c: nat,
                              at: nat)
    requires IsIndirect(t) && r == RegSize(t) && addr == CsrAddr(t) && n == DumpLen(t) && addr + n < ADDRESSES
    requires turn == IndirectTurn(env, t) && read == Contexts(env, t.body[..4], r) && it == ItemOf(env, t)
    requires Carries(it, body) && c < IND_CONTEXTS && Span(k, r) < n
    requires TurnsOk(turn, r, addr, k) && reg == addr + Span(k, r) && ContextsUpTo(read, reg, c)
    requires at == 24 + Span(k, r * IND_CONTEXTS) + Span(c, r) && at + r <= |body|
    ensures env.indirect(t.body[..4], reg, r, c) == Data(body[at..at + r])
  {
    IndirectItemIs(env, t, turn, read, r);
    IndirectInItem(env, t.body[..4], it, body, CsrHeader(t), turn, read, r, r * IND_CONTEXTS, addr, n, k, reg, c, at);
  }

  /** The error of reading one context: the first of selecting it, reading it back and reading the register that
      fails. */
  lemma ReadContextExactly(env: Env, id: seq<Byte>, r: nat, addr: nat, c: nat, dest: nat)
    ensures ReadContext(env, id, r, addr, c, dest).err ==
            if env.select(id, addr, c) != 0 then env.select(id, addr, c)
            else if env.pointer(id, addr, r, c).Fail? || |env.pointer(id, addr, r, c).bytes| != r
            then ReadCode(env.pointer(id, addr, r, c))
            else if env.indirect(id, addr, r, c).Fail? || |env.indirect(id, addr, r, c).bytes| != r
            then ReadCode(env.indirect(id, addr, r, c))
            else 0
  {
  }

  lemma {:induction false} ContextsFail(read: (nat, nat, nat) -> Copied, r: nat, addr: nat, ctx: nat, dest: nat, c: nat,
                                        e: int)
    requires ctx <= c < IND_CONTEXTS && (forall x: nat, d: nat :: x < c ==> read(addr, x, d).err == 0)
    requires read(addr, c, dest + Span(c - ctx, r)).err == e != 0
    ensures ReadContexts(read, r, addr, ctx, dest).err == e
    decreases addr, c - ctx
  {
    if ctx < c { ContextsFail(read, r, addr, ctx + 1, dest + r, c, e); }
  }

  /** If context c of register k is the first access that fails, its error and the address of the register are noted
      in the header of the range. */
  lemma IndirectNotesError(env: Env, t: Tlv, it: Item, body: seq<Byte>, turn: (nat, nat) -> Copied,
                           read: (nat, nat, nat) -> Copied, r: nat, addr: nat, n: nat, k: nat, at: nat, c: nat, e: int)
    requires IsIndirect(t) && r == RegSize(t) && addr == CsrAddr(t) && n == DumpLen(t) && addr + n < ADDRESSES
    requires turn == IndirectTurn(env, t) && read == Contexts(env, t.body[..4], r) && it == ItemOf(env, t)
    requires Carries(it, body) && 24 <= |body| && Span(k, r) < n && TurnsOk(turn, r, addr, k) && at == addr + Span(k, r)
    requires c < IND_CONTEXTS && (forall x: nat, d: nat :: x < c ==> read(at, x, d).err == 0)
    requires forall d: nat :: read(at, c, d).err == e != 0
    ensures body[16..20] == ToBe32(e) && body[20..24] == ToBe32(at)
  {
    var dest := 32 + Span(k, r * IND_CONTEXTS);
    IndirectItemIs(env, t, turn, read, r);
    ContextsFail(read, r, at, 0, dest, c, e);
    assert turn(at, dest) == ReadContexts(read, r, at, 0, dest);
    DumpNotes(it, body, CsrHeader(t), turn, r, r * IND_CONTEXTS, addr, n, k, at, dest, e);
  }
}
