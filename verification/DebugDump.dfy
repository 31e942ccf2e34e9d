/**
 Debug dumps (src/nfp_net_debugdump.c): a dump specification is walked twice, once to compute the
 size of the dump and once to fill a buffer of that size.
 */
module DebugDump {
  import opened Wrappers

  type Byte = x: int | 0 <= x < 256

  const EINVAL: int := -22
  const ENOSPC: int := -28
  const ENOENT: int := -2
  const EOPNOTSUPP: int := -95
  const EIO: int := -5

  const TYPE_ME_CSR: nat := 2
  const TYPE_INDIRECT_ME_CSR: nat := 3
  const TYPE_RTSYM: nat := 4
  const TYPE_HWINFO: nat := 5
  const TYPE_FWNAME: nat := 6
  const TYPE_HWINFO_FIELD: nat := 7
  const TYPE_PROLOG: nat := 10000
  const TYPE_ERROR: nat := 10001
  const IND_CONTEXTS: nat := 8
  const TARGET_XPB: int := 14
  const ACTION_RW: Byte := 32

  function Be32(d: seq<Byte>, i: nat): (r: nat)
    requires i + 4 <= |d|
    ensures r < 0x1_0000_0000
  {
    d[i] as int * 0x100_0000 + d[i + 1] as int * 0x1_0000 + d[i + 2] as int * 0x100 + d[i + 3] as int
  }

  /** The low k bytes of a number, negative ones in two's complement, most significant byte first. */
  function ToBe(n: int, k: nat): (r: seq<Byte>)
    ensures |r| == k
    decreases k, n
  {
    if k == 0 then [] else ToBe(n / 256, k - 1) + [n % 256]
  }

  function ToBe32(n: int): (r: seq<Byte>)
    ensures |r| == 4
  {
    ToBe(n, 4)
  }

  lemma Be32Inverse(n: nat)
    requires n < 0x1_0000_0000
    ensures Be32(ToBe32(n), 0) == n
  {
    var n1 := n / 256;
    var n2 := n1 / 256;
    var n3 := n2 / 256;
    assert ToBe(n2, 2) == [n3, n2 % 256] by { assert ToBe(n3, 1) == [n3]; }
    assert ToBe32(n) == [n3, n2 % 256, n1 % 256, n % 256] by {
      assert ToBe(n1, 3) == ToBe(n2, 2) + [n1 % 256];
    }
  }

  function Blocks8(n: nat): nat { (n + 7) / 8 }

  function Align8(n: nat): (r: nat)
    ensures n <= r < n + 8
  {
    8 * Blocks8(n)
  }

  /** Arithmetic of the driver is modulo 2^32. */
  function U32(n: int): (r: nat)
    ensures r < 0x1_0000_0000
  {
    n % 0x1_0000_0000
  }

  lemma U32Adds(n: nat, a: nat)
    ensures U32(U32(n) + a) == U32(n + a)
  {
    var k := n / 0x1_0000_0000;
    assert n + a == U32(n) + a + 0x1_0000_0000 * k;
  }

  // ---- walking TLVs ----

  datatype Tlv = Tlv(typ: nat, body: seq<Byte>)

  /** One turn of the traversal loop at offset p. */
  datatype Step = Stop | Bad | Got(tlv: Tlv, next: nat)

  function NextTlv(d: seq<Byte>, p: nat): (r: Step)
    requires p <= |d|
    ensures r.Got? ==> p + 8 <= r.next <= |d|
  {
    var remaining := |d| - p;
    if remaining < 8 || (Be32(d, p) == 0 && Be32(d, p + 4) == 0) then Stop
    else
      var len := Be32(d, p + 4);
      if len > remaining - 8 || (8 + len) % 4 != 0 then Bad
      else Got(Tlv(Be32(d, p), d[p + 8..p + 8 + len]), p + 8 + len)
  }

  /** The TLVs a traversal visits, and whether it ends without -EINVAL. */
  datatype Walked = Walked(tlvs: seq<Tlv>, ok: bool)

  predicate Typed(ts: seq<Tlv>) { forall i :: 0 <= i < |ts| ==> ts[i].typ < 0x1_0000_0000 }

  function Walk(d: seq<Byte>, p: nat): (r: Walked)
    requires p <= |d|
    ensures Typed(r.tlvs)
    decreases |d| - p
  {
    match NextTlv(d, p)
    case Stop => Walked([], true)
    case Bad => Walked([], false)
    case Got(t, next) => var rest := Walk(d, next); Walked([t] + rest.tlvs, rest.ok)
  }

  /** All TLVs visited for one level of a specification: those inside the TLVs of that number. */
  function Visits(spec: seq<Byte>, p: nat, level: nat): (r: Walked)
    requires p <= |spec|
    ensures Typed(r.tlvs)
    decreases |spec| - p
  {
    match NextTlv(spec, p)
    case Stop => Walked([], true)
    case Bad => Walked([], false)
    case Got(t, next) =>
      if t.typ != level then Visits(spec, next, level)
      else
        var w := Walk(t.body, 0);
        if !w.ok then w
        else
          var rest := Visits(spec, next, level);
          Walked(w.tlvs + rest.tlvs, rest.ok)
  }

  // ---- the environment ----

  /** What an access to the device returns: an error code and the bytes it stored before it failed, or
      the bytes it could read. */
  datatype Read = Fail(code: int, part: seq<Byte>) | Data(bytes: seq<Byte>)

  function Clip(b: seq<Byte>, n: nat): (r: seq<Byte>)
    ensures |r| <= n
  {
    if |b| <= n then b else b[..n]
  }

  /** The bytes an access of n bytes stores, and its result. */
  datatype Stored = Stored(bytes: seq<Byte>, err: int)

  /** A read of n bytes: a short read is -EIO. */
  function Checked(r: Read, n: nat): (c: Stored)
    ensures |c.bytes| <= n && c.err <= 0
    ensures c.err == 0 ==> |c.bytes| == n && r == Data(c.bytes)
  {
    match r
    case Fail(code, part) => Stored(Clip(part, n), if code < 0 then code else EIO)
    case Data(bytes) => Stored(Clip(bytes, n), if |bytes| == n then 0 else EIO)
  }

  /** A run-time symbol; `data(n)` is the outcome of reading its first n bytes. */
  datatype Sym = Sym(size: nat, absolute: bool, target: Byte, domain: Byte, addr: nat, data: nat -> Read)

  /** Firmware name, hwinfo strings, run-time symbols and register accesses, fixed during a dump. The
      context of an indirect register is selected by a write, read back, and then the register is read. */
  datatype Env = Env(
    fwname: seq<Byte>,
    hwinfo: seq<Byte>,
    field: map<seq<Byte>, seq<Byte>>,
    syms: map<seq<Byte>, Sym>,
    read: (seq<Byte>, nat, nat) -> Read,
    select: (seq<Byte>, nat, nat) -> int,
    pointer: (seq<Byte>, nat, nat, nat) -> Read,
    indirect: (seq<Byte>, nat, nat, nat) -> Read)

  /** strnlen() */
  function StrLen(d: seq<Byte>): (n: nat)
    ensures n <= |d| && (forall i :: 0 <= i < n ==> d[i] != 0) && (n < |d| ==> d[n] == 0)
  {
    if d == [] || d[0] == 0 then 0 else 1 + StrLen(d[1..])
  }

  predicate CsrValid(t: Tlv) { |t.body| >= 16 && (Be32(t.body, 12) == 32 || Be32(t.body, 12) == 64) }

  // ---- the size calculation ----

  function ErrorTlvSize(t: Tlv): nat { Align8(16 + 8 + |t.body|) }

  function CalcHwinfoField(env: Env, t: Tlv): nat {
    var n := StrLen(t.body);
    if n == |t.body| then ErrorTlvSize(t)
    else if t.body[..n] !in env.field then ErrorTlvSize(t)
    else 8 + Align8(n + |env.field[t.body[..n]]| + 2)
  }

  function CalcRtsym(env: Env, t: Tlv): nat {
    var n := StrLen(t.body);
    if n == |t.body| then ErrorTlvSize(t)
    else if t.body[..n] !in env.syms then ErrorTlvSize(t)
    else Align8(25 + n + 1) + Align8(env.syms[t.body[..n]].size)
  }

  /** The size that nfp_add_tlv_size() adds, before it is truncated to 32 bits. */
  function RawSize(env: Env, t: Tlv): nat {
    if t.typ == TYPE_FWNAME then 8 + Align8(|env.fwname| + 1)
    else if t.typ <= TYPE_ME_CSR then
      if !CsrValid(t) then ErrorTlvSize(t) else Align8(32) + Align8(Be32(t.body, 8))
    else if t.typ == TYPE_INDIRECT_ME_CSR then
      if !CsrValid(t) then ErrorTlvSize(t) else Align8(32) + Align8(Be32(t.body, 8) * IND_CONTEXTS)
    else if t.typ == TYPE_RTSYM then CalcRtsym(env, t)
    else if t.typ == TYPE_HWINFO then 8 + Align8(|env.hwinfo|)
    else if t.typ == TYPE_HWINFO_FIELD then CalcHwinfoField(env, t)
    else ErrorTlvSize(t)
  }

  function Size(env: Env, t: Tlv): nat { U32(RawSize(env, t)) }

  function TotalSize(env: Env, ts: seq<Tlv>): nat {
    if ts == [] then 0 else Size(env, ts[0]) + TotalSize(env, ts[1..])
  }

  lemma {:induction false} TotalConcat(env: Env, a: seq<Tlv>, b: seq<Tlv>)
    ensures TotalSize(env, a + b) == TotalSize(env, a) + TotalSize(env, b)
  {
    if a == [] {
      assert a + b == b;
    } else {
      assert (a + b)[1..] == a[1..] + b;
      TotalConcat(env, a[1..], b);
    }
  }

  lemma RawAligned(env: Env, t: Tlv) returns (blocks: nat)
    ensures RawSize(env, t) == 8 * blocks && 1 <= blocks
    ensures t.typ == 0 ==> 2 <= blocks
  {
    var n := StrLen(t.body);
    if t.typ == TYPE_FWNAME {
      blocks := 1 + Blocks8(|env.fwname| + 1);
    } else if t.typ <= TYPE_ME_CSR && CsrValid(t) {
      blocks := 4 + Blocks8(Be32(t.body, 8));
    } else if t.typ == TYPE_INDIRECT_ME_CSR && CsrValid(t) {
      blocks := 4 + Blocks8(Be32(t.body, 8) * IND_CONTEXTS);
    } else if t.typ == TYPE_RTSYM && n < |t.body| && t.body[..n] in env.syms {
      blocks := Blocks8(25 + n + 1) + Blocks8(env.syms[t.body[..n]].size);
    } else if t.typ == TYPE_HWINFO {
      blocks := 1 + Blocks8(|env.hwinfo|);
    } else if t.typ == TYPE_HWINFO_FIELD && n < |t.body| && t.body[..n] in env.field {
      blocks := 1 + Blocks8(n + |env.field[t.body[..n]]| + 2);
    } else {
      blocks := Blocks8(16 + 8 + |t.body|);
    }
  }

  /** Every TLV of a dump takes whole blocks of 8 bytes, also when its size is truncated. */
  lemma SizeAligned(env: Env, t: Tlv) returns (blocks: nat)
    ensures Size(env, t) == 8 * blocks
    ensures RawSize(env, t) < 0x1_0000_0000 ==> 1 <= blocks && (t.typ == 0 ==> 2 <= blocks)
  {
    var raw := RawAligned(env, t);
    blocks := raw % 0x2000_0000;
    assert U32(8 * raw) == 8 * blocks;
  }

  /** The counter of the size calculation after the TLVs ts. */
  function Counted(env: Env, ts: seq<Tlv>, before: nat): nat
    decreases |ts|
  {
    if ts == [] then before else Counted(env, ts[1..], U32(before + Size(env, ts[0])))
  }

  /** The counter holds the total size, truncated. */
  lemma {:induction false} CountedTotal(env: Env, ts: seq<Tlv>, before: nat)
    requires before < 0x1_0000_0000
    ensures Counted(env, ts, before) == U32(before + TotalSize(env, ts))
    decreases |ts|
  {
    if ts != [] {
      CountedTotal(env, ts[1..], U32(before + Size(env, ts[0])));
      U32Adds(before + Size(env, ts[0]), TotalSize(env, ts[1..]));
    }
  }

  lemma {:induction false} CountedConcat(env: Env, a: seq<Tlv>, b: seq<Tlv>, before: nat)
    ensures Counted(env, a + b, before) == Counted(env, b, Counted(env, a, before))
    decreases |a|
  {
    if a == [] {
      assert a + b == b;
    } else {
      assert (a + b)[1..] == a[1..] + b;
      CountedConcat(env, a[1..], b, U32(before + Size(env, a[0])));
    }
  }

  lemma CountedOn(env: Env, t: Tlv, ts: seq<Tlv>, before: nat)
    ensures Counted(env, [t] + ts, before) == Counted(env, ts, U32(before + Size(env, t)))
  {
    assert ([t] + ts)[1..] == ts;
  }

  method AddLevelSize(env: Env, data: seq<Byte>, before: nat) returns (err: int, total: nat)
    ensures err == if Walk(data, 0).ok then 0 else EINVAL
    ensures total == Counted(env, Walk(data, 0).tlvs, before)
  {
    total := before;
    var p := 0;
    while true
      invariant p <= |data|
      invariant Walk(data, p).ok == Walk(data, 0).ok
      invariant Counted(env, Walk(data, p).tlvs, total) == Counted(env, Walk(data, 0).tlvs, before)
      decreases |data| - p
    {
      match NextTlv(data, p)
      case Stop => return 0, total;
      case Bad => return EINVAL, total;
      case Got(t, next) =>
        CountedOn(env, t, Walk(data, next).tlvs, total);
        total := U32(total + Size(env, t));
        p := next;
    }
  }

  method CalculateSize(env: Env, spec: seq<Byte>, level: nat) returns (size: Option<nat>)
    ensures size == var v := Visits(spec, 0, level);
                    if v.ok then Some(U32(16 + TotalSize(env, v.tlvs))) else None
  {
    ghost var v := Visits(spec, 0, level);
    var total: nat := Align8(12);
    var p := 0;
    CountedTotal(env, v.tlvs, total);
    while true
      invariant p <= |spec|
      invariant Visits(spec, p, level).ok == v.ok
      invariant Counted(env, Visits(spec, p, level).tlvs, total) == Counted(env, v.tlvs, 16)
      decreases |spec| - p
    {
      match NextTlv(spec, p)
      case Stop => return Some(total);
      case Bad => return None;
      case Got(t, next) =>
        if t.typ == level {
          CountedConcat(env, Walk(t.body, 0).tlvs, Visits(spec, next, level).tlvs, total);
          var err: int;
          err, total := AddLevelSize(env, t.body, total);
          if err != 0 {
            return None;
          }
        }
        p := next;
    }
  }
}
