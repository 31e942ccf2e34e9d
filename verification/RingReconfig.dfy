/**
 Changing the ring configuration of a device (src/nfp_net_common.c): new rings and vectors are prepared
 beside the old ones, swapped in, and swapped back if the firmware does not take them.
 */
module RingReconfig {
  const ENOMEM: int := -12

  /** The rings a data path owns: none, or two ring sets by number. */
  datatype Rings = NoRings | Rings(rx: nat, tx: nat)

  /** struct nfp_net_dp, as far as it matters here. */
  datatype Dp = Dp(numRx: nat, numTx: nat, xdp: bool, mtu: nat, numStackTx: nat, numVecs: nat, rings: Rings)

  /** The parts that nfp_net_ring_reconfig() computes before anything else. */
  function Completed(d: Dp): Dp
    requires d.xdp ==> d.numRx <= d.numTx
  {
    var stack := if d.xdp then d.numTx - d.numRx else d.numTx;
    d.(numStackTx := stack, numVecs := if d.numRx > stack then d.numRx else stack)
  }

  /** Every TX ring belongs to the stack or, with XDP, to an RX ring, and there is a vector for each RX ring and for
      each TX ring of the stack, and no more; nothing else changes. */
  lemma CompletedExactly(d: Dp)
    requires d.xdp ==> d.numRx <= d.numTx
    ensures var r := Completed(d);
            r.numStackTx + (if d.xdp then d.numRx else 0) == d.numTx
            && r.numRx <= r.numVecs && r.numStackTx <= r.numVecs && (r.numVecs == r.numRx || r.numVecs == r.numStackTx)
            && r.numRx == d.numRx && r.numTx == d.numTx && r.xdp == d.xdp && r.mtu == d.mtu && r.rings == d.rings
  {
  }

  predicate Under(n: nat, i: nat) { i < n }

  function Below(n: nat): set<nat> { set i: nat | i < n && Under(n, i) }

  lemma BelowOn(n: nat)
    ensures Below(n + 1) == Below(n) + {n} && n !in Below(n)
  {
  }

  /** Where the reconfiguration fails: the checks, the preparation of vector `vec`, of the RX or TX rings,
      starting the firmware with the new or again with the old configuration. 0 is success. */
  datatype Faults = Faults(check: int, vec: nat, vecErr: int, rx: int, tx: int, enable: int, restore: int)

  class NfpNet {
    var dp: Dp
    var running: bool
    var vecs: set<nat>       // requested interrupt vectors
    var live: set<nat>       // ring sets in existence
    var fw: Rings            // the rings the firmware works on

    ghost predicate Valid()
      reads this
    {
      1 <= dp.numVecs
      && (running ==> vecs == Below(dp.numVecs) && dp.rings.Rings? && dp.rings.rx != dp.rings.tx
                      && dp.rings.rx in live && dp.rings.tx in live)
      && (!running ==> dp.rings.NoRings?)
    }

    constructor (dp: Dp)
      requires 1 <= dp.numVecs && dp.rings.NoRings?
      ensures Valid() && this.dp == dp && !running && vecs == {} && live == {} && fw == NoRings
    {
      this.dp, running, vecs, live, fw := dp, false, {}, {}, NoRings;
    }

    method PrepareVector(r: nat, err: int) returns (e: int)
      requires r !in vecs
      modifies this`vecs
      ensures e == err && vecs == if err == 0 then old(vecs) + {r} else old(vecs)
    {
      if err == 0 {
        vecs := vecs + {r};
      }
      return err;
    }

    method CleanupVector(r: nat)
      requires r in vecs
      modifies this`vecs
      ensures vecs == old(vecs) - {r}
    {
      vecs := vecs - {r};
    }

    /** The loop that prepares the additional vectors; returns how many vectors there are then. */
    method PrepareVectors(to: nat, f: Faults) returns (err: int, have: nat)
      requires vecs == Below(dp.numVecs)
      modifies this`vecs
      ensures if dp.numVecs <= f.vec < to && f.vecErr != 0
              then err == f.vecErr && have == f.vec && vecs == Below(f.vec)
              else err == 0 && have == to && vecs == Below(if to > dp.numVecs then to else dp.numVecs)
    {
      var r := dp.numVecs;
      while r < to
        invariant dp.numVecs <= r && (r <= to || r == dp.numVecs) && vecs == Below(r)
        invariant !(dp.numVecs <= f.vec < r && f.vecErr != 0)
      {
        BelowOn(r);
        err := PrepareVector(r, if r == f.vec then f.vecErr else 0);
        if err != 0 {
          return err, r;
        }
        r := r + 1;
      }
      return 0, to;
    }

    /** The loop that cleans up vectors from `top` - 1 down to the configured ones. */
    method CleanupVectors(top: nat)
      requires 1 <= top && 1 <= dp.numVecs && vecs == Below(if top > dp.numVecs then top else dp.numVecs)
      modifies this`vecs
      ensures vecs == Below(dp.numVecs)
    {
      var r := top - 1;
      while r >= dp.numVecs
        invariant r >= dp.numVecs ==> vecs == Below(r + 1)
        invariant r < dp.numVecs ==> vecs == Below(dp.numVecs)
        decreases r
      {
        BelowOn(r);
        CleanupVector(r);
        r := r - 1;
      }
    }

    /** nfp_net_dp_swap_enable(): returns the data path that was in use. */
    method SwapEnable(other: Dp, err: int) returns (e: int, prev: Dp)
      modifies this`dp, this`fw
      ensures dp == other && prev == old(dp) && e == err && fw == if err == 0 then other.rings else NoRings
    {
      prev := dp;
      dp := other;
      fw := if err == 0 then other.rings else NoRings;
      return err, prev;
    }

    /** nfp_net_ring_reconfig(), with the numbers that new ring sets would get. */
    method Reconfig(want: Dp, f: Faults, rx: nat, tx: nat) returns (err: int)
      requires Valid() && (want.xdp ==> want.numRx <= want.numTx) && 1 <= Completed(want).numVecs
      requires want.rings.NoRings? && rx != tx && rx !in live && tx !in live
      modifies this
      ensures Valid() && running == old(running)
      ensures err == 0 ==> dp == Completed(want).(rings := if running then Rings(rx, tx) else NoRings)
      ensures err != 0 ==> dp == old(dp)
      ensures live == if err == 0 && running
                      then old(live) - {old(dp).rings.rx, old(dp).rings.tx} + {rx, tx} else old(live)
      ensures err == Outcome(old(dp), Completed(want), running, f)
      ensures fw == if !running || PrepareError(old(dp), Completed(want), f) != 0 then old(fw)
                    else if f.enable == 0 then dp.rings
                    else if f.restore == 0 then dp.rings else NoRings
    {
      var other := Completed(want);
      if f.check != 0 {
        return f.check;
      }
      if !running {
        dp := other;
        return 0;
      }
      var have;
      err, have := PrepareVectors(other.numVecs, f);
      if err != 0 {
        CleanupVectors(have);
        return;
      }
      if f.rx != 0 {
        CleanupVectors(other.numVecs);
        return f.rx;
      }
      live := live + {rx};
      if f.tx != 0 {
        live := live - {rx};
        CleanupVectors(other.numVecs);
        return f.tx;
      }
      live := live + {tx};
      other := other.(rings := Rings(rx, tx));
      fw := NoRings;
      err, other := SwapEnable(other, f.enable);
      if err != 0 {
        fw := NoRings;
        var err2;
        err2, other := SwapEnable(other, f.restore);
      }
      CleanupVectors(other.numVecs);
      live := live - {other.rings.rx, other.rings.tx};
    }
  }

  /** The first failure before the device is stopped. */
  function PrepareError(was: Dp, want: Dp, f: Faults): int {
    if f.check != 0 then f.check
    else if was.numVecs <= f.vec < want.numVecs && f.vecErr != 0 then f.vecErr
    else if f.rx != 0 then f.rx
    else f.tx
  }

  function Outcome(was: Dp, want: Dp, running: bool, f: Faults): int {
    if !running then f.check
    else if PrepareError(was, want, f) != 0 then PrepareError(was, want, f)
    else f.enable
  }

  /** The error of the first step that fails. */
  function FirstError(errs: seq<int>): int {
    if errs == [] then 0 else if errs[0] != 0 then errs[0] else FirstError(errs[1..])
  }

  /** The result of a step for the vectors; only additional ones are prepared. */
  function VectorError(was: Dp, want: Dp, f: Faults): int {
    if was.numVecs <= f.vec < want.numVecs then f.vecErr else 0
  }

  /** A reconfiguration reports the first step that fails, of checking, preparing vectors, RX rings and TX rings and
      starting the firmware, and not how going back to the old configuration went. */
  lemma OutcomeExactly(was: Dp, want: Dp, f: Faults)
    ensures Outcome(was, want, true, f) == FirstError([f.check, VectorError(was, want, f), f.rx, f.tx, f.enable])
    ensures Outcome(was, want, false, f) == f.check
  {
    var v := VectorError(was, want, f);
    FirstOn(f.check, [v, f.rx, f.tx, f.enable]);
    FirstOn(v, [f.rx, f.tx, f.enable]);
    FirstOn(f.rx, [f.tx, f.enable]);
    FirstOn(f.tx, [f.enable]);
    FirstOn(f.enable, []);
    assert [f.check] + [v, f.rx, f.tx, f.enable] == [f.check, v, f.rx, f.tx, f.enable];
    assert [v] + [f.rx, f.tx, f.enable] == [v, f.rx, f.tx, f.enable];
    assert [f.rx] + [f.tx, f.enable] == [f.rx, f.tx, f.enable];
    assert [f.tx] + [f.enable] == [f.tx, f.enable];
    assert [f.enable] + [] == [f.enable];
  }

  lemma FirstOn(e: int, errs: seq<int>)
    ensures FirstError([e] + errs) == if e != 0 then e else FirstError(errs)
  {
    assert ([e] + errs)[1..] == errs;
  }

  /** The rings of one set while they are prepared or freed (src/nfp_net_dp.c): which have memory for
      their descriptors and which have buffers. */
  class RingSet {
    var mem: set<nat>
    var bufs: set<nat>

    constructor ()
      ensures mem == {} && bufs == {}
    {
      mem, bufs := {}, {};
    }

    method FreeBufs(r: nat)
      requires r in bufs && r in mem
      modifies this`bufs
      ensures bufs == old(bufs) - {r}
    {
      bufs := bufs - {r};
    }

    method FreeMem(r: nat)
      requires r in mem && r !in bufs
      modifies this`mem
      ensures mem == old(mem) - {r}
    {
      mem := mem - {r};
    }

    /** The unwinding loop: rings below r are complete. */
    method Unwind(r: nat)
      requires mem == bufs == Below(r)
      modifies this
      ensures mem == {} && bufs == {}
    {
      var i := r;
      while i > 0
        invariant 0 <= i <= r && mem == bufs == Below(i)
      {
        i := i - 1;
        BelowOn(i);
        FreeBufs(i);
        FreeMem(i);
      }
      assert Below(0) == {};
    }

    /** nfp_net_rx_rings_prepare() and nfp_net_tx_rings_prepare(): all n rings complete, or nothing left,
        when ring `noMem` gets no memory and ring `noBufs` no buffers. */
    method Prepare(n: nat, noMem: nat, noBufs: nat) returns (err: int)
      requires mem == {} && bufs == {}
      modifies this
      ensures if noMem < n || noBufs < n then err == ENOMEM && mem == {} && bufs == {}
              else err == 0 && mem == bufs == Below(n)
    {
      assert Below(0) == {};
      var r := 0;
      while r < n
        invariant 0 <= r <= n && mem == bufs == Below(r) && r <= noMem && r <= noBufs
      {
        BelowOn(r);
        if r == noMem {
          Unwind(r);
          return ENOMEM;
        }
        mem := mem + {r};
        if r == noBufs {
          FreeMem(r);
          Unwind(r);
          return ENOMEM;
        }
        bufs := bufs + {r};
        r := r + 1;
      }
      return 0;
    }

    /** nfp_net_rx_rings_free() and nfp_net_tx_rings_free() */
    method Free(n: nat)
      requires mem == bufs == Below(n)
      modifies this
      ensures mem == {} && bufs == {}
    {
      var r := 0;
      while r < n
        invariant 0 <= r <= n && mem == bufs == Below(n) - Below(r)
      {
        BelowOn(r);
        assert r in Below(n) by { assert Under(n, r); }
        FreeBufs(r);
        FreeMem(r);
        r := r + 1;
      }
    }
  }
}
