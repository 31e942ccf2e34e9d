/**
 The error correcting code of the microstore (src/nfp_asm.c): 45 instruction bits and 7 parity bits.
 A 64-bit word is the set of the positions of its one bits, so that `&` is intersection, `^` is
 symmetric difference and the population count is the size.
 */
module UstoreEcc {
  const OP_BITS: nat := 45
  const POLY_WORDS: nat := 7

  type Word = s: set<nat> | forall i :: i in s ==> i < 64

  /** The polynomials have no bits above the instruction bits, so 45-bit numbers hold them. */
  const POLYNOMIALS: seq<bv45> := [
    0x0ff800007fff,
    0x11f801ff801f,
    0x1e387e0781e1,
    0x17cb8e388e22,
    0x1af5b2c93244,
    0x1f56d5525488,
    0x0daf69a46910
  ]

  predicate BitOf(v: bv45, i: nat)
    requires i < OP_BITS
  {
    v & (1 << i) != 0
  }

  /** The bits of a number. */
  function Bits(v: bv45): Word { set i: nat | i < OP_BITS && BitOf(v, i) }

  function Xor(a: Word, b: Word): Word { (a - b) + (b - a) }

  function Weight(w: Word): nat { |w| }

  predicate Parity(w: Word) { Weight(w) % 2 == 1 }

  function Poly(k: nat): Word
    requires k < POLY_WORDS
  {
    Bits(POLYNOMIALS[k])
  }

  predicate ParityAt(k: nat, insn: Word)
    requires k < POLY_WORDS
  {
    Parity(Poly(k) * insn)
  }

  predicate Small(w: Word) { forall k :: k in w ==> k < POLY_WORDS }

  function Shifted(w: Word): (r: Word)
    requires Small(w)
  {
    set k: nat | k in w :: OP_BITS + k
  }

  /** The first n parity bits of an instruction, as the low bits of a byte. */
  function EccUpTo(insn: Word, n: nat): (r: Word)
    requires n <= POLY_WORDS
    ensures Small(r)
  {
    set k: nat | k < n && ParityAt(k, insn)
  }

  lemma EccUpToOn(insn: Word, n: nat)
    requires n < POLY_WORDS
    ensures EccUpTo(insn, n + 1) == EccUpTo(insn, n) + if ParityAt(n, insn) then {n} else {}
  {
  }

  function Ecc(insn: Word): Word { EccUpTo(insn, POLY_WORDS) }

  function Encode(insn: Word): Word { insn + Shifted(Ecc(insn)) }

  method CalcEcc(insn: Word) returns (ecc: Word)
    ensures ecc == Ecc(insn)
  {
    ecc := {};
    var i := 0;
    while i < POLY_WORDS
      invariant 0 <= i <= POLY_WORDS && ecc == EccUpTo(insn, i)
    {
      EccUpToOn(insn, i);
      if ParityAt(i, insn) {
        ecc := ecc + {i};
      }
      i := i + 1;
    }
  }

  /** nfp_ustore_calc_ecc_insn() */
  method CalcEccInsn(insn: Word) returns (r: Word)
    ensures r == Encode(insn)
  {
    var ecc := CalcEcc(insn);
    r := insn + Shifted(ecc);
  }

  // ---- linearity ----

  lemma XorWeight(a: Word, b: Word)
    ensures Weight(Xor(a, b)) + 2 * Weight(a * b) == Weight(a) + Weight(b)
  {
    assert a == (a - b) + a * b;
    assert b == (b - a) + a * b;
  }

  lemma XorMasked(p: Word, a: Word, b: Word)
    ensures p * Xor(a, b) == Xor(p * a, p * b)
  {
  }

  lemma OddSumOfTwo(x: nat, common: nat, y: nat, z: nat)
    requires x + 2 * common == y + z
    ensures x % 2 == 1 <==> (y % 2 == 1) != (z % 2 == 1)
  {
  }

  lemma ParityLinear(p: Word, a: Word, b: Word)
    ensures Parity(p * Xor(a, b)) <==> (Parity(p * a) != Parity(p * b))
  {
    XorMasked(p, a, b);
    XorWeight(p * a, p * b);
    OddSumOfTwo(Weight(Xor(p * a, p * b)), Weight((p * a) * (p * b)), Weight(p * a), Weight(p * b));
  }

  lemma EccLinear(a: Word, b: Word)
    ensures Ecc(Xor(a, b)) == Xor(Ecc(a), Ecc(b))
  {
    forall k: nat | k < POLY_WORDS
      ensures k in Ecc(Xor(a, b)) <==> k in Xor(Ecc(a), Ecc(b))
    {
      ParityLinear(Poly(k), a, b);
    }
  }

  /** An instruction that leaves room for the parity bits. */
  predicate Fits(insn: Word) { forall i :: i in insn ==> i < OP_BITS }

  lemma EncodeLinear(a: Word, b: Word)
    requires Fits(a) && Fits(b)
    ensures Fits(Xor(a, b)) && Encode(Xor(a, b)) == Xor(Encode(a), Encode(b))
  {
    EccLinear(a, b);
    ShiftedXor(Ecc(a), Ecc(b));
  }

  lemma ShiftedXor(v: Word, w: Word)
    requires Small(v) && Small(w)
    ensures Shifted(Xor(v, w)) == Xor(Shifted(v), Shifted(w))
  {
    forall x | x in Xor(Shifted(v), Shifted(w))
      ensures x in Shifted(Xor(v, w))
    {
      assert x - OP_BITS in Xor(v, w);
    }
  }

  // ---- the columns: which polynomials instruction bit i is in ----

  function Column(i: nat): Word
    requires i < OP_BITS
  {
    set k: nat | k < POLY_WORDS && BitOf(POLYNOMIALS[k], i)
  }

  lemma OneHot(i: nat)
    requires i < OP_BITS
    ensures var x: bv45 := 1 << i; x != 0 && x & (x - 1) == 0
  {
  }

  lemma OneHotDistinct(i: nat, j: nat)
    requires i < OP_BITS && j < OP_BITS && i != j
    ensures (1 as bv45) << i != (1 as bv45) << j
  {
  }

  /** Single bits are told apart by the polynomials. */
  lemma BitsTellApart(x: bv45, y: bv45)
    requires x != 0 && x & (x - 1) == 0
    requires y != 0 && y & (y - 1) == 0
    requires (0x0ff800007fff & x == 0) == (0x0ff800007fff & y == 0)
    requires (0x11f801ff801f & x == 0) == (0x11f801ff801f & y == 0)
    requires (0x1e387e0781e1 & x == 0) == (0x1e387e0781e1 & y == 0)
    requires (0x17cb8e388e22 & x == 0) == (0x17cb8e388e22 & y == 0)
    requires (0x1af5b2c93244 & x == 0) == (0x1af5b2c93244 & y == 0)
    requires (0x1f56d5525488 & x == 0) == (0x1f56d5525488 & y == 0)
    requires (0x0daf69a46910 & x == 0) == (0x0daf69a46910 & y == 0)
    ensures x == y
  {
  }

  function One(b: bool): nat { if b then 1 else 0 }

  /** A single bit is in three or five of the polynomials. */
  lemma BitInThreeOrFive(x: bv45)
    requires x != 0 && x & (x - 1) == 0
    ensures One(0x0ff800007fff & x != 0) + One(0x11f801ff801f & x != 0) + One(0x1e387e0781e1 & x != 0)
          + One(0x17cb8e388e22 & x != 0) + One(0x1af5b2c93244 & x != 0) + One(0x1f56d5525488 & x != 0)
          + One(0x0daf69a46910 & x != 0) in {3, 5}
  {
  }

  lemma SameColumn(i: nat, j: nat)
    requires i < OP_BITS && j < OP_BITS && Column(i) == Column(j)
    ensures var x, y := (1 as bv45) << i, (1 as bv45) << j;
            && (0x0ff800007fff & x == 0) == (0x0ff800007fff & y == 0)
            && (0x11f801ff801f & x == 0) == (0x11f801ff801f & y == 0)
            && (0x1e387e0781e1 & x == 0) == (0x1e387e0781e1 & y == 0)
            && (0x17cb8e388e22 & x == 0) == (0x17cb8e388e22 & y == 0)
            && (0x1af5b2c93244 & x == 0) == (0x1af5b2c93244 & y == 0)
            && (0x1f56d5525488 & x == 0) == (0x1f56d5525488 & y == 0)
            && (0x0daf69a46910 & x == 0) == (0x0daf69a46910 & y == 0)
  {
    assert 0 in Column(i) <==> 0 in Column(j);
    assert 1 in Column(i) <==> 1 in Column(j);
    assert 2 in Column(i) <==> 2 in Column(j);
    assert 3 in Column(i) <==> 3 in Column(j);
    assert 4 in Column(i) <==> 4 in Column(j);
    assert 5 in Column(i) <==> 5 in Column(j);
    assert 6 in Column(i) <==> 6 in Column(j);
  }

  lemma SameColumnSameBit(i: nat, j: nat)
    requires i < OP_BITS && j < OP_BITS && Column(i) == Column(j)
    ensures (1 as bv45) << i == (1 as bv45) << j
  {
    OneHot(i);
    OneHot(j);
    SameColumn(i, j);
    BitsTellApart((1 as bv45) << i, (1 as bv45) << j);
  }

  lemma ColumnsDistinct(i: nat, j: nat)
    requires i < OP_BITS && j < OP_BITS && i != j
    ensures Column(i) != Column(j)
  {
    OneHotDistinct(i, j);
    if Column(i) == Column(j) { SameColumnSameBit(i, j); }
  }

  /** How many of the first n are true. */
  function Count(b: seq<bool>, n: nat): nat
    requires n <= |b|
  {
    if n == 0 then 0 else Count(b, n - 1) + One(b[n - 1])
  }

  lemma {:induction false} CountIsSize(b: seq<bool>, n: nat)
    requires n <= |b|
    ensures |set k: nat | k < n && b[k]| == Count(b, n)
  {
    if n > 0 {
      CountIsSize(b, n - 1);
      var rest := set k: nat | k < n - 1 && b[k];
      assert (set k: nat | k < n && b[k]) == rest + if b[n - 1] then {n - 1} else {};
    }
  }

  lemma ColumnWeight(i: nat)
    requires i < OP_BITS
    ensures Weight(Column(i)) == 3 || Weight(Column(i)) == 5
  {
    OneHot(i);
    BitInThreeOrFive((1 as bv45) << i);
    var b := [BitOf(POLYNOMIALS[0], i), BitOf(POLYNOMIALS[1], i), BitOf(POLYNOMIALS[2], i), BitOf(POLYNOMIALS[3], i),
              BitOf(POLYNOMIALS[4], i), BitOf(POLYNOMIALS[5], i), BitOf(POLYNOMIALS[6], i)];
    CountIsSize(b, 7);
    CountSeven(b);
    assert Column(i) == set k: nat | k < 7 && b[k];
  }

  lemma CountSeven(b: seq<bool>)
    requires |b| == 7
    ensures Count(b, 7) == One(b[0]) + One(b[1]) + One(b[2]) + One(b[3]) + One(b[4]) + One(b[5]) + One(b[6])
  {
    assert Count(b, 1) == One(b[0]);
    assert Count(b, 2) == Count(b, 1) + One(b[1]);
    assert Count(b, 3) == Count(b, 2) + One(b[2]);
    assert Count(b, 4) == Count(b, 3) + One(b[3]);
    assert Count(b, 5) == Count(b, 4) + One(b[4]);
    assert Count(b, 6) == Count(b, 5) + One(b[5]);
  }

  // ---- distance ----

  lemma ParityOfBit(p: Word, i: nat)
    requires i < OP_BITS
    ensures Parity(p * {i}) <==> i in p
  {
    assert p * {i} == if i in p then {i} else {};
  }

  lemma EccOfBit(i: nat)
    requires i < OP_BITS
    ensures Ecc({i}) == Column(i)
  {
    forall k: nat | k < POLY_WORDS
      ensures k in Ecc({i}) <==> k in Column(i)
    {
      ParityOfBit(Poly(k), i);
    }
  }

  lemma EccOfBitWeight(i: nat)
    requires i < OP_BITS
    ensures Weight(Ecc({i})) == 3 || Weight(Ecc({i})) == 5
  {
    EccOfBit(i);
    ColumnWeight(i);
  }

  lemma BitsXor(a: Word, i: nat)
    requires i < 64 && i !in a
    ensures Xor(a, {i}) == a + {i}
  {
  }

  /** Adding a bit changes the number of parity bits by that bit's, less twice the common ones. */
  lemma EccAdd(a: Word, i: nat) returns (common: nat)
    requires i < 64 && i !in a
    ensures Weight(Ecc(a + {i})) + 2 * common == Weight(Ecc(a)) + Weight(Ecc({i}))
  {
    BitsXor(a, i);
    EccLinear(a, {i});
    XorWeight(Ecc(a), Ecc({i}));
    common := Weight(Ecc(a) * Ecc({i}));
  }

  function Two(i: nat, j: nat): Word
    requires i < OP_BITS && j < OP_BITS
  {
    {i} + {j}
  }

  function Three(i: nat, j: nat, l: nat): Word
    requires i < OP_BITS && j < OP_BITS && l < OP_BITS
  {
    {i} + {j} + {l}
  }

  lemma EccOfTwoNonzero(i: nat, j: nat)
    requires i < OP_BITS && j < OP_BITS && i != j
    ensures Weight(Ecc(Two(i, j))) > 0
  {
    BitsXor({i}, j);
    EccLinear({i}, {j});
    EccOfBit(i);
    EccOfBit(j);
    ColumnsDistinct(i, j);
    DifferentXor(Column(i), Column(j));
  }

  lemma EccOfTwo(i: nat, j: nat) returns (half: nat)
    requires i < OP_BITS && j < OP_BITS && i != j
    ensures Weight(Ecc(Two(i, j))) == 2 * half && 1 <= half
  {
    var common := EccAdd({i}, j);
    EccOfBitWeight(i);
    EccOfBitWeight(j);
    EccOfTwoNonzero(i, j);
    half := EvenSum(Weight(Ecc({i})), Weight(Ecc({j})), Weight(Ecc(Two(i, j))), common);
  }

  lemma EvenSum(a: nat, b: nat, w: nat, common: nat) returns (half: nat)
    requires (a == 3 || a == 5) && (b == 3 || b == 5)
    requires w + 2 * common == a + b
    ensures w == 2 * half
  {
    half := (a + b) / 2 - common;
  }

  lemma EccOfThree(i: nat, j: nat, l: nat)
    requires i < OP_BITS && j < OP_BITS && l < OP_BITS && i != j && i != l && j != l
    ensures 1 <= Weight(Ecc(Three(i, j, l)))
  {
    var half := EccOfTwo(i, j);
    var common := EccAdd(Two(i, j), l);
    EccOfBitWeight(l);
    OddSum(half, Weight(Ecc({l})), Weight(Ecc(Three(i, j, l))), common);
  }

  lemma OddSum(half: nat, b: nat, w: nat, common: nat)
    requires b == 3 || b == 5
    requires w + 2 * common == 2 * half + b
    ensures 1 <= w
  {
  }

  /** A word with few bits, spelled out. */
  lemma FewBits(d: Word) returns (i: nat, j: nat, l: nat)
    requires Fits(d) && d != {}
    ensures i in d && j in d && l in d
    ensures || d == {i}
            || (d == {i} + {j} && i != j)
            || (d == {i} + {j} + {l} && i != j && i != l && j != l)
            || Weight(d) >= 4
  {
    i :| i in d;
    j, l := i, i;
    if d != {i} {
      j :| j in d && j != i;
      if d != {i} + {j} {
        l :| l in d && l != i && l != j;
        if d != {i} + {j} + {l} {
          var m :| m in d && m != i && m != j && m != l;
          FourBits(d, i, j, l, m);
        }
      }
    }
  }

  lemma FourBits(d: Word, i: nat, j: nat, l: nat, m: nat)
    requires i in d && j in d && l in d && m in d && i != j && i != l && i != m && j != l && j != m && l != m
    ensures Weight(d) >= 4
  {
    var d1 := d - {i};
    var d2 := d1 - {j};
    var d3 := d2 - {l};
    assert |d| == |d1| + 1 && |d1| == |d2| + 1 && |d2| == |d3| + 1 && m in d3;
  }

  /** A non-zero codeword has at least four one bits. */
  lemma CodewordWeight(d: Word)
    requires Fits(d) && d != {}
    ensures Weight(Encode(d)) >= 4
  {
    EncodeWeight(d);
    var i, j, l := FewBits(d);
    if d == {i} {
      EccOfBitWeight(i);
    } else if d == {i} + {j} {
      var _ := EccOfTwo(i, j);
    } else if Weight(d) < 4 {
      EccOfThree(i, j, l);
    }
  }

  lemma DifferentXor(a: Word, b: Word)
    requires a != b
    ensures Weight(Xor(a, b)) > 0
  {
    assert exists x :: x in Xor(a, b);
  }

  lemma EncodeWeight(d: Word)
    requires Fits(d)
    ensures Weight(Encode(d)) == Weight(d) + Weight(Ecc(d))
  {
    ShiftedSize(Ecc(d));
    assert d !! Shifted(Ecc(d));
  }

  lemma ShiftedAdd(v: Word, k: nat)
    requires Small(v) && k < POLY_WORDS && k !in v
    ensures Shifted(v + {k}) == Shifted(v) + {OP_BITS + k} && OP_BITS + k !in Shifted(v)
  {
    forall x | x in Shifted(v) + {OP_BITS + k} ensures x in Shifted(v + {k}) { assert x - OP_BITS in v + {k}; }
  }

  lemma {:induction false} ShiftedSize(w: Word)
    requires Small(w)
    ensures |Shifted(w)| == |w|
    decreases w
  {
    if w == {} {
      assert Shifted(w) == {};
    } else {
      var k :| k in w;
      var v: Word := w - {k};
      assert w == v + {k};
      ShiftedSize(v);
      ShiftedAdd(v, k);
    }
  }

  /** Two different instructions encode to words at least four bits apart. */
  lemma MinimumDistance(a: Word, b: Word)
    requires Fits(a) && Fits(b) && a != b
    ensures Weight(Xor(Encode(a), Encode(b))) >= 4
  {
    EncodeLinear(a, b);
    DifferentXor(a, b);
    CodewordWeight(Xor(a, b));
  }

  lemma XorCancel(x: Word, y: Word, e: Word, f: Word)
    requires Xor(x, e) == Xor(y, f)
    ensures Xor(x, y) == Xor(e, f)
  {
    forall i ensures i in Xor(x, y) <==> i in Xor(e, f) {
      assert i in Xor(x, e) <==> i in Xor(y, f);
    }
  }

  /** One flipped bit can be corrected: the damaged word has only one instruction within one bit. */
  lemma SingleErrorCorrectable(a: Word, b: Word, e: Word, f: Word)
    requires Fits(a) && Fits(b) && Weight(e) <= 1 && Weight(f) <= 1
    requires Xor(Encode(a), e) == Xor(Encode(b), f)
    ensures a == b
  {
    XorCancel(Encode(a), Encode(b), e, f);
    XorWeight(e, f);
    if a != b { MinimumDistance(a, b); }
  }

  /** Two flipped bits are detected: the damaged word is not within one bit of any codeword. */
  lemma DoubleErrorDetectable(a: Word, b: Word, e: Word, f: Word)
    requires Fits(a) && Fits(b) && Weight(e) == 2 && Weight(f) <= 1
    ensures Xor(Encode(a), e) != Xor(Encode(b), f)
  {
    if Xor(Encode(a), e) == Xor(Encode(b), f) {
      XorCancel(Encode(a), Encode(b), e, f);
      XorWeight(e, f);
      if a == b { XorSelf(Encode(a)); XorSizes(e, f); } else { MinimumDistance(a, b); }
    }
  }

  lemma XorSelf(x: Word)
    ensures Xor(x, x) == {}
  {
  }

  lemma XorSizes(e: Word, f: Word)
    requires Xor(e, f) == {}
    ensures Weight(e) == Weight(f)
  {
    assert e == f;
  }

  // ---- the validity check ----

  /** nfp_ustore_check_valid_no_ecc(): accepts bits 0 to 45. */
  predicate CheckValid(insn: Word) { forall i :: i in insn ==> i <= OP_BITS }

  /** All seven parity checks hold for a word that carries instruction and parity bits. */
  predicate Consistent(w: Word) {
    forall k: nat :: k < POLY_WORDS ==> (OP_BITS + k in w <==> Parity(Poly(k) * w))
  }

  lemma PolyIgnoresHigh(k: nat, v: Word, w: Word)
    requires k < POLY_WORDS && forall i :: i < OP_BITS ==> (i in v <==> i in w)
    ensures Poly(k) * v == Poly(k) * w
  {
  }

  lemma HighBit(insn: Word, e: Word, k: nat)
    requires CheckValid(insn) && Small(e) && k < POLY_WORDS
    ensures OP_BITS + k in insn + Shifted(e) <==> k in e || (k == 0 && OP_BITS in insn)
  {
    assert OP_BITS + k in Shifted(e) <==> k in e;
  }

  lemma LowBits(insn: Word, e: Word)
    requires Small(e)
    ensures forall i :: i < OP_BITS ==> (i in insn + Shifted(e) <==> i in insn)
  {
  }

  lemma ParityBit(insn: Word, k: nat)
    requires CheckValid(insn) && k < POLY_WORDS
    ensures OP_BITS + k in Encode(insn) <==> k in Ecc(insn) || (k == 0 && OP_BITS in insn)
    ensures Parity(Poly(k) * Encode(insn)) <==> k in Ecc(insn)
  {
    HighBit(insn, Ecc(insn), k);
    LowBits(insn, Ecc(insn));
    PolyIgnoresHigh(k, Encode(insn), insn);
  }

  lemma EccIgnoresHigh(insn: Word)
    requires CheckValid(insn)
    ensures Ecc(insn - {OP_BITS}) == Ecc(insn)
  {
    forall k: nat | k < POLY_WORDS
      ensures k in Ecc(insn - {OP_BITS}) <==> k in Ecc(insn)
    {
      PolyIgnoresHigh(k, insn, insn - {OP_BITS});
    }
  }

  /** The check lets one bit too many through: bit 45 shares its place with the first parity bit.
      The encoded word passes its own parity checks exactly when bit 45 is clear or agrees. */
  lemma ValidityCheckTooWide(insn: Word)
    requires CheckValid(insn)
    ensures Consistent(Encode(insn)) <==> (OP_BITS in insn ==> 0 in Ecc(insn))
  {
    forall k: nat | k < POLY_WORDS
      ensures (OP_BITS + k in Encode(insn) <==> Parity(Poly(k) * Encode(insn)))
              <==> (k == 0 && OP_BITS in insn ==> 0 in Ecc(insn))
    {
      ParityBit(insn, k);
    }
    if Consistent(Encode(insn)) { ParityBit(insn, 0); }
  }

  lemma {:induction false} OnlyHighBit()
    ensures Ecc({OP_BITS}) == {}
  {
    var none: Word := {};
    EccIgnoresHigh({OP_BITS});
    assert {OP_BITS} - {OP_BITS} == none;
    forall k: nat | k < POLY_WORDS ensures k !in Ecc(none) { assert Poly(k) * none == {}; }
  }

  /** The instruction with only bit 45 passes the check and does not encode consistently. */
  lemma WideInstructionInconsistent()
    ensures CheckValid({OP_BITS}) && !Consistent(Encode({OP_BITS}))
  {
    OnlyHighBit();
    ValidityCheckTooWide({OP_BITS});
  }

  /** And when it agrees, two different valid instructions have the same encoding. */
  lemma ValidInstructionsCollide(insn: Word)
    requires CheckValid(insn) && OP_BITS in insn && 0 in Ecc(insn)
    ensures CheckValid(insn - {OP_BITS}) && Encode(insn - {OP_BITS}) == Encode(insn)
  {
    EccIgnoresHigh(insn);
    assert OP_BITS + 0 in Shifted(Ecc(insn));
  }

  lemma SameLowBits(a: Word, b: Word)
    requires CheckValid(a) && CheckValid(b) && Encode(a) == Encode(b)
    ensures a - {OP_BITS} == b - {OP_BITS}
  {
    LowBits(a, Ecc(a));
    LowBits(b, Ecc(b));
    forall i ensures i in a - {OP_BITS} <==> i in b - {OP_BITS} {
      assert i < OP_BITS ==> (i in a <==> i in Encode(a)) && (i in b <==> i in Encode(b));
    }
  }

  lemma DifferByHighBit(a: Word, b: Word)
    requires a != b && a - {OP_BITS} == b - {OP_BITS}
    ensures OP_BITS in a <==> OP_BITS !in b
  {
    assert OP_BITS in a && OP_BITS in b ==> a == (a - {OP_BITS}) + {OP_BITS} == b;
    assert OP_BITS !in a && OP_BITS !in b ==> a == a - {OP_BITS} == b;
  }

  lemma CollideNeeds(a: Word, b: Word)
    requires CheckValid(a) && CheckValid(b) && OP_BITS in a && OP_BITS !in b && Encode(a) == Encode(b)
    ensures 0 in Ecc(b)
  {
    ParityBit(a, 0);
    ParityBit(b, 0);
  }

  /** Two different instructions that are accepted have the same encoding exactly if they differ in bit 45 alone
      and the first parity bit is set. */
  lemma CollideExactly(a: Word, b: Word)
    requires CheckValid(a) && CheckValid(b) && a != b
    ensures Encode(a) == Encode(b) <==> a - {OP_BITS} == b - {OP_BITS} && 0 in Ecc(a)
  {
    var more, less := if OP_BITS in a then a else b, if OP_BITS in a then b else a;
    if Encode(a) == Encode(b) { SameLowBits(a, b); }
    if a - {OP_BITS} == b - {OP_BITS} {
      DifferByHighBit(a, b);
      EccIgnoresHigh(a);
      EccIgnoresHigh(b);
      assert less == more - {OP_BITS};
      if Encode(a) == Encode(b) { CollideNeeds(more, less); }
      if 0 in Ecc(a) { ValidInstructionsCollide(more); }
    }
  }

  lemma FirstPolynomialHasBit0()
    ensures BitOf(POLYNOMIALS[0], 0)
  {
  }

  /** Bit 0 alone, and bit 0 with bit 45, are valid, different, and encoded alike. */
  lemma CollidingPair()
    ensures var a, b: Word := {0}, {0, OP_BITS};
            a != b && CheckValid(a) && CheckValid(b) && Encode(a) == Encode(b)
  {
    var a, b: Word := {0}, {0, OP_BITS};
    FirstPolynomialHasBit0();
    assert Poly(0) * b == a;
    assert Weight(a) == 1;
    assert 0 in Ecc(b);
    assert b - {OP_BITS} == a;
    ValidInstructionsCollide(b);
  }
}
