/**
 The DSCP classifier of the ABM application (src/abm/cls.c, src/abm/ctrl.c): u32 filters on the
 TOS byte, kept in a list and compiled into a packed table that the firmware indexes by the high
 bits of the byte.  A 32-bit table word is the set of the positions of its one bits.
 */
module DscpClassifier {
  type Word = s: set<nat> | forall i :: i in s ==> i < 32

  const EOPNOTSUPP: int := -95
  const ENOMEM: int := -12

  /** 2^bandOrder bands and 2^prioOrder priorities. */
  datatype Config = Config(bandOrder: nat, prioOrder: nat)

  predicate ConfigOk(c: Config) { 1 <= c.bandOrder <= 8 && 1 <= c.prioOrder <= 8 }

  function Pow2(n: nat): (r: nat)
    ensures r >= 1
  {
    if n == 0 then 1 else 2 * Pow2(n - 1)
  }

  function NumBands(c: Config): nat { Pow2(c.bandOrder) }
  function NumPrios(c: Config): nat { Pow2(c.prioOrder) }

  /** roundup_pow_of_two(order_base_2(num_bands)) */
  function BitsPerPrio(c: Config): nat {
    if c.bandOrder <= 1 then 1 else if c.bandOrder == 2 then 2 else if c.bandOrder <= 4 then 4 else 8
  }

  /** i / prios_per_word, where prios_per_word is 32 / bits_per_prio */
  function WordOf(c: Config, i: nat): nat {
    match BitsPerPrio(c)
    case 1 => i / 32
    case 2 => i / 16
    case 4 => i / 8
    case _ => i / 4
  }

  /** prio_map_size(), in words. */
  function MapWords(c: Config): nat { ((BitsPerPrio(c) * NumPrios(c) + 7) / 8 + 3) / 4 }

  /** GENMASK(7, 8 - prioOrder): what the firmware keeps of the byte. */
  function DscpMask(c: Config): bv8
    requires ConfigOk(c)
  {
    match c.prioOrder
    case 1 => 0x80 case 2 => 0xc0 case 3 => 0xe0 case 4 => 0xf0
    case 5 => 0xf8 case 6 => 0xfc case 7 => 0xfe case _ => 0xff
  }

  /** Table index of a byte: d >> (8 - prioOrder). */
  function Index(c: Config, d: bv8): nat
    requires ConfigOk(c)
  {
    match c.prioOrder
    case 1 => (d >> 7) as int case 2 => (d >> 6) as int case 3 => (d >> 5) as int case 4 => (d >> 4) as int
    case 5 => (d >> 3) as int case 6 => (d >> 2) as int case 7 => (d >> 1) as int case _ => d as int
  }

  /** i << (8 - prioOrder), as a number. */
  function Scale(c: Config, i: nat): nat
    requires ConfigOk(c)
  {
    match c.prioOrder
    case 1 => i * 128 case 2 => i * 64 case 3 => i * 32 case 4 => i * 16
    case 5 => i * 8 case 6 => i * 4 case 7 => i * 2 case _ => i
  }

  /** The byte that stands for table index i. */
  function Prio(c: Config, i: nat): bv8
    requires ConfigOk(c) && i < NumPrios(c)
  {
    PrioFits(c, i);
    Scale(c, i) as bv8
  }

  lemma Pow2Table()
    ensures Pow2(0) == 1 && Pow2(1) == 2 && Pow2(2) == 4 && Pow2(3) == 8 && Pow2(4) == 16
    ensures Pow2(5) == 32 && Pow2(6) == 64 && Pow2(7) == 128 && Pow2(8) == 256
  {
    assert Pow2(4) == 16;
    assert Pow2(8) == 16 * Pow2(4);
  }

  lemma PrioFits(c: Config, i: nat)
    requires ConfigOk(c) && i < NumPrios(c)
    ensures Scale(c, i) < 256
  {
    Pow2Table();
  }

  lemma Shifts1(d: bv8)
    ensures (d >> 7) as int * 128 == (d & 0x80) as int && (d >> 7) as int < 2
    ensures (d >> 6) as int * 64 == (d & 0xc0) as int && (d >> 6) as int < 4
    ensures (d >> 5) as int * 32 == (d & 0xe0) as int && (d >> 5) as int < 8
    ensures (d >> 4) as int * 16 == (d & 0xf0) as int && (d >> 4) as int < 16
  {
  }

  lemma Shifts2(d: bv8)
    ensures (d >> 3) as int * 8 == (d & 0xf8) as int && (d >> 3) as int < 32
    ensures (d >> 2) as int * 4 == (d & 0xfc) as int && (d >> 2) as int < 64
    ensures (d >> 1) as int * 2 == (d & 0xfe) as int && (d >> 1) as int < 128
    ensures d as int == (d & 0xff) as int && d as int < 256
  {
  }

  lemma IndexScaled(c: Config, d: bv8)
    requires ConfigOk(c)
    ensures Index(c, d) < NumPrios(c)
    ensures Scale(c, Index(c, d)) == (d & DscpMask(c)) as int
  {
    Pow2Table();
    if c.prioOrder <= 4 { Shifts1(d); } else { Shifts2(d); }
  }

  /** Shifting down to an index and up again keeps just the bits of the mask. */
  lemma PrioOfIndex(c: Config, d: bv8)
    requires ConfigOk(c)
    ensures Index(c, d) < NumPrios(c)
    ensures Prio(c, Index(c, d)) == d & DscpMask(c)
  {
    IndexScaled(c, d);
  }

  // ---- filters ----

  datatype Filter = Filter(handle: nat, band: bv8, mask: bv8, val: bv8)

  predicate Hits(mask: bv8, val: bv8, d: bv8) { d & mask == val }

  predicate Matches(f: Filter, d: bv8) { Hits(f.mask, f.val, d) }

  /** find_band_for_prio(): the first match decides. */
  function Classify(fs: seq<Filter>, def: bv8, d: bv8): bv8 {
    if fs == [] then def else if Matches(fs[0], d) then fs[0].band else Classify(fs[1..], def, d)
  }

  /** What check_knode() makes sure of. */
  predicate FilterOk(c: Config, f: Filter)
    requires ConfigOk(c)
  {
    KeyPartOk(DscpMask(c), f.val, f.mask) && BandOk(c, f.band)
  }

  predicate BandOk(c: Config, b: bv8) { b as int < NumBands(c) }

  predicate KeyPartOk(keep: bv8, val: bv8, mask: bv8) { val & !mask == 0 && mask & !keep == 0 }

  /** A filter only looks at bits that the table keeps. */
  lemma MatchesTruncated(c: Config, f: Filter, d: bv8)
    requires ConfigOk(c) && FilterOk(c, f)
    ensures Matches(f, d & DscpMask(c)) <==> Matches(f, d)
  {
    MaskAbsorbs(d, DscpMask(c), f.mask);
  }

  lemma MaskAbsorbs(d: bv8, keep: bv8, mask: bv8)
    requires mask & !keep == 0
    ensures (d & keep) & mask == d & mask
  {
  }

  lemma ClassifyTruncated(c: Config, fs: seq<Filter>, def: bv8, d: bv8)
    requires ConfigOk(c) && forall i :: 0 <= i < |fs| ==> FilterOk(c, fs[i])
    ensures Classify(fs, def, d & DscpMask(c)) == Classify(fs, def, d)
  {
    if fs != [] {
      MatchesTruncated(c, fs[0], d);
      ClassifyTruncated(c, fs[1..], def, d);
    }
  }

  /** The test used against installed filters. */
  predicate Overlap(f: Filter, g: Filter) {
    f.val & (f.mask & g.mask) == g.val & (f.mask & g.mask)
  }

  /** The test is exact: two filters overlap just when some byte matches both. */
  lemma OverlapExact(f: Filter, g: Filter)
    requires f.val & !f.mask == 0 && g.val & !g.mask == 0
    ensures Overlap(f, g) <==> exists d :: Matches(f, d) && Matches(g, d)
  {
    if Overlap(f, g) {
      var d := OverlapWitness(f, g);
      assert Matches(f, d) && Matches(g, d);
    }
    forall d | Matches(f, d) && Matches(g, d)
      ensures Overlap(f, g)
    {
      MatchOverlaps(f, g, d);
    }
  }

  lemma OverlapWitness(f: Filter, g: Filter) returns (d: bv8)
    requires f.val & !f.mask == 0 && g.val & !g.mask == 0 && Overlap(f, g)
    ensures Matches(f, d) && Matches(g, d)
  {
    UnionMatches(f.val, f.mask, g.val, g.mask);
    d := f.val | g.val;
  }

  lemma MatchOverlaps(f: Filter, g: Filter, d: bv8)
    requires Matches(f, d) && Matches(g, d)
    ensures Overlap(f, g)
  {
    CommonMatch(d, f.mask, g.mask);
  }

  lemma UnionMatches(v1: bv8, m1: bv8, v2: bv8, m2: bv8)
    requires v1 & !m1 == 0 && v2 & !m2 == 0 && v1 & (m1 & m2) == v2 & (m1 & m2)
    ensures (v1 | v2) & m1 == v1 && (v1 | v2) & m2 == v2
  {
  }

  lemma CommonMatch(d: bv8, m1: bv8, m2: bv8)
    ensures (d & m1) & (m1 & m2) == (d & m2) & (m1 & m2)
  {
  }

  predicate ConflictFree(fs: seq<Filter>) {
    forall i, j :: 0 <= i < |fs| && 0 <= j < |fs| && i != j && Overlap(fs[i], fs[j]) ==> fs[i].band == fs[j].band
  }

  predicate Distinct(fs: seq<Filter>) {
    forall i, j :: 0 <= i < j < |fs| ==> fs[i].handle != fs[j].handle
  }

  /** In a conflict-free list any match gives the answer, whatever its position. */
  lemma {:induction false} AnyMatchDecides(c: Config, fs: seq<Filter>, def: bv8, d: bv8, i: nat)
    requires ConfigOk(c) && ConflictFree(fs) && (forall k :: 0 <= k < |fs| ==> FilterOk(c, fs[k]))
    requires i < |fs| && Matches(fs[i], d)
    ensures Classify(fs, def, d) == fs[i].band
  {
    if i > 0 {
      if Matches(fs[0], d) {
        MatchOverlaps(fs[0], fs[i], d);
      } else {
        AnyMatchDecides(c, fs[1..], def, d, i - 1);
      }
    }
  }

  lemma NoMatchDefault(fs: seq<Filter>, def: bv8, d: bv8)
    requires forall i :: 0 <= i < |fs| ==> !Matches(fs[i], d)
    ensures Classify(fs, def, d) == def
  {
  }

  /** So the order of the list does not matter. */
  lemma OrderIrrelevant(c: Config, fs: seq<Filter>, gs: seq<Filter>, def: bv8, d: bv8)
    requires ConfigOk(c) && ConflictFree(fs) && (forall k :: 0 <= k < |fs| ==> FilterOk(c, fs[k]))
    requires ConflictFree(gs) && (forall f :: f in fs <==> f in gs)
    ensures Classify(fs, def, d) == Classify(gs, def, d)
  {
    assert forall k :: 0 <= k < |gs| ==> gs[k] in fs;
    if i :| 0 <= i < |fs| && Matches(fs[i], d) {
      AnyMatchDecides(c, fs, def, d, i);
      assert fs[i] in gs;
      var j :| 0 <= j < |gs| && gs[j] == fs[i];
      AnyMatchDecides(c, gs, def, d, j);
    } else {
      assert forall k :: 0 <= k < |gs| ==> !Matches(gs[k], d);
      NoMatchDefault(fs, def, d);
      NoMatchDefault(gs, def, d);
    }
  }

  // ---- the packed table ----

  /** The bits of a band number. */
  function Bits(b: bv8): Word { set j: nat | j < 8 && BitOf(b, j) }

  predicate BitOf(b: bv8, j: nat)
    requires j < 8
  {
    b & (1 << j) != 0
  }

  lemma BitsInjective(a: bv8, b: bv8)
    requires Bits(a) == Bits(b)
    ensures a == b
  {
    assert 0 in Bits(a) <==> 0 in Bits(b);
    assert 1 in Bits(a) <==> 1 in Bits(b);
    assert 2 in Bits(a) <==> 2 in Bits(b);
    assert 3 in Bits(a) <==> 3 in Bits(b);
    assert 4 in Bits(a) <==> 4 in Bits(b);
    assert 5 in Bits(a) <==> 5 in Bits(b);
    assert 6 in Bits(a) <==> 6 in Bits(b);
    assert 7 in Bits(a) <==> 7 in Bits(b);
  }

  function Shift(w: Word, n: nat): set<nat> { set j: nat | j in w :: j + n }

  function Field(w: Word, off: nat, len: nat): Word
    requires off + len <= 32
  {
    set j: nat | j < len && InField(w, off, j)
  }

  predicate InField(w: Word, off: nat, j: nat) { off + j in w }

  /** (i % prios_per_word) * bits_per_prio */
  function Offset(c: Config, i: nat): (r: nat)
    requires ConfigOk(c)
    ensures r + BitsPerPrio(c) <= 32
  {
    match BitsPerPrio(c)
    case 1 => i % 32
    case 2 => i % 16 * 2
    case 4 => i % 8 * 4
    case _ => i % 4 * 8
  }

  lemma FieldsApart(c: Config, i: nat, j: nat)
    requires ConfigOk(c) && i != j && WordOf(c, i) == WordOf(c, j)
    ensures Offset(c, i) + BitsPerPrio(c) <= Offset(c, j) || Offset(c, j) + BitsPerPrio(c) <= Offset(c, i)
  {
  }

  lemma WordInMap(c: Config, i: nat)
    requires ConfigOk(c) && i < NumPrios(c)
    ensures WordOf(c, i) < MapWords(c)
  {
    Pow2Table();
  }

  lemma BandFits(c: Config, b: bv8)
    requires ConfigOk(c) && BandOk(c, b)
    ensures forall j :: j in Bits(b) ==> j < BitsPerPrio(c)
  {
    Pow2Table();
  }

  function Range(off: nat, len: nat): set<nat> { set j: nat | j < off + len && AtLeast(j, off) }

  predicate AtLeast(j: nat, off: nat) { off <= j }

  /** The table is a string of fields without gaps, one for each priority in order, in as few words as hold it; a
      field is the smallest power of two of bits that holds the number of a band. */
  lemma LayoutExactly(c: Config, i: nat)
    requires ConfigOk(c)
    ensures 32 * WordOf(c, i) + Offset(c, i) == i * BitsPerPrio(c)
    ensures BitsPerPrio(c) in {1, 2, 4, 8} && c.bandOrder <= BitsPerPrio(c)
    ensures BitsPerPrio(c) > 1 ==> BitsPerPrio(c) / 2 < c.bandOrder
    ensures NumPrios(c) * BitsPerPrio(c) <= 32 * MapWords(c) < NumPrios(c) * BitsPerPrio(c) + 32
  {
    Pow2Table();
    match BitsPerPrio(c)
    case 1 =>
    case 2 =>
    case 4 =>
    case _ =>
  }

  /** The word with the bits put into the field. */
  function SetField(w: Word, off: nat, len: nat, bits: Word): (r: Word)
    requires off + len <= 32 && forall j :: j in bits ==> j < len
  {
    (w - Range(off, len)) + Shift(bits, off)
  }

  lemma SetFieldSame(w: Word, off: nat, len: nat, bits: Word)
    requires off + len <= 32 && forall j :: j in bits ==> j < len
    ensures Field(SetField(w, off, len, bits), off, len) == bits
  {
    forall j: nat | j < len
      ensures InField(SetField(w, off, len, bits), off, j) <==> j in bits
    {
      assert j in bits ==> j + off in Shift(bits, off);
    }
  }

  lemma SetFieldOther(w: Word, off: nat, len: nat, bits: Word, off': nat)
    requires off + len <= 32 && off' + len <= 32 && forall j :: j in bits ==> j < len
    requires off + len <= off' || off' + len <= off
    ensures Field(SetField(w, off, len, bits), off', len) == Field(w, off', len)
  {
    forall j: nat | j < len
      ensures InField(SetField(w, off, len, bits), off', j) <==> InField(w, off', j)
    {
    }
  }

  /** Table entry i holds this band. */
  ghost predicate Entry(c: Config, words: seq<Word>, i: nat, band: bv8)
    requires ConfigOk(c) && i < NumPrios(c) && |words| == MapWords(c)
  {
    WordInMap(c, i);
    Field(words[WordOf(c, i)], Offset(c, i), BitsPerPrio(c)) == Bits(band)
  }

  lemma EntryWritten(c: Config, words: seq<Word>, i: nat, band: bv8)
    requires ConfigOk(c) && i < NumPrios(c) && |words| == MapWords(c) && WordOf(c, i) < |words|
    requires forall j :: j in Bits(band) ==> j < BitsPerPrio(c)
    ensures var word := SetField(words[WordOf(c, i)], Offset(c, i), BitsPerPrio(c), Bits(band));
            Entry(c, words[WordOf(c, i) := word], i, band)
  {
    SetFieldSame(words[WordOf(c, i)], Offset(c, i), BitsPerPrio(c), Bits(band));
  }

  /** Writing entry i changes no other entry. */
  lemma EntryKept(c: Config, words: seq<Word>, i: nat, bits: Word, k: nat, other: bv8)
    requires ConfigOk(c) && i < NumPrios(c) && k < NumPrios(c) && |words| == MapWords(c) && WordOf(c, i) < |words|
    requires (forall j :: j in bits ==> j < BitsPerPrio(c)) && k != i && Entry(c, words, k, other)
    ensures Entry(c, words[WordOf(c, i) := SetField(words[WordOf(c, i)], Offset(c, i), BitsPerPrio(c), bits)], k, other)
  {
    WordInMap(c, k);
    if WordOf(c, i) == WordOf(c, k) {
      FieldsApart(c, i, k);
      SetFieldOther(words[WordOf(c, i)], Offset(c, i), BitsPerPrio(c), bits, Offset(c, k));
    }
  }

  /** The first n entries hold these bands. */
  ghost predicate Entries(c: Config, words: seq<Word>, want: seq<bv8>, n: nat)
    requires ConfigOk(c) && n <= |want| == NumPrios(c) && |words| == MapWords(c)
  {
    forall i :: 0 <= i < n ==> Entry(c, words, i, want[i])
  }

  lemma EntriesExtend(c: Config, words: seq<Word>, words': seq<Word>, want: seq<bv8>, i: nat)
    requires ConfigOk(c) && i < |want| == NumPrios(c) && |words| == MapWords(c) && WordOf(c, i) < |words|
    requires Entries(c, words, want, i) && BandOk(c, want[i])
    requires (forall j :: j in Bits(want[i]) ==> j < BitsPerPrio(c))
    requires words' == words[WordOf(c, i) :=
               SetField(words[WordOf(c, i)], Offset(c, i), BitsPerPrio(c), Bits(want[i]))]
    ensures Entries(c, words', want, i + 1)
  {
    forall k | 0 <= k <= i
      ensures Entry(c, words', k, want[k])
    {
      if k == i { EntryWritten(c, words, i, want[i]); } else { EntryKept(c, words, i, Bits(want[i]), k, want[k]); }
    }
  }

  /** What walking the list gives for the byte that stands for each entry. */
  ghost function Bands(c: Config, fs: seq<Filter>, def: bv8): (r: seq<bv8>)
    requires ConfigOk(c)
    ensures |r| == NumPrios(c)
  {
    seq(NumPrios(c), i requires 0 <= i < NumPrios(c) => Classify(fs, def, Prio(c, i)))
  }

  /** A zeroed table is right for an empty list. */
  lemma ZeroTable(c: Config, words: seq<Word>)
    requires ConfigOk(c) && |words| == MapWords(c) && forall j :: 0 <= j < |words| ==> words[j] == {}
    ensures Entries(c, words, Bands(c, [], 0), NumPrios(c))
  {
    ZeroBits();
    forall i | 0 <= i < NumPrios(c)
      ensures Entry(c, words, i, 0)
    {
      WordInMap(c, i);
      assert words[WordOf(c, i)] == {};
    }
  }

  // ---- requests from tc ----

  datatype Proto = Ip | Ipv6 | OtherProto

  /** tc_cls_u32_knode, with the settings that only lead to refusal folded into flags. */
  datatype Knode = Knode(
    handle: nat, hasActions: bool, linked: bool, terminal: bool, variableOffset: bool, hashed: bool,
    matchesMark: bool, setsClass: bool, classid: bv32, nkeys: nat,
    keyOffmask: bool, keyOff: int, keyVal: bv32, keyMask: bv32)

  /** The TOS octet of an IPv4 header word and the traffic class of an IPv6 one. */
  function TosV4(w: bv32): bv8 { ((w >> 16) & 0xff) as bv8 }
  function TosV6(w: bv32): bv8 { ((w >> 20) & 0xff) as bv8 }

  predicate CheckKnode(c: Config, k: Knode, proto: Proto)
    requires ConfigOk(c)
  {
    && !k.hasActions && !k.linked && k.terminal && !k.variableOffset && !k.hashed
    && !k.matchesMark && !k.setsClass
    && ClassOk(c, k.classid)
    && k.nkeys == 1
    && (proto == Ip || proto == Ipv6)
    && !k.keyOffmask && k.keyOff == 0
    && (if proto == Ip then KeyOkV4(DscpMask(c), k.keyVal, k.keyMask)
        else KeyOkV6(DscpMask(c), k.keyVal, k.keyMask))
  }

  predicate KeyOkV4(keep: bv8, v: bv32, m: bv32) { v & !m == 0 && (m >> 16) & !(keep as bv32) == 0 }
  predicate KeyOkV6(keep: bv8, v: bv32, m: bv32) { v & !m == 0 && (m >> 20) & !(keep as bv32) == 0 }

  function ClassBits(classid: bv32): bv8
    requires classid < 256
  {
    classid as bv8
  }

  lemma ClassBitsSame(classid: bv32)
    requires classid < 256
    ensures ClassBits(classid) as int == classid as int
  {
  }

  /** The part of the key that lies over the TOS field. */
  function TosOf(proto: Proto, w: bv32): bv8 { if proto == Ip then TosV4(w) else TosV6(w) }

  function FilterOf(k: Knode, proto: Proto): Filter
    requires k.classid < 256
  {
    Filter(k.handle, ClassBits(k.classid), TosOf(proto, k.keyMask), TosOf(proto, k.keyVal))
  }

  lemma CheckedFilterOk(c: Config, k: Knode, proto: Proto)
    requires ConfigOk(c) && CheckKnode(c, k, proto)
    ensures k.classid < 256 && FilterOk(c, FilterOf(k, proto))
  {
    if proto == Ip { CheckedV4(c, k); } else { CheckedV6(c, k); }
  }

  lemma CheckedV4(c: Config, k: Knode)
    requires ConfigOk(c) && ClassOk(c, k.classid) && KeyOkV4(DscpMask(c), k.keyVal, k.keyMask)
    ensures k.classid < 256 && FilterOk(c, FilterOf(k, Ip))
  {
    ClassBand(c, k.classid);
    KeyBitsV4(k.keyVal, k.keyMask, DscpMask(c));
  }

  lemma CheckedV6(c: Config, k: Knode)
    requires ConfigOk(c) && ClassOk(c, k.classid) && KeyOkV6(DscpMask(c), k.keyVal, k.keyMask)
    ensures k.classid < 256 && FilterOk(c, FilterOf(k, Ipv6))
  {
    ClassBand(c, k.classid);
    KeyBitsV6(k.keyVal, k.keyMask, DscpMask(c));
  }

  predicate ClassOk(c: Config, classid: bv32) { classid as int < NumBands(c) }

  lemma ClassBand(c: Config, classid: bv32)
    requires ConfigOk(c) && ClassOk(c, classid)
    ensures classid < 256 && BandOk(c, ClassBits(classid))
  {
    Pow2Table();
  }

  lemma KeyBitsV4(v: bv32, m: bv32, keep: bv8)
    requires KeyOkV4(keep, v, m)
    ensures KeyPartOk(keep, TosV4(v), TosV4(m))
  {
  }

  lemma KeyBitsV6(v: bv32, m: bv32, keep: bv8)
    requires KeyOkV6(keep, v, m)
    ensures KeyPartOk(keep, TosV6(v), TosV6(m))
  {
  }

  // ---- the list ----

  predicate AllOk(c: Config, fs: seq<Filter>)
    requires ConfigOk(c)
  {
    (forall i :: 0 <= i < |fs| ==> FilterOk(c, fs[i])) && ConflictFree(fs) && Distinct(fs)
  }

  /** Position of a handle, or the length. */
  function Find(fs: seq<Filter>, handle: nat): (i: nat)
    ensures i <= |fs| && (i < |fs| ==> fs[i].handle == handle)
    ensures forall k :: 0 <= k < i ==> fs[k].handle != handle
  {
    if fs == [] || fs[0].handle == handle then 0 else 1 + Find(fs[1..], handle)
  }

  lemma FindIs(fs: seq<Filter>, handle: nat, i: nat)
    requires i <= |fs| && (i < |fs| ==> fs[i].handle == handle)
    requires forall k :: 0 <= k < i ==> fs[k].handle != handle
    ensures Find(fs, handle) == i
  {
  }

  function Removed(fs: seq<Filter>, handle: nat): seq<Filter> {
    var i := Find(fs, handle);
    if i == |fs| then fs else fs[..i] + fs[i + 1..]
  }

  /** Replace the filter with the same handle in place, or add at the front. */
  function Installed(fs: seq<Filter>, f: Filter): seq<Filter> {
    var i := Find(fs, f.handle);
    if i == |fs| then [f] + fs else fs[i := f]
  }

  predicate Conflict(g: Filter, f: Filter) {
    g.handle != f.handle && Overlap(g, f) && g.band != f.band
  }

  predicate Conflicts(fs: seq<Filter>, f: Filter) {
    exists i :: 0 <= i < |fs| && Conflict(fs[i], f)
  }

  lemma RemovedOk(c: Config, fs: seq<Filter>, handle: nat)
    requires ConfigOk(c) && AllOk(c, fs)
    ensures AllOk(c, Removed(fs, handle))
  {
    var i := Find(fs, handle);
    var gs := Removed(fs, handle);
    if i < |fs| {
      assert forall k :: 0 <= k < |gs| ==> gs[k] == fs[if k < i then k else k + 1];
    }
  }

  lemma OverlapSymmetric(f: Filter, g: Filter)
    ensures Overlap(f, g) == Overlap(g, f)
  {
    AndCommutes(f.mask, g.mask);
  }

  lemma AndCommutes(a: bv8, b: bv8)
    ensures a & b == b & a
  {
  }

  /** Installing a filter that passed the conflict test keeps the list free of conflicts. */
  lemma InstalledOk(c: Config, fs: seq<Filter>, f: Filter)
    requires ConfigOk(c) && AllOk(c, fs) && FilterOk(c, f) && !Conflicts(fs, f)
    ensures AllOk(c, Installed(fs, f))
  {
    var i, gs := Find(fs, f.handle), Installed(fs, f);
    var at := if i == |fs| then 0 else i;
    var from := if i == |fs| then 1 else 0;
    assert forall k :: 0 <= k < |gs| && k != at ==> gs[k] == fs[k - from] && fs[k - from].handle != f.handle;
    forall k | 0 <= k < |gs| && k != at
      ensures Overlap(gs[k], f) == Overlap(f, gs[k]) && !Conflict(gs[k], f)
    {
      OverlapSymmetric(gs[k], f);
      assert !Conflict(fs[k - from], f);
    }
    forall j, k | 0 <= j < |gs| && 0 <= k < |gs| && j != k && Overlap(gs[j], gs[k])
      ensures gs[j].band == gs[k].band
    {
      if j != at && k != at {
        assert gs[j] == fs[j - from] && gs[k] == fs[k - from];
      }
    }
  }

  // ---- what installing and removing mean ----

  /** Installing replaces the filter with the handle, or adds one, and leaves all others alone. */
  lemma InstalledMember(fs: seq<Filter>, f: Filter, g: Filter)
    requires Distinct(fs)
    ensures g in Installed(fs, f) <==> g == f || (g in fs && g.handle != f.handle)
  {
    var i, gs := Find(fs, f.handle), Installed(fs, f);
    var at, from := if i == |fs| then 0 else i, if i == |fs| then 1 else 0;
    assert gs[at] == f && forall k :: 0 <= k < |gs| && k != at ==> gs[k] == fs[k - from];
    if g in fs && g.handle != f.handle {
      var k :| 0 <= k < |fs| && fs[k] == g;
      assert gs[k + from] == g;
    }
  }

  /** Removing takes the filter with the handle away, and leaves all others alone. */
  lemma RemovedMember(fs: seq<Filter>, handle: nat, g: Filter)
    requires Distinct(fs)
    ensures g in Removed(fs, handle) <==> g in fs && g.handle != handle
  {
    var i, gs := Find(fs, handle), Removed(fs, handle);
    if i < |fs| {
      assert forall k :: 0 <= k < |gs| ==> gs[k] == fs[if k < i then k else k + 1];
      if g in fs && g.handle != handle {
        var k :| 0 <= k < |fs| && fs[k] == g;
        assert gs[if k < i then k else k - 1] == g;
      }
    }
  }

  /** The band of a byte: that of any filter that matches it, and the default if none does. */
  lemma ClassifyExactly(c: Config, fs: seq<Filter>, def: bv8, d: bv8)
    requires ConfigOk(c) && AllOk(c, fs)
    ensures forall g :: g in fs && Matches(g, d) ==> Classify(fs, def, d) == g.band
    ensures (forall g :: g in fs ==> !Matches(g, d)) ==> Classify(fs, def, d) == def
  {
    forall g | g in fs && Matches(g, d) ensures Classify(fs, def, d) == g.band {
      var i :| 0 <= i < |fs| && fs[i] == g;
      AnyMatchDecides(c, fs, def, d, i);
    }
    if forall g :: g in fs ==> !Matches(g, d) { NoMatchDefault(fs, def, d); }
  }

  /** Lists with the same matching filters give the same band. */
  lemma SameMatches(c: Config, fs: seq<Filter>, gs: seq<Filter>, def: bv8, d: bv8)
    requires ConfigOk(c) && AllOk(c, fs) && AllOk(c, gs)
    requires forall g :: Matches(g, d) ==> (g in fs <==> g in gs)
    ensures Classify(fs, def, d) == Classify(gs, def, d)
  {
    ClassifyExactly(c, fs, def, d);
    ClassifyExactly(c, gs, def, d);
  }

  /** After a filter is installed it decides about every byte that it matches, and about no other: those are
      classified as if no filter had this handle. */
  lemma InstalledClassifies(c: Config, fs: seq<Filter>, f: Filter, def: bv8, d: bv8)
    requires ConfigOk(c) && AllOk(c, fs) && FilterOk(c, f) && !Conflicts(fs, f)
    ensures Classify(Installed(fs, f), def, d) ==
            if Matches(f, d) then f.band else Classify(Removed(fs, f.handle), def, d)
  {
    InstalledOk(c, fs, f);
    RemovedOk(c, fs, f.handle);
    if Matches(f, d) {
      InstalledMember(fs, f, f);
      ClassifyExactly(c, Installed(fs, f), def, d);
    } else {
      forall g | Matches(g, d) ensures g in Installed(fs, f) <==> g in Removed(fs, f.handle) {
        InstalledMember(fs, f, g);
        RemovedMember(fs, f.handle, g);
      }
      SameMatches(c, Installed(fs, f), Removed(fs, f.handle), def, d);
    }
  }

  /** Some byte matches both filters, and they disagree about it. */
  predicate Clash(g: Filter, f: Filter, d: bv8) { Matches(g, d) && Matches(f, d) && g.band != f.band }

  lemma ConflictExactly(c: Config, g: Filter, f: Filter)
    requires ConfigOk(c) && FilterOk(c, g) && FilterOk(c, f)
    ensures Conflict(g, f) <==> g.handle != f.handle && exists d :: Clash(g, f, d)
  {
    OverlapExact(g, f);
    if d :| Matches(g, d) && Matches(f, d) { assert g.band != f.band ==> Clash(g, f, d); }
  }

  /** A filter is refused for a conflict exactly if some byte matches it and an installed filter with another
      handle, and they disagree about the band. */
  lemma ConflictsExactly(c: Config, fs: seq<Filter>, f: Filter)
    requires ConfigOk(c) && AllOk(c, fs) && FilterOk(c, f)
    ensures Conflicts(fs, f) <==> exists g, d :: g in fs && g.handle != f.handle && Clash(g, f, d)
  {
    if Conflicts(fs, f) {
      var i :| 0 <= i < |fs| && Conflict(fs[i], f);
      ConflictExactly(c, fs[i], f);
      var d :| Clash(fs[i], f, d);
      assert fs[i] in fs;
    }
    if g, d :| g in fs && g.handle != f.handle && Clash(g, f, d) {
      var i :| 0 <= i < |fs| && fs[i] == g;
      ConflictExactly(c, fs[i], f);
    }
  }

  predicate KeyMatches(w: bv32, v: bv32, m: bv32) { w & m == v }

  /** The key matches some header word. */
  ghost predicate Satisfiable(v: bv32, m: bv32) { exists w: bv32 :: KeyMatches(w, v, m) }

  lemma SatisfiableExactly(v: bv32, m: bv32)
    ensures Satisfiable(v, m) <==> v & !m == 0
  {
    if v & !m == 0 {
      ValueMatches(v, m);
      assert KeyMatches(v, v, m);
    } else if w: bv32 :| KeyMatches(w, v, m) {
      MatchInside(w, m);
    }
  }

  lemma ValueMatches(v: bv32, m: bv32)
    requires v & !m == 0
    ensures v & m == v
  {
  }

  lemma MatchInside(w: bv32, m: bv32)
    ensures (w & m) & !m == 0
  {
  }

  /** Where the TOS field starts. */
  function HighPart(proto: Proto, w: bv32): bv32 { if proto == Ip then w >> 16 else w >> 20 }

  /** The key looks at nothing above the TOS field, and only at those bits of it that the table keeps. */
  predicate KeyInside(proto: Proto, keep: bv8, m: bv32) { HighPart(proto, m) < 256 && TosOf(proto, m) & !keep == 0 }

  lemma KeyOkExactlyV4(keep: bv8, v: bv32, m: bv32)
    ensures KeyOkV4(keep, v, m) <==> Satisfiable(v, m) && KeyInside(Ip, keep, m)
  {
    SatisfiableExactly(v, m);
    MaskPartsV4(keep, m);
  }

  lemma KeyOkExactlyV6(keep: bv8, v: bv32, m: bv32)
    ensures KeyOkV6(keep, v, m) <==> Satisfiable(v, m) && KeyInside(Ipv6, keep, m)
  {
    SatisfiableExactly(v, m);
    MaskPartsV6(keep, m);
  }

  lemma MaskPartsV4(keep: bv8, m: bv32)
    ensures (m >> 16) & !(keep as bv32) == 0 <==> (m >> 16) < 256 && TosV4(m) & !keep == 0
  {
  }

  lemma MaskPartsV6(keep: bv8, m: bv32)
    ensures (m >> 20) & !(keep as bv32) == 0 <==> (m >> 20) < 256 && TosV6(m) & !keep == 0
  {
  }

  /** Nothing about the knode but its one key and the class it leads to. */
  predicate Plain(k: Knode) {
    k.terminal && k.nkeys == 1 && k.keyOff == 0
    && !(k.hasActions || k.linked || k.variableOffset || k.hashed || k.matchesMark || k.setsClass || k.keyOffmask)
  }

  /** A knode is accepted exactly if it is plain, its class is a band, it is for IPv4 or IPv6, and its key can match and
      looks only at bits that the table keeps. */
  lemma AcceptedExactly(c: Config, k: Knode, proto: Proto)
    requires ConfigOk(c)
    ensures CheckKnode(c, k, proto) <==>
            Plain(k) && ClassOk(c, k.classid) && (proto == Ip || proto == Ipv6)
            && Satisfiable(k.keyVal, k.keyMask) && KeyInside(proto, DscpMask(c), k.keyMask)
    ensures ClassOk(c, k.classid) <==> k.classid as int < NumBands(c)
  {
    if proto == Ip {
      KeyOkExactlyV4(DscpMask(c), k.keyVal, k.keyMask);
    } else if proto == Ipv6 {
      KeyOkExactlyV6(DscpMask(c), k.keyVal, k.keyMask);
    }
  }

  /** A header word that the key matches goes to the class of the knode, if the key has no bits below the TOS field.
      (Accepted knodes have classes below 256, by CheckedFilterOk; the clause makes FilterOf well defined.) */
  lemma KeyDecidesV4(c: Config, fs: seq<Filter>, k: Knode, def: bv8, w: bv32)
    requires ConfigOk(c) && AllOk(c, fs) && CheckKnode(c, k, Ip) && k.classid < 256 && !Conflicts(fs, FilterOf(k, Ip))
    requires NothingBelowV4(k.keyMask) && w & k.keyMask == k.keyVal
    ensures Classify(Installed(fs, FilterOf(k, Ip)), def, TosV4(w)) as int == k.classid as int
  {
    CheckedFilterOk(c, k, Ip);
    HighKeyV4(w, k.keyVal, k.keyMask, DscpMask(c));
    InstalledClassifies(c, fs, FilterOf(k, Ip), def, TosV4(w));
  }

  lemma KeyDecidesV6(c: Config, fs: seq<Filter>, k: Knode, def: bv8, w: bv32)
    requires ConfigOk(c) && AllOk(c, fs) && CheckKnode(c, k, Ipv6) && k.classid < 256
    requires !Conflicts(fs, FilterOf(k, Ipv6))
    requires NothingBelowV6(k.keyMask) && w & k.keyMask == k.keyVal
    ensures Classify(Installed(fs, FilterOf(k, Ipv6)), def, TosV6(w)) as int == k.classid as int
  {
    CheckedFilterOk(c, k, Ipv6);
    HighKeyV6(w, k.keyVal, k.keyMask, DscpMask(c));
    InstalledClassifies(c, fs, FilterOf(k, Ipv6), def, TosV6(w));
  }

  /** The byte matches the part of the key that lies over the TOS field. */
  predicate KeyHits(k: Knode, proto: Proto, d: bv8) { Hits(TosOf(proto, k.keyMask), TosOf(proto, k.keyVal), d) }

  lemma FilterHits(k: Knode, proto: Proto, f: Filter, d: bv8)
    requires k.classid < 256 && f == FilterOf(k, proto)
    ensures Matches(f, d) <==> KeyHits(k, proto, d)
  {
  }

  /** The knode decides about the bytes its key matches, and the rest of the list about all others. */
  predicate Decides(k: Knode, proto: Proto, fs: seq<Filter>, rest: seq<Filter>, def: bv8, d: bv8)
    requires k.classid < 256
  {
    if KeyHits(k, proto, d) then Classify(fs, def, d) as int == k.classid as int
    else Classify(fs, def, d) == Classify(rest, def, d)
  }

  lemma KeyInstalledAt(c: Config, fs: seq<Filter>, k: Knode, proto: Proto, f: Filter, def: bv8, d: bv8)
    requires ConfigOk(c) && AllOk(c, fs) && k.classid < 256 && f == FilterOf(k, proto) && FilterOk(c, f)
    requires !Conflicts(fs, f)
    ensures Decides(k, proto, Installed(fs, f), Removed(fs, k.handle), def, d)
  {
    FilterHits(k, proto, f, d);
    ClassBitsSame(k.classid);
    InstalledClassifies(c, fs, f, def, d);
  }

  lemma KeyInstalled(c: Config, fs: seq<Filter>, k: Knode, proto: Proto, f: Filter, def: bv8)
    requires ConfigOk(c) && AllOk(c, fs) && k.classid < 256 && f == FilterOf(k, proto) && FilterOk(c, f)
    requires !Conflicts(fs, f)
    ensures forall d: bv8 :: Decides(k, proto, Installed(fs, f), Removed(fs, k.handle), def, d)
  {
    forall d: bv8 ensures Decides(k, proto, Installed(fs, f), Removed(fs, k.handle), def, d) {
      KeyInstalledAt(c, fs, k, proto, f, def, d);
    }
  }

  // ---- the firmware's copy of the table ----

  /** The filters behind the firmware's table after a delete: an update that fails leaves it as it was. */
  function ToldAfterDelete(fs: seq<Filter>, told: seq<Filter>, handle: nat, devErr: int): seq<Filter> {
    if Find(fs, handle) < |fs| && devErr == 0 then Removed(fs, handle) else told
  }

  /** Both lists give every byte the same band. */
  ghost predicate InSync(c: Config, told: seq<Filter>, fs: seq<Filter>, def: bv8)
    requires ConfigOk(c)
  {
    Bands(c, told, def) == Bands(c, fs, def)
  }

  /** A delete leaves the firmware in step exactly if the update succeeds or the filter made no difference. */
  lemma DeleteInSyncExactly(c: Config, fs: seq<Filter>, told: seq<Filter>, handle: nat, devErr: int, def: bv8)
    requires ConfigOk(c) && InSync(c, told, fs, def)
    ensures InSync(c, ToldAfterDelete(fs, told, handle, devErr), Removed(fs, handle), def)
            <==> devErr == 0 || InSync(c, fs, Removed(fs, handle), def)
  {
  }

  lemma RemovedInstalled(fs: seq<Filter>, f: Filter)
    ensures Removed(Installed(fs, f), f.handle) == Removed(fs, f.handle)
    ensures Find(Installed(fs, f), f.handle) < |Installed(fs, f)|
  {
    var i := Find(fs, f.handle);
    FindIs(Installed(fs, f), f.handle, if i == |fs| then 0 else i);
  }

  /** A filter that cannot be installed because the firmware refuses the table is deleted again. The firmware is
      left in step exactly if that second update succeeds, or deleting the filter that was there before with
      this handle makes no difference; with none there, it always is. */
  lemma RefusedInSyncExactly(c: Config, fs: seq<Filter>, told: seq<Filter>, f: Filter, delErr: int, def: bv8)
    requires ConfigOk(c) && InSync(c, told, fs, def)
    ensures var gs := Removed(Installed(fs, f), f.handle);
            (InSync(c, ToldAfterDelete(Installed(fs, f), told, f.handle, delErr), gs, def)
             <==> delErr == 0 || InSync(c, fs, gs, def))
            && (Find(fs, f.handle) == |fs| ==> gs == fs)
  {
    RemovedInstalled(fs, f);
  }

  /** struct nfp_abm_link, its classifier part */
  class AbmLink {
    const cfg: Config
    const defBand: bv8
    const prioMap: array<Word>
    var dscpMap: seq<Filter>
    var hasPrio: bool
    /** The table in the firmware, and the filters it was made from. */
    var fwMap: seq<Word>
    ghost var told: seq<Filter>

    ghost predicate ListOk()
      reads this
    {
      ConfigOk(cfg) && defBand == 0 && prioMap.Length == MapWords(cfg) && AllOk(cfg, dscpMap)
    }

    /** Every table entry is what walking the list gives for the byte that stands for it. */
    ghost predicate TableOk()
      requires ListOk()
      reads this, prioMap
    {
      hasPrio == (dscpMap != []) && Entries(cfg, prioMap[..], Bands(cfg, dscpMap, defBand), NumPrios(cfg))
    }

    ghost predicate FirmwareOk()
      requires ListOk()
      reads this
    {
      |fwMap| == MapWords(cfg) && AllOk(cfg, told) && Entries(cfg, fwMap, Bands(cfg, told, defBand), NumPrios(cfg))
    }

    ghost predicate Valid()
      reads this, prioMap
    {
      ListOk() && TableOk() && FirmwareOk()
    }

    constructor (cfg: Config)
      requires ConfigOk(cfg)
      ensures Valid() && fresh(prioMap) && this.cfg == cfg && dscpMap == [] && told == []
    {
      this.cfg := cfg;
      defBand := 0;
      dscpMap := [];
      hasPrio := false;
      var words := new Word[MapWords(cfg)](_ => {});
      prioMap := words;
      told := [];
      new;
      fwMap := prioMap[..];
      ZeroTable(cfg, prioMap[..]);
    }

    method FindBandForPrio(prio: bv8) returns (band: bv8)
      ensures band == Classify(dscpMap, defBand, prio)
    {
      var i := 0;
      while i < |dscpMap|
        invariant 0 <= i <= |dscpMap|
        invariant Classify(dscpMap[i..], defBand, prio) == Classify(dscpMap, defBand, prio)
      {
        if Hits(dscpMap[i].mask, dscpMap[i].val, prio) {
          return dscpMap[i].band;
        }
        i := i + 1;
      }
      return defBand;
    }

    /** `devErr` is the result of handing the table to the firmware. */
    method UpdateBandMap(devErr: int) returns (err: int)
      requires ListOk() && FirmwareOk()
      modifies this`hasPrio, this`fwMap, this`told, prioMap
      ensures Valid() && err == devErr
      ensures told == if devErr == 0 then dscpMap else old(told)
    {
      hasPrio := dscpMap != [];
      ghost var want := Bands(cfg, dscpMap, defBand);
      var i := 0;
      while i < NumPrios(cfg)
        invariant 0 <= i <= NumPrios(cfg)
        invariant hasPrio == (dscpMap != []) && FirmwareOk() && told == old(told)
        invariant Entries(cfg, prioMap[..], want, i) && want == Bands(cfg, dscpMap, defBand)
      {
        var word, offset := WordOf(cfg, i), Offset(cfg, i);
        WordInMap(cfg, i);
        var band := FindBandForPrio(Prio(cfg, i));
        BandInRange(cfg, dscpMap, defBand, Prio(cfg, i));
        BandFits(cfg, band);
        ghost var before := prioMap[..];
        prioMap[word] := SetField(prioMap[word], offset, BitsPerPrio(cfg), Bits(band));
        EntriesExtend(cfg, before, prioMap[..], want, i);
        i := i + 1;
      }
      if devErr == 0 {
        fwMap, told := prioMap[..], dscpMap;
      }
      return devErr;
    }

    /** What the update returns is ignored. */
    method KnodeDelete(handle: nat, devErr: int)
      requires Valid()
      modifies this, prioMap
      ensures Valid() && dscpMap == Removed(old(dscpMap), handle)
      ensures told == ToldAfterDelete(old(dscpMap), old(told), handle, devErr)
    {
      var i := 0;
      while i < |dscpMap|
        invariant 0 <= i <= |dscpMap|
        invariant forall k :: 0 <= k < i ==> dscpMap[k].handle != handle
        invariant Valid() && dscpMap == old(dscpMap) && told == old(told)
      {
        if dscpMap[i].handle == handle {
          FindIs(dscpMap, handle, i);
          RemovedOk(cfg, dscpMap, handle);
          dscpMap := dscpMap[..i] + dscpMap[i + 1..];
          var _ := UpdateBandMap(devErr);
          return;
        }
        i := i + 1;
      }
      FindIs(dscpMap, handle, i);
    }

    /** The conflict scan: the position of the handle, or None when some other filter conflicts. */
    method Scan(f: Filter) returns (conflict: bool, at: nat)
      requires Distinct(dscpMap)
      ensures conflict == Conflicts(dscpMap, f)
      ensures !conflict ==> at == Find(dscpMap, f.handle)
    {
      at := |dscpMap|;
      var i := 0;
      while i < |dscpMap|
        invariant 0 <= i <= |dscpMap|
        invariant forall k :: 0 <= k < i ==> !Conflict(dscpMap[k], f)
        invariant at == |dscpMap| || (at < i && dscpMap[at].handle == f.handle)
        invariant at == |dscpMap| ==> forall k :: 0 <= k < i ==> dscpMap[k].handle != f.handle
      {
        if dscpMap[i].handle == f.handle {
          at := i;
        } else if Overlap(dscpMap[i], f) && dscpMap[i].band != f.band {
          assert Conflict(dscpMap[i], f);
          return true, at;
        }
        i := i + 1;
      }
      FindIs(dscpMap, f.handle, at);
      return false, at;
    }

    /** `allocOk`, `devErr` and `delErr` are the outcomes of the allocation, of the firmware update, and of the one
        when the filter is deleted again. */
    method KnodeReplace(k: Knode, proto: Proto, allocOk: bool, devErr: int, delErr: int) returns (err: int)
      requires Valid()
      modifies this, prioMap
      ensures Valid()
      ensures CheckKnode(cfg, k, proto) ==> k.classid < 256
      ensures !CheckKnode(cfg, k, proto) ==> err == EOPNOTSUPP && dscpMap == Removed(old(dscpMap), k.handle)
                                             && told == ToldAfterDelete(old(dscpMap), old(told), k.handle, delErr)
      ensures CheckKnode(cfg, k, proto) ==>
                var f, was := FilterOf(k, proto), old(dscpMap);
                if Conflicts(was, f) then err == EOPNOTSUPP && dscpMap == Removed(was, k.handle)
                else if Find(was, k.handle) == |was| && !allocOk then err == ENOMEM && dscpMap == was
                else if devErr != 0 then err == EOPNOTSUPP && dscpMap == Removed(Installed(was, f), k.handle)
                else err == 0 && dscpMap == Installed(was, f)
      ensures CheckKnode(cfg, k, proto) ==>
                var f, was := FilterOf(k, proto), old(dscpMap);
                if Conflicts(was, f) then told == ToldAfterDelete(was, old(told), k.handle, delErr)
                else if Find(was, k.handle) == |was| && !allocOk then told == old(told)
                else if devErr != 0 then told == ToldAfterDelete(Installed(was, f), old(told), k.handle, delErr)
                else told == Installed(was, f)
      ensures err == 0 ==> CheckKnode(cfg, k, proto)
      ensures err == 0 ==>
                forall d: bv8 :: Decides(k, proto, dscpMap, Removed(old(dscpMap), k.handle), defBand, d)
    {
      if !CheckKnode(cfg, k, proto) {
        KnodeDelete(k.handle, delErr);
        return EOPNOTSUPP;
      }
      CheckedFilterOk(cfg, k, proto);
      var f := FilterOf(k, proto);
      var conflict, at := Scan(f);
      if conflict {
        KnodeDelete(k.handle, delErr);
        return EOPNOTSUPP;
      }
      InstalledOk(cfg, dscpMap, f);
      if at == |dscpMap| {
        if !allocOk {
          return ENOMEM;
        }
        dscpMap := [f] + dscpMap;
      } else {
        dscpMap := dscpMap[at := f];
      }
      err := UpdateBandMap(devErr);
      if err != 0 {
        KnodeDelete(k.handle, delErr);
        return EOPNOTSUPP;
      }
      KeyInstalled(cfg, old(dscpMap), k, proto, f, defBand);
    }
  }

  lemma ZeroBits()
    ensures Bits(0) == {}
  {
    forall j: nat | j < 8 ensures !BitOf(0, j) { AndZero(1 << j); }
  }

  lemma AndZero(x: bv8)
    ensures 0 & x == 0
  {
  }

  lemma BandInRange(c: Config, fs: seq<Filter>, def: bv8, d: bv8)
    requires ConfigOk(c) && AllFilters(c, fs) && BandOk(c, def)
    ensures BandOk(c, Classify(fs, def, d))
  {
  }

  predicate AllFilters(c: Config, fs: seq<Filter>)
    requires ConfigOk(c)
  {
    forall i :: 0 <= i < |fs| ==> FilterOk(c, fs[i])
  }

  // ---- what the table is for ----

  /** For every byte, the entry at its high bits holds exactly the band that walking the whole
      filter list gives for the byte itself. */
  lemma TableMatchesWalk(c: Config, words: seq<Word>, fs: seq<Filter>, def: bv8, d: bv8, b: bv8)
    requires ConfigOk(c) && AllOk(c, fs) && |words| == MapWords(c)
    requires Entries(c, words, Bands(c, fs, def), NumPrios(c))
    ensures Index(c, d) < NumPrios(c)
    ensures Entry(c, words, Index(c, d), b) <==> b == Classify(fs, def, d)
  {
    var i := Index(c, d);
    PrioOfIndex(c, d);
    ClassifyTruncated(c, fs, def, d);
    assert Entry(c, words, i, Bands(c, fs, def)[i]);
    if Entry(c, words, i, b) { BitsInjective(b, Classify(fs, def, d)); }
  }

  /** The firmware's table and the driver's hold the same band for every byte exactly if the filters behind them
      are in step. */
  lemma FirmwareAgreesExactly(c: Config, fw: seq<Word>, words: seq<Word>, told: seq<Filter>, fs: seq<Filter>, def: bv8)
    requires ConfigOk(c) && |fw| == |words| == MapWords(c)
    requires Entries(c, fw, Bands(c, told, def), NumPrios(c)) && Entries(c, words, Bands(c, fs, def), NumPrios(c))
    ensures (forall i: nat, b: bv8 :: i < NumPrios(c) ==> (Entry(c, fw, i, b) <==> Entry(c, words, i, b)))
            <==> InSync(c, told, fs, def)
  {
    var a, b := Bands(c, told, def), Bands(c, fs, def);
    forall i: nat | i < NumPrios(c) ensures Entry(c, fw, i, b[i]) <==> a[i] == b[i] {
      EntryDecides(c, fw, i, a[i], b[i]);
    }
    if a == b {
      forall i: nat, x: bv8 | i < NumPrios(c) ensures Entry(c, fw, i, x) <==> Entry(c, words, i, x) {
        EntryDecides(c, fw, i, a[i], x);
        EntryDecides(c, words, i, b[i], x);
      }
    } else {
      var i: nat :| i < NumPrios(c) && a[i] != b[i];
      assert Entry(c, words, i, b[i]) && !Entry(c, fw, i, b[i]);
    }
  }

  lemma EntryDecides(c: Config, words: seq<Word>, i: nat, a: bv8, b: bv8)
    requires ConfigOk(c) && i < NumPrios(c) && |words| == MapWords(c) && Entry(c, words, i, a)
    ensures Entry(c, words, i, b) <==> a == b
  {
    if Entry(c, words, i, b) { BitsInjective(a, b); }
  }

  /** The u32 classifier and the filter made from its key give the same answer for a header word. */
  predicate AgreeV4(w: bv32, v: bv32, m: bv32) { (w & m == v) == (TosV4(w) & TosV4(m) == TosV4(v)) }
  predicate AgreeV6(w: bv32, v: bv32, m: bv32) { (w & m == v) == (TosV6(w) & TosV6(m) == TosV6(v)) }

  ghost predicate KeyMeansTosV4(v: bv32, m: bv32) { forall w: bv32 :: AgreeV4(w, v, m) }
  ghost predicate KeyMeansTosV6(v: bv32, m: bv32) { forall w: bv32 :: AgreeV6(w, v, m) }

  predicate NothingBelowV4(m: bv32) { m & 0xffff == 0 }
  predicate NothingBelowV6(m: bv32) { m & 0xf_ffff == 0 }

  /** An accepted key agrees with its filter on every IPv4 header exactly when its mask has no bits
      below the TOS octet; the check does not look at those. */
  lemma KeyExactV4(keep: bv8, v: bv32, m: bv32)
    requires KeyOkV4(keep, v, m)
    ensures KeyMeansTosV4(v, m) <==> NothingBelowV4(m)
  {
    if NothingBelowV4(m) {
      forall w: bv32 ensures AgreeV4(w, v, m) { HighKeyV4(w, v, m, keep); }
    } else {
      var w := LowKeyV4(v, m, keep);
    }
  }

  /** The same for IPv6, where the flow label lies below the traffic class. */
  lemma KeyExactV6(keep: bv8, v: bv32, m: bv32)
    requires KeyOkV6(keep, v, m)
    ensures KeyMeansTosV6(v, m) <==> NothingBelowV6(m)
  {
    if NothingBelowV6(m) {
      forall w: bv32 ensures AgreeV6(w, v, m) { HighKeyV6(w, v, m, keep); }
    } else {
      var w := LowKeyV6(v, m, keep);
    }
  }

  lemma HighKeyV4(w: bv32, v: bv32, m: bv32, keep: bv8)
    requires KeyOkV4(keep, v, m) && NothingBelowV4(m)
    ensures AgreeV4(w, v, m)
  {
  }

  lemma HighKeyV6(w: bv32, v: bv32, m: bv32, keep: bv8)
    requires KeyOkV6(keep, v, m) && NothingBelowV6(m)
    ensures AgreeV6(w, v, m)
  {
  }

  lemma LowKeyV4(v: bv32, m: bv32, keep: bv8) returns (w: bv32)
    requires KeyOkV4(keep, v, m) && !NothingBelowV4(m)
    ensures !AgreeV4(w, v, m)
  {
    w := v ^ (m & 0xffff);
  }

  lemma LowKeyV6(v: bv32, m: bv32, keep: bv8) returns (w: bv32)
    requires KeyOkV6(keep, v, m) && !NothingBelowV6(m)
    ensures !AgreeV6(w, v, m)
  {
    w := v ^ (m & 0xf_ffff);
  }
}
