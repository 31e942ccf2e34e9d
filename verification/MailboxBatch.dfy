/**
 The bytes of a CCM mailbox batch (src/ccm_mbox.c): preparing and selecting messages,
 writing them as TLVs, and parsing what the firmware left in the same memory.

 Memory is a sequence of 32-bit words; `base` is the word where the TLVs start, just after
 the 8-byte command header.  Messages are bytes, sent big-endian word by word.
 */
module MailboxBatch {
  import opened Wrappers
  import Protocol = MailboxProtocol

  type Byte = x: int | 0 <= x < 256
  type Half = x: int | 0 <= x < 0x1_0000

  /** A 32-bit word, by its halves. */
  datatype Word = Word(hi: Half, lo: Half)

  const TLV_END: Half := 1
  const TLV_MSG: Half := 2
  const TLV_MSG_NOSUP: Half := 3
  const TLV_RESV: Half := 4

  // ---- words and bytes ----

  function BeWord(b0: Byte, b1: Byte, b2: Byte, b3: Byte): Word {
    Word(b0 * 256 + b1, b2 * 256 + b3)
  }

  function WordByte(w: Word, k: nat): Byte
    requires k < 4
  {
    if k == 0 then w.hi / 256
    else if k == 1 then w.hi % 256
    else if k == 2 then w.lo / 256
    else w.lo % 256
  }

  function At(d: seq<Byte>, i: nat): Byte { if i < |d| then d[i] else 0 }

  function WordsFor(len: nat): nat { (len + 3) / 4 }

  function PackWord(d: seq<Byte>, k: nat): Word {
    BeWord(At(d, 4 * k), At(d, 4 * k + 1), At(d, 4 * k + 2), At(d, 4 * k + 3))
  }

  /** Data as words; the last word is padded with zero bytes. */
  function Pack(d: seq<Byte>): (ws: seq<Word>)
    ensures |ws| == WordsFor(|d|)
  {
    seq(WordsFor(|d|), (k: nat) => PackWord(d, k))
  }

  function Unpack(ws: seq<Word>, len: nat): (d: seq<Byte>)
    requires WordsFor(len) <= |ws|
    ensures |d| == len
  {
    seq(len, i requires 0 <= i < len => WordByte(ws[i / 4], i % 4))
  }

  lemma WordByteInverse(b0: Byte, b1: Byte, b2: Byte, b3: Byte)
    ensures WordByte(BeWord(b0, b1, b2, b3), 0) == b0
    ensures WordByte(BeWord(b0, b1, b2, b3), 1) == b1
    ensures WordByte(BeWord(b0, b1, b2, b3), 2) == b2
    ensures WordByte(BeWord(b0, b1, b2, b3), 3) == b3
  {
  }

  /** Packing loses nothing, whatever the length. */
  lemma UnpackPack(d: seq<Byte>)
    ensures Unpack(Pack(d), |d|) == d
  {
    forall i | 0 <= i < |d|
      ensures Unpack(Pack(d), |d|)[i] == d[i]
    {
      var k := i / 4;
      WordByteInverse(At(d, 4 * k), At(d, 4 * k + 1), At(d, 4 * k + 2), At(d, 4 * k + 3));
      assert i == 4 * k + i % 4;
    }
  }

  function Hdr(typ: Half, len: Half): Word { Word(typ, len) }
  function HdrType(w: Word): Half { w.hi }
  function HdrLen(w: Word): Half { w.lo }

  // ---- messages ----

  /** An sk_buff on the request queue with its control block. */
  datatype Skb = Skb(data: seq<Byte>, maxLen: nat, expReply: nat, posted: bool, found: bool, err: int)

  /** What msg_prepare() leaves behind. */
  predicate Prepared(m: Skb) {
    && 4 <= |m.data| <= m.maxLen < 0x1_0000
    && m.maxLen % 4 == 0
  }

  function RoundUp4(n: nat): nat { (n + 3) / 4 * 4 }

  function MaxMsg(mboxLen: nat): int { mboxLen / 4 * 4 - 8 - 4 * 2 }

  /** msg_prepare(): the length to reserve, or None for -EMSGSIZE. */
  function PrepareLen(mboxLen: nat, len: nat, maxReply: nat): Option<nat>
    requires 0 <= MaxMsg(mboxLen)
  {
    var reply := RoundUp4(if maxReply == 0 then MaxMsg(mboxLen) else maxReply);
    var maxLen := if reply < RoundUp4(len) then RoundUp4(len) else reply;
    if maxLen > MaxMsg(mboxLen) then None else Some(maxLen)
  }

  /** An accepted message fits alone by the measure that batch selection uses, so a batch never
      starts out of space; one is refused exactly when request or reply exceed the mailbox. */
  lemma PreparedFits(mboxLen: nat, len: nat, maxReply: nat)
    requires 0 <= MaxMsg(mboxLen)
    ensures PrepareLen(mboxLen, len, maxReply).Some? <==> len <= MaxMsg(mboxLen) && maxReply <= MaxMsg(mboxLen)
    ensures PrepareLen(mboxLen, len, maxReply).Some? ==>
              var n := PrepareLen(mboxLen, len, maxReply).value;
              && n % 4 == 0 && len <= n && maxReply <= n
              && 4 + n <= Protocol.Space(mboxLen)
  {
    assert MaxMsg(mboxLen) % 4 == 0;
  }

  function Lens(ms: seq<Skb>): (r: seq<nat>)
    ensures |r| == |ms|
  {
    seq(|ms|, i requires 0 <= i < |ms| => ms[i].maxLen)
  }

  /** The selection loop of run_queue_unlock(): how many queued messages form the batch. */
  method SelectBatch(queue: seq<Skb>, mboxLen: nat) returns (cnt: nat)
    requires queue != []
    ensures cnt == Protocol.BatchLen(Protocol.Space(mboxLen), Lens(queue))
  {
    var space: int := mboxLen - 8;
    space := space - 4;
    cnt := 1;
    space := space - (4 + queue[0].maxLen);
    while cnt != |queue|
      invariant 1 <= cnt <= |queue| && cnt < Protocol.BATCH_LIMIT
      invariant Protocol.Extend(space, Lens(queue), cnt) == Protocol.BatchLen(Protocol.Space(mboxLen), Lens(queue))
    {
      space := space - (4 + queue[cnt].maxLen);
      if space < 0 {
        break;
      }
      cnt := cnt + 1;
      if cnt == Protocol.BATCH_LIMIT {
        break;
      }
    }
  }

  // ---- copy_in ----

  function Reserve(m: Skb): int { m.maxLen - RoundUp4(|m.data|) }

  function MsgWords(m: Skb): nat
    requires Prepared(m)
  {
    1 + WordsFor(|m.data|) + (if Reserve(m) > 0 then 1 + Reserve(m) / 4 else 0)
  }

  predicate AllPrepared(ms: seq<Skb>) { forall i :: 0 <= i < |ms| ==> Prepared(ms[i]) }

  /** Words taken by the first `k` messages. */
  function Off(ms: seq<Skb>, k: nat): nat
    requires AllPrepared(ms) && k <= |ms|
  {
    if k == 0 then 0 else Off(ms, k - 1) + MsgWords(ms[k - 1])
  }

  /** How many of the first `k` messages reserve space for a longer reply. */
  function Reserving(ms: seq<Skb>, k: nat): nat
    requires k <= |ms|
  {
    if k == 0 then 0 else Reserving(ms, k - 1) + (if Reserve(ms[k - 1]) > 0 then 1 else 0)
  }

  /** Bytes that copy_in() writes or skips, End TLV included. */
  function Footprint(ms: seq<Skb>): nat
    requires AllPrepared(ms)
  {
    4 * (Off(ms, |ms|) + 1)
  }

  lemma WordsExact(m: Skb)
    requires Prepared(m)
    ensures 4 * MsgWords(m) == 4 + m.maxLen + (if Reserve(m) > 0 then 4 else 0)
  {
  }

  lemma {:induction false} OffExact(ms: seq<Skb>, k: nat)
    requires AllPrepared(ms) && k <= |ms|
    ensures 4 * Off(ms, k) == Protocol.Sum(Lens(ms)[..k]) + 4 * Reserving(ms, k)
  {
    if k > 0 {
      OffExact(ms, k - 1);
      assert Lens(ms)[..k][..k - 1] == Lens(ms)[..k - 1];
      WordsExact(ms[k - 1]);
    }
  }

  /** The exact footprint: the selection budget plus one header for every message that reserves
      reply space. */
  lemma FootprintExact(ms: seq<Skb>)
    requires AllPrepared(ms)
    ensures Footprint(ms) == Protocol.Sum(Lens(ms)) + 4 * Reserving(ms, |ms|) + 4
  {
    OffExact(ms, |ms|);
    assert Lens(ms)[..|ms|] == Lens(ms);
  }

  predicate Contained(ms: seq<Skb>, mboxLen: nat)
    requires AllPrepared(ms)
  {
    Footprint(ms) <= mboxLen - 8
  }

  /** The budget does not imply containment: a short request whose reply may take the whole mailbox
      passes preparation and selection, and its End TLV lands one word past the mailbox. */
  lemma ReservationOverruns(mboxLen: nat, data: seq<Byte>)
    requires mboxLen % 4 == 0 && 24 <= mboxLen < 0x1_0000 && 4 <= |data| && RoundUp4(|data|) < MaxMsg(mboxLen)
    ensures var maxLen := PrepareLen(mboxLen, |data|, 0);
            && maxLen == Some(MaxMsg(mboxLen))
            && var m := Skb(data, MaxMsg(mboxLen), 0, false, false, 0);
               && Prepared(m)
               && Protocol.BatchLen(Protocol.Space(mboxLen), Lens([m])) == 1
               && Footprint([m]) == mboxLen - 8 + 4
  {
    var m := Skb(data, MaxMsg(mboxLen), 0, false, false, 0);
    var n := mboxLen / 4;
    assert MaxMsg(mboxLen) == 4 * (n - 4) && RoundUp4(MaxMsg(mboxLen)) == MaxMsg(mboxLen);
    assert Off([m], 1) == Off([m], 0) + MsgWords(m);
  }

  /** A selected batch overruns by at most one word per reserving message, and it stays inside
      exactly when the space the selection left over covers those words. */
  lemma SelectedContainment(ms: seq<Skb>, mboxLen: nat)
    requires ms != [] && AllPrepared(ms) && 4 + ms[0].maxLen <= Protocol.Space(mboxLen)
    requires |ms| == Protocol.BatchLen(Protocol.Space(mboxLen), Lens(ms))
    ensures Footprint(ms) <= mboxLen - 8 + 4 * Reserving(ms, |ms|)
    ensures Contained(ms, mboxLen) <==> 4 * Reserving(ms, |ms|) <= Protocol.Space(mboxLen) - Protocol.Sum(Lens(ms))
  {
    FootprintExact(ms);
    Protocol.BatchIsLongestFit(Protocol.Space(mboxLen), Lens(ms));
    assert Lens(ms)[..|ms|] == Lens(ms);
  }

  /** One message as copy_in() lays it out at word `o`; the reserved words are not written. */
  predicate Placed(ws: seq<Word>, o: nat, m: Skb) {
    && Prepared(m)
    && o + MsgWords(m) <= |ws|
    && ws[o] == Hdr(TLV_MSG, |m.data|)
    && ws[o + 1..o + 1 + WordsFor(|m.data|)] == Pack(m.data)
    && (Reserve(m) > 0 ==> ws[o + 1 + WordsFor(|m.data|)] == Hdr(TLV_RESV, Reserve(m)))
  }

  /** The loop of copy_in() that writes the data of one message, and the padded last word. */
  method WriteData(mem: array<Word>, o: nat, d: seq<Byte>) returns (off: nat)
    requires o + WordsFor(|d|) <= mem.Length
    modifies mem
    ensures off == o + WordsFor(|d|) && mem[o..off] == Pack(d)
    ensures forall j :: 0 <= j < mem.Length && !(o <= j < off) ==> mem[j] == old(mem[j])
  {
    off := o;
    var cnt := |d| / 4;
    var i := 0;
    while i < cnt
      invariant 0 <= i <= cnt && off == o + i
      invariant forall k :: 0 <= k < i ==> mem[o + k] == PackWord(d, k)
      invariant forall j :: 0 <= j < mem.Length && !(o <= j < off) ==> mem[j] == old(mem[j])
    {
      mem[off] := BeWord(d[4 * i], d[4 * i + 1], d[4 * i + 2], d[4 * i + 3]);
      off := off + 1;
      i := i + 1;
    }
    if |d| % 4 != 0 {
      var tmp := d[4 * i..];
      mem[off] := BeWord(At(tmp, 0), At(tmp, 1), At(tmp, 2), 0);
      off := off + 1;
    }
  }

  method WriteMessage(mem: array<Word>, o: nat, m: Skb) returns (off: nat)
    requires Prepared(m) && o + MsgWords(m) <= mem.Length
    modifies mem
    ensures off == o + MsgWords(m)
    ensures Placed(mem[..], o, m)
    ensures forall j :: 0 <= j < mem.Length && !(o <= j < off) ==> mem[j] == old(mem[j])
  {
    mem[o] := Hdr(TLV_MSG, |m.data|);
    off := WriteData(mem, o + 1, m.data);
    ghost var words := mem[o + 1..off];
    var reserve := m.maxLen - RoundUp4(|m.data|);
    if reserve > 0 {
      mem[off] := Hdr(TLV_RESV, reserve);
      off := off + 1 + reserve / 4;
    }
    assert mem[o + 1..o + 1 + WordsFor(|m.data|)] == words;
  }

  /** The first `i` messages are in place. */
  predicate LaidUpTo(ws: seq<Word>, base: nat, ms: seq<Skb>, i: nat)
    requires AllPrepared(ms) && i <= |ms|
  {
    forall k :: 0 <= k < i ==> PlacedAt(ws, base, ms, k)
  }

  /** The whole batch: every message in queue order, then the End TLV. */
  predicate Laid(ws: seq<Word>, base: nat, ms: seq<Skb>) {
    && AllPrepared(ms)
    && base + Off(ms, |ms|) < |ws|
    && LaidUpTo(ws, base, ms, |ms|)
    && ws[base + Off(ms, |ms|)] == Hdr(TLV_END, 0)
  }

  predicate SameBelow(ws: seq<Word>, ws': seq<Word>, n: nat) {
    |ws'| == |ws| && n <= |ws| && forall j :: 0 <= j < n ==> ws'[j] == ws[j]
  }

  method WriteNext(mem: array<Word>, base: nat, ms: seq<Skb>, i: nat, o: nat) returns (off: nat)
    requires AllPrepared(ms) && i < |ms| && o == base + Off(ms, i) && base + Off(ms, i + 1) <= mem.Length
    requires LaidUpTo(mem[..], base, ms, i)
    modifies mem
    ensures off == base + Off(ms, i + 1) && LaidUpTo(mem[..], base, ms, i + 1)
    ensures forall j :: 0 <= j < mem.Length && !(o <= j < off) ==> mem[j] == old(mem[j])
  {
    assert Off(ms, i + 1) == Off(ms, i) + MsgWords(ms[i]);
    ghost var before := mem[..];
    off := WriteMessage(mem, o, ms[i]);
    LaidOn(before, mem[..], base, ms, i);
  }

  method CopyIn(mem: array<Word>, base: nat, ms: seq<Skb>)
    requires ms != [] && AllPrepared(ms) && base + Off(ms, |ms|) < mem.Length
    modifies mem
    ensures Laid(mem[..], base, ms)
    ensures forall j :: 0 <= j < mem.Length && !(base <= j <= base + Off(ms, |ms|)) ==> mem[j] == old(mem[j])
  {
    var off := base;
    var i := 0;
    while i < |ms|
      invariant 0 <= i <= |ms| && off == base + Off(ms, i) && LaidUpTo(mem[..], base, ms, i)
      invariant forall j :: 0 <= j < mem.Length && !(base <= j < off) ==> mem[j] == old(mem[j])
    {
      OffMonotone(ms, i + 1, |ms|);
      off := WriteNext(mem, base, ms, i, off);
      i := i + 1;
    }
    ghost var before := mem[..];
    mem[off] := Hdr(TLV_END, 0);
    PlacedPrefix(before, mem[..], base, ms, i);
  }

  predicate PlacedAt(ws: seq<Word>, base: nat, ms: seq<Skb>, k: nat)
    requires AllPrepared(ms) && k < |ms|
  {
    Placed(ws, base + Off(ms, k), ms[k])
  }

  /** Writing behind the first `i` messages leaves them in place. */
  lemma PlacedKeeps(ws: seq<Word>, ws': seq<Word>, base: nat, ms: seq<Skb>, k: nat, i: nat)
    requires AllPrepared(ms) && k < i <= |ms| && |ws'| == |ws| && base + Off(ms, i) <= |ws|
    requires PlacedAt(ws, base, ms, k)
    requires forall j :: 0 <= j < base + Off(ms, i) ==> ws'[j] == ws[j]
    ensures PlacedAt(ws', base, ms, k)
  {
    OffMonotone(ms, k + 1, i);
    assert Off(ms, k + 1) == Off(ms, k) + MsgWords(ms[k]);
    PlacedFrame(ws, ws', base + Off(ms, k), ms[k]);
  }

  lemma PlacedPrefix(ws: seq<Word>, ws': seq<Word>, base: nat, ms: seq<Skb>, i: nat)
    requires AllPrepared(ms) && i <= |ms| && SameBelow(ws, ws', base + Off(ms, i)) && LaidUpTo(ws, base, ms, i)
    ensures LaidUpTo(ws', base, ms, i)
  {
    forall k | 0 <= k < i
      ensures PlacedAt(ws', base, ms, k)
    {
      PlacedKeeps(ws, ws', base, ms, k, i);
    }
  }

  lemma LaidOn(ws: seq<Word>, ws': seq<Word>, base: nat, ms: seq<Skb>, i: nat)
    requires AllPrepared(ms) && i < |ms| && SameBelow(ws, ws', base + Off(ms, i)) && LaidUpTo(ws, base, ms, i)
    requires Placed(ws', base + Off(ms, i), ms[i])
    ensures LaidUpTo(ws', base, ms, i + 1)
  {
    PlacedPrefix(ws, ws', base, ms, i);
    assert PlacedAt(ws', base, ms, i);
  }

  lemma OffMonotone(ms: seq<Skb>, k: nat, n: nat)
    requires AllPrepared(ms) && k <= n <= |ms|
    ensures Off(ms, k) <= Off(ms, n)
  {
  }

  lemma PlacedFrame(ws: seq<Word>, ws': seq<Word>, o: nat, m: Skb)
    requires Placed(ws, o, m) && |ws'| == |ws|
    requires forall j :: o <= j < o + MsgWords(m) ==> ws'[j] == ws[j]
    ensures Placed(ws', o, m)
  {
    assert ws'[o + 1..o + 1 + WordsFor(|m.data|)] == ws[o + 1..o + 1 + WordsFor(|m.data|)];
  }

  // ---- the TLV reader ----

  /** One MSG or MSG_NOSUP TLV. */
  datatype Item = Item(typ: Half, payload: seq<Byte>)

  /** The TLV at word `w` ends the walk: an End, oversized or unknown TLV. */
  predicate Stops(ws: seq<Word>, w: nat, end: nat)
    requires w < |ws|
  {
    var typ, len := HdrType(ws[w]), HdrLen(ws[w]);
    || 4 * (w + 1) + len > end
    || (typ != TLV_RESV && typ != TLV_MSG && typ != TLV_MSG_NOSUP)
  }

  function NextTlv(ws: seq<Word>, w: nat): nat
    requires w < |ws|
  {
    w + 1 + WordsFor(HdrLen(ws[w]))
  }

  function ItemAt(ws: seq<Word>, w: nat): Item
    requires w < |ws| && NextTlv(ws, w) <= |ws|
  {
    Item(HdrType(ws[w]), Unpack(ws[w + 1..NextTlv(ws, w)], HdrLen(ws[w])))
  }

  /** The TLVs that the loop of copy_out() reaches from word `w`, Reserved ones skipped, up to the
      first one that stops it or the end of the window.  `end` is a byte address. */
  function Parse(ws: seq<Word>, w: nat, end: nat): seq<Item>
    requires 4 * w + 4 <= end <= 4 * |ws|
    decreases end - 4 * w
  {
    if Stops(ws, w, end) then []
    else
      (if HdrType(ws[w]) == TLV_RESV then [] else [ItemAt(ws, w)])
      + (if 4 * NextTlv(ws, w) + 4 > end then [] else Parse(ws, NextTlv(ws, w), end))
  }

  lemma ParseMsg(ws: seq<Word>, w: nat, end: nat, next: nat, it: Item)
    requires 4 * w + 4 <= end <= 4 * |ws| && HdrType(ws[w]) == TLV_MSG
    requires NextTlv(ws, w) == next && 4 * next + 4 <= end && ItemAt(ws, w) == it
    ensures Parse(ws, w, end) == [it] + Parse(ws, next, end)
  {
  }

  lemma ParseResv(ws: seq<Word>, w: nat, end: nat, next: nat)
    requires 4 * w + 4 <= end <= 4 * |ws| && HdrType(ws[w]) == TLV_RESV
    requires NextTlv(ws, w) == next && 4 * next + 4 <= end
    ensures Parse(ws, w, end) == Parse(ws, next, end)
  {
  }

  lemma ParseTwo(ws: seq<Word>, w: nat, end: nat, body: nat, next: nat, it: Item)
    requires 4 * w + 4 <= end <= 4 * |ws| && HdrType(ws[w]) == TLV_MSG && NextTlv(ws, w) == body <= next
    requires 4 * next + 4 <= end && ItemAt(ws, w) == it
    requires body == next || (HdrType(ws[body]) == TLV_RESV && NextTlv(ws, body) == next)
    ensures Parse(ws, w, end) == [it] + Parse(ws, next, end)
  {
    assert Parse(ws, w, end) == [it] + Parse(ws, body, end) by { ParseMsg(ws, w, end, body, it); }
    if body != next { ParseResv(ws, body, end, next); }
  }

  /** A message laid out at `w` parses as itself, and the reader goes on behind it. */
  lemma ParsePlaced(ws: seq<Word>, w: nat, m: Skb, end: nat, next: nat)
    requires Placed(ws, w, m) && next == w + MsgWords(m) && 4 * next + 4 <= end <= 4 * |ws|
    ensures Parse(ws, w, end) == [Item(TLV_MSG, m.data)] + Parse(ws, next, end)
  {
    var body := BodyEnd(ws, w, m, next);
    ParseTwo(ws, w, end, body, next, Item(TLV_MSG, m.data));
  }

  /** Where the data of a placed message ends and the reserved words, if any, begin. */
  lemma BodyEnd(ws: seq<Word>, w: nat, m: Skb, next: nat) returns (body: nat)
    requires Placed(ws, w, m) && next == w + MsgWords(m) < |ws|
    ensures HdrType(ws[w]) == TLV_MSG && NextTlv(ws, w) == body <= next && ItemAt(ws, w) == Item(TLV_MSG, m.data)
    ensures body == next || (HdrType(ws[body]) == TLV_RESV && NextTlv(ws, body) == next)
  {
    body := w + 1 + WordsFor(|m.data|);
    PlacedTlvs(ws, w, m, body, next);
  }

  lemma PlacedTlvs(ws: seq<Word>, w: nat, m: Skb, body: nat, next: nat)
    requires Placed(ws, w, m) && body == w + 1 + WordsFor(|m.data|) && next == w + MsgWords(m) < |ws|
    ensures HdrType(ws[w]) == TLV_MSG && NextTlv(ws, w) == body <= next && ItemAt(ws, w) == Item(TLV_MSG, m.data)
    ensures body == next || (HdrType(ws[body]) == TLV_RESV && NextTlv(ws, body) == next)
  {
    ItemPlaced(ws, w, m.data);
    if Reserve(m) > 0 { ReserveWords(m); }
  }

  lemma ItemPlaced(ws: seq<Word>, w: nat, d: seq<Byte>)
    requires |d| < 0x1_0000 && w + 1 + WordsFor(|d|) <= |ws|
    requires ws[w] == Hdr(TLV_MSG, |d|) && ws[w + 1..w + 1 + WordsFor(|d|)] == Pack(d)
    ensures NextTlv(ws, w) == w + 1 + WordsFor(|d|) && ItemAt(ws, w) == Item(TLV_MSG, d)
  {
    UnpackPack(d);
  }

  lemma ReserveWords(m: Skb)
    requires Prepared(m) && Reserve(m) > 0
    ensures WordsFor(Reserve(m)) == Reserve(m) / 4
    ensures MsgWords(m) == 1 + WordsFor(|m.data|) + 1 + WordsFor(Reserve(m))
  {
  }

  function Requests(ms: seq<Skb>): seq<Item> {
    if ms == [] then [] else [Item(TLV_MSG, ms[0].data)] + Requests(ms[1..])
  }

  lemma RequestsOn(ms: seq<Skb>, k: nat)
    requires k < |ms|
    ensures Requests(ms[k..]) == [Item(TLV_MSG, ms[k].data)] + Requests(ms[k + 1..])
  {
    assert ms[k..][1..] == ms[k + 1..];
  }

  lemma ReadsBackStep(ws: seq<Word>, base: nat, ms: seq<Skb>, k: nat, end: nat, w: nat, next: nat)
    requires Laid(ws, base, ms) && k < |ms| && w == base + Off(ms, k) && next == base + Off(ms, k + 1)
    requires 4 * next + 4 <= end <= 4 * |ws|
    ensures w <= next && Parse(ws, w, end) == [Item(TLV_MSG, ms[k].data)] + Parse(ws, next, end)
  {
    assert PlacedAt(ws, base, ms, k);
    ParsePlaced(ws, w, ms[k], end, next);
  }

  lemma ReadsBackEnd(ws: seq<Word>, base: nat, ms: seq<Skb>, end: nat)
    requires Laid(ws, base, ms) && 4 * (base + Off(ms, |ms|) + 1) <= end <= 4 * |ws|
    ensures Parse(ws, base + Off(ms, |ms|), end) == Requests(ms[|ms|..])
  {
  }

  /** Reading back what was written yields exactly the queued requests, in queue order. */
  lemma {:induction false} ReadsBackFrom(ws: seq<Word>, base: nat, ms: seq<Skb>, k: nat, end: nat, w: nat)
    requires Laid(ws, base, ms) && k <= |ms| && 4 * (base + Off(ms, |ms|) + 1) <= end <= 4 * |ws|
    requires w == base + Off(ms, k) && 4 * w + 4 <= end
    ensures Parse(ws, w, end) == Requests(ms[k..])
    decreases |ms| - k
  {
    if k == |ms| {
      ReadsBackEnd(ws, base, ms, end);
    } else {
      var next := base + Off(ms, k + 1);
      OffMonotone(ms, k + 1, |ms|);
      ReadsBackFrom(ws, base, ms, k + 1, end, next);
      ReadsBackStep(ws, base, ms, k, end, w, next);
      RequestsOn(ms, k);
    }
  }

  lemma ReadsBack(ws: seq<Word>, base: nat, ms: seq<Skb>, end: nat)
    requires Laid(ws, base, ms) && 4 * (base + Off(ms, |ms|) + 1) <= end <= 4 * |ws|
    ensures Parse(ws, base, end) == Requests(ms)
  {
    ReadsBackFrom(ws, base, ms, 0, end, base);
    assert ms[0..] == ms;
  }

  // ---- delivering replies ----

  function HdrCcmType(d: seq<Byte>): Byte requires 4 <= |d| { d[0] }
  function Tag(d: seq<Byte>): Half requires 4 <= |d| { d[2] as int * 256 + d[3] as int }
  function ReplyType(t: Byte): Byte { if t < 128 then t + 128 else t }

  /** First message of the batch with this tag, or the length when there is none. */
  function FindTag(ms: seq<Skb>, tag: Half): (i: nat)
    requires forall k :: 0 <= k < |ms| ==> 4 <= |ms[k].data|
    ensures i <= |ms|
    ensures i < |ms| ==> Tag(ms[i].data) == tag
    ensures forall k :: 0 <= k < i ==> Tag(ms[k].data) != tag
  {
    if ms == [] || Tag(ms[0].data) == tag then 0 else 1 + FindTag(ms[1..], tag)
  }

  method FindReq(ms: seq<Skb>, tag: Half) returns (i: nat)
    requires ms != [] && forall k :: 0 <= k < |ms| ==> 4 <= |ms[k].data|
    ensures i == FindTag(ms, tag)
  {
    i := 0;
    while true
      invariant 0 <= i < |ms|
      invariant forall k :: 0 <= k < i ==> Tag(ms[k].data) != tag
      decreases |ms| - i
    {
      if Tag(ms[i].data) == tag {
        FindTagUnique(ms, tag, i);
        return;
      }
      i := i + 1;
      if i == |ms| {
        FindTagUnique(ms, tag, i);
        return;
      }
    }
  }

  lemma FindTagUnique(ms: seq<Skb>, tag: Half, i: nat)
    requires forall k :: 0 <= k < |ms| ==> 4 <= |ms[k].data|
    requires i <= |ms| && forall k :: 0 <= k < i ==> Tag(ms[k].data) != tag
    requires i < |ms| ==> Tag(ms[i].data) == tag
    ensures FindTag(ms, tag) == i
  {
  }

  /** A reply that the message accepts. */
  predicate Good(m: Skb, it: Item)
    requires 4 <= |m.data| && 4 <= |it.payload|
  {
    && it.typ == TLV_MSG
    && HdrCcmType(it.payload) == ReplyType(HdrCcmType(m.data))
    && (m.expReply == 0 || |it.payload| == m.expReply)
    && |it.payload| <= m.maxLen
  }

  /** What one reply TLV does to the message it is for. */
  function Handle(m: Skb, it: Item): Skb
    requires 4 <= |m.data| && 4 <= |it.payload|
  {
    if !Good(m, it) then m.(err := Protocol.EIO)
    else if m.posted then m.(found := true)
    else m.(found := true, data := it.payload)
  }

  predicate HasHeaders(ms: seq<Skb>) { forall k :: 0 <= k < |ms| ==> 4 <= |ms[k].data| }

  /** Replies handled one by one, up to the first too short or unknown one. */
  function Deliver(ms: seq<Skb>, items: seq<Item>): (r: seq<Skb>)
    requires HasHeaders(ms)
    ensures |r| == |ms| && HasHeaders(r)
    decreases |items|
  {
    if items == [] || |items[0].payload| < 4 then ms
    else
      var i := FindTag(ms, Tag(items[0].payload));
      if i == |ms| then ms
      else Deliver(ms[i := Handle(ms[i], items[0])], items[1..])
  }

  /** One turn of the reply loop at word `w`: the messages after it, and whether it goes on. */
  function Turn(ms: seq<Skb>, ws: seq<Word>, w: nat, end: nat): (r: (seq<Skb>, bool))
    requires HasHeaders(ms) && 4 * w + 4 <= end <= 4 * |ws|
    ensures HasHeaders(r.0) && |r.0| == |ms|
    ensures r.1 ==> 4 * NextTlv(ws, w) + 4 <= end
  {
    var more := 4 * NextTlv(ws, w) + 4 <= end;
    if Stops(ws, w, end) then (ms, false)
    else if HdrType(ws[w]) == TLV_RESV then (ms, more)
    else
      var it := ItemAt(ws, w);
      if |it.payload| < 4 then (ms, false)
      else
        var i := FindTag(ms, Tag(it.payload));
        if i == |ms| then (ms, false) else (ms[i := Handle(ms[i], it)], more)
  }

  /** The turns add up to parsing all TLVs first and delivering them in order. */
  lemma TurnSound(ms: seq<Skb>, ws: seq<Word>, w: nat, end: nat)
    requires HasHeaders(ms) && 4 * w + 4 <= end <= 4 * |ws|
    ensures var (ms', more) := Turn(ms, ws, w, end);
            Deliver(ms, Parse(ws, w, end)) ==
            if more then Deliver(ms', Parse(ws, NextTlv(ws, w), end)) else ms'
  {
    if !Stops(ws, w, end) {
      var rest := if 4 * NextTlv(ws, w) + 4 > end then [] else Parse(ws, NextTlv(ws, w), end);
      if HdrType(ws[w]) == TLV_RESV {
        assert Parse(ws, w, end) == rest;
      } else {
        assert Parse(ws, w, end) == [ItemAt(ws, w)] + rest;
        assert ([ItemAt(ws, w)] + rest)[1..] == rest;
      }
    }
  }

  /** Completion of one message: an unanswered one fails. */
  function Finish(m: Skb): Skb { if m.found then m else m.(err := Protocol.ENOENT) }

  function FinishAll(ms: seq<Skb>): (r: seq<Skb>)
    ensures |r| == |ms|
  {
    seq(|ms|, i requires 0 <= i < |ms| => Finish(ms[i]))
  }

  lemma JoinParts(batch: seq<Skb>, rest: seq<Skb>)
    requires HasHeaders(batch) && HasHeaders(rest)
    ensures HasHeaders(batch + rest)
    ensures (batch + rest)[..|batch|] == batch && (batch + rest)[|batch|..] == rest
  {
  }

  lemma SplitParts(queue: seq<Skb>, n: nat)
    requires n <= |queue|
    ensures queue == queue[..n] + queue[n..]
  {
  }

  /** The request queue and the memory it shares with the firmware. */
  class Mailbox {
    var queue: seq<Skb>
    const mem: array<Word>
    const base: nat
    const mboxLen: nat

    /** The window copy_out() accepts starts behind the command header but is as long as the
        whole mailbox, so it ends 8 bytes past it. */
    function End(): nat { 4 * base + mboxLen }

    ghost predicate Valid()
      reads this
    {
      4 <= mboxLen && End() <= 4 * mem.Length
    }

    constructor (mem: array<Word>, base: nat, mboxLen: nat)
      requires 4 <= mboxLen && 4 * base + mboxLen <= 4 * mem.Length
      ensures Valid() && queue == [] && this.mem == mem && this.base == base && this.mboxLen == mboxLen
    {
      this.mem := mem;
      this.base := base;
      this.mboxLen := mboxLen;
      queue := [];
    }

    /** One turn of the reply loop: the TLV at word `data`; `n` messages form the batch. */
    method ParseReply(n: nat, data: nat) returns (more: bool, next: nat)
      requires Valid() && 1 <= n <= |queue| && HasHeaders(queue) && 4 * data + 4 <= End()
      modifies this
      ensures |queue| == |old(queue)| && queue[n..] == old(queue)[n..]
      ensures (queue[..n], more) == Turn(old(queue)[..n], mem[..], data, End())
      ensures more ==> next == NextTlv(mem[..], data)
    {
      more := false;
      var typ, length := HdrType(mem[data]), HdrLen(mem[data]);
      next := data + 1;
      if 4 * next + length > End() {
        return;
      }
      if typ == TLV_END {
        return;
      }
      if typ != TLV_RESV {
        if typ != TLV_MSG && typ != TLV_MSG_NOSUP {
          return;
        }
        if length < 4 {
          return;
        }
        var it := Item(typ, Unpack(mem[next..next + WordsFor(length)], length));
        assert it == ItemAt(mem[..], data);
        var i := FindReq(queue[..n], Tag(it.payload));
        if i == n {
          return;
        }
        queue := queue[i := Handle(queue[i], it)];
        assert queue[..n] == old(queue)[..n][i := Handle(old(queue)[i], it)];
      }
      next := next + WordsFor(length);
      more := 4 * next + 4 <= End();
    }

    method ParseReplies(n: nat)
      requires Valid() && 1 <= n <= |queue| && HasHeaders(queue)
      modifies this
      ensures queue == Deliver(old(queue)[..n], Parse(mem[..], base, End())) + old(queue)[n..]
    {
      ghost var ws, end, batch, rest := mem[..], End(), queue[..n], queue[n..];
      ghost var want := Deliver(batch, Parse(ws, base, end));
      var data, more := base, true;
      while more
        invariant |batch| == n && HasHeaders(batch) && HasHeaders(rest) && queue == batch + rest
        invariant more ==> 4 * data + 4 <= end
        invariant want == if more then Deliver(batch, Parse(ws, data, end)) else batch
        decreases more, End() - 4 * data
      {
        JoinParts(batch, rest);
        TurnSound(batch, ws, data, end);
        batch := Turn(batch, ws, data, end).0;
        more, data := ParseReply(n, data);
        assert queue == batch + rest by { SplitParts(queue, n); }
      }
    }

    /** Take the batch off the queue in order; a message without a reply fails. */
    method TakeOff(n: nat) returns (done: seq<Skb>)
      requires 1 <= n <= |queue|
      modifies this
      ensures queue == old(queue)[n..] && done == FinishAll(old(queue)[..n])
    {
      done := [];
      var i := 0;
      while i < n
        invariant 0 <= i <= n && queue == old(queue)[i..]
        invariant |done| == i && forall k :: 0 <= k < i ==> done[k] == Finish(old(queue)[k])
      {
        var skb := queue[0];
        queue := queue[1..];
        if !skb.found {
          skb := skb.(err := Protocol.ENOENT);
        }
        done := done + [skb];
        i := i + 1;
      }
    }

    method CopyOut(n: nat) returns (done: seq<Skb>)
      requires Valid() && 1 <= n <= |queue| && HasHeaders(queue)
      modifies this
      ensures queue == old(queue)[n..]
      ensures done == FinishAll(Deliver(old(queue)[..n], Parse(mem[..], base, End())))
    {
      ParseReplies(n);
      ghost var delivered := Deliver(old(queue)[..n], Parse(mem[..], base, End()));
      assert queue[..n] == delivered && queue[n..] == old(queue)[n..];
      done := TakeOff(n);
    }
  }

  // ---- what delivery means ----

  predicate DistinctTags(ms: seq<Skb>)
    requires HasHeaders(ms)
  {
    forall i, j :: 0 <= i < j < |ms| ==> Tag(ms[i].data) != Tag(ms[j].data)
  }

  /** A reply list that the loop walks to its end: every reply is for some message of the batch. */
  predicate WellFormed(ms: seq<Skb>, items: seq<Item>)
    requires HasHeaders(ms)
  {
    Long(items) && forall j :: 0 <= j < |items| ==> HasTag(ms, Tag(items[j].payload))
  }

  predicate HasTag(ms: seq<Skb>, tag: Half)
    requires HasHeaders(ms)
  {
    exists i :: 0 <= i < |ms| && Tag(ms[i].data) == tag
  }

  /** The replies with this tag, in order. */
  function For(items: seq<Item>, tag: Half): (r: seq<Item>)
    requires Long(items)
    ensures Long(r)
  {
    if items == [] then []
    else (if Tag(items[0].payload) == tag then [items[0]] else []) + For(items[1..], tag)
  }

  function HandleAll(m: Skb, items: seq<Item>): (r: Skb)
    requires 4 <= |m.data| && Long(items)
    ensures 4 <= |r.data|
    decreases |items|
  {
    if items == [] then m else HandleAll(Handle(m, items[0]), items[1..])
  }

  lemma HandleKeepsTag(m: Skb, it: Item)
    requires 4 <= |m.data| && 4 <= |it.payload| && Tag(it.payload) == Tag(m.data)
    ensures 4 <= |Handle(m, it).data| && Tag(Handle(m, it).data) == Tag(m.data)
  {
  }

  /** The first reply goes to the one message with its tag, and changes no tag. */
  lemma DeliverHead(ms: seq<Skb>, items: seq<Item>) returns (k: nat)
    requires HasHeaders(ms) && DistinctTags(ms) && WellFormed(ms, items) && items != []
    ensures k < |ms| && 4 <= |items[0].payload| && Tag(ms[k].data) == Tag(items[0].payload)
    ensures var ms' := ms[k := Handle(ms[k], items[0])];
            && HasHeaders(ms') && DistinctTags(ms') && WellFormed(ms', items[1..])
            && (forall j :: 0 <= j < |ms| ==> Tag(ms'[j].data) == Tag(ms[j].data))
            && Deliver(ms, items) == Deliver(ms', items[1..])
  {
    k := FindTag(ms, Tag(items[0].payload));
    HandleKeepsTag(ms[k], items[0]);
    var ms' := ms[k := Handle(ms[k], items[0])];
    forall tag: Half | HasTag(ms, tag)
      ensures HasTag(ms', tag)
    {
      var i :| 0 <= i < |ms| && Tag(ms[i].data) == tag;
      assert Tag(ms'[i].data) == tag;
    }
  }

  predicate Long(items: seq<Item>) { forall j :: 0 <= j < |items| ==> 4 <= |items[j].payload| }

  lemma ForHead(items: seq<Item>, tag: Half)
    requires items != [] && Long(items)
    ensures Long(items[1..])
    ensures For(items, tag) == if Tag(items[0].payload) == tag then [items[0]] + For(items[1..], tag)
                               else For(items[1..], tag)
  {
  }

  lemma HandleAllHead(m: Skb, it: Item, rest: seq<Item>)
    requires 4 <= |m.data| && 4 <= |it.payload| && Long(rest)
    ensures HandleAll(m, [it] + rest) == HandleAll(Handle(m, it), rest)
  {
    assert ([it] + rest)[1..] == rest;
  }

  /** With distinct tags the order of the replies does not matter: each message ends up as if it
      had seen only the replies that carry its own tag. */
  lemma {:induction false} DeliverIndependent(ms: seq<Skb>, items: seq<Item>, i: nat)
    requires HasHeaders(ms) && DistinctTags(ms) && WellFormed(ms, items) && i < |ms|
    ensures Deliver(ms, items)[i] == HandleAll(ms[i], For(items, Tag(ms[i].data)))
    decreases |items|
  {
    if items != [] {
      var it, rest, tag := items[0], items[1..], Tag(ms[i].data);
      var k := DeliverHead(ms, items);
      ForHead(items, tag);
      DeliverIndependent(ms[k := Handle(ms[k], it)], rest, i);
      if i == k {
        HandleAllHead(ms[i], it, For(rest, tag));
      }
    }
  }

  /** Whatever order the firmware answers in, a message whose tag has exactly one reply, a good
      one, completes without error holding that reply. */
  lemma OwnReplyDelivered(ms: seq<Skb>, items: seq<Item>, i: nat, it: Item)
    requires HasHeaders(ms) && DistinctTags(ms) && WellFormed(ms, items) && i < |ms|
    requires For(items, Tag(ms[i].data)) == [it] && Accepts(ms[i], it) && ms[i].err == 0
    ensures var r := FinishAll(Deliver(ms, items))[i];
            && r.found && r.err == 0
            && r.data == (if ms[i].posted then ms[i].data else it.payload)
  {
    DeliverIndependent(ms, items, i);
    AcceptsIs(ms[i], it);
    assert HandleAll(ms[i], [it]) == HandleAll(Handle(ms[i], it), []);
  }

  /** A completed message reports success only if a reply was parsed that carries its tag, has the
      reply type of its request, the expected length if one was given, and fits its buffer; and an
      unposted one then holds such a reply.  This is for any memory contents at all. */
  lemma {:induction false} SuccessMeansGoodReply(ms: seq<Skb>, items: seq<Item>, i: nat)
    requires HasHeaders(ms) && i < |ms| && !ms[i].found
    requires FinishAll(Deliver(ms, items))[i].err == 0
    ensures exists j :: 0 <= j < |items| && Accepts(ms[i], items[j])
                        && (!ms[i].posted ==> Deliver(ms, items)[i].data == items[j].payload)
  {
    DeliverFound(ms, items, i, ms[i]);
  }

  /** A reply to the message as it was sent: its tag, its type with the reply bit, the expected length if one was given,
      and not longer than what was reserved. */
  predicate Accepts(m: Skb, it: Item)
    requires 4 <= |m.data|
  {
    4 <= |it.payload| && it.typ == TLV_MSG
    && it.payload[2] == m.data[2] && it.payload[3] == m.data[3] && it.payload[0] == 128 + m.data[0] % 128
    && (m.expReply == 0 || |it.payload| == m.expReply) && |it.payload| <= m.maxLen
  }

  lemma AcceptsIs(m: Skb, it: Item)
    requires 4 <= |m.data| && 4 <= |it.payload|
    ensures Accepts(m, it) <==> Tag(it.payload) == Tag(m.data) && Good(m, it)
  {
    TagBytes(it.payload, m.data);
  }

  lemma TagBytes(a: seq<Byte>, b: seq<Byte>)
    requires 4 <= |a| && 4 <= |b|
    ensures Tag(a) == Tag(b) <==> a[2] == b[2] && a[3] == b[3]
  {
  }

  // ---- the result of a message ----

  predicate AnyAccepted(m: Skb, items: seq<Item>)
    requires 4 <= |m.data|
  {
    exists j :: 0 <= j < |items| && Accepts(m, items[j])
  }

  predicate AnyRejected(m: Skb, items: seq<Item>)
    requires 4 <= |m.data|
  {
    exists j :: 0 <= j < |items| && !Accepts(m, items[j])
  }

  /** The message m after some replies to it, as far as later replies can tell. */
  predicate StillFor(m: Skb, now: Skb)
    requires 4 <= |m.data| && 4 <= |now.data|
  {
    now.expReply == m.expReply && now.maxLen == m.maxLen && now.posted == m.posted
    && Tag(now.data) == Tag(m.data) && ReplyType(now.data[0]) == ReplyType(m.data[0])
  }

  lemma HandleStep(m: Skb, now: Skb, it: Item)
    requires 4 <= |m.data| && 4 <= |now.data| && StillFor(m, now) && 4 <= |it.payload| && Tag(it.payload) == Tag(m.data)
    ensures var r := Handle(now, it);
            4 <= |r.data| && StillFor(m, r)
            && r == if !Accepts(m, it) then now.(err := Protocol.EIO)
                    else if m.posted then now.(found := true) else now.(found := true, data := it.payload)
  {
    AcceptsIs(m, it);
  }

  lemma AnyOn(m: Skb, it: Item, rest: seq<Item>)
    requires 4 <= |m.data|
    ensures AnyAccepted(m, [it] + rest) <==> Accepts(m, it) || AnyAccepted(m, rest)
    ensures AnyRejected(m, [it] + rest) <==> !Accepts(m, it) || AnyRejected(m, rest)
  {
    var all := [it] + rest;
    assert all[0] == it;
    if j :| 0 <= j < |rest| && Accepts(m, rest[j]) { assert all[j + 1] == rest[j]; }
    if j :| 0 <= j < |rest| && !Accepts(m, rest[j]) { assert all[j + 1] == rest[j]; }
    assert forall j :: 1 <= j < |all| ==> all[j] == rest[j - 1];
  }

  lemma {:induction false} HandleAllExactly(m: Skb, now: Skb, items: seq<Item>)
    requires 4 <= |m.data| && 4 <= |now.data| && StillFor(m, now) && Long(items)
    requires forall j :: 0 <= j < |items| ==> Tag(items[j].payload) == Tag(m.data)
    ensures var r := HandleAll(now, items);
            r.found == (now.found || AnyAccepted(m, items))
            && r.err == if AnyRejected(m, items) then Protocol.EIO else now.err
    decreases |items|
  {
    if items != [] {
      var it, rest := items[0], items[1..];
      assert items == [it] + rest;
      HandleStep(m, now, it);
      AnyOn(m, it, rest);
      HandleAllExactly(m, Handle(now, it), rest);
    }
  }

  lemma {:induction false} ForTagged(items: seq<Item>, tag: Half)
    requires Long(items)
    ensures forall j :: 0 <= j < |For(items, tag)| ==> Tag(For(items, tag)[j].payload) == tag
  {
    if items != [] { ForTagged(items[1..], tag); }
  }

  /** Whatever order the firmware answers in, the result of a message is -ENOENT if no reply with its tag is one it
      accepts, -EIO if some is and some is not, and 0 if all are. */
  lemma ResultExactly(ms: seq<Skb>, items: seq<Item>, i: nat)
    requires HasHeaders(ms) && DistinctTags(ms) && WellFormed(ms, items) && i < |ms| && ms[i].err == 0 && !ms[i].found
    ensures var mine := For(items, Tag(ms[i].data));
            FinishAll(Deliver(ms, items))[i].err ==
            if !AnyAccepted(ms[i], mine) then Protocol.ENOENT
            else if AnyRejected(ms[i], mine) then Protocol.EIO else 0
  {
    DeliverIndependent(ms, items, i);
    ForTagged(items, Tag(ms[i].data));
    HandleAllExactly(ms[i], ms[i], For(items, Tag(ms[i].data)));
  }

  lemma {:induction false} DeliverFound(ms: seq<Skb>, items: seq<Item>, i: nat, m: Skb)
    requires HasHeaders(ms) && i < |ms| && 4 <= |m.data|
    requires ms[i] == m.(found := ms[i].found, err := ms[i].err, data := ms[i].data)
    requires Tag(ms[i].data) == Tag(m.data) && ReplyType(ms[i].data[0]) == ReplyType(m.data[0])
    ensures Deliver(ms, items)[i].found && !ms[i].found ==>
              exists j :: 0 <= j < |items| && Accepts(m, items[j])
                          && (!m.posted ==> Deliver(ms, items)[i].data == items[j].payload)
    ensures Deliver(ms, items)[i].data != ms[i].data && !m.posted ==>
              exists j :: 0 <= j < |items| && Accepts(m, items[j]) && Deliver(ms, items)[i].data == items[j].payload
    decreases |items|
  {
    if items != [] && 4 <= |items[0].payload| && FindTag(ms, Tag(items[0].payload)) < |ms| {
      var k := FindTag(ms, Tag(items[0].payload));
      var ms' := ms[k := Handle(ms[k], items[0])];
      AcceptsIs(m, items[0]);
      DeliverFound(ms', items[1..], i, m);
      var r := Deliver(ms, items)[i];
      assert r == Deliver(ms', items[1..])[i];
      if j :| 0 <= j < |items[1..]| && Accepts(m, items[1..][j]) && r.data == items[1..][j].payload {
        assert items[j + 1] == items[1..][j];
      }
      if j :| 0 <= j < |items[1..]| && Accepts(m, items[1..][j]) {
        assert items[j + 1] == items[1..][j];
      }
    }
  }
}
