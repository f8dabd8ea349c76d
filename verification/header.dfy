/** The 4-byte fragment header of the split-datagram protocol: a 16-bit message
    ID, then a 16-bit word whose bits 15-14 give the fragment type
    (00 FULL, 01 START, 10 END, 11 MIDDLE) and whose low 14 bits give the count.
    Both words are stored in host byte order by the sender and read back the
    same way by the receiver; this model fixes a little-endian host.

    Bytes and words are integers in range. For a 16-bit word `w`, the source's
    `w & 0xC000` is `(w / 0x4000) * 0x4000` and `w & 0x3FFF` is `w % 0x4000`. */
module Header {

  type Byte = b: int | 0 <= b < 0x100
  type U16 = w: int | 0 <= w < 0x1_0000

  const HeaderSize: nat := 4
  const CountModulus: nat := 0x4000

  /** A received datagram: the receiver always reads a whole header from it. */
  type Datagram = d: seq<Byte> | |d| >= HeaderSize witness [0, 0, 0, 0]

  datatype Kind = Full | Start | End | Middle

  /** The two type bits (bits 15-14 of word 1) that the sender ORs in for each kind. */
  function KindBits(k: Kind): (bits: int)
    ensures 0 <= bits < 4
  {
    match k
    case Full => 0
    case Start => 1
    case End => 2
    case Middle => 3
  }

  /** Two bytes in host (little-endian) order read as one 16-bit word. */
  function Word(lo: Byte, hi: Byte): U16 { lo + 0x100 * hi }

  /** The two bytes `memcpy` stores for a 16-bit word; reading them back gives the word. */
  function WordBytes(w: U16): (b: seq<Byte>)
    ensures |b| == 2 && Word(b[0], b[1]) == w
  {
    [w % 0x100, w / 0x100]
  }

  /** Word 0 of the header. */
  function IdWord(d: Datagram): U16 { Word(d[0], d[1]) }

  /** Word 1 of the header: type bits and count. */
  function TypeCount(d: Datagram): U16 { Word(d[2], d[3]) }

  predicate IsFull(d: Datagram) { TypeCount(d) / 0x4000 == 0 }
  predicate IsStart(d: Datagram) { TypeCount(d) / 0x4000 == 1 }
  predicate IsEnd(d: Datagram) { TypeCount(d) / 0x4000 == 2 }
  predicate IsMiddle(d: Datagram) { TypeCount(d) / 0x4000 == 3 }

  /** The fragment type; exactly one of the four tests holds of any header. */
  function KindOf(d: Datagram): (k: Kind)
    ensures k == Full <==> IsFull(d)
    ensures k == Start <==> IsStart(d)
    ensures k == End <==> IsEnd(d)
    ensures k == Middle <==> IsMiddle(d)
    ensures KindBits(k) * 0x4000 <= TypeCount(d) < (KindBits(k) + 1) * 0x4000
  {
    var t := TypeCount(d) / 0x4000;
    if t == 0 then Full else if t == 1 then Start else if t == 2 then End else Middle
  }

  /** The message ID (word 0). */
  function ID(d: Datagram): (id: int)
    ensures 0 <= id < 0x1_0000
  {
    IdWord(d)
  }

  /** The 14-bit count (low bits of word 1). */
  function Count(d: Datagram): (c: int)
    ensures 0 <= c < CountModulus
  {
    TypeCount(d) % 0x4000
  }

  /** `getCount() + 1 & 0x3FFF`: the addition binds tighter than the mask, so
      the count after 16383 is 0. */
  function NextCount(d: Datagram): (c: int)
    ensures 0 <= c < CountModulus
    ensures Count(d) < CountModulus - 1 ==> c == Count(d) + 1
    ensures Count(d) == CountModulus - 1 ==> c == 0
  {
    (Count(d) + 1) % 0x4000
  }

  /** `getCount() - 1 & 0x3FFF` on a two's-complement int, so the count before 0
      is 16383 (the mask of -1 equals -1 modulo 0x4000). */
  function PreviousCount(d: Datagram): (c: int)
    ensures 0 <= c < CountModulus
    ensures Count(d) > 0 ==> c == Count(d) - 1
    ensures Count(d) == 0 ==> c == CountModulus - 1
  {
    (Count(d) - 1) % 0x4000
  }

  /** Forward and backward adjacency agree: `b` is the fragment after `a`
      exactly when `a` is the fragment before `b`, wrap-around included. */
  lemma {:induction false} AdjacentCounts(a: Datagram, b: Datagram)
    ensures NextCount(a) == Count(b) <==> PreviousCount(b) == Count(a)
  {
    if Count(a) == CountModulus - 1 {
      assert NextCount(a) == 0;
    } else if Count(b) == 0 {
      assert PreviousCount(b) == CountModulus - 1;
    }
  }

  /** `w | (bits << 14)` for a 16-bit word and two type bits: the low 14 bits
      are the word's, and each of bits 14 and 15 is set exactly when it is set
      in the word or in the type bits. */
  function OrKind(w: U16, bits: int): (r: U16)
    requires 0 <= bits < 4
    ensures r % 0x4000 == w % 0x4000
    ensures (r / 0x4000) % 2 == 1 <==> (w / 0x4000) % 2 == 1 || bits % 2 == 1
    ensures r / 0x8000 == 1 <==> w / 0x8000 == 1 || bits / 2 == 1
    ensures w < 0x4000 ==> r == bits * 0x4000 + w
  {
    var hi := w / 0x4000;
    var lowBit := if hi % 2 == 1 || bits % 2 == 1 then 1 else 0;
    var highBit := if hi / 2 == 1 || bits / 2 == 1 then 1 else 0;
    (2 * highBit + lowBit) * 0x4000 + w % 0x4000
  }

  /** A datagram as the sender lays it out: ID word, type-and-count word, payload. */
  function Stamp(id: U16, typeCount: U16, payload: seq<Byte>): (d: Datagram)
    ensures |d| == HeaderSize + |payload|
    ensures ID(d) == id && TypeCount(d) == typeCount
    ensures d[HeaderSize..] == payload
  {
    WordBytes(id) + WordBytes(typeCount) + payload
  }

  /** Decoding a header stamped with a count below 0x4000 and the bits of a
      kind gives back that ID, that kind and that count. */
  lemma {:induction false} StampRoundTrip(id: U16, count: U16, k: Kind, payload: seq<Byte>)
    requires count < CountModulus
    ensures var d := Stamp(id, OrKind(count, KindBits(k)), payload);
      ID(d) == id && KindOf(d) == k && Count(d) == count && d[HeaderSize..] == payload
  {
    var d := Stamp(id, OrKind(count, KindBits(k)), payload);
    assert TypeCount(d) == KindBits(k) * 0x4000 + count;
  }
}
