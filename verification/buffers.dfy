/** The fixed-size byte buffers under every reader and writer: a cursor
    (`buf_current`) that moves through the buffer and never passes its limit
    (`read_end` for reading, `buf_end` for writing). Offsets are measured from
    `buf_start`. */
module Buffers {

  import opened Wrappers
  import opened Header

  /** What `BufferReader::read` copies out of the readable bytes
      (`buf_start` .. `read_end`) when asked for `length` bytes at `cursor`:
      nothing at all if the read would pass `read_end`. */
  function ReadSpan(readable: seq<Byte>, cursor: nat, length: nat): (r: Option<seq<Byte>>)
    ensures r.Some? <==> cursor + length <= |readable|
    ensures r.Some? ==> |r.value| == length
    ensures r.Some? ==> forall i :: 0 <= i < length ==> r.value[i] == readable[cursor + i]
  {
    if cursor + length > |readable| then None else Some(readable[cursor..cursor + length])
  }

  /** Two reads in a row return what one read of the combined length returns,
      and the second read succeeds exactly when the combined one does. */
  lemma {:induction false} ReadSpanSplit(readable: seq<Byte>, cursor: nat, a: nat, b: nat)
    requires ReadSpan(readable, cursor, a).Some?
    ensures ReadSpan(readable, cursor + a, b).Some? <==> ReadSpan(readable, cursor, a + b).Some?
    ensures ReadSpan(readable, cursor + a, b).Some? ==>
      ReadSpan(readable, cursor, a).value + ReadSpan(readable, cursor + a, b).value
        == ReadSpan(readable, cursor, a + b).value
  {
    if cursor + a + b <= |readable| {
      assert readable[cursor..cursor + a + b]
          == readable[cursor..cursor + a] + readable[cursor + a..cursor + a + b];
    }
  }

  /** What `recv` leaves in a buffer of `size` bytes: the datagram, cut to the
      buffer size. */
  function Received(d: Datagram, size: int): (r: Datagram)
    requires size >= HeaderSize
    ensures |r| <= size && |r| <= |d| && r == d[..|r|]
    ensures |d| <= size ==> r == d
  {
    if |d| <= size then d else d[..size]
  }

  /** The outcome of `BufferReader::read`: the bytes copied out, the
      out-of-range error, or a copy of negative length. */
  datatype Copy = Copied(bytes: seq<Byte>) | OutOfRange | CopyUndefined

  /** A buffer that is read through a cursor. */
  class BufferReader {
    const buf: array<Byte>
    var current: int
    var readEnd: int

    ghost predicate Valid()
      reads this
    {
      0 <= current && 0 <= readEnd <= buf.Length
    }

    /** The bytes between `buf_start` and `read_end`. */
    ghost function Readable(): seq<Byte>
      reads this, buf
      requires Valid()
    {
      buf[..readEnd]
    }

    /** A new reader has nothing to read: `read_end` starts at `buf_start`. */
    constructor (size: nat)
      ensures Valid() && fresh(buf) && buf.Length == size
      ensures current == 0 && readEnd == 0
    {
      buf := new Byte[size];
      current, readEnd := 0, 0;
    }

    /** A datagram received at `buf_start` by the split reader: `recv` copies
        at most the buffer's size, `read_end` moves to the end of what was
        copied, and the cursor steps over the 4-byte header. This is the
        `BufferReader` base class's view of the step; the split reader keeps
        its packets as record values, and `Reassembly.Recv` takes the same
        step on one of them (the same `Received` bytes, the cursor moved by
        `HeaderSize`). */
    method Receive(d: Datagram)
      requires Valid() && buf.Length >= HeaderSize
      modifies this, buf
      ensures Valid()
      ensures Readable() == Received(d, buf.Length)
      ensures current == old(current) + HeaderSize
    {
      var r := Received(d, buf.Length);
      forall i | 0 <= i < |r| {
        buf[i] := r[i];
      }
      readEnd := |r|;
      current := current + HeaderSize;
    }

    /** `BufferReader::read`: the cursor is checked against `read_end` first;
        a read that would pass it is the out-of-range error, with the cursor
        left where it was. A negative `length` that passes the check reaches
        `memcpy` as a huge unsigned size (undefined behaviour). Otherwise
        `length` bytes at the cursor, with the cursor moved past them. */
    method Read(length: int) returns (r: Copy)
      requires Valid()
      modifies this`current
      ensures Valid()
      ensures r == OutOfRange <==> old(current) + length > |Readable()|
      ensures r == CopyUndefined <==> old(current) + length <= |Readable()| && length < 0
      ensures r.Copied? ==> length >= 0 && ReadSpan(Readable(), old(current), length) == Some(r.bytes)
      ensures current == if r.Copied? then old(current) + length else old(current)
    {
      var next := current + length;
      if next > readEnd {
        return OutOfRange;
      }
      if length < 0 {
        return CopyUndefined;
      }
      assert buf[current..next] == Readable()[current..next];
      r := Copied(buf[current..next]);
      current := next;
    }

    /** `BufferReader::remaining`: the largest length a read accepts. */
    method Remaining() returns (n: int)
      requires Valid()
      ensures n == |Readable()| - current
      ensures forall length: nat :: ReadSpan(Readable(), current, length).Some? <==> length <= n
    {
      n := readEnd - current;
    }
  }

  /** A buffer that is filled through a cursor. */
  class BufferWriter {
    const buf: array<Byte>
    var current: int

    ghost predicate Valid()
      reads this
    {
      0 <= current <= buf.Length
    }

    constructor (size: nat)
      ensures Valid() && fresh(buf) && buf.Length == size && current == 0
    {
      buf := new Byte[size];
      current := 0;
    }

    /** `BufferWriter::write`: the bytes are copied at the cursor and the cursor
        moves past them, unless they would pass `buf_end`, in which case the
        buffer and the cursor are left as they were. */
    method Write(data: seq<Byte>) returns (ok: bool)
      requires Valid()
      modifies this`current, buf
      ensures Valid()
      ensures ok <==> old(current) + |data| <= buf.Length
      ensures ok ==> current == old(current) + |data|
      ensures ok ==> buf[..] == old(buf[..])[..old(current)] + data + old(buf[..])[old(current) + |data|..]
      ensures !ok ==> current == old(current) && buf[..] == old(buf[..])
    {
      var next := current + |data|;
      if next > buf.Length {
        return false;
      }
      forall i | 0 <= i < |data| {
        buf[current + i] := data[i];
      }
      current := next;
      ok := true;
    }
  }
}
