/** The sending side of the split-datagram protocol (`UDPSplitPacketWriter`):
    the application writes a message into a buffer after a 4-byte gap kept for
    the header, and `write_packet` stamps headers into the buffer and sends
    datagrams, one if the message fits in the MTU and several otherwise.

    The socket is a log of the datagrams sent. `SendSpec` and `MiddleLoop`
    describe `write_packet` as written; `Fragments` is the split the protocol
    evidently intends, and `NextCounter` the intended counter. */
module Fragmenter {

  import opened Wrappers
  import opened Header
  import opened Buffers

  /** Writing `bytes` over `b` from offset `at` (a `memcpy` into the buffer). */
  function Overwrite(b: seq<Byte>, at: nat, bytes: seq<Byte>): (r: seq<Byte>)
    requires at + |bytes| <= |b|
    ensures |r| == |b| && r[at..at + |bytes|] == bytes
    ensures r[..at] == b[..at] && r[at + |bytes|..] == b[at + |bytes|..]
  {
    b[..at] + bytes + b[at + |bytes|..]
  }

  /** The header bytes for an ID and a type-and-count word. */
  function HeaderBytes(id: U16, typeCount: U16): (h: seq<Byte>)
    ensures |h| == HeaderSize
  {
    WordBytes(id) + WordBytes(typeCount)
  }

  /** The counter update as written, `count + 1 & 0x3FFFF` stored back into the
      16-bit counter: the 18-bit mask takes nothing off, so the counter runs
      over all 16 bits instead of wrapping at 0x4000. */
  function Bump(c: U16): (r: U16)
    ensures r == (c + 1) % 0x1_0000
    ensures c < 0xFFFF ==> r == c + 1
  {
    ((c + 1) % 0x4_0000) % 0x1_0000
  }

  /** What `write_packet` changes: the buffer, the counter and the socket. */
  datatype Sender = Sender(buf: seq<Byte>, count: U16, sent: seq<seq<Byte>>)

  /** One step of `write_packet`: a header (ID, `typeCount`) is written at
      offset `at`, the first `length` bytes of the buffer are sent and the
      counter moves on. `None`, with nothing done, when the header would pass
      `buf_end`, which is undefined behaviour. */
  function StampSend(s: Sender, id: U16, at: nat, typeCount: U16, length: nat): (r: Option<Sender>)
    requires length <= |s.buf|
    ensures r.Some? <==> at + HeaderSize <= |s.buf|
    ensures r.Some? ==> |r.value.buf| == |s.buf| && r.value.count == Bump(s.count)
    ensures r.Some? ==> r.value.buf[at..at + HeaderSize] == HeaderBytes(id, typeCount)
    ensures r.Some? ==> r.value.sent == s.sent + [r.value.buf[..length]]
  {
    if at + HeaderSize > |s.buf| then None
    else
      var b := Overwrite(s.buf, at, HeaderBytes(id, typeCount));
      Some(Sender(b, Bump(s.count), s.sent + [b[..length]]))
  }

  /** `StampSend` writes the 4 header bytes and nothing else: every byte
      before `at` and from `at + 4` on is as it was. */
  lemma StampSendKeeps(s: Sender, id: U16, at: nat, typeCount: U16, length: nat)
    requires length <= |s.buf|
    ensures var r := StampSend(s, id, at, typeCount, length);
      r.Some? ==> r.value.buf[..at] == s.buf[..at] && r.value.buf[at + HeaderSize..] == s.buf[at + HeaderSize..]
  {
  }

  /** The MIDDLE loop as written, with the next header at offset `at`: while
      `at + mtu - 4` is below `buf_end`, a MIDDLE header goes at `at`, the
      first `mtu` bytes of the buffer are sent and `at` moves `mtu - 4` on.
      `None` if a header would pass `buf_end`; otherwise the state after the
      loop and the offset where it stopped. */
  function MiddleLoop(s: Sender, id: U16, mtu: int, at: nat): (r: Option<(Sender, nat)>)
    requires HeaderSize < mtu <= |s.buf|
    ensures r.Some? ==> |r.value.0.buf| == |s.buf| && |r.value.0.sent| >= |s.sent|
    ensures r.Some? ==> at <= r.value.1 && r.value.1 + mtu - HeaderSize >= |s.buf|
    ensures r.Some? ==> r.value.1 == at || r.value.1 < |s.buf|
    decreases |s.buf| - at
  {
    if at + mtu - HeaderSize < |s.buf| then
      var n := StampSend(s, id, at, OrKind(s.count, KindBits(Middle)), mtu);
      if n.None? then None
      else MiddleLoop(n.value, id, mtu, at + mtu - HeaderSize)
    else
      Some((s, at))
  }

  /** After `n` turns the MIDDLE loop has moved `n` steps of `mtu - 4` and
      bumped the counter `n` times: one datagram per turn. */
  lemma {:induction false} MiddleLoopTurns(s: Sender, id: U16, mtu: int, at: nat)
    requires HeaderSize < mtu <= |s.buf|
    ensures var r := MiddleLoop(s, id, mtu, at);
      r.Some? ==>
        var n := |r.value.0.sent| - |s.sent|;
        r.value.1 == at + n * (mtu - HeaderSize) && r.value.0.count == (s.count + n) % 0x1_0000
    decreases |s.buf| - at
  {
    if at + mtu - HeaderSize < |s.buf| {
      var n := StampSend(s, id, at, OrKind(s.count, KindBits(Middle)), mtu);
      if n.Some? {
        var r := MiddleLoop(n.value, id, mtu, at + mtu - HeaderSize);
        MiddleLoopTurns(n.value, id, mtu, at + mtu - HeaderSize);
        if r.Some? {
          OneMore(at, mtu - HeaderSize, |r.value.0.sent| - |n.value.sent|, s.count);
        }
      }
    }
  }

  /** One more turn of the MIDDLE loop: one more step of `mtu - 4` and one
      more bump of the counter. */
  lemma OneMore(at: int, step: int, k: nat, c: U16)
    ensures at + step + k * step == at + (k + 1) * step
    ensures (Bump(c) + k) % 0x1_0000 == (c + (k + 1)) % 0x1_0000
  {
  }

  /** The MIDDLE loop stops where `mtu - 4` more bytes reach `buf_end`. */
  lemma MiddleLoopDone(s: Sender, id: U16, mtu: int, at: nat)
    requires HeaderSize < mtu <= |s.buf| && at + mtu - HeaderSize >= |s.buf|
    ensures MiddleLoop(s, id, mtu, at) == Some((s, at))
  {
  }

  /** `write_packet` as written, with the cursor at offset `current`: a START
      at `buf_start`, the MIDDLE loop and an END at the offset where the loop
      stopped when more than `mtu` bytes are buffered, otherwise one FULL
      datagram of the buffered bytes. `None` is undefined behaviour: a header
      past `buf_end`. */
  function SendSpec(s: Sender, id: U16, mtu: int, current: int): (r: Option<Sender>)
    requires HeaderSize < mtu && HeaderSize <= current <= |s.buf|
    ensures r.Some? ==> |r.value.buf| == |s.buf| && |r.value.sent| > |s.sent|
    ensures r.Some? ==> r.value.count == (s.count + |r.value.sent| - |s.sent|) % 0x1_0000
    ensures r.Some? && current > mtu ==> |r.value.sent| >= |s.sent| + 2
  {
    if current > mtu then
      var first := StampSend(s, id, 0, OrKind(s.count, KindBits(Start)), mtu);
      var m := MiddleLoop(first.value, id, mtu, mtu);
      if m.None? then None
      else
        var e := StampSend(m.value.0, id, m.value.1, OrKind(m.value.0.count, KindBits(End)), mtu);
        if e.None? then e
        else
          MiddleLoopTurns(first.value, id, mtu, mtu);
          AroundMiddles(s.count, |m.value.0.sent| - |first.value.sent|);
          e
    else
      StampSend(s, id, 0, s.count, current)
  }

  /** A START before `k` MIDDLEs and an END after them: `k + 2` bumps. */
  lemma AroundMiddles(c: U16, k: nat)
    ensures Bump((Bump(c) + k) % 0x1_0000) == (c + (k + 2)) % 0x1_0000
  {
  }

  /** Writing at `at` or later leaves the first `n` bytes alone. */
  lemma {:induction false} OverwriteKeepsPrefix(b: seq<Byte>, at: nat, bytes: seq<Byte>, n: nat)
    requires at + |bytes| <= |b| && n <= at
    ensures Overwrite(b, at, bytes)[..n] == b[..n]
  {
    var r := Overwrite(b, at, bytes);
    assert r[..n] == r[..at][..n];
    assert b[..n] == b[..at][..n];
  }

  /** The datagram sent after a header is written at `buf_start`: the header,
      then the buffered bytes after the header gap. */
  lemma {:induction false} StampedPrefix(b: seq<Byte>, id: U16, typeCount: U16, length: nat)
    requires HeaderSize <= length <= |b|
    ensures Overwrite(b, 0, HeaderBytes(id, typeCount))[..length]
      == Stamp(id, typeCount, b[HeaderSize..length])
  {
    var r := Overwrite(b, 0, HeaderBytes(id, typeCount));
    assert r[..length] == r[..HeaderSize] + r[HeaderSize..length];
    assert r[HeaderSize..length] == r[HeaderSize..][..length - HeaderSize];
    assert b[HeaderSize..length] == b[HeaderSize..][..length - HeaderSize];
  }

  /** A message that fits in the MTU goes out as one datagram: the header
      (ID, count with FULL type bits) followed by the bytes written since the
      last send; the receiver decodes exactly these while the counter is
      below 0x4000. */
  lemma {:induction false} FullSend(s: Sender, id: U16, mtu: int, current: int)
    requires HeaderSize < mtu && HeaderSize <= current <= |s.buf| && current <= mtu
    ensures var r := SendSpec(s, id, mtu, current);
      r.Some? && r.value.count == Bump(s.count) &&
      r.value.sent == s.sent + [Stamp(id, s.count, s.buf[HeaderSize..current])]
    ensures s.count < CountModulus ==>
      var d := Stamp(id, s.count, s.buf[HeaderSize..current]);
      ID(d) == id && KindOf(d) == Full && Count(d) == s.count && d[HeaderSize..] == s.buf[HeaderSize..current]
  {
    StampedPrefix(s.buf, id, s.count, current);
    if s.count < CountModulus {
      StampRoundTrip(id, s.count, Full, s.buf[HeaderSize..current]);
    }
  }

  /** Every datagram the MIDDLE loop sends is the first `mtu` bytes of the
      buffer, which the loop never writes: each one repeats `first`. */
  lemma {:induction false} MiddleLoopRepeats(s: Sender, id: U16, mtu: int, at: nat, k: nat, first: seq<Byte>)
    requires HeaderSize < mtu <= |s.buf| && mtu <= at && k <= |s.sent|
    requires s.buf[..mtu] == first
    requires forall i :: k <= i < |s.sent| ==> s.sent[i] == first
    ensures var r := MiddleLoop(s, id, mtu, at);
      r.Some? ==> (r.value.0.buf[..mtu] == first && mtu <= r.value.1 &&
                   forall i :: k <= i < |r.value.0.sent| ==> r.value.0.sent[i] == first)
    decreases |s.buf| - at
  {
    if at + mtu - HeaderSize < |s.buf| && at + HeaderSize <= |s.buf| {
      var n := StampSend(s, id, at, OrKind(s.count, KindBits(Middle)), mtu).value;
      OverwriteKeepsPrefix(s.buf, at, HeaderBytes(id, OrKind(s.count, KindBits(Middle))), mtu);
      MiddleLoopRepeats(n, id, mtu, at + mtu - HeaderSize, k, first);
    }
  }

  /** As written, a message longer than the MTU goes out as at least two
      datagrams that are all the same: the START header and the first
      `mtu - 4` bytes of the message. The receiver sees only STARTs with one
      count, and the rest of the message is never sent; how many copies go
      out depends on the size of the buffer, not on the message. */
  lemma {:induction false} SplitSendsRepeat(s: Sender, id: U16, mtu: int, current: int)
    requires HeaderSize < mtu < current <= |s.buf|
    ensures var r := SendSpec(s, id, mtu, current);
      var first := Stamp(id, OrKind(s.count, KindBits(Start)), s.buf[HeaderSize..mtu]);
      r.Some? ==> (|r.value.sent| >= |s.sent| + 2 &&
                   forall i :: |s.sent| <= i < |r.value.sent| ==> r.value.sent[i] == first)
    ensures s.count < CountModulus ==>
      var first := Stamp(id, OrKind(s.count, KindBits(Start)), s.buf[HeaderSize..mtu]);
      KindOf(first) == Start && Count(first) == s.count && |first| == mtu
  {
    var tc := OrKind(s.count, KindBits(Start));
    var first := Stamp(id, tc, s.buf[HeaderSize..mtu]);
    var s1 := StampSend(s, id, 0, tc, mtu).value;
    StampedPrefix(s.buf, id, tc, mtu);
    assert s1.buf[..mtu] == first;
    MiddleLoopRepeats(s1, id, mtu, mtu, |s.sent|, first);
    var m := MiddleLoop(s1, id, mtu, mtu);
    if m.Some? {
      var (t, at) := m.value;
      if at + HeaderSize <= |t.buf| {
        OverwriteKeepsPrefix(t.buf, at, HeaderBytes(id, OrKind(t.count, KindBits(End))), mtu);
      }
    }
    if s.count < CountModulus {
      StampRoundTrip(id, s.count, Start, s.buf[HeaderSize..mtu]);
    }
  }

  /** As written, when fewer than 4 bytes of the buffer follow the first
      `mtu` and the MTU is at least 8 (so the MIDDLE loop does not run), the
      END header is written past `buf_end`: an MTU of 8 and a full 9-byte
      buffer is such a case. */
  lemma {:induction false} EndHeaderOverrun(s: Sender, id: U16, mtu: int, current: int)
    requires 2 * HeaderSize <= mtu < current <= |s.buf| < mtu + HeaderSize
    ensures SendSpec(s, id, mtu, current).None?
  {
    var s1 := StampSend(s, id, 0, OrKind(s.count, KindBits(Start)), mtu).value;
    assert MiddleLoop(s1, id, mtu, mtu) == Some((s1, mtu));
  }

  /** As written, the counter reaches 0x4000 after 16384 datagrams, and the
      next FULL datagram then carries the START type bits: the receiver takes a
      whole message for the first fragment of a split one. In the same way an
      END stamped with that counter is read as a MIDDLE, so the message it
      closes is never complete. */
  lemma CounterOverflow(id: U16, payload: seq<Byte>)
    ensures Bump(0x3FFF) == 0x4000
    ensures KindOf(Stamp(id, Bump(0x3FFF), payload)) == Start
    ensures KindOf(Stamp(id, OrKind(Bump(0x3FFF), KindBits(End)), payload)) == Middle
  {
  }

  /** The counter update the protocol intends, `count + 1 & 0x3FFF`: it stays
      within 14 bits, so the type bits ORed in are never disturbed. */
  function NextCounter(c: nat): (r: nat)
    requires c < CountModulus
    ensures r < CountModulus
    ensures c < CountModulus - 1 ==> r == c + 1
    ensures c == CountModulus - 1 ==> r == 0
  {
    (c + 1) % 0x4000
  }

  /** With the intended counter, each datagram keeps the kind it was stamped
      with, and the receiver's idea of the following count (`getNextCount`) is
      the sender's next count. */
  lemma {:induction false} NextCounterAgrees(id: U16, c: nat, k: Kind, payload: seq<Byte>)
    requires c < CountModulus
    ensures var d := Stamp(id, OrKind(c, KindBits(k)), payload);
      KindOf(d) == k && Count(d) == c && NextCount(d) == NextCounter(c)
  {
    StampRoundTrip(id, c, k, payload);
  }

  /** The datagrams after a START, as the protocol intends them: MIDDLEs of
      `mtu - 4` payload bytes and an END with the rest. */
  function Rest(id: U16, count: nat, payload: seq<Byte>, mtu: int): (r: seq<Datagram>)
    requires HeaderSize < mtu && count < CountModulus && |payload| > 0
    ensures |r| > 0
    decreases |payload|
  {
    var room := mtu - HeaderSize;
    if |payload| <= room then
      [Stamp(id, OrKind(count, KindBits(End)), payload)]
    else
      [Stamp(id, OrKind(count, KindBits(Middle)), payload[..room])]
        + Rest(id, NextCounter(count), payload[room..], mtu)
  }

  /** The split the protocol intends: one FULL datagram for a message of at
      most `mtu - 4` bytes, otherwise a START with the first `mtu - 4` bytes and
      then `Rest`. */
  function Fragments(id: U16, count: nat, payload: seq<Byte>, mtu: int): (r: seq<Datagram>)
    requires HeaderSize < mtu && count < CountModulus
    ensures |r| > 0
  {
    var room := mtu - HeaderSize;
    if |payload| <= room then
      [Stamp(id, count, payload)]
    else
      [Stamp(id, OrKind(count, KindBits(Start)), payload[..room])]
        + Rest(id, NextCounter(count), payload[room..], mtu)
  }

  /** The payloads of a run of datagrams, in order. */
  function Payloads(ds: seq<Datagram>): (p: seq<Byte>)
  {
    if ds == [] then [] else ds[0][HeaderSize..] + Payloads(ds[1..])
  }

  /** Every datagram of the run carries `id` and fits the MTU. */
  ghost predicate Carries(ds: seq<Datagram>, id: U16, mtu: int)
  {
    forall i :: 0 <= i < |ds| ==> ID(ds[i]) == id && |ds[i]| <= mtu
  }

  /** Each datagram's next count (`getNextCount`) is the count of the one
      after it: the receiver links them in order. */
  ghost predicate Linked(ds: seq<Datagram>)
  {
    forall i :: 0 <= i < |ds| - 1 ==> NextCount(ds[i]) == Count(ds[i + 1])
  }

  /** MIDDLEs closed by an END. */
  ghost predicate MiddlesThenEnd(ds: seq<Datagram>)
  {
    |ds| > 0 && KindOf(ds[|ds| - 1]) == End &&
    forall i :: 0 <= i < |ds| - 1 ==> KindOf(ds[i]) == Middle
  }

  /** The shape the receiver reassembles: every datagram carries `id` and fits
      the MTU, consecutive datagrams have consecutive counts, the run starts
      at `count`, and its kinds are FULL alone or START, MIDDLE..., END. */
  ghost predicate WellSplit(ds: seq<Datagram>, id: U16, count: nat, mtu: int)
  {
    |ds| > 0 && Count(ds[0]) == count && Carries(ds, id, mtu) && Linked(ds) &&
    (|ds| == 1 ==> KindOf(ds[0]) == Full) &&
    (|ds| > 1 ==> KindOf(ds[0]) == Start && MiddlesThenEnd(ds[1..]))
  }

  /** A datagram put in front of a linked run that it links to. */
  lemma {:induction false} LinkFront(d: Datagram, tail: seq<Datagram>, id: U16, mtu: int)
    requires |tail| > 0 && ID(d) == id && |d| <= mtu && NextCount(d) == Count(tail[0])
    requires Carries(tail, id, mtu) && Linked(tail)
    ensures Carries([d] + tail, id, mtu) && Linked([d] + tail) && ([d] + tail)[1..] == tail
    ensures Payloads([d] + tail) == d[HeaderSize..] + Payloads(tail)
  {
    var r := [d] + tail;
    assert forall i :: 0 < i < |r| ==> r[i] == tail[i - 1];
  }

  /** A MIDDLE put in front of MIDDLEs closed by an END. */
  lemma {:induction false} MiddleFront(d: Datagram, tail: seq<Datagram>)
    requires KindOf(d) == Middle && MiddlesThenEnd(tail)
    ensures MiddlesThenEnd([d] + tail)
  {
    var r := [d] + tail;
    assert forall i :: 0 < i < |r| ==> r[i] == tail[i - 1];
  }

  /** A single datagram as a run. */
  lemma {:induction false} SingleRun(d: Datagram, id: U16, mtu: int)
    requires ID(d) == id && |d| <= mtu
    ensures Carries([d], id, mtu) && Linked([d]) && Payloads([d]) == d[HeaderSize..]
  {
    assert [d][1..] == [];
  }

  /** `Rest` is a run of MIDDLEs closed by an END, with consecutive counts from
      `count`, and it carries the payload. */
  lemma {:induction false} RestRoundTrip(id: U16, count: nat, payload: seq<Byte>, mtu: int)
    requires HeaderSize < mtu && count < CountModulus && |payload| > 0
    ensures var r := Rest(id, count, payload, mtu);
      Payloads(r) == payload && Count(r[0]) == count &&
      Carries(r, id, mtu) && Linked(r) && MiddlesThenEnd(r)
    decreases |payload|
  {
    var room := mtu - HeaderSize;
    if |payload| <= room {
      var d := Stamp(id, OrKind(count, KindBits(End)), payload);
      StampRoundTrip(id, count, End, payload);
      SingleRun(d, id, mtu);
      assert Rest(id, count, payload, mtu) == [d];
    } else {
      var d := Stamp(id, OrKind(count, KindBits(Middle)), payload[..room]);
      var tail := Rest(id, NextCounter(count), payload[room..], mtu);
      NextCounterAgrees(id, count, Middle, payload[..room]);
      RestRoundTrip(id, NextCounter(count), payload[room..], mtu);
      LinkFront(d, tail, id, mtu);
      MiddleFront(d, tail);
      assert payload == payload[..room] + payload[room..];
      assert Rest(id, count, payload, mtu) == [d] + tail;
    }
  }

  /** The intended split of a message longer than `mtu - 4` bytes: a START
      with its first `mtu - 4` bytes and then `Rest`. */
  lemma {:induction false} SplitRoundTrip(id: U16, count: nat, payload: seq<Byte>, mtu: int)
    requires HeaderSize < mtu && count < CountModulus && |payload| > mtu - HeaderSize
    ensures var r := Fragments(id, count, payload, mtu);
      Payloads(r) == payload && WellSplit(r, id, count, mtu)
  {
    var room := mtu - HeaderSize;
    var d := Stamp(id, OrKind(count, KindBits(Start)), payload[..room]);
    var tail := Rest(id, NextCounter(count), payload[room..], mtu);
    NextCounterAgrees(id, count, Start, payload[..room]);
    RestRoundTrip(id, NextCounter(count), payload[room..], mtu);
    LinkFront(d, tail, id, mtu);
    assert payload == payload[..room] + payload[room..];
    assert Fragments(id, count, payload, mtu) == [d] + tail;
  }

  /** The intended split round-trips: the payloads of the fragments, in
      order, are the message, and the fragments have the shape the receiver
      reassembles. */
  lemma {:induction false} FragmentsRoundTrip(id: U16, count: nat, payload: seq<Byte>, mtu: int)
    requires HeaderSize < mtu && count < CountModulus
    ensures var r := Fragments(id, count, payload, mtu);
      Payloads(r) == payload && WellSplit(r, id, count, mtu)
  {
    if |payload| <= mtu - HeaderSize {
      var d := Stamp(id, count, payload);
      StampRoundTrip(id, count, Full, payload);
      assert OrKind(count, KindBits(Full)) == count;
      SingleRun(d, id, mtu);
      assert Fragments(id, count, payload, mtu) == [d];
    } else {
      SplitRoundTrip(id, count, payload, mtu);
    }
  }

  /** `UDPSplitPacketWriter`: the buffer the application writes the message
      into (after a 4-byte gap for the header), the ID of this sender, the MTU
      and the 16-bit counter; `sent` is the socket. */
  class SplitWriter {
    const id: U16
    const mtu: int
    const buffer: BufferWriter
    var count: U16
    var sent: seq<seq<Byte>>

    ghost predicate Valid()
      reads buffer
    {
      buffer.Valid() && HeaderSize < mtu && HeaderSize <= buffer.current
    }

    /** What `write_packet` reads and changes. */
    ghost function State(): Sender
      reads this, buffer, buffer.buf
    {
      Sender(buffer.buf[..], count, sent)
    }

    /** A new sender: counter 0, nothing sent, the cursor just past the gap
        kept for the header. */
    constructor (id: U16, mtu: int, size: nat)
      requires HeaderSize < mtu && HeaderSize <= size
      ensures Valid() && this.id == id && this.mtu == mtu && count == 0 && sent == []
      ensures fresh(buffer) && fresh(buffer.buf) && buffer.buf.Length == size
      ensures buffer.current == HeaderSize
    {
      var b := new BufferWriter(size);
      b.current := HeaderSize;
      this.id, this.mtu, buffer := id, mtu, b;
      count, sent := 0, [];
    }

    /** One header written at offset `at`, then a send of the first `length`
        bytes and the counter moved on; `false`, with nothing done, when the
        header would pass `buf_end`. */
    method StampAndSend(at: nat, typeCount: U16, length: nat) returns (ok: bool)
      requires Valid() && length <= buffer.buf.Length
      modifies this`count, this`sent, buffer.buf
      ensures Valid()
      ensures ok == StampSend(old(State()), id, at, typeCount, length).Some?
      ensures ok ==> State() == StampSend(old(State()), id, at, typeCount, length).value
      ensures !ok ==> State() == old(State())
    {
      if at + HeaderSize > buffer.buf.Length {
        return false;
      }
      var h := HeaderBytes(id, typeCount);
      forall i | 0 <= i < HeaderSize {
        buffer.buf[at + i] := h[i];
      }
      assert buffer.buf[..] == Overwrite(old(buffer.buf[..]), at, h);
      sent := sent + [buffer.buf[..length]];
      count := Bump(count);
      ok := true;
    }

    /** One turn of the MIDDLE loop, at offset `at`: a MIDDLE header with the
        current counter at `at`, a send of the first `mtu` bytes and the
        counter moved on, or (the header passing `buf_end`) nothing done. */
    method SendMiddle(at: nat) returns (ok: bool)
      requires Valid() && mtu <= buffer.buf.Length && at + mtu - HeaderSize < buffer.buf.Length
      modifies this`count, this`sent, buffer.buf
      ensures Valid()
      ensures ok == StampSend(old(State()), id, at, OrKind(old(count), KindBits(Middle)), mtu).Some?
      ensures ok ==> State() == StampSend(old(State()), id, at, OrKind(old(count), KindBits(Middle)), mtu).value
      ensures !ok ==> State() == old(State())
    {
      ok := StampAndSend(at, OrKind(count, KindBits(Middle)), mtu);
    }

    /** One turn of the MIDDLE loop, seen from the loop: what is left of the
        loop's outcome `result` is the loop from the next offset, or the turn
        was undefined. */
    method SendMiddleOn(at: nat, ghost result: Option<(Sender, nat)>) returns (ok: bool, at': nat)
      requires Valid() && mtu <= buffer.buf.Length && at + mtu - HeaderSize < buffer.buf.Length
      requires result == MiddleLoop(State(), id, mtu, at)
      modifies this`count, this`sent, buffer.buf
      ensures Valid() && at' == at + mtu - HeaderSize
      ensures ok ==> result == MiddleLoop(State(), id, mtu, at')
      ensures !ok ==> result == None
    {
      ghost var s := State();
      ok := SendMiddle(at);
      at' := at + mtu - HeaderSize;
      assert MiddleLoop(s, id, mtu, at) == if ok then MiddleLoop(State(), id, mtu, at') else None;
    }

    /** The MIDDLE loop of `write_packet`, from offset `mtu`; `at` is where it
        stopped, and `false` means a header would have passed `buf_end`. */
    method SendMiddles() returns (ok: bool, at: nat)
      requires Valid() && mtu <= buffer.buf.Length
      modifies this`count, this`sent, buffer.buf
      ensures Valid()
      ensures MiddleLoop(old(State()), id, mtu, mtu) == if ok then Some((State(), at)) else None
    {
      ghost var st := State();
      ghost var result := MiddleLoop(st, id, mtu, mtu);
      at := mtu;
      while at + mtu - HeaderSize < buffer.buf.Length
        invariant Valid() && mtu <= at && st == State()
        invariant result == MiddleLoop(st, id, mtu, at)
        decreases buffer.buf.Length - at
      {
        ok, at := SendMiddleOn(at, result);
        if !ok {
          return;
        }
        st := State();
      }
      MiddleLoopDone(st, id, mtu, at);
      ok := true;
    }

    /** `write_packet`: sends the message written since the last call as
        `SendSpec` describes and moves the cursor back to just past the header
        gap; `false` is undefined behaviour, a header past `buf_end`. */
    method WritePacket() returns (ok: bool)
      requires Valid()
      modifies this`count, this`sent, buffer`current, buffer.buf
      ensures ok <==> SendSpec(old(State()), id, mtu, old(buffer.current)).Some?
      ensures ok ==> State() == SendSpec(old(State()), id, mtu, old(buffer.current)).value
      ensures ok ==> Valid() && buffer.current == HeaderSize
    {
      var current := buffer.current;
      if current > mtu {
        ok := StampAndSend(0, OrKind(count, KindBits(Start)), mtu);
        var at;
        ok, at := SendMiddles();
        if !ok {
          return;
        }
        ok := StampAndSend(at, OrKind(count, KindBits(End)), mtu);
        if !ok {
          return;
        }
      } else {
        ok := StampAndSend(0, count, current);
      }
      buffer.current := HeaderSize;
    }
  }
}
