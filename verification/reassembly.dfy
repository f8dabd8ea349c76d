/** The receiving side of the split-datagram protocol (`UDPSplitPacketReader`):
    a bounded pool of fragment records, linked to each other as adjacent counts
    of one message ID turn up, from which a message is delivered once a START
    and an END are known to be joined.

    The pool is an arena of records addressed by handles. `order` lists the
    handles in the order of the source's `std::list`: a new record goes to the
    front, the back is the oldest. A C++ iterator becomes a handle; a record
    that has been erased leaves its handle dangling (no longer a key of
    `records`), and every place where the source would dereference such an
    iterator is an `Undefined` outcome here, returned before the access. */
module Reassembly {

  import opened Wrappers
  import opened Header
  import opened Buffers

  type Handle = nat

  /** One `SplitPacket`: the bytes of the last datagram received into it
      (`buf_start` .. `read_end`), its read cursor (`buf_current`, as an offset)
      and its links. `next`, `previous` and `start` are `Some` exactly when the
      source's `hasNext`, `hasPrevious` and `hasStart` are true. */
  datatype Record = Record(
    data: Datagram,
    cursor: int,
    next: Option<Handle>,
    previous: Option<Handle>,
    start: Option<Handle>,
    hasEnd: bool)

  /** The (ID, count) pair that identifies a fragment. */
  function Key(r: Record): (int, int)
  {
    (ID(r.data), Count(r.data))
  }

  /** How a call of `read_packet` ends. `Blocked`: the input ran out, where the
      source would wait in `recv`. `Undefined`: the source would dereference a
      dangling or past-the-end iterator. `Diverges`: the source would loop
      forever around a cycle of links. */
  datatype Outcome = Delivered | Blocked | Undefined | Diverges

  /** How a propagation walk along the links ends. */
  datatype Walk = Joined | Gap | Dangling | Cycle

  /** How a call of `read` ends: the bytes copied, one of the two exceptions
      the source throws, or undefined behaviour / an endless loop. */
  datatype ReadResult = Bytes(bytes: seq<Byte>) | NoPacketsRead | NoMorePackets | ReadUndefined | ReadDiverges

  /** No handle stands twice in `s`. */
  ghost predicate Distinct(s: seq<Handle>)
  {
    s == [] || (s[0] !in s[1..] && Distinct(s[1..]))
  }

  /** `std::list::erase` on the handle sequence: the list without `h`, the
      others keeping their order. */
  function Without(s: seq<Handle>, h: Handle): (r: seq<Handle>)
    ensures forall x :: x in r <==> x in s && x != h
    ensures h !in s ==> r == s
    ensures Distinct(s) ==> Distinct(r)
    ensures Distinct(s) && h in s ==> |r| == |s| - 1
    ensures s != [] && s[0] != h ==> r != [] && r[0] == s[0]
  {
    if s == [] then []
    else if s[0] == h then Without(s[1..], h)
    else
      var rest := Without(s[1..], h);
      DistinctCons(s);
      [s[0]] + rest
  }

  /** Erasing `h` from a list where it stands once, at `k`, closes the gap:
      the handles before it and after it keep their order. */
  lemma {:induction false} WithoutKeepsOrder(s: seq<Handle>, h: Handle, k: nat)
    requires Distinct(s) && k < |s| && s[k] == h
    ensures Without(s, h) == s[..k] + s[k + 1..]
  {
    DistinctCons(s);
    if k > 0 {
      WithoutKeepsOrder(s[1..], h, k - 1);
      assert s[..k] + s[k + 1..] == [s[0]] + (s[1..][..k - 1] + s[1..][k..]);
    }
  }

  /** The handles of `s` that are in `live`, in the order of `s`: what is
      left of a list after erasing every other handle. */
  function Keep(s: seq<Handle>, live: set<Handle>): seq<Handle>
  {
    if s == [] then []
    else
      var rest := Keep(s[1..], live);
      if s[0] in live then [s[0]] + rest else rest
  }

  /** What is kept is the handles of the list that are in `live`, each as
      often as in the list. */
  lemma {:induction false} KeepMembers(s: seq<Handle>, live: set<Handle>)
    ensures forall x :: x in Keep(s, live) <==> x in s && x in live
    ensures Distinct(s) ==> Distinct(Keep(s, live))
  {
    if s != [] {
      KeepMembers(s[1..], live);
      DistinctCons(s);
    }
  }

  /** Keeping every handle of a list leaves it as it is. */
  lemma {:induction false} KeepAll(s: seq<Handle>, live: set<Handle>)
    requires forall x :: x in s ==> x in live
    ensures Keep(s, live) == s
  {
    if s != [] {
      KeepAll(s[1..], live);
      assert s == [s[0]] + s[1..];
    }
  }

  /** Erasing one handle from what was kept keeps one handle fewer. */
  lemma {:induction false} KeepWithout(s: seq<Handle>, live: set<Handle>, h: Handle)
    ensures Without(Keep(s, live), h) == Keep(s, live - {h})
  {
    if s != [] {
      KeepWithout(s[1..], live, h);
    }
  }

  lemma DistinctCons(s: seq<Handle>)
    requires s != []
    ensures Distinct(s) ==> Distinct(s[1..]) && s[0] !in s[1..]
    ensures forall r :: Distinct(r) && s[0] !in r ==> Distinct([s[0]] + r)
  {
    forall r | Distinct(r) && s[0] !in r
      ensures Distinct([s[0]] + r)
    {
      assert ([s[0]] + r)[1..] == r;
    }
  }

  lemma {:induction false} DistinctSnoc(s: seq<Handle>, x: Handle)
    requires Distinct(s) && x !in s
    ensures Distinct(s + [x])
  {
    if s != [] {
      DistinctSnoc(s[1..], x);
      assert (s + [x])[1..] == s[1..] + [x];
    }
  }

  /** `remaining()` of a record: the bytes between its cursor and the end of
      what was received; negative once the cursor has passed that end. */
  function Remaining(r: Record): int
  {
    |r.data| - r.cursor
  }

  /** The bytes of a record still to be read. */
  function Unread(r: Record): (u: seq<Byte>)
    ensures |u| == if 0 <= r.cursor <= |r.data| then Remaining(r) else 0
  {
    if 0 <= r.cursor <= |r.data| then r.data[r.cursor..] else []
  }

  /** The bytes `read` can deliver from record `h` on: each record's unread
      bytes, following `next` links, until a record without a next, a
      dangling link or a record already in `seen`. */
  function Stream(recs: map<Handle, Record>, h: Handle, seen: set<Handle>): seq<Byte>
    decreases recs.Keys - seen
  {
    if h !in recs || h in seen then []
    else Unread(recs[h]) + (if recs[h].next.Some? then Stream(recs, recs[h].next.value, seen + {h}) else [])
  }

  /** The stream from `h` depends only on the records outside `seen`. */
  lemma {:induction false} StreamFrame(r: map<Handle, Record>, r': map<Handle, Record>, h: Handle, seen: set<Handle>)
    requires r.Keys == r'.Keys
    requires forall k :: k in r && k !in seen ==> r[k] == r'[k]
    ensures Stream(r, h, seen) == Stream(r', h, seen)
    decreases r.Keys - seen
  {
    if h in r && h !in seen && r[h].next.Some? {
      StreamFrame(r, r', r[h].next.value, seen + {h});
    }
  }

  /** `r'` is `r` with the cursor of record `h` moved `k` bytes on. */
  ghost predicate Advanced(r: map<Handle, Record>, r': map<Handle, Record>, h: Handle, k: int)
    requires h in r
  {
    r' == r[h := r[h].(cursor := r[h].cursor + k)]
  }

  /** The records of `r` outside `done` are as they were in `r0`. */
  ghost predicate Untouched(r: map<Handle, Record>, r0: map<Handle, Record>, done: set<Handle>)
  {
    forall h :: h in r && h !in done ==> h in r0 && r[h] == r0[h]
  }

  lemma UntouchedAdvanced(r0: map<Handle, Record>, r1: map<Handle, Record>, r2: map<Handle, Record>,
                          h: Handle, k: int, done: set<Handle>)
    requires h in r1 && Untouched(r1, r0, done) && Advanced(r1, r2, h, k)
    ensures Untouched(r2, r0, done + {h})
  {
  }

  /** Moving a cursor `k` bytes on takes those bytes off the unread ones. */
  lemma {:induction false} UnreadAdvance(x: Record, k: nat)
    requires 0 <= x.cursor && k <= Remaining(x)
    ensures Unread(x) == x.data[x.cursor..x.cursor + k] + Unread(x.(cursor := x.cursor + k))
  {
    var c := x.cursor;
    assert x.data[c..] == x.data[c..c + k] + x.data[c + k..];
  }

  /** Reading `k` bytes of record `h` takes them off the front of the stream from `h`. */
  lemma {:induction false} StreamConsume(r: map<Handle, Record>, r': map<Handle, Record>, h: Handle, k: nat, seen: set<Handle>)
    requires h in r && h !in seen && 0 <= r[h].cursor && k <= Remaining(r[h])
    requires Advanced(r, r', h, k)
    ensures Stream(r, h, seen) == r[h].data[r[h].cursor..r[h].cursor + k] + Stream(r', h, seen)
  {
    var x := r[h];
    var tail := if x.next.Some? then Stream(r, x.next.value, seen + {h}) else [];
    if x.next.Some? {
      StreamFrame(r, r', x.next.value, seen + {h});
    }
    UnreadAdvance(x, k);
    assert r'[h] == x.(cursor := x.cursor + k);
    assert Stream(r, h, seen) == Unread(x) + tail;
    assert Stream(r', h, seen) == Unread(r'[h]) + tail;
  }

  /** Stepping over a record with nothing left to read. */
  lemma StreamSkip(r: map<Handle, Record>, h: Handle, seen: set<Handle>)
    requires h in r && h !in seen && Unread(r[h]) == [] && r[h].next.Some?
    ensures Stream(r, h, seen) == Stream(r, r[h].next.value, seen + {h})
  {
  }

  /** The stream from the last record of a chain is what is left of it. */
  lemma StreamLast(r: map<Handle, Record>, h: Handle, seen: set<Handle>)
    requires h in r && h !in seen && r[h].next.None?
    ensures Stream(r, h, seen) == Unread(r[h])
  {
  }

  /** How the walk of `Stream` from `h` ends: at a record without a next
      (`Gap`), at a handle of no live record (`Dangling`) or at a link back
      into the walk (`Cycle`). */
  ghost function StreamEnd(recs: map<Handle, Record>, h: Handle, seen: set<Handle>): Walk
    requires h !in seen
    decreases recs.Keys - seen
  {
    if h !in recs then Dangling
    else if recs[h].next.None? then Gap
    else
      var n := recs[h].next.value;
      if n !in recs then Dangling
      else if n in seen || n == h then Cycle
      else StreamEnd(recs, n, seen + {h})
  }

  /** A record on the walk from `h` has been read past its end and has a
      next record: if `read` needs bytes from it, it copies a negative length. */
  ghost predicate Overrun(recs: map<Handle, Record>, h: Handle, seen: set<Handle>)
    decreases recs.Keys - seen
  {
    && h in recs && h !in seen && recs[h].next.Some?
    && (Remaining(recs[h]) < 0 || Overrun(recs, recs[h].next.value, seen + {h}))
  }

  /** The record `read` starts from has been read to its end and has no
      next, onto which `read` would step without looking. */
  ghost predicate ZeroAtEnd(recs: map<Handle, Record>, h: Handle)
  {
    h in recs && Remaining(recs[h]) == 0 && recs[h].next.None?
  }

  /** Moving cursors forward within what was received leaves no more
      records past their end. */
  lemma {:induction false} OverrunFrame(r: map<Handle, Record>, r': map<Handle, Record>, h: Handle, seen: set<Handle>)
    requires SameLinks(r', r)
    requires forall x :: x in r' && Remaining(r'[x]) < 0 ==> Remaining(r[x]) < 0
    ensures Overrun(r', h, seen) ==> Overrun(r, h, seen)
    decreases r.Keys - seen
  {
    if h in r && h !in seen && r[h].next.Some? {
      OverrunFrame(r, r', r[h].next.value, seen + {h});
    }
  }

  /** The records in `z` have been read to their end and link only to
      records in `z` or to `c`. */
  ghost predicate ReadOut(recs: map<Handle, Record>, z: set<Handle>, c: Handle)
  {
    forall x :: x in z ==> x in recs && Unread(recs[x]) == [] && recs[x].next.Some? && recs[x].next.value in z + {c}
  }

  /** Walking on through records that have been read out adds no bytes. */
  lemma {:induction false} StreamPastReadOut(recs: map<Handle, Record>, h: Handle, a: set<Handle>, z: set<Handle>, c: Handle)
    requires ReadOut(recs, z, c) && c in a
    ensures Stream(recs, h, a) == Stream(recs, h, a + z)
    decreases recs.Keys - a
  {
    if h in recs && h !in a && recs[h].next.Some? {
      StreamPastReadOut(recs, recs[h].next.value, a + {h}, z, c);
      assert a + {h} + z == (a + z) + {h};
    }
  }

  /** The stream from `c` is the same whether or not the read-out records
      behind it count as passed. */
  lemma {:induction false} StreamFromReadOut(recs: map<Handle, Record>, c: Handle, z: set<Handle>)
    requires ReadOut(recs, z, c) && c !in z
    ensures Stream(recs, c, {}) == Stream(recs, c, z)
  {
    if c in recs && recs[c].next.Some? {
      var n := recs[c].next.value;
      StreamPastReadOut(recs, n, {c}, z, c);
      assert {c} + z == z + {c} && {} + {c} == {c};
      assert Stream(recs, c, {}) == Unread(recs[c]) + Stream(recs, n, {c});
      assert Stream(recs, c, z) == Unread(recs[c]) + Stream(recs, n, z + {c});
    }
  }

  /** Bytes moved from the front of what is left to the end of what was read. */
  lemma ReadProgress(total: seq<Byte>, out: seq<Byte>, bytes: seq<Byte>, rest: seq<Byte>, rest': seq<Byte>)
    requires total == out + rest && rest == bytes + rest'
    ensures total == (out + bytes) + rest'
  {
    assert (out + bytes) + rest' == out + (bytes + rest');
  }

  /** What was read is the front of the whole stream. */
  lemma Prefix(total: seq<Byte>, out: seq<Byte>, rest: seq<Byte>)
    requires total == out + rest
    ensures |out| <= |total| && out == total[..|out|] && rest == total[|out|..]
  {
  }

  /** What a call of `read` for `length` bytes that finds a delivered message
      does, from the records `r` with `currentPacket` at `c` to the records
      `r'` with `currentPacket` at `c'`, where `s` is the stream from `c`.
      `Bytes`: the first `length` bytes of `s` (none for a length of zero or
      less), and the rest of `s` is the stream from `c'`. Any other outcome
      is only where `s` is shorter than `length`, or a record on the way has
      been read past its end: "no more packets" where the walk ends at a
      record without a next that `read` did not step off blindly, endless
      where it ends at a link back into the walk, undefined behaviour where
      it ends at a dangling link or at a first record read out without a
      next. */
  ghost predicate ReadChainOutcome(r: map<Handle, Record>, c: Handle, r': map<Handle, Record>, c': Handle,
                                   length: int, result: ReadResult)
  {
    var s := Stream(r, c, {});
    && (result.Bytes? ==>
          && |result.bytes| == (if length > 0 then length else 0)
          && |result.bytes| <= |s| && result.bytes == s[..|result.bytes|]
          && Stream(r', c', {}) == s[|result.bytes|..])
    && (result == NoMorePackets ==>
          && |s| < length && StreamEnd(r, c, {}) == Gap && !ZeroAtEnd(r, c)
          && c' in r && c' in r' && r[c'].next.None? && r'[c'] == r[c']
          && Stream(r', c', {}) == Unread(r[c'])
          && |Unread(r[c'])| <= |s| && s == s[..|s| - |Unread(r[c'])|] + Unread(r[c']))
    && (result == ReadDiverges ==> |s| < length && StreamEnd(r, c, {}) == Cycle)
    && (result == ReadUndefined ==>
          || Overrun(r, c, {})
          || (|s| < length && (StreamEnd(r, c, {}) == Dangling || ZeroAtEnd(r, c))))
  }

  /** `read` has copied `out`, all it was asked for, from the stream from
      `c0`: the rest of the stream is readable from `c`. */
  lemma BytesRead(r0: map<Handle, Record>, c0: Handle, r: map<Handle, Record>, c: Handle, length: int,
                  out: seq<Byte>, seen: set<Handle>)
    requires c !in seen && ReadOut(r, seen, c)
    requires Stream(r0, c0, {}) == out + Stream(r, c, seen)
    requires |out| == if length > 0 then length else 0
    ensures ReadChainOutcome(r0, c0, r, c, length, Bytes(out))
  {
    Prefix(Stream(r0, c0, {}), out, Stream(r, c, seen));
    StreamFromReadOut(r, c, seen);
  }

  /** `read` stops with "no more packets to read" at record `c`, having
      read `out` of the stream from `c0`: `c` is the last record of the walk,
      as it was, and holds the rest of the stream. */
  lemma NoMoreAt(r0: map<Handle, Record>, c0: Handle, r: map<Handle, Record>, c: Handle, length: int,
                 out: seq<Byte>, need: int, seen: set<Handle>)
    requires c in r && c !in seen && r[c].next.None? && SameLinks(r, r0) && Untouched(r, r0, seen)
    requires Stream(r0, c0, {}) == out + Stream(r, c, seen) && StreamEnd(r0, c0, {}) == StreamEnd(r0, c, seen)
    requires |out| == length - need && |Stream(r, c, seen)| < need && !ZeroAtEnd(r0, c0)
    ensures ReadChainOutcome(r0, c0, r, c, length, NoMorePackets)
  {
    assert r[c] == r0[c];
    StreamLast(r, c, {});
    StreamLast(r, c, seen);
    assert StreamEnd(r0, c, seen) == Gap;
    var s, u := Stream(r0, c0, {}), Unread(r[c]);
    assert s[..|s| - |u|] == out;
  }

  /** At most one record per (ID, count). */
  ghost predicate UniqueKeys(recs: map<Handle, Record>)
  {
    forall a, b :: a in recs && b in recs && a != b ==> Key(recs[a]) != Key(recs[b])
  }

  /** At most one record per (ID, count), leaving record `x` out of account. */
  ghost predicate UniqueKeysBut(recs: map<Handle, Record>, x: Handle)
  {
    forall a, b :: a in recs && b in recs && a != b && a != x && b != x ==> Key(recs[a]) != Key(recs[b])
  }

  /** The (ID, count) of the fragment that follows `r`'s. */
  function NextKey(r: Record): (int, int)
  {
    (ID(r.data), NextCount(r.data))
  }

  /** The (ID, count) of the fragment that precedes `r`'s. */
  function PreviousKey(r: Record): (int, int)
  {
    (ID(r.data), PreviousCount(r.data))
  }

  /** A walk along `next` links: every handle is live and each links to the next. */
  ghost predicate NextPath(recs: map<Handle, Record>, p: seq<Handle>)
  {
    && |p| >= 1
    && (forall i :: 0 <= i < |p| ==> p[i] in recs)
    && (forall i :: 0 <= i < |p| - 1 ==> recs[p[i]].next == Some(p[i + 1]))
  }

  /** A walk along `previous` links. */
  ghost predicate PreviousPath(recs: map<Handle, Record>, p: seq<Handle>)
  {
    && |p| >= 1
    && (forall i :: 0 <= i < |p| ==> p[i] in recs)
    && (forall i :: 0 <= i < |p| - 1 ==> recs[p[i]].previous == Some(p[i + 1]))
  }

  /** A record whose start reference is `s` reaches, along `next` links, a
      record that knows its END. */
  ghost predicate ForwardJoin(recs: map<Handle, Record>, p: seq<Handle>, s: Handle)
  {
    NextPath(recs, p) && recs[p[0]].start == Some(s) && recs[p[|p| - 1]].hasEnd
  }

  /** A record that knows its END reaches, along `previous` links, a record
      whose start reference is `s`. */
  ghost predicate BackwardJoin(recs: map<Handle, Record>, p: seq<Handle>, s: Handle)
  {
    PreviousPath(recs, p) && recs[p[0]].hasEnd && recs[p[|p| - 1]].start == Some(s)
  }

  /** The cases in which `read_packet` delivers the record `s`: a FULL record,
      or the start reference of a chain that a START and an END are known to join. */
  ghost predicate DeliveredAt(recs: map<Handle, Record>, s: Handle)
  {
    || (s in recs && IsFull(recs[s].data))
    || (exists p :: ForwardJoin(recs, p, s))
    || (exists p :: BackwardJoin(recs, p, s))
  }

  /** The handles a walk passes through. */
  ghost function Elems(s: seq<Handle>): set<Handle>
  {
    set h | h in s
  }

  lemma ElemsCons(s: seq<Handle>)
    requires s != []
    ensures Elems(s) == {s[0]} + Elems(s[1..])
  {
    assert s == [s[0]] + s[1..];
  }

  lemma ElemsSnoc(s: seq<Handle>, x: Handle)
    ensures Elems(s + [x]) == Elems(s) + {x}
  {
  }

  /** A walk that moves on to a handle it has not visited yet. */
  lemma WalkExtend(path: seq<Handle>, n: Handle)
    requires |path| >= 1 && Distinct(path) && n !in Elems(path)
    ensures Distinct(path + [n])
    ensures Elems(path + [n]) == Elems(path) + {n}
    ensures Elems((path + [n])[1..]) == Elems(path[1..]) + {n}
    ensures (path + [n])[1..|path|] == path[1..]
  {
    DistinctSnoc(path, n);
    ElemsSnoc(path, n);
    assert (path + [n])[1..] == path[1..] + [n];
    ElemsSnoc(path[1..], n);
  }

  lemma NextPathSnoc(recs: map<Handle, Record>, p: seq<Handle>, n: Handle)
    requires NextPath(recs, p) && n in recs && recs[p[|p| - 1]].next == Some(n)
    ensures NextPath(recs, p + [n])
  {
  }

  lemma PreviousPathSnoc(recs: map<Handle, Record>, p: seq<Handle>, n: Handle)
    requires PreviousPath(recs, p) && n in recs && recs[p[|p| - 1]].previous == Some(n)
    ensures PreviousPath(recs, p + [n])
  {
  }

  /** `a` is `b` with some records erased. */
  ghost predicate Submap(a: map<Handle, Record>, b: map<Handle, Record>)
  {
    forall h :: h in a ==> h in b && a[h] == b[h]
  }

  lemma SubmapErase(r0: map<Handle, Record>, r: map<Handle, Record>, h: Handle)
    requires Submap(r, r0)
    ensures Submap(r - {h}, r0)
  {
  }

  lemma SubmapKeepsValid(b: map<Handle, Record>, a: map<Handle, Record>)
    requires Submap(a, b)
    ensures UniqueKeys(b) ==> UniqueKeys(a)
    ensures (forall h :: h in b ==> b[h].cursor >= 0) ==> forall h :: h in a ==> a[h].cursor >= 0
  {
  }

  /** A walk in a pool is a walk in any pool it was erased from. */
  lemma SubmapPaths(a: map<Handle, Record>, b: map<Handle, Record>, p: seq<Handle>)
    requires Submap(a, b)
    ensures NextPath(a, p) ==> NextPath(b, p) && a[p[|p| - 1]] == b[p[|p| - 1]]
    ensures PreviousPath(a, p) ==> PreviousPath(b, p) && a[p[|p| - 1]] == b[p[|p| - 1]]
  {
  }

  /** `r` is `r0` after the eviction of the chain through `anchor`: `fwd` is
      the walk along `next` links from the anchor to a record without a next,
      `bwd` the walk along `previous` links to a record without a previous, and
      exactly the records on the two walks are gone. */
  ghost predicate EvictedChain(r0: map<Handle, Record>, r: map<Handle, Record>, anchor: Handle, fwd: seq<Handle>, bwd: seq<Handle>)
  {
    && NextPath(r0, fwd) && fwd[0] == anchor && r0[fwd[|fwd| - 1]].next.None?
    && PreviousPath(r0, bwd) && bwd[0] == anchor && r0[bwd[|bwd| - 1]].previous.None?
    && r.Keys == r0.Keys - Elems(fwd) - Elems(bwd)
  }

  /** The walk of the forward eviction loop from `a` in `r`: along `next`
      links through records it has not erased yet, up to the first record
      whose next is missing, dangling, or one the walk has already erased.
      No handle after the anchor comes twice. */
  ghost predicate NextErasure(r: map<Handle, Record>, p: seq<Handle>, a: Handle)
  {
    && NextPath(r, p) && p[0] == a && Distinct(p[1..])
    && var n := r[p[|p| - 1]].next;
       n.Some? ==> n.value !in r || n.value in p[1..]
  }

  /** The walk of the backward eviction loop, along `previous` links. */
  ghost predicate PreviousErasure(r: map<Handle, Record>, p: seq<Handle>, a: Handle)
  {
    && PreviousPath(r, p) && p[0] == a && Distinct(p[1..])
    && var n := r[p[|p| - 1]].previous;
       n.Some? ==> n.value !in r || n.value in p[1..]
  }

  /** A forward eviction walk that ends at a record without a next has not
      passed the anchor again: the anchor's next is the walk's second record,
      so coming back to the anchor would repeat that record. */
  lemma {:induction false} NextErasureSparesAnchor(r: map<Handle, Record>, p: seq<Handle>, a: Handle)
    requires NextErasure(r, p, a) && r[p[|p| - 1]].next.None?
    ensures a !in p[1..]
  {
    forall k | 1 <= k < |p|
      ensures p[k] != a
    {
      assert r[p[0]].next == Some(p[1]);
      if k < |p| - 1 {
        assert r[p[k]].next == Some(p[k + 1]);
        assert p[1..][k] != p[1..][0];
      }
    }
  }

  lemma {:induction false} PreviousErasureSparesAnchor(r: map<Handle, Record>, p: seq<Handle>, a: Handle)
    requires PreviousErasure(r, p, a) && r[p[|p| - 1]].previous.None?
    ensures a !in p[1..]
  {
    forall k | 1 <= k < |p|
      ensures p[k] != a
    {
      assert r[p[0]].previous == Some(p[1]);
      if k < |p| - 1 {
        assert r[p[k]].previous == Some(p[k + 1]);
        assert p[1..][k] != p[1..][0];
      }
    }
  }

  /** The state of the forward eviction loop in the pool `r0` it started
      from: it has walked `p` along `next` links and erased every record of
      the walk but the anchor and the last one, and `keys` are what is left. */
  ghost predicate NextErasing(r0: map<Handle, Record>, keys: set<Handle>, p: seq<Handle>)
  {
    && NextPath(r0, p) && |p| >= 2 && Distinct(p[1..])
    && keys == r0.Keys - Elems(p[1..|p| - 1]) && p[|p| - 1] in keys
  }

  /** The state of the backward eviction loop. */
  ghost predicate PreviousErasing(r0: map<Handle, Record>, keys: set<Handle>, p: seq<Handle>)
  {
    && PreviousPath(r0, p) && |p| >= 2 && Distinct(p[1..])
    && keys == r0.Keys - Elems(p[1..|p| - 1]) && p[|p| - 1] in keys
  }

  /** The eviction loops start at the anchor's neighbour, nothing erased yet. */
  lemma NextErasingStart(r0: map<Handle, Record>, a: Handle, f: Handle)
    requires a in r0 && f in r0 && r0[a].next == Some(f)
    ensures NextErasing(r0, r0.Keys, [a, f])
  {
    assert [a, f][1..1] == [];
  }

  lemma PreviousErasingStart(r0: map<Handle, Record>, a: Handle, f: Handle)
    requires a in r0 && f in r0 && r0[a].previous == Some(f)
    ensures PreviousErasing(r0, r0.Keys, [a, f])
  {
    assert [a, f][1..1] == [];
  }

  /** The forward loop goes on from the record it is at, now erased, to its
      next `n`. */
  lemma NextErasingStep(r0: map<Handle, Record>, keys: set<Handle>, p: seq<Handle>, n: Handle)
    requires NextErasing(r0, keys, p) && r0[p[|p| - 1]].next == Some(n) && n in keys - {p[|p| - 1]}
    ensures NextErasing(r0, keys - {p[|p| - 1]}, p + [n])
  {
    var it := p[|p| - 1];
    assert (p + [n])[1..|p|] == p[1..|p| - 1] + [it];
    ElemsSnoc(p[1..|p| - 1], it);
    assert (p + [n])[1..] == p[1..] + [n];
    DistinctSnoc(p[1..], n);
  }

  /** The forward loop stops after erasing the record it is at: the walk is
      an eviction walk. */
  lemma NextErasingStop(r0: map<Handle, Record>, keys: set<Handle>, p: seq<Handle>)
    requires NextErasing(r0, keys, p)
    requires var n := r0[p[|p| - 1]].next; n.Some? ==> n.value !in keys - {p[|p| - 1]}
    ensures NextErasure(r0, p, p[0])
    ensures keys - {p[|p| - 1]} == r0.Keys - Elems(p[1..])
  {
    assert p[1..] == p[1..|p| - 1] + [p[|p| - 1]];
    ElemsSnoc(p[1..|p| - 1], p[|p| - 1]);
  }

  lemma PreviousErasingStep(r0: map<Handle, Record>, keys: set<Handle>, p: seq<Handle>, n: Handle)
    requires PreviousErasing(r0, keys, p) && r0[p[|p| - 1]].previous == Some(n) && n in keys - {p[|p| - 1]}
    ensures PreviousErasing(r0, keys - {p[|p| - 1]}, p + [n])
  {
    var it := p[|p| - 1];
    assert (p + [n])[1..|p|] == p[1..|p| - 1] + [it];
    ElemsSnoc(p[1..|p| - 1], it);
    assert (p + [n])[1..] == p[1..] + [n];
    DistinctSnoc(p[1..], n);
  }

  lemma PreviousErasingStop(r0: map<Handle, Record>, keys: set<Handle>, p: seq<Handle>)
    requires PreviousErasing(r0, keys, p)
    requires var n := r0[p[|p| - 1]].previous; n.Some? ==> n.value !in keys - {p[|p| - 1]}
    ensures PreviousErasure(r0, p, p[0])
    ensures keys - {p[|p| - 1]} == r0.Keys - Elems(p[1..])
  {
    assert p[1..] == p[1..|p| - 1] + [p[|p| - 1]];
    ElemsSnoc(p[1..|p| - 1], p[|p| - 1]);
  }

  /** The eviction of the chain through `anchor` in `r0`, leaving `r`: the
      forward walk `fwd` erases the records after the anchor, then the
      backward walk `bwd` does the same among what is left, then the anchor
      goes. `ok` is false exactly where the source would dereference an
      erased or dangling iterator: an anchor that is gone, or a walk that
      stops at a link that is not live. */
  ghost predicate Eviction(r0: map<Handle, Record>, r: map<Handle, Record>, anchor: Handle,
                           fwd: seq<Handle>, bwd: seq<Handle>, ok: bool)
  {
    if anchor !in r0 then !ok
    else
      && NextErasure(r0, fwd, anchor)
      && if r0[fwd[|fwd| - 1]].next.Some? then !ok
         else
           var r1 := r0 - Elems(fwd[1..]);
           && PreviousErasure(r1, bwd, anchor)
           && (ok <==> r1[bwd[|bwd| - 1]].previous.None?)
           && (ok ==> r == r1 - Elems(bwd[1..]) - {anchor})
  }

  /** A successful eviction erases exactly the records on the two walks,
      which run from the anchor to the two ends of its chain. */
  lemma {:induction false} EvictionErasesChain(r0: map<Handle, Record>, r: map<Handle, Record>, anchor: Handle,
                                               fwd: seq<Handle>, bwd: seq<Handle>)
    requires Eviction(r0, r, anchor, fwd, bwd, true)
    ensures EvictedChain(r0, r, anchor, fwd, bwd)
  {
    var r1 := r0 - Elems(fwd[1..]);
    assert Submap(r1, r0);
    SubmapPaths(r1, r0, bwd);
    ElemsCons(fwd);
    ElemsCons(bwd);
  }

  /** Records erased one by one leave a submap with exactly the others. */
  lemma SubmapMinus(a: map<Handle, Record>, b: map<Handle, Record>, gone: set<Handle>)
    requires Submap(a, b) && a.Keys == b.Keys - gone
    ensures a == b - gone
  {
  }

  /** Keeping fewer handles of what was kept. */
  lemma {:induction false} KeepKeep(s: seq<Handle>, outer: set<Handle>, inner: set<Handle>)
    requires inner <= outer
    ensures Keep(Keep(s, outer), inner) == Keep(s, inner)
  {
    if s != [] {
      KeepKeep(s[1..], outer, inner);
    }
  }

  /** `r` holds the same records as `r0` with the same bytes and links:
      only read cursors may differ. */
  ghost predicate SameLinks(r: map<Handle, Record>, r0: map<Handle, Record>)
  {
    && r.Keys == r0.Keys
    && forall h :: h in r ==> h in r0 && r[h] == r0[h].(cursor := r[h].cursor)
  }

  /** Moving cursors keeps the keys unique. */
  lemma SameLinksKeepsValid(r0: map<Handle, Record>, r: map<Handle, Record>)
    requires SameLinks(r, r0)
    ensures UniqueKeys(r0) ==> UniqueKeys(r)
  {
  }

  /** Moving one cursor keeps the links. */
  lemma SameLinksAdvanced(r0: map<Handle, Record>, r: map<Handle, Record>, h: Handle, k: int)
    requires h in r0 && Advanced(r0, r, h, k)
    ensures SameLinks(r, r0)
  {
  }

  /** Moving one cursor forward keeps every cursor at or past `buf_start`. */
  lemma AdvancedCursors(r0: map<Handle, Record>, r: map<Handle, Record>, h: Handle, k: nat)
    requires h in r0 && Advanced(r0, r, h, k)
    requires forall x :: x in r0 ==> r0[x].cursor >= 0
    ensures forall x :: x in r ==> r[x].cursor >= 0
  {
  }

  lemma SameLinksTrans(r0: map<Handle, Record>, r1: map<Handle, Record>, r2: map<Handle, Record>)
    requires SameLinks(r1, r0) && SameLinks(r2, r1)
    ensures SameLinks(r2, r0)
  {
  }

  /** `r` holds the same records as `r0` with the same bytes and cursors:
      only links may differ. */
  ghost predicate SameData(r: map<Handle, Record>, r0: map<Handle, Record>)
  {
    && r.Keys == r0.Keys
    && forall h :: h in r ==> r[h].data == r0[h].data && r[h].cursor == r0[h].cursor
  }

  lemma SameDataTrans(r0: map<Handle, Record>, r1: map<Handle, Record>, r2: map<Handle, Record>)
    requires SameData(r1, r0) && SameData(r2, r1)
    ensures SameData(r2, r0)
  {
  }

  lemma SameDataKeepsValid(r0: map<Handle, Record>, r: map<Handle, Record>)
    requires SameData(r, r0)
    ensures UniqueKeys(r0) ==> UniqueKeys(r)
    ensures forall x :: UniqueKeysBut(r0, x) ==> UniqueKeysBut(r, x)
    ensures (forall h :: h in r0 ==> r0[h].cursor >= 0) ==> forall h :: h in r ==> r[h].cursor >= 0
  {
  }

  /** `r` is `r0` with the start reference of the records in `marked` set to `s`. */
  ghost predicate StartsMarked(r: map<Handle, Record>, r0: map<Handle, Record>, marked: set<Handle>, s: Option<Handle>)
  {
    && r.Keys == r0.Keys
    && forall h :: h in r ==> h in r0 && r[h] == r0[h].(start := if h in marked then s else r0[h].start)
  }

  /** `r` is `r0` with the records in `marked` knowing their END. */
  ghost predicate EndsMarked(r: map<Handle, Record>, r0: map<Handle, Record>, marked: set<Handle>)
  {
    && r.Keys == r0.Keys
    && forall h :: h in r ==> h in r0 && r[h] == r0[h].(hasEnd := if h in marked then true else r0[h].hasEnd)
  }

  lemma StartsMarkedStep(r0: map<Handle, Record>, r: map<Handle, Record>, marked: set<Handle>, s: Option<Handle>, n: Handle)
    requires StartsMarked(r, r0, marked, s) && n in r
    ensures StartsMarked(r[n := r[n].(start := s)], r0, marked + {n}, s)
  {
  }

  lemma EndsMarkedStep(r0: map<Handle, Record>, r: map<Handle, Record>, marked: set<Handle>, n: Handle)
    requires EndsMarked(r, r0, marked) && n in r
    ensures EndsMarked(r[n := r[n].(hasEnd := true)], r0, marked + {n})
  {
  }

  /** Marking keeps the links, the bytes and the cursors. */
  lemma StartsMarkedKeeps(r0: map<Handle, Record>, r: map<Handle, Record>, marked: set<Handle>, s: Option<Handle>, p: seq<Handle>)
    requires StartsMarked(r, r0, marked, s)
    ensures SameData(r, r0)
    ensures NextPath(r0, p) ==> NextPath(r, p)
  {
  }

  /** No record on `path` before the last knows its END: the forward walk
      stops at the first one that does. */
  ghost predicate NoEndBeforeLast(r: map<Handle, Record>, path: seq<Handle>)
  {
    forall i :: 0 <= i < |path| - 1 ==> path[i] in r && !r[path[i]].hasEnd
  }

  /** No record on `path` before the last has a start reference: the
      backward walk stops at the first one that has. */
  ghost predicate NoStartBeforeLast(r: map<Handle, Record>, path: seq<Handle>)
  {
    forall i :: 0 <= i < |path| - 1 ==> path[i] in r && r[path[i]].start.None?
  }

  /** The forward walk, extended by a record `n` it had not passed, is
      still a walk along `next` links on which only `n` may know its END. */
  lemma NextWalkExtends(r0: map<Handle, Record>, path: seq<Handle>, marked: set<Handle>, n: Handle)
    requires NextPath(r0, path) && Distinct(path) && marked == Elems(path[1..])
    requires forall i :: 0 <= i < |path| ==> !r0[path[i]].hasEnd
    requires n in r0 && r0[path[|path| - 1]].next == Some(n) && n !in Elems(path)
    ensures var q := path + [n];
      && NextPath(r0, q) && q[0] == path[0] && Distinct(q) && NoEndBeforeLast(r0, q)
      && |q| >= 2 && marked == Elems(q[1..|q| - 1]) && path[0] !in marked && n !in marked
  {
    var q := path + [n];
    NextPathSnoc(r0, path, n);
    WalkExtend(path, n);
    assert q[1..|q| - 1] == path[1..];
    assert forall i :: 0 <= i < |q| - 1 ==> q[i] == path[i];
  }

  /** The backward walk, extended by a record `p` it had not passed, is
      still a walk along `previous` links on which only `p` may have a start
      reference. */
  lemma PreviousWalkExtends(r0: map<Handle, Record>, path: seq<Handle>, marked: set<Handle>, p: Handle)
    requires PreviousPath(r0, path) && Distinct(path) && marked == Elems(path[1..])
    requires forall i :: 0 <= i < |path| ==> r0[path[i]].start.None?
    requires p in r0 && r0[path[|path| - 1]].previous == Some(p) && p !in Elems(path)
    ensures var q := path + [p];
      && PreviousPath(r0, q) && q[0] == path[0] && Distinct(q) && NoStartBeforeLast(r0, q)
      && |q| >= 2 && marked == Elems(q[1..|q| - 1]) && p !in marked
  {
    var q := path + [p];
    PreviousPathSnoc(r0, path, p);
    WalkExtend(path, p);
    assert q[1..|q| - 1] == path[1..];
    assert forall i :: 0 <= i < |q| - 1 ==> q[i] == path[i];
  }

  /** The forward walk's `Joined` exit: the walk so far met no record that
      knows its END, and its next record `n` does. */
  lemma StartJoined(r0: map<Handle, Record>, r: map<Handle, Record>, cur: Handle, path: seq<Handle>,
                    marked: set<Handle>, n: Handle)
    requires cur in r0 && r0[cur].start.Some? && StartsMarked(r, r0, marked, r0[cur].start)
    requires NextPath(r0, path) && path[0] == cur && Distinct(path) && marked == Elems(path[1..])
    requires forall i :: 0 <= i < |path| ==> !r0[path[i]].hasEnd
    requires n in r0 && r0[path[|path| - 1]].next == Some(n) && n !in Elems(path) && r0[n].hasEnd
    ensures StartPropagated(r0, r, cur, Joined, path + [n], marked)
  {
    NextWalkExtends(r0, path, marked, n);
    StartsMarkedKeeps(r0, r, marked, r0[cur].start, path + [n]);
  }

  /** The backward walk's `Joined` exit: the walk so far met no record with
      a start reference, and its previous record `p` has one. */
  lemma EndJoined(r0: map<Handle, Record>, r: map<Handle, Record>, cur: Handle, path: seq<Handle>,
                  marked: set<Handle>, p: Handle)
    requires cur in r0 && r0[cur].hasEnd && EndsMarked(r, r0, marked)
    requires PreviousPath(r0, path) && path[0] == cur && Distinct(path) && marked == Elems(path[1..])
    requires forall i :: 0 <= i < |path| ==> r0[path[i]].start.None?
    requires p in r0 && r0[path[|path| - 1]].previous == Some(p) && p !in Elems(path) && r0[p].start.Some?
    ensures EndPropagated(r0, r, cur, Joined, r0[p].start.value, path + [p], marked)
  {
    PreviousWalkExtends(r0, path, marked, p);
    EndsMarkedKeeps(r0, r, marked, path + [p]);
  }

  lemma EndsMarkedKeeps(r0: map<Handle, Record>, r: map<Handle, Record>, marked: set<Handle>, p: seq<Handle>)
    requires EndsMarked(r, r0, marked)
    ensures SameData(r, r0)
    ensures PreviousPath(r0, p) ==> PreviousPath(r, p)
  {
  }

  /** The copy step's effect when `copy`'s neighbours are neither `cur` nor
      `copy` itself: `cur` stands where `copy` stood. It takes over `copy`'s
      `next` and `previous` links (keeping its own where `copy` had none), its
      start reference and its END flag; the neighbours now point at `cur`; and
      `copy` is gone. */
  ghost predicate Replaced(r0: map<Handle, Record>, r: map<Handle, Record>, cur: Handle, copy: Handle)
    requires cur in r0 && copy in r0
  {
    var c := r0[copy];
    && r.Keys == r0.Keys - {copy}
    && cur in r
    && r[cur] == r0[cur].(next := if c.next.Some? then c.next else r0[cur].next,
                          previous := if c.previous.Some? then c.previous else r0[cur].previous,
                          start := c.start, hasEnd := c.hasEnd)
    && forall h :: h in r && h != cur ==>
         r[h] == r0[h].(next := if c.previous == Some(h) then Some(cur) else r0[h].next,
                        previous := if c.next == Some(h) then Some(cur) else r0[h].previous)
  }

  /** The copy step dereferences `copy`'s neighbours: they must be live. */
  ghost predicate SpliceDefined(r0: map<Handle, Record>, copy: Handle)
    requires copy in r0
  {
    && (r0[copy].next.Some? ==> r0[copy].next.value in r0)
    && (r0[copy].previous.Some? ==> r0[copy].previous.value in r0)
  }

  /** The first two writes of the copy step: if `copy` has a next record,
      `cur` links forward to it and, when it is live, it links back to `cur`
      (when it is not, the source writes through a dangling iterator). Bytes
      and cursors stay as they were. */
  function NextWrites(r: map<Handle, Record>, cur: Handle, copy: Handle): (r1: map<Handle, Record>)
    requires cur in r && copy in r
    ensures SameData(r1, r)
  {
    match r[copy].next
    case None => r
    case Some(n) =>
      var m := r[cur := r[cur].(next := Some(n))];
      if n in m then m[n := m[n].(previous := Some(cur))] else m
  }

  /** The next two writes: if `copy` has a previous record, `cur` links back
      to it and, when it is live, it links forward to `cur`. */
  function PreviousWrites(r: map<Handle, Record>, cur: Handle, copy: Handle): (r2: map<Handle, Record>)
    requires cur in r && copy in r
    ensures SameData(r2, r)
  {
    match r[copy].previous
    case None => r
    case Some(p) =>
      var m := r[cur := r[cur].(previous := Some(p))];
      if p in m then m[p := m[p].(next := Some(cur))] else m
  }

  /** The four writes of the copy step, then `cur` taking the start reference
      and END flag that `copy` has after them. Each field of `copy` is read
      after the writes before it, so a `copy` that links to itself or to
      `cur` comes out as the source has it. */
  function Relinked(r: map<Handle, Record>, cur: Handle, copy: Handle): (r3: map<Handle, Record>)
    requires cur in r && copy in r
    ensures SameData(r3, r)
  {
    var r2 := PreviousWrites(NextWrites(r, cur, copy), cur, copy);
    r2[cur := r2[cur].(start := r2[copy].start, hasEnd := r2[copy].hasEnd)]
  }

  /** The copy step is defined when `copy`'s next record is live and so is
      its previous record as read after the first two writes. */
  predicate SpliceOk(r: map<Handle, Record>, cur: Handle, copy: Handle)
    requires cur in r && copy in r
  {
    && (r[copy].next.Some? ==> r[copy].next.value in r)
    && var p := NextWrites(r, cur, copy)[copy].previous;
       p.Some? ==> p.value in r
  }

  /** The records after the copy step: the writes, then `copy` erased. */
  function Spliced(r: map<Handle, Record>, cur: Handle, copy: Handle): (s: map<Handle, Record>)
    requires cur in r && copy in r
    ensures s.Keys == r.Keys - {copy}
    ensures forall h :: h in s ==> s[h].data == r[h].data && s[h].cursor == r[h].cursor
  {
    Relinked(r, cur, copy) - {copy}
  }

  /** A `copy` whose two neighbours are live can always be replaced. */
  lemma SpliceDefinedOk(r: map<Handle, Record>, cur: Handle, copy: Handle)
    requires cur in r && copy in r && SpliceDefined(r, copy)
    ensures SpliceOk(r, cur, copy)
  {
    var p := NextWrites(r, cur, copy)[copy].previous;
    assert p == r[copy].previous || p == Some(cur);
  }

  /** When `copy`'s neighbours are other records, the copy step is `Replaced`:
      `cur` stands where `copy` stood. */
  lemma SplicedReplaced(r: map<Handle, Record>, cur: Handle, copy: Handle)
    requires cur in r && copy in r && cur != copy && SpliceOk(r, cur, copy)
    requires var n := r[copy].next; n != Some(cur) && n != Some(copy)
    requires var p := r[copy].previous; p != Some(cur) && p != Some(copy)
    ensures Replaced(r, Spliced(r, cur, copy), cur, copy)
  {
    var r1 := NextWrites(r, cur, copy);
    assert r1[copy] == r[copy];
    var r2 := PreviousWrites(r1, cur, copy);
    assert r2[copy] == r[copy];
  }

  /** Changing record `x` leaves the other records' keys unique. */
  lemma UniqueKeysButUpdate(recs: map<Handle, Record>, x: Handle, r: Record)
    requires UniqueKeys(recs)
    ensures UniqueKeysBut(recs[x := r], x)
  {
  }

  /** After the copy step the keys are unique: `cur` now holds the key of the
      erased `copy`, and every other record is as it was. */
  lemma SpliceKeepsUnique(r0: map<Handle, Record>, r: map<Handle, Record>, cur: Handle, copy: Handle)
    requires UniqueKeysBut(r0, cur) && cur in r0 && copy in r0 && cur != copy && Key(r0[cur]) == Key(r0[copy])
    requires r.Keys == r0.Keys - {copy}
    requires forall h :: h in r ==> h in r0 && r[h].data == r0[h].data
    ensures UniqueKeys(r)
  {
    forall a, b | a in r && b in r && a != b
      ensures Key(r[a]) != Key(r[b])
    {
      if a == cur {
        assert Key(r[a]) == Key(r0[copy]);
      } else if b == cur {
        assert Key(r[b]) == Key(r0[copy]);
      }
    }
  }

  /** Once no other record has `x`'s (ID, count), the keys are unique again. */
  lemma UniqueKeysClose(recs: map<Handle, Record>, x: Handle)
    requires UniqueKeysBut(recs, x) && x in recs
    requires forall h :: h in recs && h != x ==> Key(recs[h]) != Key(recs[x])
    ensures UniqueKeys(recs)
  {
  }

  /** The reader's state as one value: the pool, the delivered-message
      state, the resume point and the input still to come. */
  datatype Pool = Pool(records: map<Handle, Record>, order: seq<Handle>, received: bool, currentPacket: Handle,
                       pending: Option<Handle>, freshHandle: Handle, input: seq<Datagram>)

  /** The eviction test at the top of `read_packet`, `receivedPackets.size() >=
      max || receivedPacket`. `size()` is unsigned, so a negative `max`
      converts to a huge value and never triggers it. */
  predicate Due(received: bool, size: nat, max: int)
  {
    received || (max >= 0 && size >= max)
  }

  /** One eviction from the pool `s`, leaving `t`. The anchor is the delivered
      record if a message was delivered, otherwise the list's back; on an
      empty list the source decrements `end()` (undefined behaviour, `ok`
      false). The chain through the anchor goes as `Eviction` says; the list
      keeps the order of the records that are left, and the delivered-message
      flag is cleared. Nothing else changes. */
  ghost predicate EvictedBy(s: Pool, t: Pool, anchor: Handle, fwd: seq<Handle>, bwd: seq<Handle>, ok: bool)
  {
    if !s.received && s.order == [] then !ok
    else
      && anchor == (if s.received then s.currentPacket else s.order[|s.order| - 1])
      && Eviction(s.records, t.records, anchor, fwd, bwd, ok)
      && (ok ==> t == s.(records := t.records, order := Keep(s.order, t.records.Keys), received := false))
  }

  /** `recv` into a record: its bytes become the datagram, cut to the buffer
      size, and its cursor moves 4 bytes further past the header. The cursor
      is not reset, so a record that receives twice has its cursor 8 bytes in. */
  function Recv(x: Record, d: Datagram, mtu: int): Record
    requires mtu >= HeaderSize
  {
    x.(data := Received(d, mtu), cursor := x.cursor + HeaderSize)
  }

  /** `recv` into the record `h` of the pool, from the first datagram of the input. */
  function ReceiveInto(s: Pool, h: Handle, mtu: int): Pool
    requires h in s.records && s.input != [] && mtu >= HeaderSize
  {
    s.(records := s.records[h := Recv(s.records[h], s.input[0], mtu)], input := s.input[1..])
  }

  /** `emplace_front` of a new record under a fresh handle, and the first
      `recv` into it: no links, no start reference, no END known. */
  function Created(s: Pool, mtu: int): Pool
    requires s.input != [] && mtu >= HeaderSize
  {
    s.(records := s.records[s.freshHandle := Record(Received(s.input[0], mtu), HeaderSize, None, None, None, false)],
       order := [s.freshHandle] + s.order, freshHandle := s.freshHandle + 1, input := s.input[1..])
  }

  /** The start of one round of `read_packet` from `s`, leaving `t` with the
      datagram just received in `cur`. After a call that stopped inside the
      copy loop, the round goes on with the `recv` that call was waiting in.
      Otherwise an eviction comes first when one is due, and then a new record
      at the front of the list. `ok` is false where the eviction hits
      undefined behaviour. */
  ghost predicate Admitted(s: Pool, t: Pool, cur: Handle, ok: bool, max: int, mtu: int)
    requires mtu >= HeaderSize
  {
    if s.pending.Some? then
      && ok && cur == s.pending.value && cur in s.records && s.input != []
      && t == ReceiveInto(s.(pending := None), cur, mtu)
    else if Due(s.received, |s.order|, max) then
      exists e, a, fwd, bwd :: EvictedBy(s, e, a, fwd, bwd, ok) && (ok ==> e.input != [] && cur == e.freshHandle && t == Created(e, mtu))
    else ok && s.input != [] && cur == s.freshHandle && t == Created(s, mtu)
  }

  /** No record but `cur` has `cur`'s (ID, count). */
  ghost predicate NoCopy(r: map<Handle, Record>, cur: Handle)
    requires cur in r
  {
    forall h :: h in r && h != cur ==> Key(r[h]) != Key(r[cur])
  }

  /** The copy loop's `recv` into `cur` after it replaced a copy, from the
      pool `m`: without input the call stops there (`Blocked`), and the next
      call resumes with it. */
  ghost predicate Refilled(m: Pool, t: Pool, cur: Handle, done: Option<Outcome>, more: bool, mtu: int)
    requires mtu >= HeaderSize
  {
    if m.input == [] then done == Some(Blocked) && !more && t == m.(pending := Some(cur))
    else done.None? && more && cur in m.records && t == ReceiveInto(m, cur, mtu)
  }

  /** The copy step from `s` once `copy` is found: `cur` replaces it
      (undefined behaviour where `SpliceOk` fails), `copy` leaves the list,
      and `cur` receives again. */
  ghost predicate CopiedOver(s: Pool, t: Pool, cur: Handle, copy: Handle, done: Option<Outcome>, more: bool, mtu: int)
    requires mtu >= HeaderSize && cur in s.records && copy in s.records
  {
    if !SpliceOk(s.records, cur, copy) then done == Some(Undefined) && !more
    else Refilled(s.(records := Spliced(s.records, cur, copy), order := Without(s.order, copy)), t, cur, done, more, mtu)
  }

  /** One round of the copy loop from `s`, leaving `t`. If no other record
      has the (ID, count) just received into `cur`, the loop is over and
      nothing changes; otherwise `cur` replaces that record. */
  ghost predicate CopyRound(s: Pool, t: Pool, cur: Handle, done: Option<Outcome>, more: bool, mtu: int)
    requires mtu >= HeaderSize
  {
    && cur in s.records
    && if NoCopy(s.records, cur) then done.None? && !more && t == s
       else exists copy ::
         && copy in s.records && copy != cur && Key(s.records[copy]) == Key(s.records[cur])
         && CopiedOver(s, t, cur, copy, done, more, mtu)
  }

  /** A chain of states: each one is followed by a state that `step` allows. */
  ghost predicate Chain<T>(steps: seq<T>, step: (T, T) -> bool)
  {
    forall i :: 0 <= i < |steps| - 1 ==> step(steps[i], steps[i + 1])
  }

  /** A step from the last state of a chain extends the chain. */
  lemma ChainSnoc<T>(steps: seq<T>, t: T, step: (T, T) -> bool)
    requires |steps| >= 1 && Chain(steps, step) && step(steps[|steps| - 1], t)
    ensures Chain(steps + [t], step)
  {
    var u := steps + [t];
    forall i | 0 <= i < |u| - 1
      ensures step(u[i], u[i + 1])
    {
      if i < |steps| - 1 {
        assert u[i] == steps[i] && u[i + 1] == steps[i + 1];
      }
    }
  }

  /** A round of the copy loop that goes on. */
  ghost function CopyGoesOn(cur: Handle, mtu: int): (Pool, Pool) -> bool
  {
    (s: Pool, t: Pool) => mtu >= HeaderSize && CopyRound(s, t, cur, None, true, mtu)
  }

  /** The copy loop from `s` to `t`: `steps` are the states at the top of its
      rounds, the first being `s`; every round but the last goes on, and the
      last one ends the loop with `done`. */
  ghost predicate CopyChain(s: Pool, steps: seq<Pool>, t: Pool, cur: Handle, done: Option<Outcome>, mtu: int)
    requires mtu >= HeaderSize
  {
    && |steps| >= 1 && steps[0] == s && Chain(steps, CopyGoesOn(cur, mtu))
    && CopyRound(steps[|steps| - 1], t, cur, done, false, mtu)
  }

  /** The forward linking of the record `cur` from `r` to `r1`. An END record
      knows its END. A START or MIDDLE record is linked both ways to the
      record `linked` holding the next (ID, count), and learns from it whether
      an END follows; where no record has that key, nothing changes. */
  ghost predicate NextLinked(r: map<Handle, Record>, r1: map<Handle, Record>, cur: Handle, linked: Option<Handle>)
    requires cur in r
  {
    var c := r[cur];
    if IsEnd(c.data) then linked.None? && r1 == r[cur := c.(hasEnd := true)]
    else if linked.None? then r1 == r && forall h :: h in r && h != cur ==> Key(r[h]) != NextKey(c)
    else
      var n := linked.value;
      && n in r && n != cur && Key(r[n]) == NextKey(c)
      && r1 == r[n := r[n].(previous := Some(cur))][cur := c.(next := Some(n), hasEnd := r[n].hasEnd)]
  }

  /** The backward linking of the record `cur` from `r` to `r1`. A START
      record is its own start. A MIDDLE or END record is linked both ways to
      the record `linked` holding the previous (ID, count), and takes its
      start from it: that record's start reference if it has one, else that
      record itself if it is a START, else the start it had; where no record
      has that key, nothing changes. */
  ghost predicate PreviousLinked(r: map<Handle, Record>, r1: map<Handle, Record>, cur: Handle, linked: Option<Handle>)
    requires cur in r
  {
    var c := r[cur];
    if IsStart(c.data) then linked.None? && r1 == r[cur := c.(start := Some(cur))]
    else if linked.None? then r1 == r && forall h :: h in r && h != cur ==> Key(r[h]) != PreviousKey(c)
    else
      var p := linked.value;
      && p in r && p != cur && Key(r[p]) == PreviousKey(c)
      && var q := r[p];
      && r1 == r[p := q.(next := Some(cur))][cur := c.(previous := Some(p),
           start := if q.start.Some? then q.start else if IsStart(q.data) then Some(p) else c.start)]
  }

  /** Both linking steps, forward then backward. */
  ghost predicate LinkedBy(r: map<Handle, Record>, r2: map<Handle, Record>, cur: Handle)
    requires cur in r
  {
    exists r1, n, p :: NextLinked(r, r1, cur, n) && cur in r1 && PreviousLinked(r1, r2, cur, p)
  }

  /** What `read_packet` does once a propagation walk ends as `w`: it
      delivers on `Joined`, goes on receiving after a `Gap`, and has no
      defined behaviour after a dangling link or around a cycle. */
  function WalkOutcome(w: Walk): Option<Outcome>
  {
    match w
    case Joined => Some(Delivered)
    case Gap => None
    case Dangling => Some(Undefined)
    case Cycle => Some(Diverges)
  }

  /** The forward propagation from `cur`, from `r` to `r1`: the walk `path`
      along `next` links gives the records in `marked` `cur`'s start
      reference, and ends as `w`. No record on the walk before its last
      knows its END, and the last knows it exactly when `w` is `Joined`: the
      walk stops at the first such record, which stays as it was. `Gap`: at a
      record without a next. `Dangling`: at a link to no live record.
      `Cycle`: at a link back into the walk. */
  ghost predicate StartPropagated(r: map<Handle, Record>, r1: map<Handle, Record>, cur: Handle, w: Walk,
                                  path: seq<Handle>, marked: set<Handle>)
    requires cur in r && r[cur].start.Some?
  {
    && r1.Keys == r.Keys
    && StartsMarked(r1, r, marked, r[cur].start)
    && NextPath(r, path) && path[0] == cur && Distinct(path)
    && NoEndBeforeLast(r, path)
    && var last := r[path[|path| - 1]];
    && (last.hasEnd <==> w == Joined)
    && (w != Joined ==> marked == Elems(path[1..]))
    && (w == Joined ==> |path| >= 2 && marked == Elems(path[1..|path| - 1]) && ForwardJoin(r1, path, r[cur].start.value))
    && (w == Gap ==> last.next.None?)
    && (w == Dangling ==> last.next.Some? && last.next.value !in r)
    && (w == Cycle ==> last.next.Some? && last.next.value in path)
  }

  /** The backward propagation from `cur`, from `r` to `r1`: the walk `path`
      along `previous` links marks the records in `marked` as knowing their
      END, and ends as `w`. No record on the walk before its last has a start
      reference, and the last has one exactly when `w` is `Joined`: the walk
      stops at the first such record, whose start reference is `start` and
      which stays as it was. `Gap`, `Dangling`, `Cycle`: as forward. */
  ghost predicate EndPropagated(r: map<Handle, Record>, r1: map<Handle, Record>, cur: Handle, w: Walk, start: Handle,
                                path: seq<Handle>, marked: set<Handle>)
  {
    && r1.Keys == r.Keys
    && EndsMarked(r1, r, marked)
    && PreviousPath(r, path) && path[0] == cur && Distinct(path)
    && NoStartBeforeLast(r, path)
    && var last := r[path[|path| - 1]];
    && (last.start.Some? <==> w == Joined)
    && (w != Joined ==> marked == Elems(path[1..]))
    && (w == Joined ==> |path| >= 2 && marked == Elems(path[1..|path| - 1]) && last.start == Some(start) && BackwardJoin(r1, path, start))
    && (w == Gap ==> last.previous.None?)
    && (w == Dangling ==> last.previous.Some? && last.previous.value !in r)
    && (w == Cycle ==> last.previous.Some? && last.previous.value in path)
  }

  /** The forward propagation and what follows it, from `s` to `t`: on
      `Joined` the message of `cur`'s start reference is delivered. */
  ghost predicate ForwardDelivered(s: Pool, t: Pool, cur: Handle, done: Option<Outcome>)
    requires cur in s.records && s.records[cur].start.Some?
  {
    exists w, path, marked ::
      && StartPropagated(s.records, t.records, cur, w, path, marked)
      && done == WalkOutcome(w)
      && t == if w == Joined then s.(records := t.records, currentPacket := s.records[cur].start.value, received := true)
              else s.(records := t.records)
  }

  /** The backward propagation and what follows it, from `s` to `t`: on
      `Joined` the message of the start reference it reached is delivered. */
  ghost predicate BackwardDelivered(s: Pool, t: Pool, cur: Handle, done: Option<Outcome>)
  {
    exists w, start, path, marked ::
      && EndPropagated(s.records, t.records, cur, w, start, path, marked)
      && done == WalkOutcome(w)
      && t == if w == Joined then s.(records := t.records, currentPacket := start, received := true)
              else s.(records := t.records)
  }

  /** What `read_packet` does with a linked record `cur`, from `s` to `t`:
      a record with a start reference that knows its END delivers that start
      (the shortcut); one with only a start reference propagates it forward;
      one that only knows its END propagates that backward; otherwise nothing
      happens. */
  ghost predicate Propagated(s: Pool, t: Pool, cur: Handle, done: Option<Outcome>)
    requires cur in s.records
  {
    var c := s.records[cur];
    if c.start.Some? && c.hasEnd then done == Some(Delivered) && t == s.(currentPacket := c.start.value, received := true)
    else if c.start.Some? then ForwardDelivered(s, t, cur, done)
    else if c.hasEnd then BackwardDelivered(s, t, cur, done)
    else done.None? && t == s
  }

  /** The rest of a round of `read_packet` once the copy loop is over, from
      `s` to `t`: a FULL record is delivered as it is; any other record is
      linked and then propagated. */
  ghost predicate Settled(s: Pool, t: Pool, cur: Handle, done: Option<Outcome>)
    requires cur in s.records
  {
    if IsFull(s.records[cur].data) then done == Some(Delivered) && t == s.(currentPacket := cur, received := true)
    else exists l :: LinkedBy(s.records, l, cur) && cur in l && Propagated(s.(records := l), t, cur, done)
  }

  /** One round of the loop of `read_packet`, from `s` to `t`: without input
      the call blocks; otherwise a record is admitted (undefined where the
      eviction is), the copy loop runs, and if it ends with nothing to stop
      for, the record is settled. `done` is `None` where the loop goes on. */
  ghost predicate ReadRound(s: Pool, t: Pool, done: Option<Outcome>, max: int, mtu: int)
    requires mtu >= HeaderSize
  {
    if s.input == [] then done == Some(Blocked) && t == s
    else exists a, cur, ok ::
      && Admitted(s, a, cur, ok, max, mtu)
      && if !ok then done == Some(Undefined) && t == a else CopiedAndSettled(a, t, cur, done, mtu)
  }

  /** The rest of a round after record `cur` was admitted in `a`: the copy
      loop runs, and if it ends with nothing to stop for, `cur` is settled. */
  ghost predicate CopiedAndSettled(a: Pool, t: Pool, cur: Handle, done: Option<Outcome>, mtu: int)
    requires mtu >= HeaderSize
  {
    exists steps, d, dd ::
      && CopyChain(a, steps, d, cur, dd, mtu)
      && if dd.Some? then done == dd && t == d else cur in d.records && Settled(d, t, cur, done)
  }

  /** A round of `read_packet` after which the loop goes on. */
  ghost function RoundGoesOn(max: int, mtu: int): (Pool, Pool) -> bool
  {
    (s: Pool, t: Pool) => mtu >= HeaderSize && ReadRound(s, t, None, max, mtu)
  }

  /** The pool's shape, in terms of its live handles `live`: `order` lists
      them once each, every one is below `bound`, and there are
      never more than `max` of them. */
  ghost predicate PoolShape(live: set<Handle>, order: seq<Handle>, bound: Handle, max: int, mtu: int)
  {
    && mtu >= HeaderSize
    && Distinct(order)
    && (forall h :: h in live <==> h in order)
    && (forall h :: h in live ==> h < bound)
    && (max >= 1 ==> |order| <= max)
    && (max == 0 ==> order == [])
  }

  /** The reader: the pool, the delivered-message state and the input. */
  class SplitReader {
    var records: map<Handle, Record>
    var order: seq<Handle>
    /** `receivedPacket`: a message has been delivered and not yet evicted. */
    var received: bool
    /** `currentPacket`: where `read` takes the delivered message's bytes from. */
    var currentPacket: Handle
    /** Set when a call stopped waiting for input inside the copy loop, on the
        record the next datagram is to be received into. */
    var pending: Option<Handle>
    var freshHandle: Handle
    /** The datagrams the transport has yet to hand to `recv`. */
    var input: seq<Datagram>
    const max: int
    const mtu: int

    /** The pool's shape: `order` lists exactly the live handles, once each;
        the pool never holds more than `max` records. */
    ghost predicate Shape()
      reads this`records, this`order, this`freshHandle
    {
      PoolShape(records.Keys, order, freshHandle, max, mtu)
    }

    /** The state as a value. */
    ghost function State(): Pool
      reads this`records, this`order, this`received, this`currentPacket, this`pending, this`freshHandle, this`input
    {
      Pool(records, order, received, currentPacket, pending, freshHandle, input)
    }

    ghost predicate Valid()
      reads this`records, this`order, this`freshHandle, this`pending, this`received
    {
      && Shape()
      && UniqueKeys(records)
      && (forall h :: h in records ==> records[h].cursor >= 0)
      && (pending.Some? ==> order != [] && order[0] == pending.value && !received)
    }

    constructor (max: int, mtu: int)
      requires mtu >= HeaderSize
      ensures Valid()
      ensures this.max == max && this.mtu == mtu
      ensures records == map[] && order == [] && !received && pending.None? && input == []
    {
      this.max := max;
      this.mtu := mtu;
      records := map[];
      order := [];
      received := false;
      currentPacket := 0;
      pending := None;
      freshHandle := 0;
      input := [];
    }

    /** A datagram reaches the socket. */
    method Arrive(d: Datagram)
      modifies this`input
      ensures input == old(input) + [d]
    {
      input := input + [d];
    }

    /** `receivedPackets.erase(h)`. */
    method Erase(h: Handle)
      requires Shape() && h in records
      modifies this`records, this`order
      ensures Shape()
      ensures records == old(records) - {h}
      ensures order == Without(old(order), h)
      ensures |order| == old(|order|) - 1
      ensures old(order)[0] != h ==> order != [] && order[0] == old(order)[0]
    {
      records := records - {h};
      order := Without(order, h);
    }

    /** The search loops over `++receivedPackets.begin()` .. `end()`: the record
        other than the newest one (the front) whose (ID, count) is `key`. */
    method FindOther(key: (int, int)) returns (found: Option<Handle>)
      requires Shape() && order != []
      ensures found.Some? ==> found.value in records && found.value != order[0] && Key(records[found.value]) == key
      ensures found.None? ==> forall h :: h in records && h != order[0] ==> Key(records[h]) != key
    {
      var i := 1;
      while i < |order|
        invariant 1 <= i <= |order|
        invariant forall k :: 1 <= k < i ==> Key(records[order[k]]) != key
      {
        if Key(records[order[i]]) == key {
          return Some(order[i]);
        }
        i := i + 1;
      }
      return None;
    }

    /** `Due` on the reader's own state. */
    predicate EvictionDue()
      reads this`received, this`order
    {
      Due(received, |order|, max)
    }

    /** `current->next`, then every record after it along `next` links, up to
        one without a next, erased one by one (the first half of an eviction).
        `fwd` is that walk, starting at `anchor`, which is not erased; `ok` is
        false where the walk meets a link to a record that is not live. The
        list keeps the order of the records that are left. */
    method EraseForward(anchor: Handle) returns (ok: bool, ghost fwd: seq<Handle>)
      requires Shape() && anchor in records
      modifies this`records, this`order
      ensures Shape() && |order| <= old(|order|)
      ensures NextErasure(old(records), fwd, anchor)
      ensures ok <==> old(records)[fwd[|fwd| - 1]].next.None?
      ensures Submap(records, old(records)) && records.Keys == old(records).Keys - Elems(fwd[1..])
      ensures order == Keep(old(order), records.Keys)
    {
      fwd := [anchor];
      KeepAll(order, records.Keys);
      var a := records[anchor];
      if a.next.None? {
        return true, fwd;
      }
      var it := a.next.value;
      if it !in records {
        return false, fwd;
      }
      ok, fwd := EraseForwardFrom(anchor, it);
    }

    /** The state of the forward eviction loop, started in the pool `r0`
        with the list `o0`: the walk so far is `p`. */
    ghost predicate ForwardErasing(r0: map<Handle, Record>, o0: seq<Handle>, p: seq<Handle>)
      reads this`records, this`order, this`freshHandle
    {
      && Shape() && Submap(records, r0) && |order| <= |o0|
      && NextErasing(r0, records.Keys, p)
      && order == Keep(o0, records.Keys)
    }

    /** The end of the forward eviction loop along the walk `p`: `ok`
        when the walk ended at a record without a next link. */
    ghost predicate ForwardErased(r0: map<Handle, Record>, o0: seq<Handle>, p: seq<Handle>, ok: bool)
      reads this`records, this`order, this`freshHandle
    {
      && Shape() && |order| <= |o0| && |p| >= 1 && NextErasure(r0, p, p[0])
      && (ok <==> r0[p[|p| - 1]].next.None?)
      && Submap(records, r0) && records.Keys == r0.Keys - Elems(p[1..])
      && order == Keep(o0, records.Keys)
    }

    /** One turn of the forward eviction loop: the record `it` the walk is
        at is erased, and the walk goes on to its next record if there is
        one and it is still live (`more`). */
    method EraseForwardStep(ghost r0: map<Handle, Record>, ghost o0: seq<Handle>, ghost p: seq<Handle>, it: Handle)
      returns (more: bool, ok: bool, after: Handle, ghost p': seq<Handle>)
      requires ForwardErasing(r0, o0, p) && it == p[|p| - 1]
      modifies this`records, this`order
      ensures more ==> ForwardErasing(r0, o0, p') && |order| < old(|order|) && p' == p + [after]
      ensures !more ==> ForwardErased(r0, o0, p, ok) && p' == p
    {
      var link := records[it].next;
      ghost var keys := records.Keys;
      KeepWithout(o0, records.Keys, it);
      SubmapErase(r0, records, it);
      Erase(it);
      if link.None? || link.value !in records {
        NextErasingStop(r0, keys, p);
        return false, link.None?, it, p;
      }
      NextErasingStep(r0, keys, p, link.value);
      return true, false, link.value, p + [link.value];
    }

    /** The loop of `EraseForward`, from the anchor's next record `first` on. */
    method EraseForwardFrom(anchor: Handle, first: Handle) returns (ok: bool, ghost fwd: seq<Handle>)
      requires Shape() && anchor in records && first in records && records[anchor].next == Some(first)
      modifies this`records, this`order
      ensures ForwardErased(old(records), old(order), fwd, ok) && fwd[0] == anchor
    {
      ghost var r0, o0 := records, order;
      KeepAll(order, records.Keys);
      NextErasingStart(records, anchor, first);
      var it := first;
      fwd := [anchor, first];
      while true
        invariant ForwardErasing(r0, o0, fwd) && it == fwd[|fwd| - 1] && fwd[0] == anchor
        decreases |order|
      {
        var more;
        more, ok, it, fwd := EraseForwardStep(r0, o0, fwd, it);
        if !more {
          return;
        }
      }
    }

    /** `current->previous`, then every record before it along `previous`
        links, up to one without a previous, erased one by one (the second half
        of an eviction). */
    method EraseBackward(anchor: Handle) returns (ok: bool, ghost bwd: seq<Handle>)
      requires Shape() && anchor in records
      modifies this`records, this`order
      ensures Shape() && |order| <= old(|order|)
      ensures PreviousErasure(old(records), bwd, anchor)
      ensures ok <==> old(records)[bwd[|bwd| - 1]].previous.None?
      ensures Submap(records, old(records)) && records.Keys == old(records).Keys - Elems(bwd[1..])
      ensures order == Keep(old(order), records.Keys)
    {
      bwd := [anchor];
      KeepAll(order, records.Keys);
      var a := records[anchor];
      if a.previous.None? {
        return true, bwd;
      }
      var it := a.previous.value;
      if it !in records {
        return false, bwd;
      }
      ok, bwd := EraseBackwardFrom(anchor, it);
    }

    /** The state of the backward eviction loop, started in the pool `r0`
        with the list `o0`: the walk so far is `p`. */
    ghost predicate BackwardErasing(r0: map<Handle, Record>, o0: seq<Handle>, p: seq<Handle>)
      reads this`records, this`order, this`freshHandle
    {
      && Shape() && Submap(records, r0) && |order| <= |o0|
      && PreviousErasing(r0, records.Keys, p)
      && order == Keep(o0, records.Keys)
    }

    /** The end of the backward eviction loop along the walk `p`: `ok`
        when the walk ended at a record without a previous link. */
    ghost predicate BackwardErased(r0: map<Handle, Record>, o0: seq<Handle>, p: seq<Handle>, ok: bool)
      reads this`records, this`order, this`freshHandle
    {
      && Shape() && |order| <= |o0| && |p| >= 1 && PreviousErasure(r0, p, p[0])
      && (ok <==> r0[p[|p| - 1]].previous.None?)
      && Submap(records, r0) && records.Keys == r0.Keys - Elems(p[1..])
      && order == Keep(o0, records.Keys)
    }

    /** One turn of the backward eviction loop: the record `it` the walk is
        at is erased, and the walk goes on to its previous record if there is
        one and it is still live (`more`). */
    method EraseBackwardStep(ghost r0: map<Handle, Record>, ghost o0: seq<Handle>, ghost p: seq<Handle>, it: Handle)
      returns (more: bool, ok: bool, after: Handle, ghost p': seq<Handle>)
      requires BackwardErasing(r0, o0, p) && it == p[|p| - 1]
      modifies this`records, this`order
      ensures more ==> BackwardErasing(r0, o0, p') && |order| < old(|order|) && p' == p + [after]
      ensures !more ==> BackwardErased(r0, o0, p, ok) && p' == p
    {
      var link := records[it].previous;
      ghost var keys := records.Keys;
      KeepWithout(o0, records.Keys, it);
      SubmapErase(r0, records, it);
      Erase(it);
      if link.None? || link.value !in records {
        PreviousErasingStop(r0, keys, p);
        return false, link.None?, it, p;
      }
      PreviousErasingStep(r0, keys, p, link.value);
      return true, false, link.value, p + [link.value];
    }

    /** The loop of `EraseBackward`, from the anchor's previous record `first` on. */
    method EraseBackwardFrom(anchor: Handle, first: Handle) returns (ok: bool, ghost bwd: seq<Handle>)
      requires Shape() && anchor in records && first in records && records[anchor].previous == Some(first)
      modifies this`records, this`order
      ensures BackwardErased(old(records), old(order), bwd, ok) && bwd[0] == anchor
    {
      ghost var r0, o0 := records, order;
      KeepAll(order, records.Keys);
      PreviousErasingStart(records, anchor, first);
      var it := first;
      bwd := [anchor, first];
      while true
        invariant BackwardErasing(r0, o0, bwd) && it == bwd[|bwd| - 1] && bwd[0] == anchor
        decreases |order|
      {
        var more;
        more, ok, it, bwd := EraseBackwardStep(r0, o0, bwd, it);
        if !more {
          return;
        }
      }
    }

    /** The eviction of one chain at the top of `read_packet`: the anchor is the
        delivered record if a message was delivered, otherwise the oldest record
        (the list's back); every record reached from it along `next` links and
        along `previous` links is erased, then the anchor itself. The eviction
        fails (`ok` false) exactly where the source would dereference an
        iterator that is not live: on an empty list, at an erased anchor, or
        where a walk meets a link that is not live. */
    method Evict() returns (ok: bool, ghost anchor: Handle, ghost fwd: seq<Handle>, ghost bwd: seq<Handle>)
      requires Valid() && pending.None? && EvictionDue()
      modifies this`records, this`order, this`received
      ensures Valid() && pending.None? && !received
      ensures EvictedBy(old(State()), State(), anchor, fwd, bwd, ok)
      ensures ok ==> |order| < old(|order|)
    {
      var a: Handle;
      if received {
        a := currentPacket;
        received := false;
      } else {
        if order == [] {
          return false, 0, [], [];
        }
        a := order[|order| - 1];
      }
      anchor := a;
      if a !in records {
        return false, anchor, [], [];
      }
      ghost var r0 := records;
      ok, fwd, bwd := EvictFrom(a);
      SubmapKeepsValid(r0, records);
    }

    /** The erasing half of an eviction, from a live anchor `a`. */
    method EvictFrom(a: Handle) returns (ok: bool, ghost fwd: seq<Handle>, ghost bwd: seq<Handle>)
      requires Shape() && a in records
      modifies this`records, this`order
      ensures Shape() && Submap(records, old(records)) && order == Keep(old(order), records.Keys)
      ensures Eviction(old(records), records, a, fwd, bwd, ok)
      ensures ok ==> |order| < old(|order|)
    {
      ghost var r0 := records;
      ghost var o0 := order;
      ok, fwd := EraseForward(a);
      if !ok {
        return false, fwd, [];
      }
      NextErasureSparesAnchor(r0, fwd, a);
      ghost var r1 := records;
      SubmapMinus(r1, r0, Elems(fwd[1..]));
      ok, bwd := EraseBackward(a);
      KeepKeep(o0, r1.Keys, records.Keys);
      if !ok {
        return false, fwd, bwd;
      }
      PreviousErasureSparesAnchor(r1, bwd, a);
      ghost var r2 := records;
      SubmapMinus(r2, r1, Elems(bwd[1..]));
      KeepWithout(o0, records.Keys, a);
      Erase(a);
    }

    /** `recv` into record `cur`. */
    method Take(cur: Handle)
      requires Shape() && cur in records && input != []
      modifies this`records, this`input
      ensures Shape()
      ensures State() == ReceiveInto(old(State()), cur, mtu)
    {
      records := records[cur := Recv(records[cur], input[0], mtu)];
      input := input[1..];
    }

    /** `emplace_front` of a new record, and the first `recv` into it. */
    method Create() returns (cur: Handle)
      requires Shape() && input != [] && (max >= 1 ==> |order| < max) && max != 0
      modifies this`records, this`order, this`freshHandle, this`input
      ensures Shape()
      ensures cur !in old(records) && cur == old(freshHandle)
      ensures State() == Created(old(State()), mtu)
    {
      cur := freshHandle;
      freshHandle := freshHandle + 1;
      records := records[cur := Record(Received(input[0], mtu), HeaderSize, None, None, None, false)];
      DistinctCons([cur] + order);
      order := [cur] + order;
      input := input[1..];
    }

    /** The first half of the copy step: if `copy` has a next record, `cur`
        links forward to it and it links back to `cur`. `ok` is false where
        that record is not live. */
    method SpliceNext(cur: Handle, copy: Handle) returns (ok: bool)
      requires cur in records && copy in records
      modifies this`records
      ensures ok <==> (old(records)[copy].next.Some? ==> old(records)[copy].next.value in old(records))
      ensures records == NextWrites(old(records), cur, copy)
    {
      var c := records[copy];
      if c.next.Some? {
        var n := c.next.value;
        records := records[cur := records[cur].(next := Some(n))];
        if n !in records {
          return false;
        }
        records := records[n := records[n].(previous := Some(cur))];
      }
      ok := true;
    }

    /** The second half of the copy step: if `copy` has a previous record,
        `cur` links back to it and it links forward to `cur`. */
    method SplicePrevious(cur: Handle, copy: Handle) returns (ok: bool)
      requires cur in records && copy in records
      modifies this`records
      ensures ok <==> (old(records)[copy].previous.Some? ==> old(records)[copy].previous.value in old(records))
      ensures records == PreviousWrites(old(records), cur, copy)
    {
      var c := records[copy];
      if c.previous.Some? {
        var p := c.previous.value;
        records := records[cur := records[cur].(previous := Some(p))];
        if p !in records {
          return false;
        }
        records := records[p := records[p].(next := Some(cur))];
      }
      ok := true;
    }

    /** The four writes of the copy step and the copying of `copy`'s start
        reference and END flag, before `copy` is erased. */
    method Relink(cur: Handle, copy: Handle) returns (ok: bool)
      requires cur in records && copy in records
      modifies this`records
      ensures ok <==> SpliceOk(old(records), cur, copy)
      ensures ok ==> records == Relinked(old(records), cur, copy)
      ensures SameData(records, old(records))
    {
      ghost var r0 := records;
      ok := SpliceNext(cur, copy);
      if !ok {
        return;
      }
      ok := SplicePrevious(cur, copy);
      if !ok {
        return;
      }
      var c := records[copy];
      records := records[cur := records[cur].(start := c.start, hasEnd := c.hasEnd)];
    }

    /** The copy step of `read_packet`: `cur` has just received a datagram with
        the (ID, count) of the older record `copy`; `cur` takes over `copy`'s
        links, the neighbours are pointed at `cur`, and `copy` is erased. `ok`
        is false exactly where the source would dereference a dangling
        neighbour; it is true whenever both of `copy`'s neighbours are live. */
    method Splice(cur: Handle, copy: Handle) returns (ok: bool)
      requires Shape() && cur in records && copy in records && cur != copy
      modifies this`records, this`order
      ensures Shape()
      ensures ok <==> SpliceOk(old(records), cur, copy)
      ensures SpliceDefined(old(records), copy) ==> ok
      ensures ok ==> records == Spliced(old(records), cur, copy) && order == Without(old(order), copy)
      ensures ok ==> |order| == old(|order|) - 1 && (old(order)[0] != copy ==> order != [] && order[0] == old(order)[0])
      ensures ok && old(records)[copy].next != Some(cur) && old(records)[copy].next != Some(copy)
                 && old(records)[copy].previous != Some(cur) && old(records)[copy].previous != Some(copy)
              ==> Replaced(old(records), records, cur, copy)
    {
      ghost var r0 := records;
      if SpliceDefined(r0, copy) {
        SpliceDefinedOk(r0, cur, copy);
      }
      ok := Relink(cur, copy);
      if ok {
        Erase(copy);
        if r0[copy].next != Some(cur) && r0[copy].next != Some(copy) && r0[copy].previous != Some(cur) && r0[copy].previous != Some(copy) {
          SplicedReplaced(r0, cur, copy);
        }
      }
    }

    /** The forward linking of `read_packet`. An END record knows its END. A
        START or MIDDLE record is linked both ways to the record holding the
        next count of its ID, if there is one, and learns from it whether an
        END is known to follow. */
    method LinkNext(cur: Handle) returns (linked: Option<Handle>)
      requires Shape() && order != [] && order[0] == cur
      modifies this`records
      ensures SameData(records, old(records))
      ensures NextLinked(old(records), records, cur, linked)
    {
      var c := records[cur];
      if !IsEnd(c.data) {
        linked := FindOther(NextKey(c));
        if linked.Some? {
          var n := linked.value;
          records := records[n := records[n].(previous := Some(cur))];
          records := records[cur := records[cur].(next := Some(n), hasEnd := records[n].hasEnd)];
        }
      } else {
        records := records[cur := c.(hasEnd := true)];
        linked := None;
      }
    }

    /** `cur` and its predecessor `p` are linked both ways; `cur` takes its
        start from `p`. */
    method AttachPrevious(cur: Handle, p: Handle)
      requires cur in records && p in records && cur != p
      modifies this`records
      ensures SameData(records, old(records))
      ensures var c := old(records)[cur]; var q := old(records)[p];
        records == old(records)[p := q.(next := Some(cur))][cur := c.(previous := Some(p),
          start := if q.start.Some? then q.start else if IsStart(q.data) then Some(p) else c.start)]
    {
      records := records[p := records[p].(next := Some(cur))];
      var q := records[p];
      var start := if q.start.Some? then q.start else if IsStart(q.data) then Some(p) else records[cur].start;
      records := records[cur := records[cur].(previous := Some(p), start := start)];
    }

    /** The backward linking of `read_packet`. A START record is its own start.
        A MIDDLE or END record is linked both ways to the record holding the
        previous count of its ID, if there is one, and takes its start from it:
        the record's own start reference if it has one, else the record itself
        if it is a START; otherwise the start reference stays as it was. */
    method LinkPrevious(cur: Handle) returns (linked: Option<Handle>)
      requires Shape() && order != [] && order[0] == cur
      modifies this`records
      ensures SameData(records, old(records))
      ensures PreviousLinked(old(records), records, cur, linked)
    {
      var c := records[cur];
      if !IsStart(c.data) {
        linked := FindOther(PreviousKey(c));
        if linked.Some? {
          AttachPrevious(cur, linked.value);
        }
      } else {
        records := records[cur := c.(start := Some(cur))];
        linked := None;
      }
    }

    /** Both linking steps, forward then backward; no record's bytes or
        cursor change. */
    method Link(cur: Handle)
      requires Shape() && order != [] && order[0] == cur
      modifies this`records
      ensures SameData(records, old(records))
      ensures LinkedBy(old(records), records, cur)
    {
      ghost var r0 := records;
      var n := LinkNext(cur);
      ghost var r1 := records;
      var p := LinkPrevious(cur);
      SameDataTrans(r0, r1, records);
      assert NextLinked(r0, r1, cur, n) && cur in r1 && PreviousLinked(r1, records, cur, p);
    }

    /** The forward propagation of `read_packet`, entered when `cur` has a
        start reference and does not know its END: the walk along `next`
        links from `cur` gives each record it reaches `cur`'s start reference,
        and stops at the first record that knows its END (`Joined`: that
        record is left as it was), at a record without a next (`Gap`), at a
        dangling link (`Dangling`, where the source dereferences it) or on
        coming back to a record it has passed (`Cycle`, where the source goes
        round for ever, since no record on the cycle knows its END). `marked`
        is the set of records whose start reference it set. */
    method PropagateStart(cur: Handle) returns (w: Walk, ghost path: seq<Handle>, ghost marked: set<Handle>)
      requires cur in records && records[cur].start.Some? && !records[cur].hasEnd
      modifies this`records
      ensures StartPropagated(old(records), records, cur, w, path, marked)
    {
      var s := records[cur].start;
      var it := cur;
      var visited: set<Handle> := {cur};
      path := [cur];
      marked := {};
      ghost var r0 := records;
      while records[it].next.Some?
        invariant it in records && records.Keys == r0.Keys
        invariant NextPath(r0, path) && path[0] == cur && path[|path| - 1] == it && Distinct(path)
        invariant visited == Elems(path) && marked == Elems(path[1..])
        invariant forall i :: 0 <= i < |path| ==> !r0[path[i]].hasEnd
        invariant StartsMarked(records, r0, marked, s)
        decreases r0.Keys - visited
      {
        var n := records[it].next.value;
        if n !in records {
          return Dangling, path, marked;
        }
        if n in visited {
          return Cycle, path, marked;
        }
        if records[n].hasEnd {
          StartJoined(r0, records, cur, path, marked, n);
          return Joined, path + [n], marked;
        }
        NextPathSnoc(r0, path, n);
        WalkExtend(path, n);
        path := path + [n];
        visited := visited + {n};
        it := n;
        StartsMarkedStep(r0, records, marked, s, it);
        records := records[it := records[it].(start := s)];
        marked := marked + {n};
      }
      w := Gap;
    }

    /** The backward propagation of `read_packet`, entered when `cur` knows
        its END and has no start reference: the walk along `previous` links
        from `cur` marks each record it reaches as knowing its END, and stops
        at the first record that has a start reference (`Joined`: that
        reference is `start`, and the record is left as it was), at a record
        without a previous (`Gap`), at a dangling link (`Dangling`) or on
        coming back to a record it has passed (`Cycle`). */
    method PropagateEnd(cur: Handle) returns (w: Walk, start: Handle, ghost path: seq<Handle>, ghost marked: set<Handle>)
      requires cur in records && records[cur].start.None? && records[cur].hasEnd
      modifies this`records
      ensures EndPropagated(old(records), records, cur, w, start, path, marked)
    {
      start := cur;
      var it := cur;
      var visited: set<Handle> := {cur};
      path := [cur];
      marked := {};
      ghost var r0 := records;
      while records[it].previous.Some?
        invariant it in records && records.Keys == r0.Keys
        invariant PreviousPath(r0, path) && path[0] == cur && path[|path| - 1] == it && Distinct(path)
        invariant visited == Elems(path) && marked == Elems(path[1..])
        invariant forall i :: 0 <= i < |path| ==> r0[path[i]].start.None?
        invariant EndsMarked(records, r0, marked)
        decreases r0.Keys - visited
      {
        var p := records[it].previous.value;
        if p !in records {
          return Dangling, start, path, marked;
        }
        if p in visited {
          return Cycle, start, path, marked;
        }
        if records[p].start.Some? {
          EndJoined(r0, records, cur, path, marked, p);
          return Joined, records[p].start.value, path + [p], marked;
        }
        PreviousPathSnoc(r0, path, p);
        WalkExtend(path, p);
        path := path + [p];
        visited := visited + {p};
        it := p;
        EndsMarkedStep(r0, records, marked, it);
        records := records[it := records[it].(hasEnd := true)];
        marked := marked + {p};
      }
      w := Gap;
    }

    /** The copy step, seen from the pool's invariants: after it the keys are
        unique again. */
    method Replace(cur: Handle, copy: Handle) returns (ok: bool)
      requires Shape() && order != [] && order[0] == cur && UniqueKeysBut(records, cur)
      requires copy in records && copy != cur && Key(records[copy]) == Key(records[cur])
      requires forall h :: h in records ==> records[h].cursor >= 0
      modifies this`records, this`order
      ensures ok <==> SpliceOk(old(records), cur, copy)
      ensures SpliceDefined(old(records), copy) ==> ok
      ensures ok ==> State() == old(State()).(records := Spliced(old(records), cur, copy), order := Without(old(order), copy))
      ensures ok ==> Shape() && order != [] && order[0] == cur && UniqueKeys(records) && cur in records
      ensures ok ==> forall h :: h in records ==> records[h].cursor >= 0
    {
      ghost var r0 := records;
      ok := Splice(cur, copy);
      if ok {
        SpliceKeepsUnique(r0, records, cur, copy);
      }
    }

    /** One round of the copy loop of `read_packet`. If another record has
        the (ID, count) just received into `cur`, `cur` takes its place and
        receives again (`more`); if not, the loop is over and the keys are
        unique again. `Blocked`: the input ran out before the next receive. */
    method CopyStep(cur: Handle) returns (done: Option<Outcome>, more: bool)
      requires Shape() && order != [] && order[0] == cur && UniqueKeysBut(records, cur)
      requires (forall h :: h in records ==> records[h].cursor >= 0) && !received && pending.None?
      modifies this`records, this`order, this`input, this`pending
      ensures more ==> done.None? && |input| < old(|input|)
      ensures more ==> Shape() && order != [] && order[0] == cur && UniqueKeysBut(records, cur)
      ensures more ==> (forall h :: h in records ==> records[h].cursor >= 0) && pending.None?
      ensures !more && done.None? ==> Valid() && pending.None? && order != [] && order[0] == cur && input == old(input)
      ensures done == Some(Blocked) ==> Valid() && input == [] && pending == Some(cur)
      ensures done.None? || done == Some(Blocked) || done == Some(Undefined)
      ensures |input| <= old(|input|)
      ensures CopyRound(old(State()), State(), cur, done, more, mtu)
    {
      var copy := FindOther(Key(records[cur]));
      if copy.None? {
        UniqueKeysClose(records, cur);
        return None, false;
      }
      done, more := CopyOver(cur, copy.value);
    }

    /** The copy step once `copy` is found, and the `recv` after it. */
    method CopyOver(cur: Handle, copy: Handle) returns (done: Option<Outcome>, more: bool)
      requires Shape() && order != [] && order[0] == cur && UniqueKeysBut(records, cur)
      requires copy in records && copy != cur && Key(records[copy]) == Key(records[cur])
      requires (forall h :: h in records ==> records[h].cursor >= 0) && !received && pending.None?
      modifies this`records, this`order, this`input, this`pending
      ensures more ==> done.None? && |input| < old(|input|)
      ensures more ==> Shape() && order != [] && order[0] == cur && UniqueKeysBut(records, cur)
      ensures more ==> (forall h :: h in records ==> records[h].cursor >= 0) && pending.None?
      ensures done == Some(Blocked) ==> Valid() && input == [] && pending == Some(cur)
      ensures done == Some(Blocked) || done == Some(Undefined) || more
      ensures |input| <= old(|input|)
      ensures CopiedOver(old(State()), State(), cur, copy, done, more, mtu)
    {
      ghost var s0 := State();
      var ok := Replace(cur, copy);
      if !ok {
        return Some(Undefined), false;
      }
      ghost var m := State();
      done, more := Refill(cur);
      assert Refilled(m, State(), cur, done, more, mtu);
    }

    /** The `recv` at the top of the copy loop, into the record that has just
        replaced its copy: without input the call stops there. */
    method Refill(cur: Handle) returns (done: Option<Outcome>, more: bool)
      requires Shape() && order != [] && order[0] == cur && UniqueKeys(records)
      requires (forall h :: h in records ==> records[h].cursor >= 0) && !received && pending.None?
      modifies this`records, this`input, this`pending
      ensures more ==> done.None? && |input| < old(|input|) && pending.None?
      ensures more ==> Shape() && order != [] && order[0] == cur && UniqueKeysBut(records, cur)
      ensures more ==> forall h :: h in records ==> records[h].cursor >= 0
      ensures !more ==> done == Some(Blocked) && Valid() && input == [] && pending == Some(cur)
      ensures Refilled(old(State()), State(), cur, done, more, mtu)
    {
      if input == [] {
        pending := Some(cur);
        return Some(Blocked), false;
      }
      UniqueKeysButUpdate(records, cur, Recv(records[cur], input[0], mtu));
      Take(cur);
      return None, true;
    }

    /** The copy loop of `read_packet`: while the datagram just received into
        `cur` has the (ID, count) of another record, `cur` takes that record's
        place and receives again. On `None` the loop is over and the keys are
        unique again; on `Blocked` the input ran out before the next receive,
        which the next call resumes. */
    method Deduplicate(cur: Handle) returns (done: Option<Outcome>, ghost steps: seq<Pool>)
      requires Shape() && order != [] && order[0] == cur && UniqueKeysBut(records, cur)
      requires (forall h :: h in records ==> records[h].cursor >= 0) && !received && pending.None?
      modifies this`records, this`order, this`input, this`pending
      ensures |input| <= old(|input|)
      ensures done.None? ==> Valid() && pending.None? && order != [] && order[0] == cur
      ensures done == Some(Blocked) ==> Valid() && input == [] && pending == Some(cur)
      ensures done.None? || done == Some(Blocked) || done == Some(Undefined)
      ensures CopyChain(old(State()), steps, State(), cur, done, mtu)
    {
      ghost var s0 := State();
      steps := [s0];
      while true
        invariant Shape() && order != [] && order[0] == cur && UniqueKeysBut(records, cur)
        invariant forall h :: h in records ==> records[h].cursor >= 0
        invariant pending.None? && |input| <= |s0.input|
        invariant |steps| >= 1 && steps[0] == s0 && steps[|steps| - 1] == State() && Chain(steps, CopyGoesOn(cur, mtu))
        decreases |input|
      {
        var more;
        done, more := CopyStep(cur);
        if done.Some? || !more {
          return;
        }
        ChainSnoc(steps, State(), CopyGoesOn(cur, mtu));
        steps := steps + [State()];
      }
    }

    /** The forward propagation, delivering `cur`'s start reference if it
        reaches a record that knows its END. */
    method DeliverForward(cur: Handle) returns (done: Option<Outcome>)
      requires Valid() && pending.None? && !received
      requires cur in records && records[cur].start.Some? && !records[cur].hasEnd
      modifies this`records, this`currentPacket, this`received
      ensures done.None? ==> Valid() && pending.None? && !received && cur in records && !records[cur].hasEnd
      ensures done == Some(Delivered) ==> Valid() && received && DeliveredAt(records, currentPacket)
      ensures done.None? || done == Some(Delivered) || done == Some(Undefined) || done == Some(Diverges)
      ensures ForwardDelivered(old(State()), State(), cur, done)
    {
      var s := records[cur].start.value;
      ghost var s0 := State();
      ghost var r0 := records;
      var w;
      ghost var path, marked;
      w, path, marked := PropagateStart(cur);
      StartsMarkedKeeps(r0, records, marked, r0[cur].start, path);
      SameDataKeepsValid(r0, records);
      assert Valid();
      if w == Joined {
        Deliver(s);
      }
      done := WalkOutcome(w);
      assert StartPropagated(s0.records, records, cur, w, path, marked);
    }

    /** The backward propagation, delivering the start reference it reaches. */
    method DeliverBackward(cur: Handle) returns (done: Option<Outcome>)
      requires Valid() && pending.None? && !received
      requires cur in records && records[cur].start.None? && records[cur].hasEnd
      modifies this`records, this`currentPacket, this`received
      ensures done.None? ==> Valid() && pending.None? && !received
      ensures done == Some(Delivered) ==> Valid() && received && DeliveredAt(records, currentPacket)
      ensures done.None? || done == Some(Delivered) || done == Some(Undefined) || done == Some(Diverges)
      ensures BackwardDelivered(old(State()), State(), cur, done)
    {
      ghost var s0 := State();
      ghost var r0 := records;
      var w, start;
      ghost var path, marked;
      w, start, path, marked := PropagateEnd(cur);
      EndsMarkedKeeps(r0, records, marked, path);
      SameDataKeepsValid(r0, records);
      assert Valid();
      if w == Joined {
        Deliver(start);
      }
      done := WalkOutcome(w);
      assert EndPropagated(s0.records, records, cur, w, start, path, marked);
    }

    /** A message is delivered from record `s`: `currentPacket` is set to it
        and `receivedPacket` to true. */
    method Deliver(s: Handle)
      requires Valid() && pending.None?
      modifies this`currentPacket, this`received
      ensures Valid() && received && currentPacket == s
    {
      currentPacket := s;
      received := true;
    }

    /** The rest of one round of `read_packet`, after the copy loop: a FULL
        record is delivered at once; otherwise `cur` is linked to its
        neighbours, delivered by the shortcut if it has a start reference and
        knows its END, and otherwise the start reference is propagated
        forward and the END backward, delivering when they meet. `None`: no
        message is complete yet. */
    method Settle(cur: Handle) returns (done: Option<Outcome>)
      requires Valid() && order != [] && order[0] == cur && pending.None? && !received
      modifies this`records, this`currentPacket, this`received
      ensures done.None? ==> Valid() && pending.None? && !received
      ensures done == Some(Delivered) ==> Valid() && received && DeliveredAt(records, currentPacket)
      ensures done.None? || done == Some(Delivered) || done == Some(Undefined) || done == Some(Diverges)
      ensures Settled(old(State()), State(), cur, done)
    {
      ghost var s0 := State();
      if IsFull(records[cur].data) {
        Deliver(cur);
        return Some(Delivered);
      }
      ghost var r0 := records;
      Link(cur);
      SameDataKeepsValid(r0, records);
      ghost var l := State();
      assert l == s0.(records := records);
      var c := records[cur];
      if c.start.Some? && c.hasEnd {
        Deliver(c.start.value);
        assert ForwardJoin(records, [cur], currentPacket);
        assert Propagated(l, State(), cur, Some(Delivered));
        return Some(Delivered);
      }
      done := None;
      if c.start.Some? {
        done := DeliverForward(cur);
        assert Propagated(l, State(), cur, done);
        if done.Some? {
          return;
        }
      }
      c := records[cur];
      if c.hasEnd {
        done := DeliverBackward(cur);
        assert Propagated(l, State(), cur, done);
      }
    }

    /** A call that stopped inside the copy loop goes on with the `recv` it
        was waiting in. */
    method Resume() returns (cur: Handle)
      requires Valid() && input != [] && pending.Some?
      modifies this`records, this`pending, this`input
      ensures Shape() && order != [] && order[0] == cur && UniqueKeysBut(records, cur)
      ensures (forall h :: h in records ==> records[h].cursor >= 0) && !received && pending.None?
      ensures cur == old(pending).value && State() == ReceiveInto(old(State()).(pending := None), cur, mtu)
    {
      cur := pending.value;
      pending := None;
      UniqueKeysButUpdate(records, cur, Recv(records[cur], input[0], mtu));
      Take(cur);
    }

    /** The start of one round of `read_packet`: the eviction, then the
        first receive into a new record; or, when the previous call stopped
        waiting inside the copy loop, the receive into that record. `ok` is
        false where the eviction hits undefined behaviour. */
    method Admit() returns (cur: Handle, ok: bool)
      requires Valid() && input != []
      modifies this`records, this`order, this`received, this`pending, this`freshHandle, this`input
      ensures ok ==> Shape() && order != [] && order[0] == cur && UniqueKeysBut(records, cur)
      ensures ok ==> (forall h :: h in records ==> records[h].cursor >= 0) && !received && pending.None?
      ensures Admitted(old(State()), State(), cur, ok, max, mtu)
      ensures |input| < old(|input|) || !ok
      ensures |input| <= old(|input|)
    {
      if pending.Some? {
        cur := Resume();
        return cur, true;
      }
      ghost var s0 := State();
      if EvictionDue() {
        ghost var anchor, fwd, bwd;
        ok, anchor, fwd, bwd := Evict();
        if !ok {
          return 0, false;
        }
        ghost var e := State();
        ghost var r0 := records;
        cur := Create();
        UniqueKeysButUpdate(r0, cur, records[cur]);
        assert EvictedBy(s0, e, anchor, fwd, bwd, ok) && cur == e.freshHandle && State() == Created(e, mtu);
        return cur, true;
      }
      ghost var r0 := records;
      cur := Create();
      UniqueKeysButUpdate(r0, cur, records[cur]);
      ok := true;
    }

    /** One round of the loop of `read_packet`: the eviction if one is due
        and the first receive (or the receive the previous call was waiting
        in), the copy loop, and the linking and propagation. `None`: no
        message is complete yet, and the loop goes on. */
    method ReadOneRound() returns (done: Option<Outcome>)
      requires Valid()
      modifies this`records, this`order, this`received, this`currentPacket, this`pending, this`freshHandle, this`input
      ensures |input| <= old(|input|)
      ensures done.None? ==> Valid() && |input| < old(|input|)
      ensures done == Some(Blocked) ==> Valid() && input == []
      ensures done == Some(Delivered) ==> Valid() && received && pending.None? && |input| < old(|input|) && DeliveredAt(records, currentPacket)
      ensures ReadRound(old(State()), State(), done, max, mtu)
    {
      if input == [] {
        return Some(Blocked);
      }
      var cur, ok := Admit();
      if !ok {
        return Some(Undefined);
      }
      done := CopyAndSettle(cur);
    }

    /** The copy loop for the record `cur` just admitted, then, unless the
        loop stopped, the linking and propagation. */
    method CopyAndSettle(cur: Handle) returns (done: Option<Outcome>)
      requires Shape() && order != [] && order[0] == cur && UniqueKeysBut(records, cur)
      requires (forall h :: h in records ==> records[h].cursor >= 0) && !received && pending.None?
      modifies this`records, this`order, this`received, this`currentPacket, this`pending, this`input
      ensures |input| <= old(|input|)
      ensures done.None? ==> Valid()
      ensures done == Some(Blocked) ==> Valid() && input == []
      ensures done == Some(Delivered) ==> Valid() && received && pending.None? && DeliveredAt(records, currentPacket)
      ensures CopiedAndSettled(old(State()), State(), cur, done, mtu)
    {
      ghost var a := State();
      ghost var steps;
      done, steps := Deduplicate(cur);
      if done.Some? {
        assert CopyChain(a, steps, State(), cur, done, mtu);
        return;
      }
      ghost var d := State();
      done := Settle(cur);
      assert CopyChain(a, steps, d, cur, None, mtu) && Settled(d, State(), cur, done);
    }

    /** `read_packet`: receive datagrams until a message is complete. Each
        round first evicts one chain if a message was delivered before or the
        pool is full, then receives into a new record (or, after a call that
        stopped waiting inside the copy loop, into that record again). On
        `Delivered`, `currentPacket` is where `read` takes the message from:
        a FULL record, or the start reference of a chain that a START and an
        END are known to join. The pool never holds more than `max` records
        (when `max` is positive) and never two records with the same (ID,
        count). `rounds` are the states at the top of the rounds: every round
        but the last goes on, and the last one ends the call with `outcome`. */
    method ReadPacket() returns (outcome: Outcome, ghost rounds: seq<Pool>)
      requires Valid()
      modifies this`records, this`order, this`received, this`currentPacket, this`pending, this`freshHandle, this`input
      ensures |input| <= old(|input|)
      ensures outcome == Blocked ==> Valid() && input == []
      ensures outcome == Delivered ==> Valid() && received && pending.None? && |input| < old(|input|) && DeliveredAt(records, currentPacket)
      ensures |rounds| >= 1 && rounds[0] == old(State()) && Chain(rounds, RoundGoesOn(max, mtu))
      ensures ReadRound(rounds[|rounds| - 1], State(), Some(outcome), max, mtu)
    {
      ghost var s0 := State();
      rounds := [s0];
      while true
        invariant Valid() && |input| <= |s0.input|
        invariant |rounds| >= 1 && rounds[0] == s0 && rounds[|rounds| - 1] == State() && Chain(rounds, RoundGoesOn(max, mtu))
        decreases |input|
      {
        var done := ReadOneRound();
        if done.Some? {
          return done.value, rounds;
        }
        ChainSnoc(rounds, State(), RoundGoesOn(max, mtu));
        rounds := rounds + [State()];
      }
    }

    /** `currentPacket->read(buffer, k)` for a `k` within what remains: the
        next `k` bytes of the record, whose cursor moves past them. */
    method Consume(h: Handle, k: nat) returns (bytes: seq<Byte>)
      requires h in records && 0 <= records[h].cursor && k <= Remaining(records[h])
      modifies this`records
      ensures ReadSpan(old(records)[h].data, old(records)[h].cursor, k) == Some(bytes)
      ensures Advanced(old(records), records, h, k)
    {
      var r := records[h];
      bytes := r.data[r.cursor..r.cursor + k];
      assert ReadSpan(r.data, r.cursor, k) == Some(bytes);
      records := records[h := r.(cursor := r.cursor + k)];
    }

    /** `read`: `length` bytes of the delivered message, taken from
        `currentPacket` on along `next` links; each record is read to its end
        before the next, and `currentPacket` is left where the rest of the
        message starts. Asking for no bytes (or a negative number) reads
        nothing. Without a delivered message the source throws "no packets
        read". Otherwise, unless a record on the way has been read past its
        end (`Overrun`), the outcome depends only on whether the stream holds
        `length` bytes and on how it ends: a record without a next gives "no
        more packets to read"; a dangling link is undefined behaviour, and so
        is a first record read to its end without a next, since `read` steps
        off such a record without looking at `hasNext`; a link back into the
        walk makes the source loop for ever. */
    method Read(length: int) returns (result: ReadResult)
      requires Valid()
      modifies this`records, this`currentPacket
      ensures Valid()
      ensures SameLinks(records, old(records))
      ensures result == NoPacketsRead <==> !old(received)
      ensures result == NoPacketsRead ==> records == old(records) && currentPacket == old(currentPacket)
      ensures ReadChainOutcome(old(records), old(currentPacket), records, currentPacket, length, result)
      ensures var r, c := old(records), old(currentPacket);
        var s := Stream(r, c, {});
        old(received) && !Overrun(r, c, {}) ==>
          && (|s| >= length <==> result.Bytes?)
          && (|s| < length ==>
                && (result == NoMorePackets <==> StreamEnd(r, c, {}) == Gap && !ZeroAtEnd(r, c))
                && (result == ReadUndefined <==> StreamEnd(r, c, {}) == Dangling || ZeroAtEnd(r, c))
                && (result == ReadDiverges <==> StreamEnd(r, c, {}) == Cycle))
    {
      if !received {
        return NoPacketsRead;
      }
      result := ReadChain(length);
      SameLinksKeepsValid(old(records), records);
    }

    /** The loop of `read` once a message has been delivered. */
    method ReadChain(length: int) returns (result: ReadResult)
      requires forall h :: h in records ==> records[h].cursor >= 0
      modifies this`records, this`currentPacket
      ensures forall h :: h in records ==> records[h].cursor >= 0
      ensures SameLinks(records, old(records))
      ensures result != NoPacketsRead
      ensures ReadChainOutcome(old(records), old(currentPacket), records, currentPacket, length, result)
    {
      ghost var r0, c0 := records, currentPacket;
      var need := length;
      var out: seq<Byte> := [];
      var seen: set<Handle> := {};
      ghost var first := true;
      while need > 0
        invariant Reading(r0, c0, length, out, need, seen, first)
        decreases r0.Keys - seen, need
      {
        var stop;
        stop, seen := StepOn(r0, c0, length, out, need, seen, first);
        if stop.Some? {
          return stop.value;
        }
        stop, out, need := TakeOn(r0, c0, length, out, need, seen);
        if stop.Some? {
          return stop.value;
        }
        first := false;
      }
      BytesRead(r0, c0, records, currentPacket, length, out, seen);
      result := Bytes(out);
    }

    /** Where `read`'s loop stands, having read `out` from the records `r0`
        from `c0` on, with `need` bytes still wanted and the records in
        `seen` stepped off; `first` until a turn is over. */
    ghost predicate Reading(r0: map<Handle, Record>, c0: Handle, length: int, out: seq<Byte>, need: int,
                            seen: set<Handle>, first: bool)
      reads this`records, this`currentPacket
    {
      && (forall h :: h in records ==> records[h].cursor >= 0)
      && SameLinks(records, r0)
      && currentPacket !in seen && ReadOut(records, seen, currentPacket)
      && |out| == length - need && (if length > 0 then need >= 0 else need == length)
      && Stream(r0, c0, {}) == out + Stream(records, currentPacket, seen)
      && StreamEnd(r0, c0, {}) == StreamEnd(r0, currentPacket, seen)
      && (Overrun(records, currentPacket, seen) ==> Overrun(r0, c0, {}))
      && Untouched(records, r0, seen + {currentPacket})
      && (first ==> records == r0 && currentPacket == c0 && seen == {})
      && (!first ==> !ZeroAtEnd(r0, c0))
      && (!first && need > 0 ==>
            && currentPacket in records && records[currentPacket].next.Some?
            && Remaining(records[currentPacket]) == 0)
    }

    /** Where a turn of `read`'s loop stands once it has stepped: as in
        `Reading`, at a live record, and not after starting from a record
        read out without a next. */
    ghost predicate Stepped(r0: map<Handle, Record>, c0: Handle, length: int, out: seq<Byte>, need: int,
                            seen: set<Handle>)
      reads this`records, this`currentPacket
    {
      && (forall h :: h in records ==> records[h].cursor >= 0)
      && SameLinks(records, r0)
      && currentPacket in records && currentPacket !in seen && ReadOut(records, seen, currentPacket)
      && |out| == length - need && need > 0
      && Stream(r0, c0, {}) == out + Stream(records, currentPacket, seen)
      && StreamEnd(r0, c0, {}) == StreamEnd(r0, currentPacket, seen)
      && (Overrun(records, currentPacket, seen) ==> Overrun(r0, c0, {}))
      && Untouched(records, r0, seen)
      && !ZeroAtEnd(r0, c0)
    }

    /** The first half of a turn of `read`'s loop, seen from the loop: it
        stops the call or leaves it at a live record. */
    method StepOn(ghost r0: map<Handle, Record>, ghost c0: Handle, length: int, out: seq<Byte>, need: int,
                  seen: set<Handle>, ghost first: bool) returns (stop: Option<ReadResult>, seen': set<Handle>)
      requires need > 0 && Reading(r0, c0, length, out, need, seen, first)
      modifies this`currentPacket
      ensures stop.None? ==> Stepped(r0, c0, length, out, need, seen')
      ensures stop.None? ==>
        || (seen' == seen && Remaining(records[currentPacket]) != 0)
        || (seen < seen' && seen' <= r0.Keys)
      ensures stop.Some? ==>
        && (forall h :: h in records ==> records[h].cursor >= 0) && SameLinks(records, r0)
        && stop.value != NoPacketsRead
        && ReadChainOutcome(r0, c0, records, currentPacket, length, stop.value)
    {
      ghost var c := currentPacket;
      stop, seen' := StepOver(seen);
      if stop.Some? {
        assert c in records ==> r0[c].next == records[c].next;
        return;
      }
      if seen' != seen {
        assert r0[c].next == records[c].next;
        assert Overrun(records, currentPacket, seen') ==> Overrun(records, c, seen);
      }
    }

    /** The second half of a turn of `read`'s loop, seen from the loop: it
        stops the call or takes bytes on. */
    method TakeOn(ghost r0: map<Handle, Record>, ghost c0: Handle, length: int, out: seq<Byte>, need: int,
                  seen: set<Handle>) returns (stop: Option<ReadResult>, out': seq<Byte>, need': int)
      requires Stepped(r0, c0, length, out, need, seen)
      modifies this`records
      ensures stop.None? ==> Reading(r0, c0, length, out', need', seen, false)
      ensures stop.None? ==> need' < need || Remaining(old(records)[currentPacket]) == 0
      ensures stop.Some? ==>
        && (forall h :: h in records ==> records[h].cursor >= 0) && SameLinks(records, r0)
        && stop.value != NoPacketsRead
        && ReadChainOutcome(r0, c0, records, currentPacket, length, stop.value)
    {
      out', need' := out, need;
      ghost var r1 := records;
      var bytes;
      stop, bytes := TakeBytes(need, seen);
      if stop.Some? {
        assert r0[currentPacket].next == records[currentPacket].next;
        if stop == Some(NoMorePackets) {
          NoMoreAt(r0, c0, records, currentPacket, length, out, need, seen);
        } else {
          assert Overrun(records, currentPacket, seen);
          assert ReadChainOutcome(r0, c0, records, currentPacket, length, ReadUndefined);
        }
        return;
      }
      assert need - |bytes| > 0 ==> Remaining(records[currentPacket]) == 0;
      SameLinksTrans(r0, r1, records);
      OverrunFrame(r1, records, currentPacket, seen);
      UntouchedAdvanced(r0, r1, records, currentPacket, |bytes|, seen);
      ReadProgress(Stream(r0, c0, {}), out, bytes, Stream(r1, currentPacket, seen), Stream(records, currentPacket, seen));
      out' := out + bytes;
      need' := need - |bytes|;
    }

    /** The first half of a turn of `read`'s loop: from a record read to its
        end, `currentPacket` moves on to the next record without looking
        whether there is one (undefined behaviour if there is none, or it has
        been erased). Moving back onto a record already passed over, or onto
        itself, is an endless loop. */
    method StepOver(seen: set<Handle>) returns (stop: Option<ReadResult>, seen': set<Handle>)
      requires forall h :: h in records ==> records[h].cursor >= 0
      requires currentPacket !in seen
      modifies this`currentPacket
      ensures var c := old(currentPacket);
        if c !in records then stop == Some(ReadUndefined)
        else if Remaining(records[c]) != 0 then stop.None? && seen' == seen && currentPacket == c
        else if records[c].next.None? || records[c].next.value !in records then stop == Some(ReadUndefined)
        else if records[c].next.value in seen + {c} then stop == Some(ReadDiverges)
        else stop.None? && seen' == seen + {c} && currentPacket == records[c].next.value
      ensures stop == Some(ReadDiverges) ==> Stream(records, old(currentPacket), seen) == []
      ensures stop.None? ==> Stream(records, old(currentPacket), seen) == Stream(records, currentPacket, seen')
    {
      seen' := seen;
      if currentPacket !in records {
        return Some(ReadUndefined), seen';
      }
      var c := records[currentPacket];
      if Remaining(c) != 0 {
        return None, seen';
      }
      if c.next.None? || c.next.value !in records {
        return Some(ReadUndefined), seen';
      }
      var n := c.next.value;
      StreamSkip(records, currentPacket, seen);
      if n in seen || n == currentPacket {
        return Some(ReadDiverges), seen';
      }
      seen' := seen + {currentPacket};
      currentPacket := n;
      stop := None;
    }

    /** The second half: the bytes that remain in `currentPacket`, at most
        `need` of them. Fewer than `need` remaining without a next record is
        the "no more packets to read" error; a negative remainder with a next
        record is a copy of negative length (undefined behaviour). */
    method TakeBytes(need: int, ghost seen: set<Handle>) returns (stop: Option<ReadResult>, bytes: seq<Byte>)
      requires need > 0 && currentPacket in records && currentPacket !in seen
      requires forall h :: h in records ==> records[h].cursor >= 0
      modifies this`records
      ensures forall h :: h in records ==> records[h].cursor >= 0
      ensures SameLinks(records, old(records))
      ensures var x := old(records)[currentPacket];
        if Remaining(x) >= need then stop.None? && |bytes| == need
        else if x.next.None? then stop == Some(NoMorePackets)
        else if Remaining(x) < 0 then stop == Some(ReadUndefined)
        else stop.None? && |bytes| == Remaining(x)
      ensures stop.Some? ==> records == old(records)
      ensures stop == Some(NoMorePackets) ==> |Stream(old(records), currentPacket, seen)| < need
      ensures stop.None? ==>
        && Advanced(old(records), records, currentPacket, |bytes|)
        && Stream(old(records), currentPacket, seen) == bytes + Stream(records, currentPacket, seen)
    {
      var cp := currentPacket;
      var cl := Remaining(records[cp]);
      var k := need;
      if cl < need {
        if records[cp].next.None? {
          StreamLast(records, cp, seen);
          return Some(NoMorePackets), [];
        }
        if cl < 0 {
          return Some(ReadUndefined), [];
        }
        k := cl;
      }
      bytes := TakeSome(k, seen);
      stop := None;
    }

    /** `k` bytes from `currentPacket`, taken off the front of the stream from it. */
    method TakeSome(k: nat, ghost seen: set<Handle>) returns (bytes: seq<Byte>)
      requires currentPacket in records && currentPacket !in seen
      requires (forall h :: h in records ==> records[h].cursor >= 0) && k <= Remaining(records[currentPacket])
      modifies this`records
      ensures forall h :: h in records ==> records[h].cursor >= 0
      ensures SameLinks(records, old(records)) && |bytes| == k && Advanced(old(records), records, currentPacket, k)
      ensures Stream(old(records), currentPacket, seen) == bytes + Stream(records, currentPacket, seen)
    {
      ghost var r0 := records;
      ghost var x := r0[currentPacket];
      bytes := Consume(currentPacket, k);
      ghost var r1 := records;
      assert bytes == x.data[x.cursor..x.cursor + k];
      StreamConsume(r0, r1, currentPacket, k, seen);
      SameLinksAdvanced(r0, r1, currentPacket, k);
      AdvancedCursors(r0, r1, currentPacket, k);
    }
  }
}
