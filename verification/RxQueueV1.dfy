/**
 The user side of a protocol 1 receive queue (`ndp_rx.h`): a cursor through the bytes
 the driver last showed, one frame after another, which gives the bytes back to the
 driver once half of the ring has been read.
 */
module RxQueueV1 {
  import opened Ring
  import opened Sequences
  import opened Options
  import opened Bytes
  import opened ChannelCalls
  import opened RxArbiter
  import opened Framing
  import opened RxPorts

  /** `struct ndp_packet`: the addresses and lengths of a received packet. */
  datatype Slot = Slot(header: int, headerLength: nat, data: int, dataLength: nat)

  // ---- The stream --------------------------------------------------------

  /** The controller writes whole proper frames. */
  ghost predicate FramedEvents(es: seq<Event<byte>>) {
    forall i | 0 <= i < |es| && es[i].Hardware? :: Parse(es[i].items).Some?
  }

  ghost predicate FramedTurns(turns: seq<seq<Event<byte>>>) {
    forall i | 0 <= i < |turns| :: FramedEvents(turns[i])
  }

  /** So the part the channel has not asked about yet is whole frames. */
  ghost predicate FramedState(s: RxState<byte>) {
    && s.base <= s.seen <= s.hw == s.base + |s.stream|
    && Parse(Slice(s, s.seen, s.hw)).Some?
  }

  /** From `lim` on, what is written is whole frames. */
  ghost predicate FramedFrom(s: RxState<byte>, lim: nat) {
    s.base <= lim <= s.hw == s.base + |s.stream| && Parse(Slice(s, lim, s.hw)).Some?
  }

  lemma HardwareFrames(s: RxState<byte>, items: seq<byte>, lim: nat)
    requires Inv(s) && FramedFrom(s, lim) && Parse(items).Some? && Enabled(s, Hardware(items))
    ensures FramedFrom(Do(s, Hardware(items)), lim) && Do(s, Hardware(items)).seen == s.seen
  {
    hide Mask, Parse, Reader, Buffered, Store;
    var s' := Do(s, Hardware(items));
    assert Slice(s', lim, s'.hw) == Slice(s, lim, s.hw) + items;
    ParseConcat(Slice(s, lim, s.hw), items);
  }

  /** The other calls write nothing; only the first start throws the stream away. */
  lemma CallsWriteNothing(s: RxState<byte>, e: Event<byte>)
    requires Inv(s) && Enabled(s, e) && !e.Hardware?
    ensures var s' := Do(s, e);
            || (s'.stream == s.stream && s'.base == s.base && s'.hw == s.hw && (s'.seen == s.seen || s'.seen == s.hw))
            || (s'.stream == [] && s'.base == s'.seen == s'.hw && s.ch.list == [])
  {
    hide Mask, Farthest, Reader, Buffered, NoDuplicates;
    match e
    case Start(id, ops) =>
    case Stop(id, again) =>
    case Sync(id, swptr) =>
  }

  lemma StepFrames(s: RxState<byte>, me: Id, e: Event<byte>, lim: nat)
    requires Inv(s) && FramedState(s) && (e.Hardware? ==> Parse(e.items).Some?)
    ensures FramedState(ForeignTurn(s, me, e))
    ensures me in s.ch.list && FramedFrom(s, lim) ==> FramedFrom(ForeignTurn(s, me, e), lim)
  {
    hide Mask, Parse, Farthest, Reader, Buffered, NoDuplicates, Do, FramedState, FramedFrom, Slice;
    if Foreign(e, me) && Enabled(s, e) {
      var s' := Do(s, e);
      if e.Hardware? {
        FramedSeen(s);
        HardwareFrames(s, e.items, s.seen);
        FramedSeen(s');
        if FramedFrom(s, lim) {
          HardwareFrames(s, e.items, lim);
        }
      } else {
        CallsWriteNothing(s, e);
        StreamEnds(s, e);
        StartFrames(s, s');
        if SameStream(s, s') {
          FramedAgain(s, s', lim);
        }
      }
    }
  }

  lemma StreamEnds(s: RxState<byte>, e: Event<byte>)
    requires Inv(s) && Enabled(s, e)
    ensures var s' := Do(s, e); s'.hw == s'.base + |s'.stream| && s'.base <= s'.seen <= s'.hw
  {
    StepInv(s, e);
    hide Mask, Do, Reader, Window;
  }

  lemma FramedSeen(s: RxState<byte>)
    ensures FramedState(s) <==> FramedFrom(s, s.seen)
  {
    hide Parse;
  }

  lemma ParseNothing()
    ensures Parse([]) == Some([])
  {
  }

  lemma {:induction false} ForeignFrames(s: RxState<byte>, me: Id, es: seq<Event<byte>>, lim: nat)
    requires Inv(s) && FramedState(s) && FramedEvents(es)
    ensures FramedState(RunForeign(s, me, es))
    ensures me in s.ch.list && FramedFrom(s, lim) ==> FramedFrom(RunForeign(s, me, es), lim)
    decreases |es|
  {
    hide Mask, Parse, FramedState, FramedFrom, Keeps, Reader, Buffered;
    if es != [] {
      StepFrames(s, me, es[0], lim);
      ForeignStep(s, me, es[0]);
      Listed(s, ForeignTurn(s, me, es[0]), me);
      ForeignFrames(ForeignTurn(s, me, es[0]), me, es[1..], lim);
    }
  }

  lemma Listed(s: RxState<byte>, s': RxState<byte>, me: Id)
    requires Keeps(s, s', me)
    ensures me in s'.ch.list <==> me in s.ch.list
  {
  }

  // ---- The cursor --------------------------------------------------------

  /** The cursor is in what the driver showed, at the start of a frame. */
  ghost predicate Reading(s: RxState<byte>, me: Id, size: nat, sync: Pointers, data: int, swptr: nat, bytes: nat)
    requires size > 0
  {
    && me in s.pos && me in s.given && sync.swptr == Mask(s.pos[me], size)
    && s.base <= s.pos[me] && s.pos[me] + swptr + bytes <= s.given[me] <= s.hw == s.base + |s.stream|
    && (bytes > 0 ==>
          && 0 <= data && data + bytes <= 2 * size - 2
          && Mask(data, size) == Mask(s.pos[me] + swptr, size))
    && Parse(Slice(s, s.pos[me] + swptr, s.pos[me] + swptr + bytes)).Some?
    && FramedFrom(s, s.pos[me] + swptr + bytes)
  }

  /** A packet whose frame starts at absolute position `c`. */
  ghost predicate Describes(slot: Slot, p: Packet, c: nat, size: nat)
    requires size > 0
  {
    var frame := slot.header - HEADER_SIZE;
    && slot.headerLength == p.headerLength && slot.dataLength == p.dataLength
    && slot.data == frame + HeaderRoom(p)
    && 0 <= frame && frame + FrameSize(p) <= 2 * size - 2
    && Mask(frame, size) == Mask(c, size)
  }

  ghost predicate DescribeAll(slots: seq<Slot>, ps: seq<Packet>, c: nat, size: nat)
    requires size > 0
  {
    |ps| <= |slots| && forall i | 0 <= i < |ps| :: Describes(slots[i], ps[i], c + Offset(ps, i), size)
  }

  lemma DescribeMore(slots: seq<Slot>, slot: Slot, ps: seq<Packet>, p: Packet, c: nat, size: nat)
    requires size > 0 && DescribeAll(slots, ps, c, size) && |ps| < |slots|
    requires Describes(slot, p, c + Offset(ps, |ps|), size)
    ensures DescribeAll(slots[|ps| := slot], ps + [p], c, size)
  {
    hide Describes, Offset, FrameSize;
    var ps', slots' := ps + [p], slots[|ps| := slot];
    forall i | 0 <= i < |ps'|
      ensures Describes(slots'[i], ps'[i], c + Offset(ps', i), size)
    {
      OffsetPrefix(ps, [p], if i < |ps| then i else |ps|);
    }
  }

  /** The sizes at the cursor's address are those the controller wrote. */
  lemma HeaderAtCursor(s: RxState<byte>, me: Id, size: nat, sync: Pointers, data: int, swptr: nat, bytes: nat)
    requires Inv(s) && me in s.ch.list && s.ch.size == size == |s.mem| && size > 0
    requires Reading(s, me, size, sync, data, swptr, bytes) && bytes >= HEADER_SIZE
    ensures var c := s.pos[me] + swptr;
            Window(s.mem, data, HEADER_SIZE) == Slice(s, c, c + bytes)[..HEADER_SIZE]
  {
    hide Mask, Parse, Inv;
    var c := s.pos[me] + swptr;
    var w := Window(s.mem, data, HEADER_SIZE);
    forall j | 0 <= j < |w|
      ensures w[j] == Slice(s, c, c + bytes)[j]
    {
      Fetch(s, me, c + j);
      MaskSum(data, j, size);
      MaskSum(c, j, size);
    }
  }

  /** One frame further: the header `h` found at the cursor passes the checks, and its frame takes `f` bytes. */
  lemma NextFrame(s: RxState<byte>, me: Id, size: nat, sync: Pointers, data: int, swptr: nat, bytes: nat)
    returns (h: Sizes, f: nat)
    requires size > 0 && Reading(s, me, size, sync, data, swptr, bytes) && bytes > 0
    ensures bytes >= HEADER_SIZE && me in s.pos
    ensures h == ReadSizes(Slice(s, s.pos[me] + swptr, s.pos[me] + swptr + bytes)[..HEADER_SIZE])
    ensures f == FrameSize(Described(h)) == Advance(h) && f <= bytes
    ensures !Malformed(h) && !OutOfSync(h, bytes) && Fits(Described(h))
    ensures Low16(Align8(h.headerSize + HEADER_SIZE)) == HeaderRoom(Described(h))
    ensures Parse(Slice(s, s.pos[me] + swptr, s.pos[me] + swptr + f)) == Some([Described(h)])
    ensures 0 <= data && data + f <= 2 * size - 2 && Mask(data, size) == Mask(s.pos[me] + swptr, size)
    ensures s.pos[me] + swptr + f <= s.base + |s.stream|
    ensures Reading(s, me, size, sync, data + f, swptr + f, bytes - f)
  {
    hide Mask, Parse, FrameSize, Described, ReadSizes, Advance, Malformed, Fits;
    var c := s.pos[me] + swptr;
    var b := Slice(s, c, c + bytes);
    FirstFrame(b);
    SizesOfHeader(b);
    h := ReadSizes(b);
    f := FrameSize(Described(h));
    SliceSplit(s, c, c + f, c + bytes);
    MaskSum(data, f, size);
    MaskSum(c, f, size);
  }

  /** The frames from `from` up to the cursor are those of `ps`. */
  ghost predicate Delivers(s: RxState<byte>, me: Id, from: nat, swptr: nat, ps: seq<Packet>) {
    && me in s.pos && s.base <= from <= s.pos[me] + swptr <= s.base + |s.stream|
    && Parse(Slice(s, from, s.pos[me] + swptr)) == Some(ps)
  }

  lemma DeliversStream(s: RxState<byte>, me: Id, from: nat, swptr: nat, ps: seq<Packet>)
    requires Delivers(s, me, from, swptr, ps)
    ensures me in s.pos && s.base <= from <= s.pos[me] + swptr <= s.base + |s.stream|
    ensures Parse(Slice(s, from, s.pos[me] + swptr)) == Some(ps)
  {
  }

  lemma DeliversMore(s: RxState<byte>, me: Id, from: nat, swptr: nat, ps: seq<Packet>, f: nat, p: Packet)
    requires Delivers(s, me, from, swptr, ps) && s.pos[me] + swptr + f <= s.base + |s.stream|
    requires Parse(Slice(s, s.pos[me] + swptr, s.pos[me] + swptr + f)) == Some([p])
    ensures Delivers(s, me, from, swptr + f, ps + [p])
  {
    hide Parse;
    var c := s.pos[me] + swptr;
    ParseConcat(Slice(s, from, c), Slice(s, c, c + f));
    SliceSplit(s, from, c, c + f);
  }

  /** A sync call leaves the frames before the cursor and after it as they were. */
  lemma SyncedFrames(s: RxState<byte>, es: seq<Event<byte>>, s': RxState<byte>, me: Id,
                     k: nat, u: nat, b: nat, from: nat, ps: seq<Packet>)
    requires Inv(s) && FramedState(s) && FramedEvents(es) && me in s.ch.list && Synced(s, s', me, k)
    requires Inv(s') && SameStream(RunForeign(s, me, es), s')
    requires Delivers(s, me, from, k + u, ps) && FramedFrom(s, s.pos[me] + k + u + b)
    requires s.pos[me] + k + u + b <= s.base + |s.stream|
    requires Parse(Slice(s, s.pos[me] + k + u, s.pos[me] + k + u + b)).Some?
    ensures FramedState(s')
    ensures Delivers(s', me, from, u, ps) && FramedFrom(s', s'.pos[me] + u + b)
    ensures s'.pos[me] + u + b <= s'.hw == s'.base + |s'.stream|
    ensures Parse(Slice(s', s'.pos[me] + u, s'.pos[me] + u + b)).Some?
  {
    hide Mask, Parse, Inv, FramedState, FramedFrom, FramedEvents, Slice, RunForeign, SameStream;
    var c := s.pos[me] + k + u;
    ForeignFrames(s, me, es, c + b);
    FramedAgain(RunForeign(s, me, es), s', c + b);
    FramedEnd(s', c + b);
    SliceAgain(s, s', from, c);
    SliceAgain(s, s', c, c + b);
  }

  lemma FramedEnd(s: RxState<byte>, lim: nat)
    requires FramedFrom(s, lim)
    ensures lim <= s.hw == s.base + |s.stream|
  {
  }

  lemma FramedAgain(s: RxState<byte>, s': RxState<byte>, lim: nat)
    requires FramedState(s) && SameStream(s, s')
    ensures FramedState(s')
    ensures FramedFrom(s, lim) ==> FramedFrom(s', lim)
  {
    ParseNothing();
    hide Parse;
    assert Slice(s', s'.hw, s'.hw) == [];
  }

  /** What the queue's locals are after a lock: everything written and not yet read, at the cursor. */
  lemma LockedWindow(s: RxState<byte>, me: Id, size: nat, sync: Pointers, swptr: nat)
    returns (data: int, bytes: nat, total: nat)
    requires Inv(s) && me in s.ch.list && s.ch.size == size == |s.mem| && size > 0
    requires me in s.pos && me in s.given && s.given[me] == s.hw
    requires s.base <= s.pos[me] && s.pos[me] + swptr <= s.hw && FramedFrom(s, s.pos[me] + swptr)
    requires sync == Pointers(Mask(s.hw, size), Mask(s.pos[me], size))
    ensures data == sync.swptr + swptr
    ensures bytes == Mask(sync.hwptr - sync.swptr - swptr, size)
    ensures total == Mask(sync.hwptr - sync.swptr, size) == swptr + bytes
    ensures s.pos[me] + swptr + bytes == s.hw
    ensures Reading(s, me, size, sync, data, swptr, bytes)
  {
    hide Mask, Parse;
    assert Reader(s, me);
    hide Inv;
    MaskRemaining(s.pos[me], s.hw, swptr, size);
    MaskDistance(s.pos[me], s.hw, size);
    MaskSum(s.pos[me], swptr, size);
    ParseNothing();
    data, bytes, total := sync.swptr + swptr, s.hw - s.pos[me] - swptr, s.hw - s.pos[me];
    assert Slice(s, s.hw, s.hw) == [];
  }

  /** A turn of the burst loop: `got` packets from the cursor at `c0` on, described in order. */
  ghost predicate Got(slots: seq<Slot>, got: seq<Packet>, cnt: nat, c0: nat, c: nat, size: nat) {
    && |got| == cnt <= |slots| && size > 0
    && c == c0 + Offset(got, cnt)
    && DescribeAll(slots, got, c0, size)
  }

  lemma DescribedParts(h: Sizes)
    ensures Described(h) == Packet(h.headerSize, Low32(h.packetSize - Low16(Align8(h.headerSize + HEADER_SIZE))))
  {
  }

  lemma Taken(slots: seq<Slot>, slot: Slot, cnt: nat, got: seq<Packet>, p: Packet, c0: nat, c: nat, size: nat,
              data: int)
    requires Got(slots, got, cnt, c0, c, size) && cnt < |slots|
    requires slot == Slot(data + HEADER_SIZE, p.headerLength, data + HeaderRoom(p), p.dataLength)
    requires 0 <= data && data + FrameSize(p) <= 2 * size - 2 && Mask(data, size) == Mask(c, size)
    ensures Got(slots[cnt := slot], got + [p], cnt + 1, c0, c + FrameSize(p), size)
  {
    hide Mask, FrameSize, HeaderRoom, Offset, DescribeAll;
    assert Describes(slot, p, c0 + Offset(got, |got|), size);
    hide Describes;
    DescribeMore(slots, slot, got, p, c0, size);
    OffsetStep(got + [p], cnt);
    OffsetPrefix(got, [p], cnt);
  }

  lemma NoneDescribed(slots: seq<Slot>, c0: nat, size: nat)
    requires size > 0
    ensures Got(slots, [], 0, c0, c0, size) && DescribeAll(slots, [], c0, size)
  {
  }

  lemma StartFrames(s: RxState<byte>, s': RxState<byte>)
    requires FramedState(s)
    requires SameStream(s, s') || (s'.stream == [] && s'.seen == s'.base)
    requires s'.hw == s'.base + |s'.stream|
    ensures FramedState(s')
  {
    ParseNothing();
    if !SameStream(s, s') {
      assert Slice(s', s'.seen, s'.hw) == [];
    } else {
      FramedAgain(s, s', 0);
    }
  }

  lemma ReadingHere(s: RxState<byte>, me: Id, size: nat, sync: Pointers, data: int, swptr: nat, bytes: nat)
    requires size > 0 && Reading(s, me, size, sync, data, swptr, bytes)
    ensures me in s.pos && FramedFrom(s, s.pos[me] + swptr + bytes)
  {
  }

  /** What the others do leaves the cursor where it is. */
  lemma StaysReading(s: RxState<byte>, s': RxState<byte>, me: Id, size: nat, sync: Pointers, data: int, swptr: nat,
                     bytes: nat, from: nat, ps: seq<Packet>)
    requires size > 0 && me in s.ch.list && Keeps(s, s', me)
    requires Reading(s, me, size, sync, data, swptr, bytes) && Delivers(s, me, from, swptr, ps)
    requires FramedFrom(s', s.pos[me] + swptr + bytes)
    ensures Reading(s', me, size, sync, data, swptr, bytes) && Delivers(s', me, from, swptr, ps)
  {
    hide Mask, Parse;
    var c := s.pos[me] + swptr;
    FramedEnd(s', c + bytes);
    SliceAgain(s, s', from, c);
    SliceAgain(s, s', c, c + bytes);
  }

  /** A cursor left from an earlier run fits a new one only when it is at the start. */
  lemma Starting(s: RxState<byte>, me: Id, size: nat, sync: Pointers, data: int, swptr: nat)
    requires size > 0 && FramedState(s) && me in s.pos && me in s.given
    requires s.pos[me] == s.given[me] == s.seen && sync.swptr == Mask(s.pos[me], size)
    ensures Reading(s, me, size, sync, data, swptr, 0) <==> swptr == 0
    ensures swptr == 0 ==> Delivers(s, me, s.pos[me], swptr, [])
  {
    hide Mask, Parse;
    ParseNothing();
    assert Slice(s, s.seen, s.seen) == [];
  }

  /**
   Between the call that shows a packet and the put that gives it back, its addresses hold
   what the controller wrote.
   */
  lemma PacketBytes(s: RxState<byte>, me: Id, slot: Slot, p: Packet, c: nat)
    requires Inv(s) && me in s.ch.list && me in s.pos && |s.mem| > 0
    requires Describes(slot, p, c, |s.mem|)
    requires s.pos[me] <= c && c + FrameSize(p) <= s.hw
    ensures s.base <= c && c + FrameSize(p) <= s.base + |s.stream|
    ensures Window(s.mem, slot.header - HEADER_SIZE, FrameSize(p)) == Slice(s, c, c + FrameSize(p))
  {
    hide Mask, Inv, FrameSize, HeaderRoom;
    var f, at := FrameSize(p), slot.header - HEADER_SIZE;
    if f > 0 {
      Fetch(s, me, c);
      Fetch(s, me, c + f - 1);
    } else {
      Stands(s, me);
    }
    var w := Window(s.mem, at, f);
    forall j | 0 <= j < f
      ensures w[j] == Slice(s, c, c + f)[j]
    {
      Fetch(s, me, c + j);
      MaskSum(at, j, |s.mem|);
      MaskSum(c, j, |s.mem|);
    }
  }

  lemma Stands(s: RxState<byte>, me: Id)
    requires Inv(s) && me in s.ch.list
    ensures me in s.pos && s.base <= s.pos[me] <= s.hw == s.base + |s.stream|
  {
    assert Reader(s, me);
    hide Mask, Window;
  }

  /**
   The first lock after a restart, with a cursor `u` left from before: it shows what was
   written since exactly when `u` is zero. Otherwise it starts in the middle of that, and,
   when fewer than `u` bytes have been written, claims bytes nobody has written.
   */
  lemma StaleCursor(pos: nat, hw: nat, size: nat, u: nat)
    requires size > 0 && pos <= hw < pos + size && u < size
    ensures var sync := Pointers(Mask(hw, size), Mask(pos, size));
            var bytes := Mask(sync.hwptr - sync.swptr - u, size);
            && (Mask(sync.swptr + u, size) == Mask(pos, size) && bytes == hw - pos <==> u == 0)
            && (pos + u + bytes <= hw <==> u <= hw - pos)
  {
    hide Mask;
    MaskSum(pos, u, size);
    MaskRemaining(pos, hw, 0, size);
    if u <= hw - pos {
      MaskRemaining(pos, hw, u, size);
    }
    if u > 0 && Mask(pos + u, size) == Mask(pos, size) {
      MaskInjective(pos + u, pos, size);
    }
  }

  lemma DescribedFirst(slots: seq<Slot>, ps: seq<Packet>, c: nat, size: nat)
    requires size > 0 && DescribeAll(slots, ps, c, size)
    ensures |ps| <= |slots| && DescribeAll(slots[..|ps|], ps, c, size)
  {
  }

  // ---- Series of calls ---------------------------------------------------

  /** The position after the first `k` bursts, from `c0`. */
  function Reached(gots: seq<seq<Packet>>, k: nat, c0: nat): nat
    requires k <= |gots|
  {
    c0 + Offset(Concat(gots, k), |Concat(gots, k)|)
  }

  /** The slots of each burst describe its packets, from where the bursts before it have come to. */
  ghost predicate Bursts(calls: seq<Call>, slots: seq<seq<Slot>>, gots: seq<seq<Packet>>, c0: nat, hw: nat, size: nat) {
    && |slots| == |gots| == |calls| && size > 0
    && forall i | 0 <= i < |calls| ::
         && |slots[i]| == |gots[i]| && DescribeAll(slots[i], gots[i], Reached(gots, i, c0), size)
         && Returned(calls[i], |gots[i]|, Reached(gots, i + 1, c0), hw)
  }

  lemma NoBursts(c0: nat, hw: nat, size: nat)
    requires size > 0
    ensures Bursts([], [], [], c0, hw, size) && Reached([], 0, c0) == c0
  {
  }

  lemma ReachedPrefix(gots: seq<seq<Packet>>, got: seq<Packet>, k: nat, c0: nat)
    requires k <= |gots|
    ensures Reached(gots + [got], k, c0) == Reached(gots, k, c0)
  {
    hide Offset, Concat;
    ConcatPrefix(gots, [got], k);
  }

  lemma ReachedMore(gots: seq<seq<Packet>>, got: seq<Packet>, c0: nat)
    ensures Reached(gots + [got], |gots| + 1, c0) == Reached(gots, |gots|, c0) + Offset(got, |got|)
  {
    hide Offset, Concat;
    var ps := Concat(gots, |gots|);
    ConcatMore(gots, got);
    OffsetAppend(ps, got, |got|);
    assert |ps + got| == |ps| + |got|;
  }

  lemma BurstsMore(calls: seq<Call>, slots: seq<seq<Slot>>, gots: seq<seq<Packet>>, call: Call, more: seq<Slot>,
                   got: seq<Packet>, c0: nat, hw: nat, now: nat, size: nat)
    requires Bursts(calls, slots, gots, c0, hw, size) && hw <= now
    requires |more| == |got| && DescribeAll(more, got, Reached(gots, |gots|, c0), size)
    requires Returned(call, |got|, Reached(gots, |gots|, c0) + Offset(got, |got|), now)
    ensures Bursts(calls + [call], slots + [more], gots + [got], c0, hw, size)
    ensures Reached(gots + [got], |gots| + 1, c0) == Reached(gots, |gots|, c0) + Offset(got, |got|)
  {
    hide DescribeAll, Reached, Offset;
    var calls', slots', gots' := calls + [call], slots + [more], gots + [got];
    ReachedMore(gots, got, c0);
    forall i | 0 <= i < |calls'|
      ensures |slots'[i]| == |gots'[i]| && DescribeAll(slots'[i], gots'[i], Reached(gots', i, c0), size)
      ensures Returned(calls'[i], |gots'[i]|, Reached(gots', i + 1, c0), hw)
    {
      ReachedPrefix(gots, got, i, c0);
      if i < |calls| {
        ReachedPrefix(gots, got, i + 1, c0);
      }
    }
  }

  class Queue {
    const port: Port<byte>
    var sync: Pointers
    var data: int
    var bytes: nat
    var total: nat
    var swptr: nat
    /** The absolute position reading began at, and the packets handed out since. */
    ghost var from: nat
    ghost var delivered: seq<Packet>

    /** The absolute position of the cursor. */
    ghost function Cursor(swptr: nat): nat
      reads port
    {
      (if port.id in port.kernel.pos then port.kernel.pos[port.id] else 0) + swptr
    }

    /** The controller writes whole frames, and the queue is one of the ring's subscriptions. */
    ghost predicate Linked()
      reads this, port
    {
      && port.Valid() && |port.kernel.mem| == port.size > 0
      && FramedState(port.kernel) && FramedTurns(port.others)
    }

    /** The cursor `(data, swptr, bytes)` follows the packets handed out. */
    ghost predicate At(data: int, swptr: nat, bytes: nat)
      requires port.size > 0
      reads this, port
    {
      && Reading(port.kernel, port.id, port.size, sync, data, swptr, bytes)
      && Delivers(port.kernel, port.id, from, swptr, delivered)
    }

    /** The bytes counted as locked are those passed and those ahead, or too few to be put. */
    predicate Counted(swptr: nat, bytes: nat)
      reads this
    {
      swptr + bytes == total || (swptr == bytes == 0 && total <= port.size / 2)
    }

    ghost predicate Valid()
      reads this, port
    {
      && Linked()
      && (port.Running() ==> At(data, swptr, bytes) && Counted(swptr, bytes))
      && (!port.Running() ==> bytes == 0)
    }

    /** nc_ndp_v1_open_queue */
    constructor (port: Port<byte>)
      requires port.Valid() && !port.Running() && |port.kernel.mem| == port.size > 0
      requires FramedState(port.kernel) && FramedTurns(port.others)
      ensures Valid() && this.port == port && swptr == total == 0 && delivered == []
    {
      this.port := port;
      sync := Pointers(0, 0);
      data, bytes, total, swptr := 0, 0, 0, 0;
      from, delivered := 0, [];
    }

    /** The driver's answer to a sync call that reads on by `k`; `u` and `b` are passed and ahead of that. */
    method Exchange(ghost k: nat, ghost u: nat, ghost b: nat) returns (ok: bool)
      requires Linked()
      requires port.Running() ==>
                 && port.id in port.kernel.pos && port.id in port.kernel.given
                 && Cursor(k) + u + b <= port.kernel.given[port.id] <= port.kernel.base + |port.kernel.stream|
                 && sync.swptr == Mask(Cursor(k), port.size)
                 && Delivers(port.kernel, port.id, from, k + u, delivered)
                 && FramedFrom(port.kernel, Cursor(k) + u + b)
                 && Parse(Slice(port.kernel, Cursor(k) + u, Cursor(k) + u + b)).Some?
      modifies `sync, port
      ensures Linked() && ok == old(port.Running()) == port.Running()
      ensures !ok ==> sync == old(sync)
      ensures ok ==>
                && Synced(old(port.kernel), port.kernel, port.id, k)
                && Delivers(port.kernel, port.id, from, u, delivered)
                && Cursor(u) + b <= port.kernel.hw == port.kernel.base + |port.kernel.stream|
                && FramedFrom(port.kernel, Cursor(u) + b)
                && Parse(Slice(port.kernel, Cursor(u), Cursor(u) + b)).Some?
                && sync == old(sync).(hwptr := Mask(port.kernel.hw, port.size))
    {
      hide Mask, Parse, Inv, FramedState, FramedFrom, Delivers, Slice, RunForeign;
      ghost var was, turn := port.kernel, Now(port.others);
      var answer;
      ok, answer := port.Sync(sync, k);
      sync := answer;
      ForeignFrames(was, port.id, turn, 0);
      if ok {
        SyncedFrames(was, turn, port.kernel, port.id, k, u, b, from, delivered);
      } else {
        FramedAgain(RunForeign(was, port.id, turn), port.kernel, 0);
      }
    }

    /** nc_ndp_v1_rx_lock: be shown everything written so far. */
    method Lock() returns (ok: bool)
      requires Valid() && bytes == 0
      modifies `sync, `data, `bytes, `total, port
      ensures Valid() && ok == old(port.Running()) == port.Running()
      ensures ok ==>
                && Cursor(swptr) == old(Cursor(swptr)) && Cursor(0) == old(Cursor(0))
                && Cursor(swptr) + bytes == port.kernel.hw && swptr + bytes == total
                && old(port.kernel.hw) <= port.kernel.hw
    {
      hide Mask, Parse, Inv, FramedState, FramedFrom, Delivers, Slice, RunForeign;
      ok := Exchange(0, swptr, 0);
      if !ok {
        return;
      }
      ghost var d, b, t := LockedWindow(port.kernel, port.id, port.size, sync, swptr);
      data := sync.swptr + swptr;
      bytes := Mask(sync.hwptr - sync.swptr - swptr, port.size);
      total := Mask(sync.hwptr - sync.swptr, port.size);
    }

    /** The burst loop of a started queue, which began at `c0` after `before` and has taken `got`. */
    ghost predicate Progress(slots: seq<Slot>, before: seq<Packet>, got: seq<Packet>, cnt: nat, c0: nat, p0: nat,
                             cur: (int, nat, nat))
      reads this, port
    {
      && Linked() && port.Running() && At(cur.0, cur.1, cur.2) && Counted(cur.1, cur.2)
      && delivered == before + got && Got(slots, got, cnt, c0, Cursor(cur.1), port.size)
      && Cursor(0) == p0
    }

    /** The burst loop of a queue that is not started. */
    ghost predicate Barred(before: seq<Packet>, cnt: nat, curBytes: nat)
      reads this, port
    {
      Linked() && !port.Running() && delivered == before && cnt == curBytes == 0
    }

    /** When nothing is left of the locked bytes: keep the cursor, and lock again. */
    method Refill(curData: int, curSwptr: nat, ghost slots: seq<Slot>, ghost before: seq<Packet>,
                  ghost got: seq<Packet>, ghost c0: nat, ghost p0: nat)
      returns (ok: bool)
      requires port.Running() ==> Progress(slots, before, got, |got|, c0, p0, (curData, curSwptr, 0))
      requires !port.Running() ==> Barred(before, |got|, 0)
      modifies `sync, `data, `bytes, `total, `swptr, port
      ensures ok == old(port.Running()) == port.Running()
      ensures ok ==>
                && Progress(slots, before, got, |got|, c0, p0, (data, swptr, bytes))
                && (bytes == 0 ==> Cursor(swptr) == port.kernel.hw)
                && old(port.kernel.hw) <= port.kernel.hw
      ensures !ok ==> Barred(before, |got|, bytes)
    {
      hide Mask, Parse, Inv, FramedState, FramedTurns, Reading, Delivers, Got;
      data, swptr, bytes := curData, curSwptr, 0;
      ok := Lock();
    }

    /** The rest of the turn: check the header at the cursor, describe the packet and move past its frame. */
    method TakePacket(packets: array<Slot>, cnt: nat, curData: int, curSwptr: nat, curBytes: nat,
                      ghost before: seq<Packet>, ghost got: seq<Packet>, ghost c0: nat, ghost p0: nat)
      returns (newData: int, newSwptr: nat, newBytes: nat, ghost p: Packet)
      requires cnt < packets.Length && curBytes > 0
      requires Progress(packets[..], before, got, cnt, c0, p0, (curData, curSwptr, curBytes))
      modifies packets, `delivered
      ensures Progress(packets[..], before, got + [p], cnt + 1, c0, p0, (newData, newSwptr, newBytes))
    {
      hide Mask, Inv, Parse, Window, Slice, FramedState, FramedTurns, FramedFrom, Reading, Delivers, Got;
      hide Fits, Align8, Low16, Low32, FrameSize, HeaderRoom, ReadSizes, Malformed, OutOfSync, Advance, Described;
      ghost var h, f := NextFrame(port.kernel, port.id, port.size, sync, curData, curSwptr, curBytes);
      HeaderAtCursor(port.kernel, port.id, port.size, sync, curData, curSwptr, curBytes);
      var sizes := ReadSizes(Window(port.kernel.mem, curData, HEADER_SIZE));
      if Malformed(sizes) {
        assert false;
      }
      if OutOfSync(sizes, curBytes) {
        assert false;
      }
      var headerRoom := Low16(Align8(sizes.headerSize + HEADER_SIZE));
      var dataLength := Low32(sizes.packetSize - headerRoom);
      var slot := Slot(curData + HEADER_SIZE, sizes.headerSize, curData + headerRoom, dataLength);
      var packetSize := Advance(sizes);
      newData, newSwptr, newBytes := curData + packetSize, curSwptr + packetSize, curBytes - packetSize;
      p := Described(sizes);
      DescribedParts(sizes);
      Taken(packets[..], slot, cnt, got, p, c0, Cursor(curSwptr), port.size, curData);
      packets[cnt] := slot;
      DeliversMore(port.kernel, port.id, from, curSwptr, delivered, f, p);
      delivered := delivered + [p];
    }

    /**
     nc_ndp_v1_rx_burst_get. The packets returned are the next ones of the controller's stream,
     in order, each described at the cell its frame starts at; fewer than asked for only
     when everything written has been handed out. Nothing is given back to the controller.
     */
    method BurstGet(packets: array<Slot>, count: nat) returns (cnt: nat, ghost got: seq<Packet>)
      requires Valid() && count <= packets.Length
      modifies `sync, `data, `bytes, `total, `swptr, `delivered, packets, port
      ensures Valid() && port.Running() == old(port.Running())
      ensures cnt == |got| <= count && delivered == old(delivered) + got
      ensures DescribeAll(packets[..], got, old(Cursor(swptr)), port.size)
      ensures !port.Running() ==> cnt == 0
      ensures port.Running() ==>
                && Cursor(0) == old(Cursor(0)) && Cursor(swptr) == old(Cursor(swptr)) + Offset(got, cnt)
                && (cnt < count ==> Cursor(swptr) == port.kernel.hw) && old(port.kernel.hw) <= port.kernel.hw
    {
      hide Mask, Parse, Inv, FramedState, FramedTurns, Reading, Delivers, DescribeAll;
      ghost var before, c0, p0 := delivered, Cursor(swptr), Cursor(0);
      var curData, curSwptr: nat, curBytes: nat := data, swptr, bytes;
      cnt, got := 0, [];
      NoneDescribed(packets[..], c0, port.size);
      while cnt < count
        invariant cnt == |got| <= count
        invariant port.Running() == old(port.Running())
        invariant port.Running() ==> old(port.kernel.hw) <= port.kernel.hw
        invariant port.Running() ==> Progress(packets[..], before, got, cnt, c0, p0, (curData, curSwptr, curBytes))
        invariant !port.Running() ==> Barred(before, cnt, curBytes)
      {
        if curBytes == 0 {
          var ok := Refill(curData, curSwptr, packets[..], before, got, c0, p0);
          if !ok {
            NoneDescribed(packets[..], c0, port.size);
            return 0, got;
          }
          curBytes, curSwptr, curData := bytes, swptr, data;
          if curBytes == 0 {
            return;
          }
        }
        ghost var p;
        curData, curSwptr, curBytes, p := TakePacket(packets, cnt, curData, curSwptr, curBytes, before, got, c0, p0);
        got := got + [p];
        cnt := cnt + 1;
      }
      data, swptr, bytes := curData, curSwptr, curBytes;
      if !port.Running() {
        NoneDescribed(packets[..], c0, port.size);
      }
    }

    /** nc_ndp_v1_rx_unlock: give back every byte handed out. */
    method Unlock()
      requires Valid() && (port.Running() ==> swptr + bytes == total)
      modifies `sync, `total, `swptr, port
      ensures Valid() && port.Running() == old(port.Running())
      ensures port.Running() ==>
                Cursor(0) == Cursor(swptr) == old(Cursor(swptr)) && old(port.kernel.hw) <= port.kernel.hw
      ensures swptr == 0
    {
      hide Mask, Parse, Inv, FramedState, FramedFrom, Delivers, Slice, RunForeign;
      var unlockBytes := total - bytes;
      sync := sync.(swptr := Mask(sync.swptr + unlockBytes, port.size));
      total := total - unlockBytes;
      ghost var u := swptr;
      swptr := 0;
      if port.Running() {
        MaskSum(Cursor(0), u, port.size);
      }
      var ok := Exchange(u, 0, bytes);
    }

    /** nc_ndp_v1_rx_burst_put: give back once more than half a ring has been handed out. */
    method BurstPut()
      requires Valid()
      modifies `sync, `total, `swptr, port
      ensures Valid() && port.Running() == old(port.Running())
      ensures port.Running() ==> Cursor(swptr) == old(Cursor(swptr))
      ensures port.Running() ==> Cursor(0) == if old(swptr) > port.size / 2 then Cursor(swptr) else old(Cursor(0))
      ensures port.Running() ==> swptr <= port.size / 2 && old(port.kernel.hw) <= port.kernel.hw
    {
      if total - bytes > port.size / 2 {
        Unlock();
      }
    }

    /**
     nc_ndp_queue_start. The cursor of an earlier run is not reset, so the queue reads on
     correctly exactly when nothing of it is left.
     */
    method Start(ops: Option<int>) returns (ok: bool)
      requires Valid() && (ops.Some? ==> 0 <= ops.value < port.size)
      modifies this, port
      ensures data == old(data) && bytes == old(bytes) && swptr == old(swptr) && total == old(total)
      ensures port.Running() == (ok || old(port.Running())) && (old(port.Running()) ==> !ok)
      ensures !old(port.Running()) && ops.Some? ==> ok
      ensures !ok ==> Valid() && delivered == old(delivered)
      ensures Linked() && (ok ==> delivered == [] && Cursor(0) == from == port.kernel.seen)
      ensures ok ==> (Valid() <==> swptr == 0 && total <= port.size / 2)
    {
      hide Mask, Parse, Inv, FramedState, RunForeign, Reading, Delivers;
      ghost var was, turn, c := port.kernel, Now(port.others), Cursor(swptr);
      if port.Running() {
        ReadingHere(was, port.id, port.size, sync, data, swptr, bytes);
      }
      var answer;
      ok, answer := port.Start(sync, ops);
      sync := answer;
      ForeignFrames(was, port.id, turn, c + bytes);
      StartFrames(RunForeign(was, port.id, turn), port.kernel);
      if port.Running() && !ok {
        StaysReading(was, port.kernel, port.id, port.size, sync, data, swptr, bytes, from, delivered);
      }
      if ok {
        from, delivered := Cursor(0), [];
        Starting(port.kernel, port.id, port.size, sync, data, swptr);
      }
    }

    /**
     nc_ndp_queue_stop: ask the driver to stop until it does, `busy` being how often the
     controller puts it off. Of the cursor only the locked bytes are forgotten.
     */
    method Stop(busy: nat)
      requires Valid()
      modifies `bytes, port
      ensures Valid() && !port.Running() && bytes == 0
    {
      hide Mask, Parse, Inv, FramedState, FramedFrom, RunForeign, Reading, Delivers;
      var tries: nat := busy;
      while port.Running()
        invariant Linked() && (!port.Running() ==> bytes == 0 || port.Running() != old(port.Running()))
        decreases if port.Running() then tries + 1 else 0
      {
        ghost var was, turn := port.kernel, Now(port.others);
        port.Stop(tries > 0);
        ForeignFrames(was, port.id, turn, 0);
        FramedAgain(RunForeign(was, port.id, turn), port.kernel, 0);
        tries := if tries > 0 then tries - 1 else 0;
      }
      bytes := 0;
    }

    /** One call, and the slots it returns. */
    method Make(call: Call) returns (slots: seq<Slot>, ghost got: seq<Packet>)
      requires Valid() && port.Running()
      modifies this, port
      ensures Valid() && port.Running() && from == old(from) && delivered == old(delivered) + got
      ensures |slots| == |got| && DescribeAll(slots, got, old(Cursor(swptr)), port.size)
      ensures Cursor(swptr) == old(Cursor(swptr)) + Offset(got, |got|) && old(port.kernel.hw) <= port.kernel.hw
      ensures Returned(call, |got|, Cursor(swptr), old(port.kernel.hw))
      ensures call.Put? ==> swptr <= port.size / 2
    {
      hide Mask, Parse, Inv, FramedState, FramedTurns, Reading, Delivers, DescribeAll;
      match call {
        case Get(count) =>
          var packets := new Slot[count](_ => Slot(0, 0, 0, 0));
          var cnt;
          cnt, got := BurstGet(packets, count);
          DescribedFirst(packets[..], got, old(Cursor(swptr)), port.size);
          slots := packets[..cnt];
        case Put =>
          NoneDescribed([], Cursor(swptr), port.size);
          BurstPut();
          slots, got := [], [];
      }
    }

    /**
     Any series of gets and puts, whatever the controller and the other subscriptions do in
     between. The slots returned, one burst after another, describe the next packets of the
     stream, each at the position its frame has in it; a get returns less than it is asked for
     only when it has come past all that was written before; all packets since reading began
     are exactly the packets of the stream up to the cursor.
     */
    method Run(calls: seq<Call>) returns (slots: seq<seq<Slot>>, ghost gots: seq<seq<Packet>>)
      requires Valid() && port.Running()
      modifies this, port
      ensures Valid() && port.Running()
      ensures Bursts(calls, slots, gots, old(Cursor(swptr)), old(port.kernel.hw), port.size)
      ensures delivered == old(delivered) + Concat(gots, |gots|)
      ensures Cursor(swptr) == Reached(gots, |gots|, old(Cursor(swptr)))
      ensures from == old(from)
           && port.kernel.base <= from <= Cursor(swptr) <= port.kernel.base + |port.kernel.stream|
      ensures Parse(Slice(port.kernel, from, Cursor(swptr))) == Some(delivered)
      ensures calls != [] && calls[|calls| - 1].Put? ==> swptr <= port.size / 2
    {
      hide Mask, Parse, Inv, FramedState, FramedTurns, Reading, Delivers, DescribeAll, Offset;
      hide Bursts, Reached, Returned;
      slots, gots := [], [];
      ghost var c0, hw0 := Cursor(swptr), port.kernel.hw;
      NoBursts(c0, hw0, port.size);
      for i := 0 to |calls|
        invariant Valid() && port.Running() && |gots| == i && from == old(from) && hw0 <= port.kernel.hw
        invariant delivered == old(delivered) + Concat(gots, i)
        invariant Cursor(swptr) == Reached(gots, i, c0) && Bursts(calls[..i], slots, gots, c0, hw0, port.size)
        invariant i > 0 && calls[i - 1].Put? ==> swptr <= port.size / 2
      {
        ghost var before, hw := delivered, port.kernel.hw;
        var more;
        ghost var got;
        more, got := Make(calls[i]);
        BurstsMore(calls[..i], slots, gots, calls[i], more, got, c0, hw0, hw, port.size);
        assert calls[..i + 1] == calls[..i] + [calls[i]];
        assert delivered == before + got;
        ConcatMore(gots, got);
        slots, gots := slots + [more], gots + [got];
      }
      assert calls[..|calls|] == calls;
      DeliversStream(port.kernel, port.id, from, swptr, delivered);
    }
  }
}
