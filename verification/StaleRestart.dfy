/**
 What a receive queue does when it is stopped and started again with something of its first
 run left, in both protocols: for any run, and at one input each.
 */
module StaleRestart {
  import opened Ring
  import opened Options
  import opened Bytes
  import opened ChannelCalls
  import opened RxArbiter
  import opened RxPorts
  import opened PacketHeaders
  import Framing
  import V1 = RxQueueV1
  import V2 = RxQueueV2

  // ---- Protocol 2 --------------------------------------------------------

  /**
   Stop, start and a get of no more packets than were shown before the stop. The get asks nothing
   of the driver: it hands out the cells from where reading began anew, of which only those
   below `hw` have been written.
   */
  method GetLeftovers(q: V2.Queue, busy: nat, ops: Option<int>, packets: array<Received>, count: nat)
    returns (ok: bool, ghost got: seq<Header>)
    requires q.Valid() && q.port.Running() && !q.exclusive && count <= q.pktsAvailable && count <= packets.Length
    requires ops.Some? ==> 0 <= ops.value < q.port.size
    modifies q, q.port, packets
    ensures ops.Some? ==> ok
    ensures ok ==>
              && q.port.Valid() && q.port.Running() && q.port.kernel.seen <= q.port.kernel.hw
              && |got| == count && V2.HandedOut(packets[..], Mask(q.port.kernel.seen, q.port.size), got, count)
              && got == Window(q.port.kernel.mem, Mask(q.port.kernel.seen, q.port.size), count)
    ensures ok ==>
              && q.port.kernel.base <= q.port.kernel.seen
              && q.port.kernel.hw == q.port.kernel.base + |q.port.kernel.stream|
              && forall j | 0 <= j < count && q.port.kernel.seen + j < q.port.kernel.hw ::
                   got[j] == q.port.kernel.stream[q.port.kernel.seen + j - q.port.kernel.base]
  {
    hide Mask, Window, Inv, Slice, V2.HandedOut, V2.Reading;
    q.Stop(busy);
    ok := q.Start(ops);
    if !ok {
      got := [];
      return;
    }
    var cnt;
    cnt, got := q.BurstGet(packets, count);
    ReadFrom(q.port.kernel, q.port.id, got, q.port.size);
  }

  lemma ReadFrom(s: RxState<Header>, me: Id, got: seq<Header>, n: nat)
    requires n == |s.mem| > 0 && Inv(s) && me in s.ch.list && (me in s.pos ==> s.pos[me] == s.seen)
    requires got == Window(s.mem, Mask(s.seen, n), |got|)
    ensures s.base <= s.seen <= s.hw == s.base + |s.stream|
    ensures forall j | 0 <= j < |got| && s.seen + j < s.hw :: got[j] == s.stream[s.seen + j - s.base]
  {
    assert Reader(s, me);
    hide Mask;
    forall j | 0 <= j < |got| && s.seen + j < s.hw
      ensures got[j] == s.stream[s.seen + j - s.base]
    {
      Fetch(s, me, s.seen + j);
      MaskSum(s.seen, j, n);
    }
  }

  // ---- Protocol 1 --------------------------------------------------------

  /** Packets handed out have moved the cursor. */
  lemma MovedOn(s: RxState<byte>, me: Id, from: nat, swptr: nat, before: seq<Framing.Packet>, got: seq<Framing.Packet>)
    requires V1.Delivers(s, me, from, swptr, before + got) && got != []
    ensures Framing.Offset(got, |got|) > 0
  {
    var b := Slice(s, from, s.pos[me] + swptr);
    Framing.RoundTrip(b, before + got);
    var last := got[|got| - 1];
    assert last == (before + got)[|before| + |got| - 1];
    Framing.FitsTakesEight(last);
  }

  /** A cursor is less than a ring away from what is given back. */
  lemma WithinRing(s: RxState<byte>, me: Id, size: nat, sync: Pointers, data: int, swptr: nat, bytes: nat)
    requires Inv(s) && me in s.ch.list && s.ch.size == size > 0
    requires V1.Reading(s, me, size, sync, data, swptr, bytes)
    ensures swptr < size
  {
    hide Mask, Framing.Parse;
    assert Reader(s, me);
  }

  lemma SeenBehind(s: RxState<byte>)
    requires Inv(s)
    ensures s.seen <= s.hw < s.seen + s.ch.size
  {
  }

  lemma Astray(pos: nat, hw: nat, size: nat, u: nat)
    requires size > 0 && pos <= hw < pos + size && 0 < u < size
    ensures StartsAstray(pos, hw, size, u)
  {
    hide Mask;
    V1.StaleCursor(pos, hw, size, u);
    if Mask(pos + u, size) == Mask(pos, size) {
      MaskInjective(pos + u, pos, size);
    }
    MaskSum(pos, u, size);
  }

  /**
   A get that hands something out, stop and start. The queue is never as it must be: its cursor
   is still moved on by what was handed out, so the next lock starts inside what has been written
   since, or counts bytes that nobody has written.
   */
  method GetStopStart(q: V1.Queue, packets: array<V1.Slot>, count: nat, busy: nat, ops: Option<int>)
    returns (cnt: nat, ok: bool)
    requires q.Valid() && q.port.Running() && count <= packets.Length && (ops.Some? ==> 0 <= ops.value < q.port.size)
    modifies q, q.port, packets
    ensures ops.Some? ==> ok
    ensures cnt > 0 <== count > 0 && old(q.Cursor(q.swptr)) < old(q.port.kernel.hw)
    ensures cnt > 0 && ok ==> !q.Valid() && q.swptr > 0
    ensures cnt > 0 && ok ==>
              && q.Cursor(0) == q.port.kernel.seen <= q.port.kernel.hw
              && StartsAstray(q.port.kernel.seen, q.port.kernel.hw, q.port.size, q.swptr)
  {
    hide Mask, Inv, Framing.Parse, V1.FramedState, V1.FramedTurns, V1.Reading, V1.Delivers, V1.DescribeAll;
    hide StartsAstray;
    ghost var before := q.delivered;
    ghost var got;
    cnt, got := q.BurstGet(packets, count);
    if cnt > 0 {
      MovedOn(q.port.kernel, q.port.id, q.from, q.swptr, before, got);
    }
    WithinRing(q.port.kernel, q.port.id, q.port.size, q.sync, q.data, q.swptr, q.bytes);
    q.Stop(busy);
    ok := q.Start(ops);
    if ok && cnt > 0 {
      SeenBehind(q.port.kernel);
      Astray(q.port.kernel.seen, q.port.kernel.hw, q.port.size, q.swptr);
    }
  }

  /** What a lock computes from a cursor `u` bytes on, `hw` having been written and reading having begun at `pos`. */
  ghost predicate StartsAstray(pos: nat, hw: nat, size: nat, u: nat)
    requires size > 0
  {
    var bytes := Mask(Mask(hw, size) - Mask(pos, size) - u, size);
    && Mask(Mask(pos, size) + u, size) != Mask(pos, size)
    && (pos + u + bytes <= hw <==> u <= hw - pos)
  }

  // ---- A subscription of its own -----------------------------------------

  /** Subscription 0 starts at pointer 0. */
  ghost function Started<T>(m: seq<T>): RxState<T> {
    RxState(State(|m|, 0, 0, None, 1, [0], map[0 := Pointers(0, 0)]), 0, 0, 0, map[0 := 0], map[0 := 0], m, 0, [])
  }

  /** The controller has written `b`. */
  ghost function Unseen<T>(m: seq<T>, b: seq<T>): RxState<T>
    requires |m| > 0
  {
    Started(m).(hw := |b|, mem := Store(m, 0, b), stream := b)
  }

  /** A lock has shown it. */
  ghost function Locked<T>(m: seq<T>, b: seq<T>): RxState<T>
    requires |m| > 0
  {
    Unseen(m, b).(ch := State(|m|, |b|, 0, None, 1, [0], map[0 := Pointers(|b|, 0)]),
                  seen := |b|, given := map[0 := |b|])
  }

  /** The subscription has stopped. */
  ghost function Stopped<T>(m: seq<T>, b: seq<T>): RxState<T>
    requires |m| > 0
  {
    Locked(m, b).(ch := State(|m|, |b|, 0, None, 0, [], map[]))
  }

  /** It has started again where the controller stands. */
  ghost function Restarted<T>(m: seq<T>, b: seq<T>): RxState<T>
    requires |m| > 0
  {
    var n := |b|;
    RxState(State(|m|, n, n, None, 1, [0], map[0 := Pointers(n, n)]), n, n, n, map[0 := n], map[0 := n],
            Store(m, 0, b), n, [])
  }

  ghost function Calls<T>(b: seq<T>): seq<Event<T>> {
    [Event<T>.Start(0, Some(0)), Hardware(b), Sync(0, 0), Event<T>.Stop(0, false), Event<T>.Start(0, Some(|b|))]
  }

  ghost function States<T>(m: seq<T>, b: seq<T>): seq<RxState<T>>
    requires |m| > 0
  {
    [Initial(m), Started(m), Unseen(m, b), Locked(m, b), Stopped(m, b), Restarted(m, b)]
  }

  /** One step of a run. */
  ghost predicate Goes<T>(s: RxState<T>, e: Event<T>, s': RxState<T>) {
    s.ch.WellFormed() && |s.mem| > 0 && Step(s, e) == s'
  }

  lemma Written<T>(m: seq<T>, b: seq<T>)
    requires |b| < |m|
    ensures Goes(Initial(m), Event<T>.Start(0, Some(0)), Started(m))
    ensures Goes(Started(m), Hardware(b), Unseen(m, b))
  {
    assert Mask(0, |m|) == 0;
    hide Mask, Store;
    assert [] + b == b;
  }

  lemma ShownByLock<T>(m: seq<T>, b: seq<T>)
    requires |b| < |m|
    ensures Goes(Unseen(m, b), Sync(0, 0), Locked(m, b))
  {
    assert Mask(0, |m|) == 0 && Mask(|b|, |m|) == |b|;
    hide Mask, Store;
    var ptr: map<Id, Pointers> := map[0 := Pointers(|b|, 0)];
    assert Started(m).ch.ptr[0 := Pointers(|b|, 0)] == ptr;
    assert ReadPointers([0], ptr) == [0];
    assert Farthest(0, |m|, 0, [0], 1).1 == 0 by {
      assert Farthest(0, |m|, 0, [0], 0) == (0, 0);
    }
    assert RxSync(Unseen(m, b).ch, 0, 0, |b|) == Locked(m, b).ch;
  }

  lemma StoppedAndStarted<T>(m: seq<T>, b: seq<T>)
    requires |b| < |m|
    ensures Goes(Locked(m, b), Event<T>.Stop(0, false), Stopped(m, b))
    ensures Goes(Stopped(m, b), Event<T>.Start(0, Some(|b|)), Restarted(m, b))
  {
    assert Mask(0, |m|) == 0 && Mask(|b|, |m|) == |b|;
    hide Mask, Store;
    assert Remove([0], 0) == [];
    assert map[0 := Pointers(|b|, 0)] - {0} == map[];
  }

  /** Start, a lock of what is then written, stop and start. */
  lemma RestartRun<T>(m: seq<T>, b: seq<T>)
    requires |b| < |m|
    ensures Inv(Initial(m)) && IsRun(Initial(m), Calls(b), States(m, b))
  {
    hide Mask, Started, Unseen, Locked, Stopped, Restarted, Initial, Inv, Step;
    InitialInv(m);
    Written(m, b);
    ShownByLock(m, b);
    StoppedAndStarted(m, b);
  }

  /**
   Protocol 2, four cells, two headers written. The first get locks and hands out `x`, one packet
   of two. After the restart the cursor is at pointer 2 and the count still one, so a get of one
   packet asks nothing of the driver: it hands out what memory held before the controller ever
   wrote, at the position where the controller stands.
   */
  lemma LeftoverRun(z: Header, x: Header, y: Header)
    ensures var m, b := [z, z, z, z], [x, y];
            && IsRun(Initial(m), Calls(b), States(m, b))
            && V2.Counted(0, Locked(m, b).ch.ptr[0].hwptr, 4) == (0, 2)
            && var s := Restarted(m, b);
            && s.hw == s.seen == s.pos[0] == Mask(s.seen, 4) == 2 && s.stream == []
            && Window(s.mem, Mask(s.seen, 4), 2 - 1) == [z]
  {
    var m, b := [z, z, z, z], [x, y];
    RestartRun(m, b);
    assert Mask(0, 4) == 0 && Mask(1, 4) == 1 && Mask(2, 4) == 2;
    hide Mask, IsRun, States, Calls;
    assert b[1..] == [y];
    StoreOne(m[0 := x], 1, y);
    assert m[0 := x][1 := y][2] == z;
  }

  /** The frame of a packet without data or metadata. */
  function EmptyFrame(): (b: seq<byte>)
    ensures |b| == 8
  {
    Framing.Header(Framing.Packet(0, 0)) + [0, 0, 0, 0]
  }

  lemma EmptyFrameParses()
    ensures Framing.Parse(EmptyFrame()) == Some([Framing.Packet(0, 0)])
  {
    hide Framing.Header;
    var p := Framing.Packet(0, 0);
    assert Framing.FrameSize(p) == 8;
    assert Framing.Offset([p], 1) == Framing.Offset([p], 0) + Framing.FrameSize(p);
    assert Framing.HeaderAt(EmptyFrame(), 0, p);
    assert Framing.Encodes(EmptyFrame(), [p]);
    Framing.RoundTrip(EmptyFrame(), [p]);
  }

  /**
   Protocol 1, sixteen bytes, one frame of eight, which is shown and handed out. After the restart
   a lock, though nothing is written, counts eight bytes behind the position where the controller
   stands.
   */
  lemma FrameRun(m: seq<byte>)
    requires |m| == 16
    ensures Framing.Parse(EmptyFrame()) == Some([Framing.Packet(0, 0)])
    ensures IsRun(Initial(m), Calls(EmptyFrame()), States(m, EmptyFrame()))
    ensures var s := Restarted(m, EmptyFrame());
            && s.hw == s.seen == s.pos[0] == 8 && s.stream == []
            && Mask(Mask(s.hw, 16) - Mask(s.seen, 16) - 8, 16) == 8
  {
    hide EmptyFrame, Framing.Parse, Store, IsRun, States, Calls;
    EmptyFrameParses();
    assert Mask(-8, 16) == Mask(8, 16) == 8;
    hide Mask;
    RestartRun(m, EmptyFrame());
  }
}
