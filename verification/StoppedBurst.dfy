/**
 What becomes of a burst asked of a protocol 2 transmit queue after one was asked of it while
 it was stopped (`TxQueueV2.Queue.Run` stops before it): a run of a ring of four cells.
 */
module StoppedBurst {
  import opened Ring
  import opened Options
  import opened ChannelCalls
  import opened TxArbiter
  import opened PacketHeaders
  import opened TxQueueV2

  /** Another subscription starts the channel, takes a window, writes `x` and publishes it. */
  function OtherPublishes(x: Header): seq<Event<Header>> {
    [Event.Start(1, Some(0)), Event.Sync(1, Pointers(0, 3)), Event.Write(1, 0, x), Event.Sync(1, Pointers(1, 1))]
  }

  /** The channel of four cells after that, as subscription 0 finds it when it starts. */
  ghost function Met(z: Header, x: Header): TxState<Header> {
    RunForeign(Initial([z, z, z, z]), 0, OtherPublishes(x))
  }

  ghost function Published(z: Header, x: Header): TxState<Header> {
    TxState(State(4, 0, 1, None, 1, [1], map[1 := Pointers(1, 1)]), 0, 0, 1, map[1 := 0], [x, z, z, z],
            map[1 := [x]], [x], [])
  }

  lemma Residues()
    ensures Mask(-2, 4) == 2 && Mask(-1, 4) == 3
    ensures Mask(0, 4) == 0 && Mask(1, 4) == 1 && Mask(2, 4) == 2 && Mask(3, 4) == 3
  {
    assert Mask(-1, 4) == Mask(3, 4);
    assert Mask(-2, 4) == Mask(2, 4);
  }

  /** The other's window, taken and filled. */
  ghost function Filling(z: Header, x: Header): TxState<Header> {
    TxState(State(4, 0, 0, Some(1), 1, [1], map[1 := Pointers(0, 3)]), 0, 0, 0, map[1 := 3], [x, z, z, z],
            map[1 := []], [], [])
  }

  lemma OtherFills(z: Header, x: Header)
    ensures var es, s0 := OtherPublishes(x), Initial([z, z, z, z]);
            Step(Step(Step(s0, es[0]), es[1]), es[2]) == Filling(z, x)
  {
    Residues();
    hide Mask;
    var m, es := [z, z, z, z], OtherPublishes(x);
    var s1 := Step(Initial(m), es[0]);
    assert s1 == TxState(State(4, 0, 0, None, 1, [1], map[1 := Pointers(0, 0)]), 0, 0, 0, map[1 := 0], m,
                         map[], [], []);
    var s2 := Step(s1, es[1]);
    assert Window(m, 0, 0) == [];
    assert s2 == Filling(z, x).(mem := m);
  }

  lemma OtherReleases(z: Header, x: Header)
    ensures Step(Filling(z, x), OtherPublishes(x)[3]) == Published(z, x)
  {
    Residues();
    hide Mask;
    var s := Filling(z, x);
    var req := Pointers(1, 1);
    assert Publishes(s, 1, req) == 1 && Window(s.mem, 0, 1) == [x];
    assert Answer(s, 1, req) == TxResult(0, 1, Nobody, req);
    hide Window, Answer, Publishes;
    assert [] + [x] == [x];
  }

  /** What the other's steps come to. */
  lemma OthersFirst(z: Header, x: Header)
    ensures Inv(Initial([z, z, z, z])) && Met(z, x) == Published(z, x)
  {
    InitialInv([z, z, z, z]);
    OtherFills(z, x);
    OtherReleases(z, x);
    hide Mask, Step, Inv;
    var s0, es := Initial([z, z, z, z]), OtherPublishes(x);
    var s1 := Step(s0, es[0]);
    var s2 := Step(s1, es[1]);
    var s3 := Step(s2, es[2]);
    assert es[1..][1..] == es[2..] && es[2..][1..] == es[3..] && es[3..][1..] == [];
    assert RunForeign(s3, 0, es[3..]) == Published(z, x);
    assert RunForeign(s2, 0, es[2..]) == Published(z, x);
    assert RunForeign(s1, 0, es[1..]) == Published(z, x);
  }

  /** What the queue's start and the lock of its next get come to. */
  ghost function Locked(z: Header, x: Header): TxState<Header> {
    TxState(State(4, 0, 1, Some(0), 2, [1, 0], map[1 := Pointers(1, 1), 0 := Pointers(1, 3)]), 0, 0, 1,
            map[1 := 0, 0 := 2], [x, z, z, z], map[1 := [x], 0 := []], [x], [])
  }

  lemma LockAstray(z: Header, x: Header)
    ensures var sync := FailedLock(Pointers(0, 0), 4);
            && DoSync(DoStart(Met(z, x), 0, None), 0, FailedLock(sync, 4)) == Locked(z, x)
            && Rebase(0, sync, Pointers(1, 3), 4) == (0, 3)
  {
    OthersFirst(z, x);
    Residues();
    hide Mask, RunForeign;
    var s := DoStart(Met(z, x), 0, None);
    var req := Pointers(0, 3);
    assert Publishes(s, 0, req) == 0 && Window(s.mem, s.sw, 0) == [];
    assert Answer(s, 0, req) == TxResult(0, 1, Caller, Pointers(1, 3));
    hide Window, Answer, Publishes;
  }

  /** The flush publishes none of the window, and lets it go. */
  lemma FlushAstray(s: TxState<Header>, z: Header, x: Header, h: Header)
    requires s == Locked(z, x).(mem := [h, z, z, z])
    ensures var s' := DoSync(s, 0, Pointers(1, 1));
            Sent(s', 0) == [] && s'.published == [x] && Granted(s', 0) == 0 && s'.mem == s.mem && s'.hw == 0
  {
    Residues();
    hide Mask;
    var req := Pointers(1, 1);
    assert Publishes(s, 0, req) == 0 && Window(s.mem, s.sw, 0) == [];
    assert Answer(s, 0, req) == TxResult(0, 1, Nobody, req);
    hide Window, Answer, Publishes;
    assert [x] + [] == [x];
  }

  /**
   A get of a stopped queue, whose lock fails; then another subscription publishes `x`, and
   the queue starts, gets one packet and flushes. The get returns its count, with the header
   `h` at the cursor; but that is a cell the queue was not granted. The flush publishes
   nothing, and the controller finds `h` where the other published `x`.
   */
  lemma StoppedGetLoses(z: Header, x: Header, h: Header)
    ensures var sync := FailedLock(Pointers(0, 0), 4);
            var locked := DoSync(DoStart(Met(z, x), 0, None), 0, FailedLock(sync, 4));
            && 0 in locked.ch.ptr
            && var (rhp, available) := Rebase(0, sync, locked.ch.ptr[0], 4);
            && rhp == 0 && available >= 1 && |locked.mem| == 4
            && var flushed := DoSync(locked.(mem := Store(locked.mem, 0, [h])), 0, Pointers(rhp + 1, rhp + 1));
            && Sent(flushed, 0) == [] && flushed.published == [x]
            && |flushed.mem| == 4 && Window(flushed.mem, flushed.hw, 1) == [h]
  {
    LockAstray(z, x);
    Residues();
    hide Mask, RunForeign, DoSync, DoStart, Rebase, FailedLock;
    StoreOne([x, z, z, z], 0, h);
    assert [x, z, z, z][0 := h] == [h, z, z, z];
    FlushAstray(Locked(z, x).(mem := [h, z, z, z]), z, x, h);
  }
}
