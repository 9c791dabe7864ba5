/**
 The user side of a protocol 2 transmit queue (`ndp_tx.h`): the ring holds packet
 headers, each with a buffer of its own at an offset the driver fixed. The cursor
 `rhp` counts headers and runs up to twice the ring before it is brought back.
 */
module TxQueueV2 {
  import opened Ring
  import opened Sequences
  import opened Options
  import opened ChannelCalls
  import opened TxArbiter
  import opened TxPorts
  import opened PacketHeaders

  /** `struct ndp_packet` with the ring index of the header and buffer it was given. */
  datatype Slot = Slot(request: Request, index: int)

  predicate Sendable(slots: seq<Slot>, frameMin: nat, frameMax: nat) {
    forall i | 0 <= i < |slots| :: Describe(slots[i].request, frameMin, frameMax).Some?
  }

  function Headers(slots: seq<Slot>, frameMin: nat, frameMax: nat): (hs: seq<Header>)
    requires Sendable(slots, frameMin, frameMax)
    ensures |hs| == |slots|
  {
    seq(|slots|, i requires 0 <= i < |slots| => Describe(slots[i].request, frameMin, frameMax).value)
  }

  /** The cursor and the packets it may take after a sync call answered `after` to `before`. */
  function Rebase(rhp: int, before: Pointers, after: Pointers, n: nat): (int, nat)
    requires n > 0
  {
    var rhp' := if before.swptr == before.hwptr then after.hwptr else rhp;
    (rhp', Mask(after.swptr - rhp', n))
  }

  /** A lock attempt on a stopped queue leaves pointers that claim a window. */
  function FailedLock(sync: Pointers, n: nat): Pointers
    requires n > 0
  {
    sync.(swptr := Mask(sync.hwptr - 1, n))
  }

  lemma FailedLockClaims(sync: Pointers, n: nat)
    requires n > 1 && 0 <= sync.hwptr < n
    ensures FailedLock(sync, n).swptr != sync.hwptr
  {
    if sync.hwptr > 0 {
      assert Mask(sync.hwptr - 1, n) == sync.hwptr - 1;
    } else {
      assert Mask(-1, n) == Mask(n - 1, n) == n - 1;
    }
  }

  /** One more header behind those placed. */
  lemma PlaceHeader(mem: seq<Header>, sw: nat, u: nat, h: Header)
    requires |mem| > 0 && u < |mem|
    ensures Window(Store(mem, sw + u, [h]), sw, u + 1) == Window(mem, sw, u) + [h]
  {
    StoreWindow(mem, sw, u, [h]);
  }

  /** The cursor brought back into the ring stands for the same position. */
  lemma Wrapped(sw: nat, u: nat, n: nat)
    requires n > 0 && u < n
    ensures var rhp := Mask(sw, n) + u;
            Mask(sw + u, n) == if rhp >= n then rhp - n else rhp
  {
    MaskSum(sw, u, n);
  }

  lemma InRange(x: int, n: int)
    requires 0 <= x < n
    ensures Mask(x, n) == x
  {
  }

  lemma WindowPrefix(mem: seq<Header>, sw: nat, a: seq<Header>, b: seq<Header>)
    requires |mem| > 0 && Window(mem, sw, |a| + |b|) == a + b
    ensures Window(mem, sw, |a|) == a
  {
    WindowSplit(mem, sw, |a|, |b|);
    SplitEqual(Window(mem, sw, |a|), Window(mem, sw + |a|, |b|), a, b);
  }

  datatype Call =
    | Get(requests: seq<Request>)
    | Put
    | Flush
    | Start(ops: Option<int>)
    | Stop(busy: nat)

  function Blank(requests: seq<Request>): seq<Slot> {
    seq(|requests|, i requires 0 <= i < |requests| => Slot(requests[i], 0))
  }

  /** A call's count is all or nothing, and nothing when a packet is larger than a frame can be. */
  predicate Counts(call: Call, count: nat, frameMin: nat, frameMax: nat) {
    count == 0 || (call.Get? && count == |call.requests| && Sendable(Blank(call.requests), frameMin, frameMax))
  }

  /** The headers a call adds by the count it returned. */
  function AcceptedBurst(call: Call, count: nat, frameMin: nat, frameMax: nat): seq<Header>
    requires Counts(call, count, frameMin, frameMax)
  {
    if count == 0 then [] else Headers(Blank(call.requests), frameMin, frameMax)
  }

  predicate AllCount(calls: seq<Call>, counts: seq<nat>, frameMin: nat, frameMax: nat) {
    |counts| <= |calls| && forall i | 0 <= i < |counts| :: Counts(calls[i], counts[i], frameMin, frameMax)
  }

  /** The headers of the first `k` calls that returned their count. */
  function AcceptedBursts(calls: seq<Call>, counts: seq<nat>, frameMin: nat, frameMax: nat, k: nat): seq<Header>
    requires k <= |counts| && AllCount(calls, counts, frameMin, frameMax)
  {
    if k == 0 then []
    else
      AcceptedBursts(calls, counts, frameMin, frameMax, k - 1)
      + AcceptedBurst(calls[k - 1], counts[k - 1], frameMin, frameMax)
  }

  lemma {:induction false} AcceptedPrefix(calls: seq<Call>, counts: seq<nat>, n: nat, frameMin: nat, frameMax: nat,
                                          k: nat)
    requires k <= |counts| < |calls| && AllCount(calls, counts, frameMin, frameMax)
    requires Counts(calls[|counts|], n, frameMin, frameMax)
    ensures AllCount(calls, counts + [n], frameMin, frameMax)
    ensures AcceptedBursts(calls, counts + [n], frameMin, frameMax, k)
         == AcceptedBursts(calls, counts, frameMin, frameMax, k)
    decreases k
  {
    hide Counts, AcceptedBurst;
    if k > 0 {
      AcceptedPrefix(calls, counts, n, frameMin, frameMax, k - 1);
    }
  }

  /** How a call that finds the queue started or not (`before`) can leave it. */
  predicate Leads(call: Call, before: bool, after: bool) {
    match call
    case Start(_) => before ==> after
    case Stop(_) => !after
    case _ => after == before
  }

  /** `ran` tells whether the queue was started before each call, and after the last. */
  predicate Statuses(calls: seq<Call>, ran: seq<bool>) {
    |ran| <= |calls| + 1 && forall i | 0 <= i < |ran| - 1 :: Leads(calls[i], ran[i], ran[i + 1])
  }

  /** Packets were asked of the queue while it was stopped, and it has not been flushed since. */
  predicate Muddled(calls: seq<Call>, ran: seq<bool>, k: nat)
    requires k <= |calls| && k <= |ran|
  {
    k > 0 && Muddles(calls[k - 1], ran[k - 1], Muddled(calls, ran, k - 1))
  }

  predicate Muddles(call: Call, started: bool, before: bool) {
    match call
    case Get(requests) => before || (!started && requests != [])
    case Flush => false
    case Stop(_) => before && !started
    case _ => before
  }

  lemma {:induction false} MuddledPrefix(calls: seq<Call>, ran: seq<bool>, b: bool, k: nat)
    requires k <= |calls| && k <= |ran|
    ensures Muddled(calls, ran + [b], k) == Muddled(calls, ran, k)
    decreases k
  {
    if k > 0 {
      MuddledPrefix(calls, ran, b, k - 1);
    }
  }

  class Queue {
    const port: Port<Header>
    const frameMin: nat
    const frameMax: nat
    var sync: Pointers
    var rhp: nat
    /** The header and offset pointers, as indices from the start of their mappings. */
    var hdr: int
    var off: int
    var pktsAvailable: nat
    /** The headers of the accepted bursts, in order. */
    ghost var accepted: seq<Header>

    ghost function Granted(): nat
      reads port
    {
      TxArbiter.Granted(port.kernel, port.id)
    }

    ghost function Out(): seq<Header>
      reads port
    {
      Sent(port.kernel, port.id)
    }

    ghost function InWindow(n: nat): seq<Header>
      requires |port.kernel.mem| > 0
      reads port
    {
      Window(port.kernel.mem, port.kernel.sw, n)
    }

    /** How many headers are placed and not published. */
    ghost function Placed(): int
      reads this, port
    {
      if Granted() > 0 then rhp - sync.hwptr else 0
    }

    /** All that holds even after a burst was asked of a stopped queue. */
    ghost predicate Sound()
      reads this, port
    {
      && port.Valid() && |port.kernel.mem| == port.size > 0
      && 0 <= sync.hwptr < port.size
      && rhp < 2 * port.size && hdr == off == rhp
      && (Granted() > 0 ==>
            sync == Pointers(Mask(port.kernel.sw, port.size), Mask(port.kernel.sw + Granted(), port.size)))
      && 0 <= Placed() && Placed() + pktsAvailable <= Granted()
      && Out() + InWindow(Placed()) == accepted
    }

    /** The pointers tell whether a window is held. */
    ghost predicate Valid()
      reads this, port
    {
      Sound() && (Granted() == 0 ==> sync.swptr == sync.hwptr)
    }

    /** nc_ndp_v2_open_queue */
    constructor (port: Port<Header>, frameMin: nat, frameMax: nat)
      requires port.Valid() && !port.Running() && Sent(port.kernel, port.id) == []
      ensures Valid() && this.port == port && accepted == []
    {
      this.port, this.frameMin, this.frameMax := port, frameMin, frameMax;
      sync := Pointers(0, 0);
      rhp, hdr, off, pktsAvailable := 0, 0, 0, 0;
      accepted := [];
      new;
      hide Mask, Inv, Window;
      WindowBound(port.kernel, port.id);
      if Granted() > 0 {
        WindowIsStarted(port.kernel, port.id);
      }
      EmptyWindow(port.kernel.mem, port.kernel.sw);
    }

    /** The pointers differ exactly when a window is held. */
    lemma HoldsWindow()
      requires Valid()
      ensures sync.swptr != sync.hwptr <==> Granted() > 0
      ensures Granted() > 0 ==> port.Running()
      ensures Granted() < port.size
    {
      WindowBound(port.kernel, port.id);
      if Granted() > 0 {
        WindowIsStarted(port.kernel, port.id);
        hide Mask, Inv;
        MaskDistance(port.kernel.sw, port.kernel.sw + Granted(), port.size);
        MaskDistance(port.kernel.sw, port.kernel.sw, port.size);
      }
    }

    lemma Holding()
      requires Sound()
      ensures (Granted() > 0 ==> port.Running()) && Granted() < port.size
    {
      WindowBound(port.kernel, port.id);
      if Granted() > 0 {
        WindowIsStarted(port.kernel, port.id);
      }
    }

    /** The sync call of a lock attempt: a window held only grows. */
    method Ask() returns (ok: bool)
      requires Sound() && (port.Running() ==> Valid())
      modifies `sync, port
      ensures port.Valid() && |port.kernel.mem| == port.size && Granted() < port.size
      ensures Out() == old(Out()) && ok == old(port.Running()) == port.Running()
      ensures ok ==> sync == Pointers(Mask(port.kernel.sw, port.size), Mask(port.kernel.sw + Granted(), port.size))
      ensures ok ==> Granted() >= old(Granted()) && Fully(port.kernel, port.id)
      ensures !ok ==> sync == FailedLock(old(sync), port.size) && Granted() == 0
      ensures old(Granted()) > 0 ==> sync.hwptr == old(sync.hwptr)
      ensures InWindow(old(Placed())) == old(InWindow(Placed()))
    {
      hide Mask, Inv, Window;
      Holding();
      ghost var was, u, g := port.kernel, Placed(), Granted();
      sync := sync.(swptr := Mask(sync.hwptr - 1, port.size));
      WholeRing(sync.hwptr, port.size);
      EmptyWindow(was.mem, was.sw);
      var answer;
      ok, answer := port.Sync(sync, 0);
      sync := answer;
      WindowBound(port.kernel, port.id);
      EmptyWindow(port.kernel.mem, port.kernel.sw);
      if ok && g > 0 {
        SamePieces(was.mem, was.sw, port.kernel.mem, was.sw, u, g - u);
      }
    }

    /** nc_ndp_v2_tx_lock: ask for the whole ring, and rebase the cursor unless a window was held. */
    method Lock()
      requires Sound() && (port.Running() ==> Valid())
      modifies `sync, `rhp, `hdr, `off, `pktsAvailable, port
      ensures Sound() && Out() == old(Out()) && port.Running() == old(port.Running())
      ensures port.Running() ==> Valid() && Placed() + pktsAvailable == Granted() && Placed() == old(Placed())
      ensures port.Running() ==> Fully(port.kernel, port.id)
      ensures port.Running() ==> (rhp as int, pktsAvailable) == Rebase(old(rhp), old(sync), sync, port.size)
      ensures !port.Running() ==> Granted() == Placed() == pktsAvailable == 0 && rhp == old(rhp)
      ensures !port.Running() ==> sync == FailedLock(old(sync), port.size)
    {
      hide Mask, Inv, Window;
      Holding();
      if port.Running() {
        HoldsWindow();
      }
      var lockValid := sync.swptr != sync.hwptr;
      ghost var u := Placed();
      var ok := Ask();
      if ok {
        PlaceCursor(lockValid, u);
      } else {
        EmptyWindow(port.kernel.mem, port.kernel.sw);
      }
    }

    /** The end of a lock: without a window before, the cursor goes to the start of the new one. */
    method PlaceCursor(lockValid: bool, ghost u: nat)
      requires port.Valid() && |port.kernel.mem| == port.size > 0 && hdr == off == rhp && rhp < 2 * port.size
      requires Granted() < port.size && u <= Granted() && Out() + InWindow(u) == accepted
      requires sync == Pointers(Mask(port.kernel.sw, port.size), Mask(port.kernel.sw + Granted(), port.size))
      requires if lockValid then rhp == sync.hwptr + u else u == 0
      modifies `rhp, `hdr, `off, `pktsAvailable
      ensures Valid() && Placed() + pktsAvailable == Granted() && (Granted() > 0 ==> Placed() == u)
      ensures rhp == if lockValid then old(rhp) else sync.hwptr
      ensures pktsAvailable == Mask(sync.swptr - rhp, port.size)
    {
      hide Mask, Inv, Window;
      if !lockValid {
        var offset := sync.hwptr - rhp;
        rhp := rhp + offset;
        hdr := hdr + offset;
        off := off + offset;
      }
      MaskRemaining(port.kernel.sw, port.kernel.sw + Granted(), u, port.size);
      if Granted() == 0 {
        EmptyWindow(port.kernel.mem, port.kernel.sw);
      }
      pktsAvailable := Mask(sync.swptr - rhp, port.size);
    }

    /** Stores one header through the header pointer, at place `u` of the window. */
    method WriteHeader(index: nat, h: Header, ghost u: nat)
      requires port.Valid() && |port.kernel.mem| == port.size && 0 <= sync.hwptr < port.size
      requires u < Granted() && index == sync.hwptr + u && sync.hwptr == Mask(port.kernel.sw, port.size)
      modifies port`kernel
      ensures port.Valid() && port.kernel == old(port.kernel).(mem := port.kernel.mem)
      ensures |port.kernel.mem| == port.size && InWindow(u + 1) == old(InWindow(u)) + [h]
      ensures index < 2 * port.size
    {
      hide Mask, Inv, Window, Store;
      WindowBound(port.kernel, port.id);
      MaskSum(port.kernel.sw, u, port.size);
      PlaceHeader(port.kernel.mem, port.kernel.sw, u, h);
      port.Put(index, [h], u);
    }

    /** The loop of a burst that has its window: headers one after another, until one is too large. */
    method WriteBurst(packets: array<Slot>, count: nat) returns (ok: bool)
      requires Sound() && count <= pktsAvailable && count <= packets.Length
      modifies packets, port`kernel
      ensures Sound() && (old(Valid()) ==> Valid()) && Out() == old(Out()) && port.Running() == old(port.Running())
      ensures Granted() == old(Granted())
      ensures ok == Sendable(old(packets[..count]), frameMin, frameMax)
      ensures ok ==>
                var hs := Headers(old(packets[..count]), frameMin, frameMax);
                InWindow(Placed() + count) == InWindow(Placed()) + hs
      ensures ok ==>
                forall i | 0 <= i < count ::
                  packets[i] == Slot(old(packets[i]).request, rhp + i) && rhp + i < 2 * port.size
    {
      hide Mask, Inv, Window, Describe;
      ghost var before := packets[..];
      ghost var u := Placed();
      ghost var placed := InWindow(u);
      for i := 0 to count
        invariant port.Valid() && |port.kernel.mem| == port.size
        invariant port.kernel == old(port.kernel).(mem := port.kernel.mem)
        invariant Sendable(before[..i], frameMin, frameMax)
        invariant InWindow(u + i) == old(InWindow(u)) + Headers(before[..i], frameMin, frameMax)
        invariant forall j | 0 <= j < i :: packets[j] == Slot(before[j].request, rhp + j) && rhp + j < 2 * port.size
        invariant forall j | i <= j < packets.Length :: packets[j] == before[j]
      {
        var h := Describe(packets[i].request, frameMin, frameMax);
        if h == None {
          assert before[..count][i] == before[i];
          WindowPrefix(port.kernel.mem, port.kernel.sw, placed, Headers(before[..i], frameMin, frameMax));
          return false;
        }
        WriteHeader(hdr + i, h.value, u + i);
        packets[i] := packets[i].(index := off + i);
      }
      assert before[..count] == old(packets[..count]);
      WindowPrefix(port.kernel.mem, port.kernel.sw, placed, Headers(before[..count], frameMin, frameMax));
      ok := true;
    }

    /**
     nc_ndp_v2_tx_burst_get. A burst is placed whole or not at all: not when the window is too
     small, though it is all the free space unless another holds the lock, not when a packet is
     larger than a frame can be.
     */
    method BurstGet(packets: array<Slot>, count: nat) returns (cnt: nat)
      requires Sound() && count <= packets.Length && (port.Running() && count > 0 ==> Valid())
      modifies this, packets, port
      ensures Sound() && (old(Valid()) && (old(port.Running()) || count == 0) ==> Valid())
      ensures port.size > 1 && !old(port.Running()) && count > 0 ==> !Valid()
      ensures cnt == 0 || (cnt == count && Sendable(old(packets[..count]), frameMin, frameMax))
      ensures Out() == old(Out()) && port.Running() == old(port.Running())
      ensures accepted == old(accepted)
                          + if cnt == 0 then [] else Headers(old(packets[..count]), frameMin, frameMax)
      ensures cnt == 0 < count ==> !Sendable(old(packets[..count]), frameMin, frameMax) || Full(count)
      ensures forall i | 0 <= i < cnt ::
                packets[i] == Slot(old(packets[i]).request, rhp - cnt + i) && rhp - cnt + i < 2 * port.size
    {
      hide Mask, Inv, Window, Describe;
      Holding();
      if pktsAvailable < count {
        Lock();
        if pktsAvailable < count || count == 0 {
          if !port.Running() && port.size > 1 {
            FailedLockClaims(old(sync), port.size);
          }
          return 0;
        }
      }
      var ok := WriteBurst(packets, count);
      if !ok {
        return 0;
      }
      Advance(count, Headers(old(packets[..count]), frameMin, frameMax));
      return count;
    }

    /** `count` packets are too many for all the window a started queue can have now. */
    ghost predicate Full(count: nat)
      reads this, port
    {
      Placed() + count > Granted() && (port.Running() ==> Fully(port.kernel, port.id))
    }

    /** The end of a burst: every cursor moves behind it. */
    method Advance(count: nat, ghost hs: seq<Header>)
      requires Sound() && count <= pktsAvailable
      requires InWindow(Placed() + count) == InWindow(Placed()) + hs
      modifies `hdr, `off, `rhp, `pktsAvailable, `accepted
      ensures Sound() && (old(Valid()) ==> Valid()) && accepted == old(accepted) + hs && rhp == old(rhp) + count
    {
      hide Mask, Inv, Window;
      WindowBound(port.kernel, port.id);
      assert Out() + (InWindow(Placed()) + hs) == Out() + InWindow(Placed()) + hs;
      if count == 0 {
        assert hs == [] by {
          assert |InWindow(Placed())| == Placed();
        }
      }
      hdr := hdr + count;
      off := off + count;
      rhp := rhp + count;
      pktsAvailable := pktsAvailable - count;
      accepted := accepted + hs;
    }

    /** nc_ndp_v2_tx_burst_flush: publish every header placed and release the lock. */
    method BurstFlush()
      requires Sound()
      modifies this, port
      ensures Valid() && accepted == old(accepted) == Out()
      ensures Granted() == 0 && port.Running() == old(port.Running())
    {
      hide Mask, Inv, Window;
      WindowBound(port.kernel, port.id);
      if Granted() > 0 {
        WindowIsStarted(port.kernel, port.id);
        Wrapped(port.kernel.sw, Placed(), port.size);
      }
      ghost var u, out := Placed(), Out() + InWindow(Placed());
      EmptyWindow(port.kernel.mem, port.kernel.sw);
      assert Out() + [] == Out();
      if rhp >= port.size {
        rhp := rhp - port.size;
        hdr := hdr - port.size;
        off := off - port.size;
      }
      sync := Pointers(rhp, rhp);
      pktsAvailable := 0;
      var ok, answer := port.Sync(sync, u);
      sync := answer;
      WindowBound(port.kernel, port.id);
      EmptyWindow(port.kernel.mem, port.kernel.sw);
      assert Out() == out && out + [] == out;
    }

    /** nc_ndp_v2_tx_burst_put: publish once more than a quarter of the ring is placed. */
    method BurstPut()
      requires Sound()
      modifies this, port
      ensures Sound() && (old(Valid()) ==> Valid()) && accepted == old(accepted)
      ensures old(Placed()) > port.size / 4 ==> Out() == accepted
      ensures old(Placed()) <= port.size / 4 ==> Out() == old(Out()) && Placed() == old(Placed())
      ensures port.Running() == old(port.Running())
    {
      if Granted() > 0 {
        InRange(Placed(), port.size);
        WindowBound(port.kernel, port.id);
      }
      if Mask(rhp - sync.hwptr, port.size) > port.size / 4 {
        BurstFlush();
      }
    }

    /** nc_ndp_queue_start: the driver does not move a transmit queue's pointers. */
    method Start(ops: Option<int>) returns (ok: bool)
      requires Sound() && (ops.Some? ==> 0 <= ops.value < port.size)
      modifies port
      ensures Sound() && (old(Valid()) ==> Valid()) && Out() == old(Out()) && accepted == old(accepted)
      ensures port.Running() == (ok || old(port.Running())) && (old(port.Running()) ==> !ok)
      ensures !old(port.Running()) && ops.Some? ==> ok
    {
      hide Mask, Inv, Window;
      ghost var was, u, g := port.kernel, Placed(), Granted();
      ok := port.Start(ops);
      WindowBound(port.kernel, port.id);
      Unmoved(was, u, g);
    }

    lemma Unmoved(was: TxState<Header>, u: nat, g: nat)
      requires |was.mem| > 0 && |port.kernel.mem| > 0 && u <= g == TxArbiter.Granted(was, port.id)
      requires g > 0 ==> Keeps(was, port.kernel, port.id)
      ensures Window(was.mem, was.sw, u) == InWindow(u)
    {
      hide Mask, Window;
      if g > 0 {
        SamePieces(was.mem, was.sw, port.kernel.mem, was.sw, u, g - u);
      } else {
        EmptyWindow(was.mem, was.sw);
        EmptyWindow(port.kernel.mem, port.kernel.sw);
      }
    }

    /** A queue that is not started has nothing placed. */
    lemma Idle()
      requires Sound() && !port.Running()
      ensures Placed() == 0 && pktsAvailable == 0 && accepted == Out()
    {
      if Granted() > 0 {
        WindowIsStarted(port.kernel, port.id);
      }
      EmptyWindow(port.kernel.mem, port.kernel.sw);
    }

    /** ndp_queue_stop: publish everything, then ask the driver to stop until it does. */
    method Stop(busy: nat)
      requires Sound()
      modifies this, port
      ensures Sound() && (old(Valid()) || old(port.Running()) ==> Valid())
      ensures !port.Running() && accepted == old(accepted) == Out()
    {
      hide Mask, Inv, Window;
      if !port.Running() {
        Idle();
        return;
      }
      BurstFlush();
      var tries: nat := busy;
      while port.Running()
        invariant Valid() && Granted() == 0 && accepted == old(accepted) == Out()
        decreases if port.Running() then tries + 1 else 0
      {
        ghost var was := port.kernel;
        port.Stop(tries > 0);
        WindowBound(port.kernel, port.id);
        Unmoved(was, 0, 0);
        tries := if tries > 0 then tries - 1 else 0;
      }
    }

    /** The controller reports a pointer of its ring. */
    predicate Proper(call: Call) {
      call.Start? && call.ops.Some? ==> 0 <= call.ops.value < port.size
    }

    /** A get returns nothing for a reason. */
    ghost predicate Explained(call: Call, n: nat)
      reads this, port
    {
      call.Get? && call.requests != [] && n == 0 ==>
        !Sendable(Blank(call.requests), frameMin, frameMax) || Full(|call.requests|)
    }

    /** A get of packets that the pointers would lead elsewhere. */
    ghost predicate Astray(call: Call)
      reads this, port
    {
      call.Get? && call.requests != [] && port.Running() && !Valid()
    }

    method Make(call: Call) returns (n: nat)
      requires Sound() && Proper(call) && !Astray(call)
      modifies this, port
      ensures Sound() && Counts(call, n, frameMin, frameMax) && Leads(call, old(port.Running()), port.Running())
      ensures accepted == old(accepted) + AcceptedBurst(call, n, frameMin, frameMax)
      ensures call.Flush? || (call.Stop? && old(port.Running())) ==> Valid() && Out() == accepted
      ensures old(Valid()) && !(call.Get? && call.requests != [] && !old(port.Running())) ==> Valid()
      ensures Explained(call, n)
    {
      hide Mask, Inv, Window, Describe, Fully;
      n := 0;
      match call {
        case Get(requests) =>
          var packets := new Slot[|requests|](j requires 0 <= j < |requests| => Slot(requests[j], 0));
          ghost var slots := packets[..|requests|];
          assert slots == Blank(requests);
          n := BurstGet(packets, |requests|);
        case Put =>
          BurstPut();
        case Flush =>
          BurstFlush();
        case Start(ops) =>
          var ok := Start(ops);
        case Stop(busy) =>
          Stop(busy);
      }
    }

    /**
     Any series of calls, up to a get for which packets were asked of the stopped queue before
     and no flush came after: the headers of the bursts that returned their count, and no
     others, are published or about to be, in order. A caller that flushes after such a burst,
     or asks only started queues, has all its calls made. The condition is one on the calls a
     caller makes: a put in between may happen to flush, and the queue be in order after all.
     */
    method Run(calls: seq<Call>) returns (made: nat, counts: seq<nat>, ran: seq<bool>)
      requires Valid()
      requires forall i | 0 <= i < |calls| :: Proper(calls[i])
      modifies this, port
      ensures made <= |calls| && |counts| == made && |ran| == made + 1
      ensures Statuses(calls, ran) && ran[0] == old(port.Running()) && ran[made] == port.Running()
      ensures AllCount(calls, counts, frameMin, frameMax)
      ensures accepted == old(accepted) + AcceptedBursts(calls, counts, frameMin, frameMax, made)
      ensures Sound() && Out() + InWindow(Placed()) == accepted
      ensures !Muddled(calls, ran, made) ==> Valid()
      ensures made > 0 && calls[made - 1].Flush? ==> Out() == accepted
      ensures made > 0 ==> Explained(calls[made - 1], counts[made - 1])
      ensures made < |calls| ==>
                && Muddled(calls, ran, made) && ran[made]
                && calls[made].Get? && calls[made].requests != []
    {
      hide Mask, Inv, Window, Describe, Counts, Queue.Proper, Muddled, Statuses, AllCount, Leads;
      hide Fully, Sendable;
      counts, ran, made := [], [port.Running()], 0;
      NoCalls(calls, port.Running(), frameMin, frameMax);
      while made < |calls|
        invariant Progress(calls, counts, ran, made, old(accepted), old(port.Running()))
      {
        var call := calls[made];
        if call.Get? && call.requests != [] && port.Running() && Muddled(calls, ran, made) {
          return;
        }
        counts, ran := Turn(calls, counts, ran, old(accepted), old(port.Running()));
        made := made + 1;
      }
    }

    /** One more call, which does not go astray. */
    method Turn(calls: seq<Call>, counts: seq<nat>, ran: seq<bool>, ghost before: seq<Header>, ghost was: bool)
      returns (counts': seq<nat>, ran': seq<bool>)
      requires |counts| < |calls| && Progress(calls, counts, ran, |counts|, before, was)
      requires Proper(calls[|counts|]) && !Astray(calls[|counts|])
      modifies this, port
      ensures Progress(calls, counts', ran', |counts| + 1, before, was)
    {
      hide Mask, Inv, Window, Describe, Counts, Queue.Proper, Muddled, Statuses, AllCount, Leads, AcceptedBurst;
      hide Fully, Sendable;
      var made := |counts|;
      var n := Make(calls[made]);
      AcceptedPrefix(calls, counts, n, frameMin, frameMax, made);
      OneMore(calls, counts, ran, n, port.Running());
      counts', ran' := counts + [n], ran + [port.Running()];
    }

    /** After `made` calls. */
    ghost predicate Progress(calls: seq<Call>, counts: seq<nat>, ran: seq<bool>, made: nat, before: seq<Header>,
                             was: bool)
      reads this, port
    {
      && made <= |calls| && |counts| == made && |ran| == made + 1
      && Statuses(calls, ran) && ran[0] == was && ran[made] == port.Running()
      && AllCount(calls, counts, frameMin, frameMax)
      && accepted == before + AcceptedBursts(calls, counts, frameMin, frameMax, made)
      && Sound() && (!Muddled(calls, ran, made) ==> Valid())
      && (made > 0 && calls[made - 1].Flush? ==> Out() == accepted)
      && (made > 0 ==> Explained(calls[made - 1], counts[made - 1]))
    }

    lemma NoCalls(calls: seq<Call>, was: bool, frameMin: nat, frameMax: nat)
      ensures Statuses(calls, [was]) && AllCount(calls, [], frameMin, frameMax) && !Muddled(calls, [was], 0)
    {
    }

    lemma OneMore(calls: seq<Call>, counts: seq<nat>, ran: seq<bool>, n: nat, after: bool)
      requires |counts| < |calls| && |ran| == |counts| + 1
      requires Statuses(calls, ran) && Leads(calls[|counts|], ran[|counts|], after)
      ensures Statuses(calls, ran + [after])
      ensures Muddled(calls, ran + [after], |counts| + 1)
           == Muddles(calls[|counts|], ran[|counts|], Muddled(calls, ran, |counts|))
    {
      MuddledPrefix(calls, ran, after, |counts|);
    }
  }
}
