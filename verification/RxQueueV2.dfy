/**
 The user side of a protocol 2 receive queue (`ndp_rx.h`): the ring holds one header for
 each packet, whose data is in a buffer of its own at the same place of the offset ring.
 The cursor `rhp` counts headers and runs up to twice the ring before it is brought back.
 */
module RxQueueV2 {
  import opened Ring
  import opened Sequences
  import opened Options
  import opened ChannelCalls
  import opened RxArbiter
  import opened RxPorts
  import opened PacketHeaders

  /** The cursor stands for absolute position `read`, and `available` headers from there were shown. */
  ghost predicate Reading(s: RxState<Header>, me: Id, n: nat, sync: Pointers, rhp: nat, available: nat,
                          from: nat, read: nat)
    requires n > 0
  {
    && me in s.pos && me in s.given && sync.swptr == Mask(s.pos[me], n)
    && s.base <= from <= read && s.pos[me] <= read
    && read + available <= s.given[me] <= s.hw == s.base + |s.stream|
    && Mask(rhp, n) == Mask(read, n) && rhp + available <= 2 * n - 2
  }

  /** A header behind the cursor's address is the one the controller wrote. */
  lemma HeaderAt(s: RxState<Header>, me: Id, n: nat, sync: Pointers, rhp: nat, available: nat, from: nat, read: nat,
                 i: nat)
    requires n > 0 && Inv(s) && me in s.ch.list && s.ch.size == n == |s.mem|
    requires Reading(s, me, n, sync, rhp, available, from, read) && i < available
    ensures s.mem[Mask(rhp + i, n)] == Slice(s, read, read + available)[i]
  {
    hide Mask, Inv;
    Fetch(s, me, read + i);
    MaskSum(rhp, i, n);
    MaskSum(read, i, n);
  }

  /** What a lock computes: every header written and not yet handed out, the cursor back in the ring. */
  lemma LockedHeaders(s: RxState<Header>, me: Id, n: nat, sync: Pointers, rhp: nat, from: nat, read: nat)
    returns (rhp': nat, available: nat)
    requires n > 0 && Inv(s) && me in s.ch.list && s.ch.size == n == |s.mem|
    requires me in s.pos && me in s.given && s.given[me] == s.hw == s.base + |s.stream|
    requires s.base <= from <= read && s.pos[me] <= read <= s.hw
    requires sync == Pointers(Mask(s.hw, n), Mask(s.pos[me], n))
    requires Mask(rhp, n) == Mask(read, n) && rhp < 2 * n
    ensures available == Mask(sync.hwptr - rhp, n) && read + available == s.hw
    ensures rhp' == (if rhp >= n then rhp - n else rhp) < n
    ensures Reading(s, me, n, sync, rhp', available, from, read)
  {
    hide Mask;
    assert Reader(s, me);
    hide Inv;
    available := s.hw - read;
    rhp' := if rhp >= n then rhp - n else rhp;
    InRing(rhp', n);
    InRing(rhp, n);
    MaskDistance(read, s.hw, n);
    Negated(sync.hwptr, rhp, read, n);
  }

  /** The cursor and the packets available after a lock that was answered with `hwptr`. */
  function Counted(rhp: nat, hwptr: int, n: nat): (nat, nat)
    requires n > 0
  {
    (if rhp >= n then rhp - n else rhp, Mask(hwptr - rhp, n))
  }

  lemma InRing(x: nat, n: nat)
    requires n > 0 && x < 2 * n
    ensures Mask(x, n) == if x >= n then x - n else x
  {
    if x >= n {
      assert Mask(x - n, n) == x - n;
    }
  }

  /** Subtracting a pointer that stands for `b` is subtracting its masked form. */
  lemma Negated(a: int, rhp: nat, b: nat, n: nat)
    requires n > 0 && Mask(rhp, n) == Mask(b, n) && rhp < 2 * n
    ensures Mask(a - rhp, n) == Mask(a - Mask(b, n), n)
  {
    InRing(rhp, n);
    hide Mask;
    if rhp >= n {
      MaskPeriod(a - rhp, n);
    }
  }

  lemma MaskPeriod(x: int, n: nat)
    requires n > 0
    ensures Mask(x + n, n) == Mask(x, n)
  {
    MaskOnce(x, n);
    MaskOnce(x + n, n);
    hide Mask;
    assert x + n - n == x;
  }

  lemma Streamed(s: RxState<Header>)
    requires Inv(s)
    ensures s.hw == s.base + |s.stream|
  {
  }

  /** The cursor moved behind `k` headers. */
  lemma ReadOn(s: RxState<Header>, me: Id, n: nat, sync: Pointers, rhp: nat, available: nat, from: nat, read: nat,
               k: nat)
    requires n > 0 && Reading(s, me, n, sync, rhp, available, from, read) && k <= available
    ensures Reading(s, me, n, sync, rhp + k, available - k, from, read + k)
    ensures Slice(s, from, read + k) == Slice(s, from, read) + Slice(s, read, read + available)[..k]
  {
    hide Mask;
    MaskSum(rhp, k, n);
    MaskSum(read, k, n);
  }

  /** The burst's packets are those of `got`, at consecutive indices from `rhp`. */
  ghost predicate HandedOut(slots: seq<Received>, rhp: nat, got: seq<Header>, cnt: nat) {
    cnt <= |slots| && cnt == |got| && forall i | 0 <= i < cnt :: slots[i] == HandOut(rhp + i, got[i])
  }

  lemma NothingHandedOut(slots: seq<Received>, rhp: nat)
    ensures HandedOut(slots, rhp, [], 0)
  {
  }

  // ---- Series of calls ---------------------------------------------------

  /** The slots are those of the headers `got`, at consecutive indices that stand for the positions from `c` on. */
  ghost predicate Consecutive(slots: seq<Received>, got: seq<Header>, c: nat, n: nat)
    requires n > 0
  {
    && |slots| == |got|
    && forall j | 0 <= j < |slots| ::
         && slots[j] == HandOut(slots[j].index, got[j])
         && 0 <= slots[j].index < 2 * n && Mask(slots[j].index, n) == Mask(c + j, n)
         && slots[j].index == slots[0].index + j
  }

  lemma HandedConsecutive(slots: seq<Received>, rhp: nat, got: seq<Header>, c: nat, n: nat)
    requires n > 0 && HandedOut(slots, rhp, got, |got|) && rhp + |got| < 2 * n && Mask(rhp, n) == Mask(c, n)
    ensures |got| <= |slots| && Consecutive(slots[..|got|], got, c, n)
  {
    hide Mask, HandOut;
    var out := slots[..|got|];
    forall j | 0 <= j < |out|
      ensures out[j] == HandOut(rhp + j, got[j])
    {
      assert slots[j] == HandOut(rhp + j, got[j]);
    }
    forall j | 0 <= j < |out|
      ensures Mask(out[j].index, n) == Mask(c + j, n)
    {
      assert out[j] == HandOut(rhp + j, got[j]);
      SameShift(rhp, c, j, n);
    }
  }

  lemma SameShift(a: nat, b: nat, j: nat, n: nat)
    requires n > 0 && Mask(a, n) == Mask(b, n)
    ensures Mask(a + j, n) == Mask(b + j, n)
  {
    MaskSum(a, j, n);
    MaskSum(b, j, n);
    hide Mask;
  }

  /** The position after the first `k` bursts, from `c0`. */
  function Reached(gots: seq<seq<Header>>, k: nat, c0: nat): nat
    requires k <= |gots|
  {
    c0 + |Concat(gots, k)|
  }

  /** The slots of each burst are its headers, from where the bursts before it have come to. */
  ghost predicate Bursts(calls: seq<Call>, slots: seq<seq<Received>>, gots: seq<seq<Header>>, c0: nat, hw: nat,
                         n: nat)
  {
    && |slots| == |gots| == |calls| && n > 0
    && forall i | 0 <= i < |calls| ::
         && Consecutive(slots[i], gots[i], Reached(gots, i, c0), n)
         && Returned(calls[i], |gots[i]|, Reached(gots, i + 1, c0), hw)
  }

  lemma NoBursts(c0: nat, hw: nat, n: nat)
    requires n > 0
    ensures Bursts([], [], [], c0, hw, n) && Reached([], 0, c0) == c0
  {
  }

  lemma ReachedPrefix(gots: seq<seq<Header>>, got: seq<Header>, k: nat, c0: nat)
    requires k <= |gots|
    ensures Reached(gots + [got], k, c0) == Reached(gots, k, c0)
    ensures Reached(gots + [got], |gots| + 1, c0) == Reached(gots, |gots|, c0) + |got|
  {
    hide Concat;
    ConcatPrefix(gots, [got], k);
    ConcatMore(gots, got);
  }

  lemma BurstsMore(calls: seq<Call>, slots: seq<seq<Received>>, gots: seq<seq<Header>>, call: Call,
                   more: seq<Received>, got: seq<Header>, c0: nat, hw: nat, now: nat, n: nat)
    requires Bursts(calls, slots, gots, c0, hw, n) && hw <= now
    requires Consecutive(more, got, Reached(gots, |gots|, c0), n)
    requires Returned(call, |got|, Reached(gots, |gots|, c0) + |got|, now)
    ensures Bursts(calls + [call], slots + [more], gots + [got], c0, hw, n)
    ensures Reached(gots + [got], |gots| + 1, c0) == Reached(gots, |gots|, c0) + |got|
  {
    hide Consecutive, Reached;
    var calls', slots', gots' := calls + [call], slots + [more], gots + [got];
    ReachedPrefix(gots, got, |gots|, c0);
    forall i | 0 <= i < |calls'|
      ensures Consecutive(slots'[i], gots'[i], Reached(gots', i, c0), n)
      ensures Returned(calls'[i], |gots'[i]|, Reached(gots', i + 1, c0), hw)
    {
      ReachedPrefix(gots, got, i, c0);
      if i < |calls| {
        ReachedPrefix(gots, got, i + 1, c0);
      }
    }
  }

  class Queue {
    const port: Port<Header>
    const exclusive: bool
    var sync: Pointers
    var rhp: nat
    var pktsAvailable: nat
    /** The absolute positions reading began at and has come to. */
    ghost var from: nat
    ghost var read: nat

    ghost predicate Linked()
      reads this, port
    {
      port.Valid() && |port.kernel.mem| == port.size > 0 && rhp <= 2 * port.size - 2
    }

    ghost predicate Valid()
      reads this, port
    {
      && Linked()
      && (port.Running() ==> Reading(port.kernel, port.id, port.size, sync, rhp, pktsAvailable, from, read))
      && (!port.Running() ==> pktsAvailable == 0)
    }

    /** Every header handed out since reading began. */
    ghost function Handed(): seq<Header>
      requires Valid() && port.Running()
      reads this, port
    {
      Slice(port.kernel, from, read)
    }

    /** Where the ring is given back up to. */
    ghost function GivenBack(): nat
      reads port
    {
      if port.id in port.kernel.pos then port.kernel.pos[port.id] else 0
    }

    /** nc_ndp_v2_open_queue */
    constructor (port: Port<Header>, exclusive: bool)
      requires port.Valid() && !port.Running() && |port.kernel.mem| == port.size > 0
      ensures Valid() && this.port == port && this.exclusive == exclusive && rhp == pktsAvailable == 0
    {
      this.port, this.exclusive := port, exclusive;
      sync := Pointers(0, 0);
      rhp, pktsAvailable := 0, 0;
    }

    /** nc_ndp_v2_rx_lock: be shown everything written so far, and bring the cursor back into the ring. */
    method Lock()
      requires Valid()
      modifies `sync, `rhp, `pktsAvailable, port
      ensures Valid() && port.Running() == old(port.Running())
      ensures port.Running() ==> (rhp, pktsAvailable) == Counted(old(rhp), sync.hwptr, port.size)
      ensures port.Running() ==>
                && GivenBack() == old(GivenBack()) && Handed() == old(Handed())
                && read + pktsAvailable == port.kernel.hw && old(port.kernel.hw) <= port.kernel.hw
                && Mask(rhp, port.size) == Mask(read, port.size)
    {
      hide Mask, Inv, RunForeign;
      ghost var was := port.kernel;
      var ok, answer := port.Sync(sync, 0);
      sync := answer;
      if !ok {
        return;
      }
      Streamed(port.kernel);
      ghost var r, a := LockedHeaders(port.kernel, port.id, port.size, sync, rhp, from, read);
      pktsAvailable := Mask(sync.hwptr - rhp, port.size);
      if rhp >= port.size {
        rhp := rhp - port.size;
      }
      SliceAgain(was, port.kernel, from, read);
    }

    /** The loop of a burst that has its packets: the headers in the cells from the cursor on, whoever wrote them. */
    method Describe(packets: array<Received>, cnt: nat) returns (ghost got: seq<Header>)
      requires Linked() && cnt <= packets.Length
      modifies packets
      ensures |got| == cnt && HandedOut(packets[..], rhp, got, cnt)
      ensures got == Window(port.kernel.mem, rhp, cnt)
    {
      hide Mask, Inv;
      got := Window(port.kernel.mem, rhp, cnt);
      for i := 0 to cnt
        invariant forall j | 0 <= j < i :: packets[j] == HandOut(rhp + j, got[j])
      {
        packets[i] := HandOut(rhp + i, port.kernel.mem[Mask(rhp + i, port.size)]);
      }
    }

    /** Those are the next ones of the stream, when the cursor is in place. */
    lemma Shown(cnt: nat)
      requires Valid() && port.Running() && cnt <= pktsAvailable
      ensures Window(port.kernel.mem, rhp, cnt) == Slice(port.kernel, read, read + pktsAvailable)[..cnt]
    {
      hide Mask, Inv;
      var w := Window(port.kernel.mem, rhp, cnt);
      forall i | 0 <= i < |w|
        ensures w[i] == Slice(port.kernel, read, read + pktsAvailable)[i]
      {
        HeaderAt(port.kernel, port.id, port.size, sync, rhp, pktsAvailable, from, read, i);
      }
    }

    /**
     nc_ndp_v2_rx_burst_get. The headers handed out are the next ones of the controller's
     stream, at consecutive indices inside the double mapping; fewer than asked for only when
     everything written has been handed out. Nothing is given back, even when it locks. Packets
     counted as shown are handed out without asking the driver, in order or not.
     */
    method BurstGet(packets: array<Received>, count: nat) returns (cnt: nat, ghost got: seq<Header>)
      requires Linked() && count <= packets.Length && (Valid() || count <= pktsAvailable)
      modifies `sync, `rhp, `pktsAvailable, `read, port, packets
      ensures old(Valid()) ==> Valid() && rhp <= 2 * port.size - 2
      ensures port.Running() == old(port.Running()) && cnt == |got| <= count
      ensures cnt <= rhp && HandedOut(packets[..], rhp - cnt, got, cnt)
      ensures count <= old(pktsAvailable) ==>
                && cnt == count && port.kernel == old(port.kernel) && rhp == old(rhp) + count
                && |port.kernel.mem| > 0 && got == Window(port.kernel.mem, old(rhp), count)
      ensures old(Valid()) && !port.Running() ==> cnt == 0
      ensures old(Valid()) && port.Running() ==>
                && GivenBack() == old(GivenBack()) && Handed() == old(Handed()) + got
                && (cnt < count ==> read == port.kernel.hw) && old(port.kernel.hw) <= port.kernel.hw
                && read == old(read) + cnt && Mask(rhp - cnt, port.size) == Mask(old(read), port.size)
    {
      hide Mask, Inv, Slice, HandedOut, Window, Counted;
      got := [];
      cnt := count;
      if pktsAvailable < count {
        Lock();
        cnt := if pktsAvailable < count then pktsAvailable else count;
        if cnt == 0 {
          NothingHandedOut(packets[..], rhp);
          return;
        }
      }
      got := Take(packets, cnt);
    }

    /** The end of a burst: its packets described, and the cursor behind them. */
    method Take(packets: array<Received>, cnt: nat) returns (ghost got: seq<Header>)
      requires Linked() && cnt <= packets.Length && cnt <= pktsAvailable
      modifies `rhp, `pktsAvailable, `read, packets
      ensures |got| == cnt && HandedOut(packets[..], old(rhp), got, cnt)
      ensures |port.kernel.mem| > 0 && got == Window(port.kernel.mem, old(rhp), cnt)
      ensures rhp == old(rhp) + cnt && pktsAvailable == old(pktsAvailable) - cnt
      ensures old(Valid()) ==> Valid()
      ensures old(Valid()) && port.Running() ==> Handed() == old(Handed()) + got && read == old(read) + cnt
    {
      hide Mask, Inv, Slice, HandedOut;
      got := Describe(packets, cnt);
      if Valid() && port.Running() {
        Shown(cnt);
        ReadOn(port.kernel, port.id, port.size, sync, rhp, pktsAvailable, from, read, cnt);
        read := read + cnt;
      }
      rhp := rhp + cnt;
      pktsAvailable := pktsAvailable - cnt;
    }

    /** nc_ndp_v2_rx_unlock, which is all of nc_ndp_v2_rx_burst_put: give back every packet handed out. */
    method BurstPut()
      requires Valid()
      modifies `sync, port
      ensures Valid() && port.Running() == old(port.Running())
      ensures port.Running() ==>
                GivenBack() == read && Handed() == old(Handed()) && old(port.kernel.hw) <= port.kernel.hw
    {
      hide Mask, Inv, RunForeign;
      ghost var was, k := port.kernel, read - GivenBack();
      sync := sync.(swptr := Mask(rhp, port.size));
      var ok, answer := port.Sync(sync, if port.Running() then k else 0);
      sync := answer;
      if ok {
        Streamed(port.kernel);
        SliceAgain(was, port.kernel, from, read);
      }
    }

    /**
     nc_ndp_queue_start. The cursor is set to the driver's pointer unless the queue is
     exclusive; the count of packets shown is not reset. So the queue reads on correctly
     exactly when no packets are left from an earlier run and the cursor is in place.
     */
    method Start(ops: Option<int>) returns (ok: bool)
      requires Linked() && (port.Running() ==> Valid()) && (ops.Some? ==> 0 <= ops.value < port.size)
      modifies `sync, `rhp, `from, `read, port
      ensures port.Running() == (ok || old(port.Running())) && (old(port.Running()) ==> !ok)
      ensures !old(port.Running()) && ops.Some? ==> ok
      ensures !ok ==> read == old(read) && from == old(from) && (old(Valid()) ==> Valid())
      ensures Linked() && (ok ==> read == from == GivenBack() == port.kernel.seen)
      ensures ok ==> rhp == if exclusive then old(rhp) else Mask(port.kernel.seen, port.size)
      ensures ok ==>
                (Valid() <==>
                   pktsAvailable == 0 && (exclusive ==> Mask(old(rhp), port.size) == Mask(port.kernel.seen, port.size)))
      // The first subscription, as an exclusive one is, starts at the pointer the controller reports.
      ensures ok && port.kernel.ch.startCount == 1 ==> ops.Some? && Mask(port.kernel.seen, port.size) == ops.value
    {
      hide Mask, Inv, RunForeign;
      var answer;
      ok, answer := port.Start(sync, ops);
      sync := answer;
      if ok {
        from, read := GivenBack(), GivenBack();
        if !exclusive {
          rhp := sync.hwptr;
          InRing(rhp, port.size);
        }
      }
    }

    /**
     nc_ndp_queue_stop: ask the driver to stop until it does, `busy` being how often the
     controller puts it off. Packets shown and not handed out are not forgotten.
     */
    method Stop(busy: nat)
      requires Valid()
      modifies port
      ensures Linked() && !port.Running()
      ensures Valid() <==> pktsAvailable == 0
    {
      hide Mask, Inv, RunForeign;
      var tries: nat := busy;
      while port.Running()
        invariant Linked()
        decreases if port.Running() then tries + 1 else 0
      {
        port.Stop(tries > 0);
        tries := if tries > 0 then tries - 1 else 0;
      }
    }

    /** One call, and the slots it returns. */
    method Make(call: Call) returns (slots: seq<Received>, ghost got: seq<Header>)
      requires Valid() && port.Running()
      modifies `sync, `rhp, `pktsAvailable, `read, port
      ensures Valid() && port.Running() && Handed() == old(Handed()) + got
      ensures Consecutive(slots, got, old(read), port.size)
      ensures read == old(read) + |got| && old(port.kernel.hw) <= port.kernel.hw
      ensures Returned(call, |got|, read, old(port.kernel.hw))
      ensures call.Put? ==> GivenBack() == read
    {
      hide Mask, Inv, Slice, Reading, HandedOut;
      match call {
        case Get(count) =>
          var packets := new Received[count](_ => Received(0, 0, 0, 0));
          var cnt;
          cnt, got := BurstGet(packets, count);
          slots := packets[..cnt];
          HandedConsecutive(packets[..], rhp - cnt, got, old(read), port.size);
        case Put =>
          BurstPut();
          slots, got := [], [];
      }
    }

    /**
     Any series of gets and puts, whatever the controller and the other subscriptions do in
     between. The slots returned, one burst after another, are the next headers of the
     controller's stream, with no header left out or repeated, at indices that stand for
     consecutive positions over the whole run; a get returns less than it is asked for only
     when it has come past all that was written before; a put gives back everything.
     */
    method Run(calls: seq<Call>) returns (slots: seq<seq<Received>>, ghost gots: seq<seq<Header>>)
      requires Valid() && port.Running()
      modifies `sync, `rhp, `pktsAvailable, `read, port
      ensures Valid() && port.Running()
      ensures Bursts(calls, slots, gots, old(read), old(port.kernel.hw), port.size)
      ensures Handed() == old(Handed()) + Concat(gots, |gots|)
      ensures read == Reached(gots, |gots|, old(read))
      ensures calls != [] && calls[|calls| - 1].Put? ==> GivenBack() == read
    {
      hide Mask, Inv, Slice, Reading, Consecutive, Bursts, Reached, Returned;
      slots, gots := [], [];
      ghost var c0, hw0 := read, port.kernel.hw;
      NoBursts(c0, hw0, port.size);
      for i := 0 to |calls|
        invariant Valid() && port.Running() && |gots| == i && hw0 <= port.kernel.hw
        invariant Handed() == old(Handed()) + Concat(gots, i)
        invariant read == Reached(gots, i, c0) && Bursts(calls[..i], slots, gots, c0, hw0, port.size)
        invariant i > 0 && calls[i - 1].Put? ==> GivenBack() == read
      {
        ghost var before, hw := Handed(), port.kernel.hw;
        var more;
        ghost var got;
        more, got := Make(calls[i]);
        BurstsMore(calls[..i], slots, gots, calls[i], more, got, c0, hw0, hw, port.size);
        assert calls[..i + 1] == calls[..i] + [calls[i]];
        assert Handed() == before + got;
        ConcatMore(gots, got);
        slots, gots := slots + [more], gots + [got];
      }
      assert calls[..|calls|] == calls;
    }
  }
}
