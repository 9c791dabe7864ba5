/**
 The user side of a protocol 1 transmit queue (`ndp_tx.h`): a cursor into the window
 the driver granted, bursts that are placed whole or not at all, and publishing put
 off until a quarter of the ring is filled or the application asks for it.
 */
module TxQueueV1 {
  import opened Ring
  import opened Options
  import opened Bytes
  import opened ChannelCalls
  import opened TxArbiter
  import opened Framing
  import opened TxPorts

  /** `struct ndp_packet`: the lengths the application asks for and the addresses it gets. */
  datatype Slot = Slot(request: Packet, header: int, data: int)

  function Requests(slots: seq<Slot>): seq<Packet> {
    seq(|slots|, i requires 0 <= i < |slots| => slots[i].request)
  }

  lemma RequestAt(slots: seq<Slot>, i: nat)
    requires i < |slots|
    ensures |Requests(slots)| == |slots| && Requests(slots)[i] == slots[i].request
  {
  }

  /** What an application can call, and when its packets count as accepted. */
  datatype Call =
    | Get(requests: seq<Packet>)
    | Put
    | Flush
    | Fill(at: nat, x: byte)
    | Start(ops: Option<int>)
    | Stop(busy: nat)

  function AcceptedBurst(call: Call, count: nat): seq<Packet> {
    if call.Get? && count != 0 then call.requests else []
  }

  /** The packets of the accepted ones among the first `k` calls. */
  function AcceptedBursts(calls: seq<Call>, counts: seq<nat>, k: nat): seq<Packet>
    requires k <= |calls| && k <= |counts|
  {
    if k == 0 then [] else AcceptedBursts(calls, counts, k - 1) + AcceptedBurst(calls[k - 1], counts[k - 1])
  }

  lemma {:induction false} AcceptedPrefix(calls: seq<Call>, counts: seq<nat>, more: seq<nat>, k: nat)
    requires k <= |calls| && k <= |counts|
    ensures AcceptedBursts(calls, counts + more, k) == AcceptedBursts(calls, counts, k)
    decreases k
  {
    if k > 0 {
      AcceptedPrefix(calls, counts, more, k - 1);
    }
  }

  // ---- The bytes over a series of calls ----------------------------------

  /** The bytes of the accepted packets, how many of them are published, and the packets still to be. */
  datatype View = View(stream: seq<byte>, sent: nat, pending: seq<Packet>)

  /** What one call, which returned `n`, makes of `v`. */
  ghost predicate Follows(call: Call, n: nat, v: View, v': View) {
    && v.sent <= v'.sent <= |v'.stream|
    && match call
       case Get(requests) =>
         && v'.sent == v.sent && v.stream <= v'.stream && (n == 0 ==> v'.stream == v.stream)
         && v'.pending == v.pending + AcceptedBurst(call, n)
       case Put => v' == v || v' == View(v.stream, |v.stream|, [])
       case Flush => v' == View(v.stream, |v.stream|, [])
       case Fill(at, x) =>
         if IsPayload(v.pending, at) then
           v.sent + at < |v.stream| && v' == v.(stream := v.stream[v.sent + at := x])
         else v' == v
       case Start(ops) => v' == v
       case Stop(busy) => v' == View(v.stream, |v.stream|, [])
  }

  ghost predicate Trace(calls: seq<Call>, counts: seq<nat>, views: seq<View>) {
    && |counts| == |calls| && |views| == |calls| + 1
    && forall i | 0 <= i < |calls| :: Follows(calls[i], counts[i], views[i], views[i + 1])
  }

  lemma TraceMore(calls: seq<Call>, counts: seq<nat>, views: seq<View>, call: Call, n: nat, v: View)
    requires Trace(calls, counts, views) && Follows(call, n, views[|calls|], v)
    ensures Trace(calls + [call], counts + [n], views + [v])
  {
    hide Follows;
    var calls', counts', views' := calls + [call], counts + [n], views + [v];
    forall i | 0 <= i < |calls'|
      ensures Follows(calls'[i], counts'[i], views'[i], views'[i + 1])
    {
      if i < |calls| {
        assert views'[i] == views[i] && views'[i + 1] == views[i + 1];
      }
    }
  }

  /** Bytes once published are never changed. */
  lemma {:induction false} PublishedStays(calls: seq<Call>, counts: seq<nat>, views: seq<View>, i: nat, j: nat)
    requires Trace(calls, counts, views) && i <= j < |views| && views[i].sent <= |views[i].stream|
    ensures views[i].sent <= views[j].sent <= |views[j].stream|
    ensures views[j].stream[..views[i].sent] == views[i].stream[..views[i].sent]
    decreases j
  {
    hide IsPayload;
    if i < j {
      PublishedStays(calls, counts, views, i, j - 1);
      assert Follows(calls[j - 1], counts[j - 1], views[j - 1], views[j]);
    }
  }

  /** Where call `k` fills a byte of the stream, if it does. */
  ghost predicate Fills(call: Call, v: View, p: nat) {
    call.Fill? && IsPayload(v.pending, call.at) && p == v.sent + call.at
  }

  /** A byte of a packet holds what was last filled in, before it is published and after. */
  lemma {:induction false} FilledStays(calls: seq<Call>, counts: seq<nat>, views: seq<View>, i: nat, j: nat, p: nat)
    requires Trace(calls, counts, views) && i < j < |views| && Fills(calls[i], views[i], p)
    requires forall k | i < k < j :: !Fills(calls[k], views[k], p)
    ensures p < |views[j].stream| && views[j].stream[p] == calls[i].x
    decreases j
  {
    hide IsPayload;
    assert Follows(calls[j - 1], counts[j - 1], views[j - 1], views[j]);
    if i < j - 1 {
      FilledStays(calls, counts, views, i, j - 1, p);
      assert !Fills(calls[j - 1], views[j - 1], p);
    }
  }

  // ---- Cells and addresses -----------------------------------------------

  /** Placing the next frame: earlier bytes stay, and the frames of the burst grow by one. */
  lemma PlaceFrame(mem: seq<byte>, sw: nat, from: nat, at: nat, ps: seq<Packet>, p: Packet)
    requires TakesRoom(p) && |mem| > 0 && from <= at && at + FrameSize(p) <= |mem|
    requires Encodes(Window(mem, sw + from, at - from), ps)
    ensures var mem' := Store(mem, sw + at, Header(p));
            && Window(mem', sw, from) == Window(mem, sw, from)
            && Encodes(Window(mem', sw + from, at - from + FrameSize(p)), ps + [p])
  {
    hide Mask, Encodes, FrameSize, TakesRoom, Header;
    TakesEight(p);
    var mem' := Store(mem, sw + at, Header(p));
    var f := FrameSize(p);
    var w, w' := Window(mem, sw, at), Window(mem', sw, at);
    StoreWindow(mem, sw, at, Header(p));
    WindowSplit(mem', sw, at, HEADER_SIZE);
    assert w' + Window(mem', sw + at, HEADER_SIZE) == w + Header(p);
    SplitEqual(w', Window(mem', sw + at, HEADER_SIZE), w, Header(p));
    WindowSplit(mem, sw, from, at - from);
    WindowSplit(mem', sw, from, at - from);
    assert Window(mem', sw, from) == w'[..from] && Window(mem', sw + from, at - from) == w'[from..];
    assert Window(mem, sw, from) == w[..from] && Window(mem, sw + from, at - from) == w[from..];
    WindowSplit(mem', sw + from, at - from, f);
    assert sw + from + (at - from) == sw + at;
    var frame := Window(mem', sw + at, f);
    WindowSplit(mem', sw + at, HEADER_SIZE, f - HEADER_SIZE);
    assert frame[..HEADER_SIZE] == Header(p);
    EncodesOne(frame, p);
    EncodesConcat(w'[from..], ps, frame, [p]);
  }

  /** What was placed stays placed, and the burst's frames follow it. */
  lemma Accepted(sent: seq<byte>, mem: seq<byte>, sw: nat, from: nat, at: nat, ps: seq<Packet>, qs: seq<Packet>)
    requires |mem| > 0 && from <= at
    requires Encodes(Window(mem, sw, from), ps) && Encodes(Window(mem, sw + from, at - from), qs)
    ensures Encodes(Window(mem, sw, at), ps + qs)
    ensures sent + Window(mem, sw, at) == sent + Window(mem, sw, from) + Window(mem, sw + from, at - from)
  {
    hide Mask, Encodes, Window;
    WindowSplit(mem, sw, from, at - from);
    EncodesConcat(Window(mem, sw, from), ps, Window(mem, sw + from, at - from), qs);
  }

  /** A payload byte stored through its address: only that byte of what was placed changes. */
  lemma Filled(mem: seq<byte>, sw: nat, swptr: nat, at: nat, x: byte, ps: seq<Packet>)
    requires |mem| > 0 && swptr <= |mem| && IsPayload(ps, at) && Encodes(Window(mem, sw, swptr), ps)
    ensures at < swptr
    ensures var mem' := Store(mem, sw + at, [x]);
            && Window(mem', sw, swptr) == Window(mem, sw, swptr)[at := x]
            && Encodes(Window(mem', sw, swptr), ps)
  {
    hide Mask, Encodes, IsPayload, Window;
    PayloadWrite(Window(mem, sw, swptr), ps, at, x);
    WindowWrite(mem, sw, swptr, sw + at, x);
    StoreOne(mem, sw + at, x);
  }

  /** The queue's pointers agree with what the driver granted. */
  ghost predicate Held(s: TxState<byte>, me: Id, size: nat, sync: Pointers) {
    && Inv(s) && s.ch.size == size == |s.mem|
    && 0 <= sync.hwptr < size
    && (Granted(s, me) > 0 ==> sync.hwptr == Mask(s.sw, size))
  }

  /** The cursor `(data, swptr, bytes)` lies in the granted window. */
  ghost predicate InGrant(s: TxState<byte>, me: Id, hwptr: int, data: int, swptr: nat, bytes: nat) {
    && swptr + bytes <= Granted(s, me)
    && (bytes > 0 ==> data == hwptr + swptr)
  }

  /** Between `from` and `at`, the window holds the frames of `ps`. */
  ghost predicate Holds(s: TxState<byte>, from: nat, at: nat, ps: seq<Packet>) {
    |s.mem| > 0 && from <= at && Encodes(Window(s.mem, s.sw + from, at - from), ps)
  }

  /** A packet that got the frame at address `frame`: its addresses, which end inside the mapping. */
  ghost predicate Placed(slot: Slot, frame: int, size: nat) {
    && slot.header == frame + HEADER_SIZE
    && slot.data == frame + HeaderRoom(slot.request)
    && 0 <= frame && frame + FrameSize(slot.request) < 2 * size
  }

  ghost predicate PlacedAt(slots: seq<Slot>, i: nat, start: int, reqs: seq<Packet>, size: nat) {
    i < |slots| && i < |reqs| && Placed(slots[i], start + Offset(reqs, i), size)
  }

  /** The first `k` packets got frames one after another from `start`. */
  ghost predicate PlacedFrom(slots: seq<Slot>, k: nat, start: int, reqs: seq<Packet>, size: nat) {
    k <= |slots| && k <= |reqs| && forall i | 0 <= i < k :: PlacedAt(slots, i, start, reqs, size)
  }

  lemma PlacedStays(slots: seq<Slot>, slots': seq<Slot>, i: nat, start: int, reqs: seq<Packet>, size: nat)
    requires PlacedAt(slots, i, start, reqs, size) && i < |slots'| && slots'[i] == slots[i]
    ensures PlacedAt(slots', i, start, reqs, size)
  {
    hide Placed, Offset;
  }

  lemma PlacedOneMore(slots: seq<Slot>, slots': seq<Slot>, k: nat, start: int, reqs: seq<Packet>, size: nat)
    requires PlacedFrom(slots, k, start, reqs, size) && k < |slots| == |slots'| && k < |reqs|
    requires forall i | 0 <= i < k :: slots'[i] == slots[i]
    requires PlacedAt(slots', k, start, reqs, size)
    ensures PlacedFrom(slots', k + 1, start, reqs, size)
  {
    hide PlacedAt;
    forall i | 0 <= i < k + 1
      ensures PlacedAt(slots', i, start, reqs, size)
    {
      if i < k {
        PlacedStays(slots, slots', i, start, reqs, size);
      }
    }
  }

  lemma SameRequests(slots: seq<Slot>, k: nat, slot: Slot)
    requires k < |slots| && slot.request == slots[k].request
    ensures Requests(slots[k := slot]) == Requests(slots)
  {
    var slots' := slots[k := slot];
    forall i | 0 <= i < |slots|
      ensures slots'[i].request == slots[i].request
    {
    }
  }

  lemma DoesNotFit(reqs: seq<Packet>, i: nat, from: nat, room: nat)
    requires i <= |reqs| && from + Offset(reqs, i) > room
    ensures from + Offset(reqs, |reqs|) > room
  {
    OffsetGrows(reqs, i, |reqs|);
  }

  lemma NonePlaced(slots: seq<Slot>, start: int, reqs: seq<Packet>, size: nat)
    ensures PlacedFrom(slots, 0, start, reqs, size)
  {
  }

  lemma NothingEncoded(b: seq<byte>, ps: seq<Packet>)
    requires Encodes(b, ps) && ps != []
    ensures b != []
  {
    FirstHeader(b, ps);
  }

  class Queue {
    /** The subscription; the addresses below count from the start of the mapped ring. */
    const port: Port<byte>
    var sync: Pointers
    var data: int
    var bytes: nat
    var total: nat
    var swptr: nat
    /** The packets of the accepted bursts, published and not, and the bytes they stand for. */
    var published: seq<Packet>
    var pending: seq<Packet>
    ghost var stream: seq<byte>

    ghost function Granted(): nat
      reads port
    {
      TxArbiter.Granted(port.kernel, port.id)
    }

    /** The bytes this queue has published. */
    ghost function Out(): seq<byte>
      reads port
    {
      Sent(port.kernel, port.id)
    }

    ghost function Now(): View
      reads this, port
    {
      View(stream, |Out()|, pending)
    }

    /** The first `n` bytes of the granted window. */
    ghost function InWindow(n: nat): seq<byte>
      requires |port.kernel.mem| > 0
      reads port
    {
      Window(port.kernel.mem, port.kernel.sw, n)
    }

    ghost predicate Connected()
      reads this, port
    {
      |port.kernel.mem| > 0 && Held(port.kernel, port.id, port.size, sync)
    }

    ghost predicate Cursor(data: int, swptr: nat, bytes: nat)
      reads this, port
    {
      InGrant(port.kernel, port.id, sync.hwptr, data, swptr, bytes)
    }

    ghost predicate Valid()
      reads this, port
    {
      && Connected()
      && Cursor(data, swptr, bytes)
      && Encodes(InWindow(swptr), pending)
      && Encodes(Out(), published)
      && Out() + InWindow(swptr) == stream
      && (forall p | p in published + pending :: TakesRoom(p))
    }

    /** nc_ndp_v1_open_queue */
    constructor (port: Port<byte>)
      requires port.Valid() && !port.Running() && Sent(port.kernel, port.id) == []
      ensures Valid() && this.port == port && published == pending == [] && stream == []
    {
      this.port := port;
      sync := Pointers(0, 0);
      data, bytes, total, swptr := 0, 0, 0, 0;
      published, pending, stream := [], [], [];
      new;
      hide Mask, Inv, Window;
      EncodesNone([]);
      WindowBound(port.kernel, port.id);
      if Granted() > 0 {
        WindowIsStarted(port.kernel, port.id);
      }
      EmptyWindow(port.kernel.mem, port.kernel.sw);
    }

    /**
     The bytes published so far read back as the packets published so far exactly when none of
     them was larger than the sizes the writer computes with.
     */
    lemma PublishedParses()
      requires Valid()
      ensures Parse(Out()) == Some(published) <==> forall p | p in published :: Fits(p)
    {
      hide Mask, Inv, Encodes, Parse, Window, Fits, TakesRoom;
      RoundTrip(Out(), published);
    }

    /**
     Packets not yet published mean that the queue is started, holds the driver's lock, and
     stays inside its grant.
     */
    lemma UnpublishedIsHeld()
      requires Valid() && pending != []
      ensures port.Running() && port.kernel.ch.locked == Some(port.id)
      ensures 0 < swptr && swptr + bytes <= Granted() < port.size
    {
      hide Mask, Encodes, Window, TakesRoom;
      NothingEncoded(InWindow(swptr), pending);
      WindowIsStarted(port.kernel, port.id);
      WindowBound(port.kernel, port.id);
    }

    /** nc_ndp_v1_tx_lock: ask for the whole ring; what is already placed stays placed. */
    method Lock()
      requires Connected() && Cursor(data, swptr, bytes)
      modifies `sync, `data, `bytes, `total, port
      ensures Connected() && Cursor(data, swptr, bytes) && swptr + bytes == Granted()
      ensures Out() == old(Out()) && port.Running() == old(port.Running())
      ensures port.Running() ==> Fully(port.kernel, port.id)
      ensures Granted() >= old(Granted())
      ensures old(Granted()) > 0 ==>
                && sync.hwptr == old(sync.hwptr) && port.kernel.sw == old(port.kernel.sw)
                && InWindow(old(Granted())) == old(InWindow(Granted()))
    {
      hide Mask, Inv, Fully, Window;
      sync := sync.(swptr := Mask(sync.hwptr - 1, port.size));
      WholeRing(sync.hwptr, port.size);
      EmptyWindow(port.kernel.mem, port.kernel.sw);
      var ok, answer := port.Sync(sync, 0);
      sync := answer;
      WindowBound(port.kernel, port.id);
      if !ok {
        if Granted() > 0 {
          WindowIsStarted(port.kernel, port.id);
        }
        return;
      }
      MaskRemaining(port.kernel.sw, port.kernel.sw + Granted(), swptr, port.size);
      data := sync.hwptr + swptr;
      bytes := Mask(sync.swptr - sync.hwptr - swptr, port.size);
      total := Mask(sync.swptr - sync.hwptr, port.size);
    }

    /** nc_ndp_v1_tx_burst_flush, with nc_ndp_v1_tx_unlock: publish everything placed and release the lock. */
    method BurstFlush()
      requires Valid()
      modifies this, port
      ensures Valid()
      ensures published == old(published + pending) && pending == []
      ensures stream == old(stream) == Out()
      ensures Granted() == 0 && port.Running() == old(port.Running())
    {
      hide Mask, Inv, Encodes, TakesRoom, Window;
      EncodesNone([]);
      EncodesConcat(Out(), published, InWindow(swptr), pending);
      if Granted() > 0 {
        WindowIsStarted(port.kernel, port.id);
        MaskSum(port.kernel.sw, swptr, port.size);
      }
      ghost var out, placed := Out() + InWindow(swptr), swptr;
      EmptyWindow(port.kernel.mem, port.kernel.sw);
      assert Out() + [] == Out();
      sync := sync.(hwptr := Mask(sync.hwptr + swptr, port.size));
      sync := sync.(swptr := sync.hwptr);
      total, bytes, swptr := 0, 0, 0;
      published, pending := published + pending, [];
      var ok, answer := port.Sync(sync, placed);
      sync := answer;
      WindowBound(port.kernel, port.id);
      EmptyWindow(port.kernel.mem, port.kernel.sw);
      assert Out() == out && out + [] == out;
    }

    /** nc_ndp_v1_tx_burst_put: publish once more than a quarter of the ring is filled. */
    method BurstPut()
      requires Valid()
      modifies this, port
      ensures Valid()
      ensures published + pending == old(published + pending) && stream == old(stream)
      ensures old(swptr) > port.size / 4 ==> pending == [] && Out() == stream
      ensures old(swptr) <= port.size / 4 ==> pending == old(pending) && Out() == old(Out())
      ensures port.Running() == old(port.Running())
    {
      if swptr > port.size / 4 {
        BurstFlush();
      }
    }

    /** The header of the next packet, stored through the cursor's address. */
    method WriteHeader(data: int, p: Packet, ghost from: nat, ghost at: nat, ghost ps: seq<Packet>)
      requires TakesRoom(p) && Connected() && from <= at && at + FrameSize(p) <= Granted()
      requires data == sync.hwptr + at
      requires Holds(port.kernel, from, at, ps)
      modifies port`kernel
      ensures Connected()
      ensures port.kernel == old(port.kernel).(mem := port.kernel.mem)
      ensures InWindow(from) == old(InWindow(from))
      ensures Holds(port.kernel, from, at + FrameSize(p), ps + [p])
      // The last byte of the frame lies in the shadow mapping.
      ensures 0 <= data && data + FrameSize(p) < 2 * port.size
    {
      hide Mask, Inv, Encodes, FrameSize, Header, TakesRoom, Window, Store;
      TakesEight(p);
      WindowBound(port.kernel, port.id);
      MaskSum(port.kernel.sw, at, port.size);
      PlaceFrame(port.kernel.mem, port.kernel.sw, from, at, ps, p);
      port.Put(data, Header(p), at);
      WindowBound(port.kernel, port.id);
    }

    /**
     The lock attempt in the burst loop, made when fewer than `need` bytes are left.
     A cursor saved before stays good, and so does everything placed.
     */
    method Reserve(need: nat, curData: int, curSwptr: nat, curBytes: nat, ghost saved: (int, nat, nat))
      returns (ok: bool)
      requires Connected() && Cursor(curData, curSwptr, curBytes) && Cursor(saved.0, saved.1, saved.2)
      modifies `sync, `data, `bytes, `total, `swptr, port
      ensures Connected() && Cursor(data, swptr, bytes) && Cursor(saved.0, saved.1, saved.2)
      ensures swptr == curSwptr && ok == (bytes >= need) == (curSwptr + need <= Granted())
      ensures Out() == old(Out()) && port.Running() == old(port.Running())
      ensures curSwptr > 0 ==> sync.hwptr == old(sync.hwptr) && port.kernel.sw == old(port.kernel.sw)
      ensures InWindow(curSwptr) == old(InWindow(curSwptr))
      ensures port.Running() ==> Fully(port.kernel, port.id)
    {
      hide Mask, Inv, Fully;
      data, swptr, bytes := curData, curSwptr, curBytes;
      ghost var mem, sw, g := port.kernel.mem, port.kernel.sw, Granted();
      Lock();
      if g > 0 {
        SamePieces(mem, sw, port.kernel.mem, sw, curSwptr, g - curSwptr);
      } else {
        EmptyWindow(mem, sw);
        EmptyWindow(port.kernel.mem, port.kernel.sw);
      }
      ok := bytes >= need;
    }

    /** One turn of the burst loop: lock when there is too little room, then write the header. */
    method PlaceNext(p: Packet, curData: int, curSwptr: nat, curBytes: nat,
                     ghost from: nat, ghost ps: seq<Packet>, ghost saved: (int, nat, nat))
      returns (ok: bool, frame: int, newData: int, newSwptr: nat, newBytes: nat)
      requires Connected() && Cursor(curData, curSwptr, curBytes) && Cursor(saved.0, saved.1, saved.2)
      requires TakesRoom(p) && from <= curSwptr
      requires Holds(port.kernel, from, curSwptr, ps)
      modifies `sync, `data, `bytes, `total, `swptr, port
      ensures Connected() && Cursor(saved.0, saved.1, saved.2)
      ensures Out() == old(Out()) && port.Running() == old(port.Running())
      ensures curSwptr > 0 ==> sync.hwptr == old(sync.hwptr)
      ensures InWindow(from) == old(InWindow(from))
      ensures ok == (curSwptr + FrameSize(p) <= Granted())
      ensures !ok && port.Running() ==> Fully(port.kernel, port.id)
      ensures ok ==>
                && Cursor(newData, newSwptr, newBytes) && newSwptr == curSwptr + FrameSize(p)
                && Holds(port.kernel, from, newSwptr, ps + [p])
                && frame == sync.hwptr + curSwptr && 0 <= frame && frame + FrameSize(p) < 2 * port.size
    {
      hide Mask, Inv, Encodes, FrameSize, Header, Window, Offset, Fully;
      var packetSize := FrameSize(p);
      TakesEight(p);
      newData, newSwptr, newBytes := curData, curSwptr, curBytes;
      if curBytes < packetSize {
        ghost var mem, sw := port.kernel.mem, port.kernel.sw;
        ok := Reserve(packetSize, curData, curSwptr, curBytes, saved);
        SamePieces(mem, sw, port.kernel.mem, port.kernel.sw, from, curSwptr - from);
        newData, newSwptr, newBytes := data, swptr, bytes;
        if !ok {
          return false, 0, newData, newSwptr, newBytes;
        }
      }
      WriteHeader(newData, p, from, curSwptr, ps);
      frame := newData;
      newData, newSwptr, newBytes := newData + packetSize, newSwptr + packetSize, newBytes - packetSize;
      ok := true;
    }

    /** The same for the packet at hand, with its addresses stored. */
    method PlaceSlot(packets: array<Slot>, i: nat, curData: int, curSwptr: nat, curBytes: nat,
                     ghost k: TxState<byte>, ghost h: int, ghost slots: seq<Slot>, ghost reqs: seq<Packet>,
                     ghost saved: (int, nat, nat))
      returns (ok: bool, newData: int, newSwptr: nat, newBytes: nat)
      requires i < packets.Length && i < |reqs| && packets[i].request == reqs[i]
      requires forall j | 0 <= j <= i :: TakesRoom(reqs[j])
      requires Progress(k, h, slots, packets[..], reqs, i, saved, (curData, curSwptr, curBytes))
      modifies `sync, `data, `bytes, `total, `swptr, packets, port
      ensures ok ==> Progress(k, h, slots, packets[..], reqs, i + 1, saved, (newData, newSwptr, newBytes))
      ensures !ok ==> Refused(k, h, slots, packets[..], reqs, saved)
    {
      hide Mask, FrameSize, Header, HeaderRoom, Window, Offset, TakesRoom, Held, InGrant, Holds, PlacedFrom;
      hide Requests, Parse, Fully;
      ghost var now := packets[..];
      var p := packets[i].request;
      var frame;
      ok, frame, newData, newSwptr, newBytes := PlaceNext(p, curData, curSwptr, curBytes, saved.1, reqs[..i], saved);
      OffsetStep(reqs, i);
      if !ok {
        DoesNotFit(reqs, i + 1, saved.1, Granted());
        return;
      }
      OffsetGrows(reqs, 0, i);
      if i == 0 {
        NonePlaced(now, sync.hwptr + saved.1, reqs, port.size);
      }
      var slot := Slot(p, frame + HEADER_SIZE, frame + HeaderRoom(p));
      packets[i] := slot;
      assert packets[..] == now[i := slot];
      SameRequests(now, i, slot);
      PlacedOneMore(now, packets[..], i, sync.hwptr + saved.1, reqs, port.size);
      assert reqs[..i] + [p] == reqs[..i + 1];
    }

    /**
     The burst loop, from kernel state `k`, pointer `h` and packets `slots`, after `i` packets;
     `saved` is where it began.
     */
    ghost predicate Progress(k: TxState<byte>, h: int, slots: seq<Slot>, now: seq<Slot>, reqs: seq<Packet>, i: nat,
                             saved: (int, nat, nat), cur: (int, nat, nat))
      reads this, port
    {
      && Connected() && Cursor(saved.0, saved.1, saved.2) && Cursor(cur.0, cur.1, cur.2)
      && Undone(k, h, slots, now, saved.1)
      && i <= |reqs| && cur.1 == saved.1 + Offset(reqs, i)
      && Holds(port.kernel, saved.1, cur.1, reqs[..i])
      && PlacedFrom(now, i, sync.hwptr + saved.1, reqs, port.size)
    }

    /** The packets do not all fit the largest window there is, and nothing that was placed before has changed. */
    ghost predicate Refused(k: TxState<byte>, h: int, slots: seq<Slot>, now: seq<Slot>, reqs: seq<Packet>,
                            saved: (int, nat, nat))
      reads this, port
    {
      && Connected() && Cursor(saved.0, saved.1, saved.2)
      && Undone(k, h, slots, now, saved.1)
      && saved.1 + Offset(reqs, |reqs|) > Granted() && (port.Running() ==> Fully(port.kernel, port.id))
    }

    /** The window up to `from` is as it was in kernel state `k`, and stands at the pointer `h` when it is not empty. */
    ghost predicate Undone(k: TxState<byte>, h: int, slots: seq<Slot>, now: seq<Slot>, from: nat)
      reads this, port
    {
      && (from > 0 ==> sync.hwptr == h)
      && |k.mem| > 0 && |port.kernel.mem| > 0
      && Out() == Sent(k, port.id) && (port.Running() <==> port.id in k.ch.list)
      && InWindow(from) == Window(k.mem, k.sw, from)
      && Requests(now) == Requests(slots)
    }

    /** The burst loop. */
    method PlaceAll(packets: array<Slot>, count: nat, ghost reqs: seq<Packet>)
      returns (ok: bool, curData: int, curSwptr: nat, curBytes: nat)
      requires Connected() && Cursor(data, swptr, bytes)
      requires count <= packets.Length && reqs == Requests(packets[..])[..count]
      requires forall i | 0 <= i < count :: TakesRoom(reqs[i])
      modifies `sync, `data, `bytes, `total, `swptr, packets, port
      ensures ok ==> Progress(old(port.kernel), old(sync.hwptr), old(packets[..]), packets[..], reqs, count,
                              old((data, swptr, bytes)), (curData, curSwptr, curBytes))
      ensures !ok ==> Refused(old(port.kernel), old(sync.hwptr), old(packets[..]), packets[..], reqs,
                              old((data, swptr, bytes)))
    {
      curData, curSwptr, curBytes := data, swptr, bytes;
      ghost var k, h, slots, saved := port.kernel, sync.hwptr, packets[..], (data, swptr, bytes);
      EmptyWindow(k.mem, k.sw + swptr);
      EncodesNone([]);
      var i := 0;
      while i < count
        invariant i <= count
        invariant Progress(k, h, slots, packets[..], reqs, i, saved, (curData, curSwptr, curBytes))
      {
        RequestAt(packets[..], i);
        ok, curData, curSwptr, curBytes := PlaceSlot(packets, i, curData, curSwptr, curBytes, k, h, slots, reqs, saved);
        if !ok {
          return;
        }
        i := i + 1;
      }
      ok := true;
    }

    /**
     nc_ndp_v1_tx_burst_get. Either every packet of the burst gets a frame, one after
     another behind what was already placed, or the cursor is back where it was; which of
     them depends only on whether the frames fit the window the driver grants. If they do not,
     the window is all the free space, unless another holds the lock.
     */
    method BurstGet(packets: array<Slot>, count: nat) returns (cnt: nat)
      requires Valid() && count <= packets.Length
      requires forall i | 0 <= i < count :: TakesRoom(packets[i].request)
      modifies this, packets, port
      ensures Valid()
      ensures cnt == if old(swptr) + Offset(old(Requests(packets[..count])), count) <= Granted() then count else 0
      ensures cnt == 0 < count && port.Running() ==> Fully(port.kernel, port.id)
      ensures Out() == old(Out()) && published == old(published)
      // The addresses of what was placed before stay good.
      ensures old(swptr) > 0 ==> sync.hwptr == old(sync.hwptr)
      ensures pending == old(pending) + if cnt == 0 then [] else old(Requests(packets[..count]))
      ensures old(stream) <= stream && (cnt == 0 ==> stream == old(stream))
      ensures port.Running() == old(port.Running())
      ensures Requests(packets[..]) == old(Requests(packets[..]))
      ensures PlacedFrom(packets[..], cnt, sync.hwptr + old(swptr), old(Requests(packets[..count])), port.size)
    {
      hide Mask, Inv, Encodes, FrameSize, Header, HeaderRoom, Window, Offset, TakesRoom, Fully;
      var origBytes: nat, origData, origSwptr: nat := bytes, data, swptr;
      var reqs := Requests(packets[..count]);
      assert reqs == Requests(packets[..])[..count] && forall i | 0 <= i < count :: TakesRoom(reqs[i]);
      var ok, curData, curSwptr, curBytes := PlaceAll(packets, count, reqs);
      data, swptr, bytes := origData, origSwptr, origBytes;
      if !ok {
        NonePlaced(packets[..], sync.hwptr + origSwptr, reqs, port.size);
        return 0;
      }
      assert reqs[..count] == reqs;
      Accept(curData, curSwptr, curBytes, reqs);
      cnt := count;
    }

    /** The end of a burst that fits: keep the cursor behind it. */
    method Accept(curData: int, curSwptr: nat, curBytes: nat, reqs: seq<Packet>)
      requires Valid() && Cursor(curData, curSwptr, curBytes) && swptr <= curSwptr
      requires Holds(port.kernel, swptr, curSwptr, reqs)
      requires forall p | p in reqs :: TakesRoom(p)
      modifies `data, `swptr, `bytes, `pending, `stream
      ensures Valid() && pending == old(pending) + reqs
      ensures old(stream) <= stream && (reqs == [] ==> stream == old(stream))
    {
      hide Mask, Inv, Encodes, FrameSize, Header, Window, TakesRoom;
      Accepted(Out(), port.kernel.mem, port.kernel.sw, swptr, curSwptr, pending, reqs);
      EncodesNone(Window(port.kernel.mem, port.kernel.sw + swptr, curSwptr - swptr));
      stream := stream + Window(port.kernel.mem, port.kernel.sw + swptr, curSwptr - swptr);
      pending := pending + reqs;
      data, swptr, bytes := curData, curSwptr, curBytes;
    }

    /** The application stores a byte of a packet it got room for and has not published. */
    method Fill(at: nat, x: byte)
      requires Valid() && IsPayload(pending, at)
      modifies `stream, port`kernel
      ensures Valid() && Out() == old(Out()) && port.Running() == old(port.Running())
      ensures |Out()| + at < |old(stream)| && stream == old(stream)[|Out()| + at := x]
    {
      hide Mask, Inv, Encodes, IsPayload, Window, TakesRoom, Store;
      WindowBound(port.kernel, port.id);
      Filled(port.kernel.mem, port.kernel.sw, swptr, at, x, pending);
      MaskSum(port.kernel.sw, at, port.size);
      port.Put(sync.hwptr + at, [x], at);
      stream := stream[|Out()| + at := x];
    }

    /** nc_ndp_queue_start */
    method Start(ops: Option<int>) returns (ok: bool)
      requires Valid() && (ops.Some? ==> 0 <= ops.value < port.size)
      modifies port
      ensures Valid() && Out() == old(Out())
      ensures old(port.Running()) ==> !ok
      ensures port.Running() == (ok || old(port.Running()))
      ensures !old(port.Running()) && ops.Some? ==> ok
    {
      hide Mask, Inv, Encodes, TakesRoom, Window;
      ghost var was, g := port.kernel, Granted();
      ok := port.Start(ops);
      WindowBound(port.kernel, port.id);
      Unmoved(was, g);
    }

    /** What was placed is where it was, when the window is kept or there is none. */
    lemma Unmoved(was: TxState<byte>, g: nat)
      requires |was.mem| > 0 && |port.kernel.mem| > 0 && swptr <= g == TxArbiter.Granted(was, port.id)
      requires g > 0 ==> Keeps(was, port.kernel, port.id)
      ensures Window(was.mem, was.sw, swptr) == InWindow(swptr)
    {
      hide Mask, Window;
      if g > 0 {
        SamePieces(was.mem, was.sw, port.kernel.mem, was.sw, swptr, g - swptr);
      } else {
        EmptyWindow(was.mem, was.sw);
        EmptyWindow(port.kernel.mem, port.kernel.sw);
      }
    }

    /**
     ndp_queue_stop and nc_ndp_queue_stop: publish everything, then ask the driver to stop
     until it does; `busy` is how often the controller puts the last subscription off.
     */
    method Stop(busy: nat)
      requires Valid()
      modifies this, port
      ensures Valid() && !port.Running()
      ensures published == old(published + pending) && pending == []
      ensures stream == old(stream) == Out()
    {
      hide Mask, Inv, Encodes, TakesRoom, Window;
      if port.Running() {
        BurstFlush();
        var tries: nat := busy;
        while port.Running()
          invariant Valid() && Granted() == 0
          invariant published == old(published + pending) && pending == []
          invariant stream == old(stream) == Out()
          decreases if port.Running() then tries + 1 else 0
        {
          ghost var was, g := port.kernel, Granted();
          port.Stop(tries > 0);
          WindowBound(port.kernel, port.id);
          Unmoved(was, g);
          tries := if tries > 0 then tries - 1 else 0;
        }
        bytes := 0;
      } else {
        Idle();
      }
    }

    /** A queue that is not started has nothing placed. */
    lemma Idle()
      requires Valid() && !port.Running()
      ensures swptr == 0 && bytes == 0 && pending == [] && Out() == stream
    {
      if Granted() > 0 {
        WindowIsStarted(port.kernel, port.id);
      }
      EmptyWindow(port.kernel.mem, port.kernel.sw);
      if pending != [] {
        FirstHeader([], pending);
      }
    }

    /** Packets take room, and the controller reports a pointer of its ring. */
    predicate Proper(call: Call)
    {
      && (call.Get? ==> forall p | p in call.requests :: TakesRoom(p))
      && (call.Start? && call.ops.Some? ==> 0 <= call.ops.value < port.size)
    }

    /** One call. */
    method Make(call: Call) returns (n: nat)
      requires Valid()
      requires Proper(call)
      modifies this, port
      ensures Valid()
      ensures published + pending == old(published + pending) + AcceptedBurst(call, n)
      ensures Follows(call, n, old(Now()), Now())
      ensures call.Flush? || call.Stop? ==> pending == []
      ensures call.Get? && n == 0 ==> Full(call.requests)
    {
      hide Mask, Inv, Encodes, FrameSize, HeaderRoom, TakesRoom, Offset, PlacedFrom, Window, IsPayload, Fully;
      n := 0;
      Streamed();
      match call
      case Get(requests) => n := MakeGet(requests);
      case Put => BurstPut();
      case Flush => BurstFlush();
      case Fill(at, x) =>
        if IsPayload(pending, at) {
          Fill(at, x);
        }
      case Start(ops) => var ok := Start(ops);
      case Stop(busy) => Stop(busy);
      Streamed();
    }

    /** What is published is the beginning of the stream. */
    lemma Streamed()
      requires Valid()
      ensures Out() <= stream
    {
      hide Mask, Inv, Encodes, Window, TakesRoom;
    }

    /** A burst is empty, or too large for all the window a started queue can have now. */
    ghost predicate Full(requests: seq<Packet>)
      reads this, port
    {
      || requests == [] || !port.Running()
      || (swptr + Offset(requests, |requests|) > Granted() && Fully(port.kernel, port.id))
    }

    method MakeGet(requests: seq<Packet>) returns (n: nat)
      requires Valid() && forall p | p in requests :: TakesRoom(p)
      modifies this, port
      ensures Valid() && published == old(published)
      ensures pending == old(pending) + if n == 0 then [] else requests
      ensures Out() == old(Out()) && old(stream) <= stream && (n == 0 ==> stream == old(stream))
      ensures n == 0 ==> Full(requests)
    {
      hide Mask, Inv, Encodes, FrameSize, HeaderRoom, TakesRoom, Offset, PlacedFrom, Window, Fully;
      var packets := new Slot[|requests|](j requires 0 <= j < |requests| => Slot(requests[j], 0, 0));
      assert Requests(packets[..|requests|]) == requests;
      n := BurstGet(packets, |requests|);
    }

    /**
     Any series of calls. The packets of the bursts that returned their count, and no
     others, are published or about to be, in order; what is published reads back as them.
     The views tell what each call does to the bytes, from the first to those published now.
     */
    method Run(calls: seq<Call>) returns (counts: seq<nat>, ghost views: seq<View>)
      requires Valid()
      requires forall i | 0 <= i < |calls| :: Proper(calls[i])
      modifies this, port
      ensures Valid() && |counts| == |calls|
      ensures published + pending == old(published + pending) + AcceptedBursts(calls, counts, |calls|)
      ensures Parse(Out()) == Some(published) <==> forall p | p in published :: Fits(p)
      ensures Trace(calls, counts, views) && views[0] == old(Now()) && views[|calls|] == Now()
      ensures Out() == stream[..views[|calls|].sent]
      ensures calls != [] && (calls[|calls| - 1].Flush? || calls[|calls| - 1].Stop?) ==> pending == []
      ensures calls != [] && calls[|calls| - 1].Get? && counts[|calls| - 1] == 0 ==> Full(calls[|calls| - 1].requests)
    {
      hide Mask, Inv, Encodes, TakesRoom, Window, Parse, Offset, Fully, Follows, Queue.Valid, Queue.Proper;
      counts, views := [], [Now()];
      ghost var before := published + pending;
      for i := 0 to |calls|
        invariant Valid() && |counts| == i
        invariant published + pending == before + AcceptedBursts(calls, counts, i)
        invariant i > 0 && (calls[i - 1].Flush? || calls[i - 1].Stop?) ==> pending == []
        invariant Trace(calls[..i], counts, views) && views[0] == old(Now()) && views[i] == Now()
        invariant i > 0 && calls[i - 1].Get? && counts[i - 1] == 0 ==> Full(calls[i - 1].requests)
      {
        var n := Make(calls[i]);
        AcceptedPrefix(calls, counts, [n], i);
        TraceMore(calls[..i], counts, views, calls[i], n, Now());
        assert calls[..i + 1] == calls[..i] + [calls[i]];
        counts, views := counts + [n], views + [Now()];
      }
      assert calls[..|calls|] == calls;
      Streamed();
      PublishedParses();
    }
  }
}
