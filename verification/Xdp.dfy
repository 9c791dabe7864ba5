/**
 The AF_XDP modes of `ndptool`: a stack of free UMEM frames, and the loops that pass
 frames to the kernel through one ring of a socket and get them back through another.
 A frame is known by `addr / frame_size`: the kernel may return an address inside it.
 */
module Xdp {
  import Ring
  import opened Options

  const NUM_FRAMES: nat := 4096

  /** A ring entry; the fill and completion rings carry no length. */
  datatype Desc = Desc(addr: nat, len: nat)

  function Frame(addr: nat, frameSize: nat): nat
    requires frameSize > 0
  {
    addr / frameSize
  }

  // ---- Frame counts ------------------------------------------------------

  function Frames(ds: seq<Desc>, frameSize: nat): multiset<nat>
    requires frameSize > 0
  {
    if ds == [] then multiset{}
    else Frames(ds[..|ds| - 1], frameSize) + multiset{Frame(ds[|ds| - 1].addr, frameSize)}
  }

  /** The frames of a UMEM area of `n` frames. */
  function Area(n: nat): multiset<nat> {
    if n == 0 then multiset{} else Area(n - 1) + multiset{n - 1}
  }

  lemma {:induction false} AreaOnce(n: nat, f: nat)
    ensures Area(n)[f] == (if f < n then 1 else 0) && |Area(n)| == n
  {
    if n > 0 {
      AreaOnce(n - 1, f);
    }
  }

  lemma {:induction false} FramesConcat(a: seq<Desc>, b: seq<Desc>, frameSize: nat)
    requires frameSize > 0
    ensures Frames(a + b, frameSize) == Frames(a, frameSize) + Frames(b, frameSize)
    decreases |b|
  {
    if b == [] {
      assert a + b == a;
    } else {
      assert (a + b)[..|a + b| - 1] == a + b[..|b| - 1];
      FramesConcat(a, b[..|b| - 1], frameSize);
    }
  }

  lemma FramesOne(d: Desc, frameSize: nat)
    requires frameSize > 0
    ensures Frames([d], frameSize) == multiset{Frame(d.addr, frameSize)}
  {
    assert [d][..0] == [];
  }

  lemma FramesFirst(ds: seq<Desc>, k: nat, frameSize: nat)
    requires frameSize > 0 && k < |ds|
    ensures Frames(ds[k..], frameSize) == multiset{Frame(ds[k].addr, frameSize)} + Frames(ds[k + 1..], frameSize)
  {
    assert ds[k..] == [ds[k]] + ds[k + 1..];
    FramesConcat([ds[k]], ds[k + 1..], frameSize);
    FramesOne(ds[k], frameSize);
  }

  lemma {:induction false} FramesSize(ds: seq<Desc>, frameSize: nat)
    requires frameSize > 0
    ensures |Frames(ds, frameSize)| == |ds|
    decreases |ds|
  {
    if ds != [] {
      FramesSize(ds[..|ds| - 1], frameSize);
    }
  }

  // ---- The kernel --------------------------------------------------------

  /**
   The two rings of one direction and the frames the kernel works on; `taken` and `given` log
   all it took and gave back.
   */
  datatype Socket = Socket(
    submitted: seq<Desc>,
    held: seq<Desc>,
    returned: seq<Desc>,
    taken: seq<Desc>,
    given: seq<Desc>)
  {
    /** No frame is in the socket. */
    predicate Idle() {
      submitted == held == returned == []
    }
  }

  datatype Event = Take | Give(i: nat, desc: Desc)

  /** The kernel takes entries in order; it returns the frames it holds in any order. */
  function Act(s: Socket, e: Event, frameSize: nat): Socket
    requires frameSize > 0
  {
    match e
    case Take =>
      if s.submitted == [] then s
      else s.(submitted := s.submitted[1..], held := s.held + s.submitted[..1], taken := s.taken + s.submitted[..1])
    case Give(i, desc) =>
      if i >= |s.held| || Frame(desc.addr, frameSize) != Frame(s.held[i].addr, frameSize) then s
      else s.(held := s.held[..i] + s.held[i + 1..], returned := s.returned + [desc], given := s.given + [desc])
  }

  function ActAll(s: Socket, es: seq<Event>, frameSize: nat): Socket
    requires frameSize > 0
    decreases |es|
  {
    if es == [] then s else ActAll(Act(s, es[0], frameSize), es[1..], frameSize)
  }

  /** Every frame the rings and the kernel have. */
  function Out(s: Socket, frameSize: nat): multiset<nat>
    requires frameSize > 0
  {
    Frames(s.submitted, frameSize) + Frames(s.held, frameSize) + Frames(s.returned, frameSize)
  }

  lemma ActKeeps(s: Socket, e: Event, frameSize: nat)
    requires frameSize > 0
    ensures var s' := Act(s, e, frameSize);
            && Out(s', frameSize) == Out(s, frameSize)
            && s'.taken + s'.submitted == s.taken + s.submitted
            && s.given <= s'.given && s.returned <= s'.returned
            && s'.given[|s.given|..] == s'.returned[|s.returned|..]
  {
    hide Frames, Frame;
    var s' := Act(s, e, frameSize);
    if e.Take? && s.submitted != [] {
      assert s.submitted == s.submitted[..1] + s.submitted[1..];
      FramesConcat(s.submitted[..1], s.submitted[1..], frameSize);
      FramesConcat(s.held, s.submitted[..1], frameSize);
    } else if s' != s {
      var rest := s.held[e.i + 1..];
      assert s.held == s.held[..e.i] + s.held[e.i..];
      FramesConcat(s.held[..e.i], s.held[e.i..], frameSize);
      FramesFirst(s.held, e.i, frameSize);
      FramesConcat(s.held[..e.i], rest, frameSize);
      FramesConcat(s.returned, [e.desc], frameSize);
      FramesOne(e.desc, frameSize);
    }
  }

  lemma {:induction false} ActAllKeeps(s: Socket, es: seq<Event>, frameSize: nat)
    requires frameSize > 0
    ensures var s' := ActAll(s, es, frameSize);
            && Out(s', frameSize) == Out(s, frameSize)
            && s'.taken + s'.submitted == s.taken + s.submitted
            && s.given <= s'.given && s.returned <= s'.returned
            && s'.given[|s.given|..] == s'.returned[|s.returned|..]
    decreases |es|
  {
    hide Out, Act;
    if es != [] {
      ActKeeps(s, es[0], frameSize);
      ActAllKeeps(Act(s, es[0], frameSize), es[1..], frameSize);
    }
  }

  lemma {:induction false} IdleStays(s: Socket, es: seq<Event>, frameSize: nat)
    requires frameSize > 0
    ensures s.Idle() ==> ActAll(s, es, frameSize) == s
    decreases |es|
  {
    if es != [] && s.Idle() {
      IdleStays(Act(s, es[0], frameSize), es[1..], frameSize);
    }
  }

  // ---- The frame allocator -----------------------------------------------

  /** The first `k` addresses of the stack, as ring entries. */
  function Listing(addresses: seq<nat>, k: nat): (ds: seq<Desc>)
    requires k <= |addresses|
    ensures |ds| == k
  {
    seq(k, i requires 0 <= i < k => Desc(addresses[i], 0))
  }

  lemma ListingPush(addresses: seq<nat>, k: nat, x: nat, frameSize: nat)
    requires k < |addresses| && frameSize > 0
    ensures Frames(Listing(addresses[k := x], k + 1), frameSize)
         == Frames(Listing(addresses, k), frameSize) + multiset{Frame(x, frameSize)}
  {
    assert Listing(addresses[k := x], k + 1) == Listing(addresses, k) + [Desc(x, 0)];
    FramesConcat(Listing(addresses, k), [Desc(x, 0)], frameSize);
    FramesOne(Desc(x, 0), frameSize);
  }

  lemma ListingPop(addresses: seq<nat>, k: nat, frameSize: nat)
    requires k < |addresses| && frameSize > 0
    ensures Frames(Listing(addresses, k + 1), frameSize)
         == Frames(Listing(addresses[k := 0], k), frameSize) + multiset{Frame(addresses[k], frameSize)}
  {
    assert Listing(addresses, k + 1) == Listing(addresses[k := 0], k) + [Desc(addresses[k], 0)];
    FramesConcat(Listing(addresses[k := 0], k), [Desc(addresses[k], 0)], frameSize);
    FramesOne(Desc(addresses[k], 0), frameSize);
  }

  lemma NthFrame(i: nat, frameSize: nat)
    requires frameSize > 0
    ensures Frame(i * frameSize, frameSize) == i
  {
    var x := i * frameSize;
    assert x == (x / frameSize) * frameSize + x % frameSize;
    Ring.DivisionUnique(x / frameSize, x % frameSize, i, 0, frameSize);
  }

  class AddrStack {
    const addresses: array<nat>
    var addrCnt: nat

    ghost predicate Valid()
      reads this
    {
      addresses.Length == NUM_FRAMES && addrCnt <= NUM_FRAMES
    }

    /** The frames on the stack. */
    ghost function Free(frameSize: nat): multiset<nat>
      requires Valid() && frameSize > 0
      reads this, addresses
    {
      Frames(Listing(addresses[..], addrCnt), frameSize)
    }

    /** init_addr */
    constructor (frameSize: nat)
      requires frameSize > 0
      ensures Valid() && fresh(addresses) && addrCnt == NUM_FRAMES && Free(frameSize) == Area(NUM_FRAMES)
    {
      addresses := new nat[NUM_FRAMES];
      addrCnt := NUM_FRAMES;
      new;
      hide Frames, Frame, Listing;
      FramesNone(addresses[..], frameSize);
      for i := 0 to NUM_FRAMES
        invariant Valid() && addrCnt == NUM_FRAMES
        invariant Frames(Listing(addresses[..], i), frameSize) == Area(i)
      {
        var address: nat := i * frameSize;
        NthFrame(i, frameSize);
        ListingPush(addresses[..], i, address, frameSize);
        ghost var before := addresses[..];
        addresses[i] := address;
        assert addresses[..] == before[i := address];
      }
    }

    /** alloc_addr, where None is the exit with "BUG out of adresses". */
    method Alloc(ghost frameSize: nat) returns (addr: Option<nat>)
      requires Valid() && frameSize > 0
      modifies this, addresses
      ensures Valid() && (addr == None <==> old(addrCnt) == 0)
      ensures addr == None ==> addrCnt == old(addrCnt) && addresses[..] == old(addresses[..])
      ensures addr.Some? ==>
                && addrCnt == old(addrCnt) - 1 && addr.value == old(addresses[addrCnt - 1])
                && addresses[..] == old(addresses[..])[addrCnt := 0]
                && Free(frameSize) + multiset{Frame(addr.value, frameSize)} == old(Free(frameSize))
    {
      hide Frames, Frame, Listing;
      if addrCnt == 0 {
        return None;
      }
      ListingPop(addresses[..], addrCnt - 1, frameSize);
      addrCnt := addrCnt - 1;
      addr := Some(addresses[addrCnt]);
      ghost var before := addresses[..];
      addresses[addrCnt] := 0;
      assert addresses[..] == before[addrCnt := 0];
    }

    /** free_addr, where false is the exit with "BUG counting adresses". */
    method FreeAddr(address: nat, ghost frameSize: nat) returns (ok: bool)
      requires Valid() && frameSize > 0
      modifies this, addresses
      ensures Valid() && (ok <==> old(addrCnt) < NUM_FRAMES)
      ensures !ok ==> addrCnt == old(addrCnt) && addresses[..] == old(addresses[..])
      ensures ok ==>
                && addrCnt == old(addrCnt) + 1 && addresses[..] == old(addresses[..])[addrCnt - 1 := address]
                && Free(frameSize) == old(Free(frameSize)) + multiset{Frame(address, frameSize)}
    {
      hide Frames, Frame, Listing;
      if addrCnt == NUM_FRAMES {
        return false;
      }
      ListingPush(addresses[..], addrCnt, address, frameSize);
      ghost var before := addresses[..];
      addresses[addrCnt] := address;
      assert addresses[..] == before[addrCnt := address];
      addrCnt := addrCnt + 1;
      ok := true;
    }
  }

  lemma FramesNone(addresses: seq<nat>, frameSize: nat)
    requires frameSize > 0
    ensures Frames(Listing(addresses, 0), frameSize) == Area(0)
  {
  }

  // ---- The loops ---------------------------------------------------------

  /** Every frame is in exactly one place: on the stack, with the application, or in the socket. */
  ghost predicate Conserved(free: multiset<nat>, own: multiset<nat>, s: Socket, frameSize: nat)
    requires frameSize > 0
  {
    free + own + Out(s, frameSize) == Area(NUM_FRAMES)
  }

  /** No frame is in two places or twice in one, and none is lost. */
  lemma ConservedApart(free: multiset<nat>, own: multiset<nat>, s: Socket, frameSize: nat, f: nat)
    requires frameSize > 0 && Conserved(free, own, s, frameSize)
    ensures free[f] + own[f]
            + Frames(s.submitted, frameSize)[f] + Frames(s.held, frameSize)[f] + Frames(s.returned, frameSize)[f]
         == (if f < NUM_FRAMES then 1 else 0)
  {
    AreaOnce(NUM_FRAMES, f);
    hide Frames, Area;
    assert Area(NUM_FRAMES)[f] == (free + own + Out(s, frameSize))[f];
  }

  /** So the places' sizes add up. */
  lemma ConservedSize(addresses: seq<nat>, addrCnt: nat, own: seq<Desc>, s: Socket, frameSize: nat)
    requires frameSize > 0 && addrCnt <= |addresses|
    requires Conserved(Frames(Listing(addresses, addrCnt), frameSize), Frames(own, frameSize), s, frameSize)
    ensures addrCnt + |own| + |s.submitted| + |s.held| + |s.returned| == NUM_FRAMES
  {
    AreaOnce(NUM_FRAMES, 0);
    FramesSize(Listing(addresses, addrCnt), frameSize);
    FramesSize(own, frameSize);
    FramesSize(s.submitted, frameSize);
    FramesSize(s.held, frameSize);
    FramesSize(s.returned, frameSize);
    hide Frames, Area, Listing;
    assert |Out(s, frameSize)| == |s.submitted| + |s.held| + |s.returned|;
  }

  lemma OwnNothing(frameSize: nat)
    requires frameSize > 0
    ensures Frames([], frameSize) == multiset{}
  {
  }

  lemma AllFree(frameSize: nat)
    requires frameSize > 0
    ensures Conserved(Area(NUM_FRAMES), multiset{}, Socket([], [], [], [], []), frameSize)
    ensures Bytes([]) == 0
  {
    hide Area;
  }

  /** A frame moves from the stack into a reserved entry, and the entries into the ring. */
  lemma Reserved(free: multiset<nat>, entries: seq<Desc>, d: Desc, s: Socket, frameSize: nat)
    requires frameSize > 0
    requires Conserved(free + multiset{Frame(d.addr, frameSize)}, Frames(entries, frameSize), s, frameSize)
    ensures Conserved(free, Frames(entries + [d], frameSize), s, frameSize)
  {
    hide Frames, Area, Frame, Out;
    FramesConcat(entries, [d], frameSize);
    FramesOne(d, frameSize);
  }

  lemma Submitted(free: multiset<nat>, entries: seq<Desc>, s: Socket, frameSize: nat)
    requires frameSize > 0 && Conserved(free, Frames(entries, frameSize), s, frameSize)
    ensures Conserved(free, multiset{}, s.(submitted := s.submitted + entries), frameSize)
  {
    hide Frames, Area, Frame;
    FramesConcat(s.submitted, entries, frameSize);
  }

  lemma PeekNone(free: multiset<nat>, s: Socket, frameSize: nat)
    requires frameSize > 0 && Conserved(free, multiset{}, s, frameSize)
    ensures Conserved(free, multiset{}, s.(returned := s.returned[0..]), frameSize)
  {
    assert s.returned[0..] == s.returned;
  }

  /** A frame moves from an entry that was peeked to the stack. */
  lemma Processed(free: multiset<nat>, s: Socket, r: seq<Desc>, i: nat, frameSize: nat)
    requires frameSize > 0 && i < |r| && Conserved(free, multiset{}, s.(returned := r[i..]), frameSize)
    ensures Conserved(free + multiset{Frame(r[i].addr, frameSize)}, multiset{}, s.(returned := r[i + 1..]), frameSize)
  {
    hide Frames, Area, Frame;
    FramesFirst(r, i, frameSize);
  }

  /** The kernel's turn. */
  lemma Turned(s: Socket, s': Socket, received: seq<Desc>, free: multiset<nat>, frameSize: nat)
    requires frameSize > 0 && Out(s', frameSize) == Out(s, frameSize)
    requires received + s.returned == s.given && Conserved(free, multiset{}, s, frameSize)
    requires s.given <= s'.given && s.returned <= s'.returned
    requires s'.given[|s.given|..] == s'.returned[|s.returned|..]
    ensures received + s'.returned == s'.given && Conserved(free, multiset{}, s', frameSize)
  {
    hide Out, Area;
    assert s'.given == s.given + s'.given[|s.given|..];
    assert s'.returned == s.returned + s'.returned[|s.returned|..];
  }

  function Bytes(ds: seq<Desc>): nat {
    if ds == [] then 0 else Bytes(ds[..|ds| - 1]) + ds[|ds| - 1].len
  }

  lemma BytesNone()
    ensures Bytes([]) == 0
  {
  }

  lemma {:induction false} BytesSplit(a: seq<Desc>, b: seq<Desc>)
    ensures Bytes(a + b) == Bytes(a) + Bytes(b)
    decreases |b|
  {
    if b == [] {
      assert a + b == a;
    } else {
      assert (a + b)[..|a + b| - 1] == a + b[..|b| - 1];
      BytesSplit(a, b[..|b| - 1]);
    }
  }

  /** Packet `k` has the length drawn for it. */
  ghost predicate Drawn(sent: seq<Desc>, lengths: nat -> nat) {
    forall k | 0 <= k < |sent| :: sent[k].len == lengths(k)
  }

  ghost predicate DrawnFrom(entries: seq<Desc>, lengths: nat -> nat, base: nat) {
    forall k | 0 <= k < |entries| :: entries[k].len == lengths(base + k)
  }

  lemma DrawnNone(lengths: nat -> nat, base: nat)
    ensures DrawnFrom([], lengths, base)
  {
  }

  lemma DrawnMore(entries: seq<Desc>, desc: Desc, lengths: nat -> nat, base: nat)
    requires DrawnFrom(entries, lengths, base) && desc.len == lengths(base + |entries|)
    ensures DrawnFrom(entries + [desc], lengths, base)
  {
  }

  lemma DrawnConcat(sent: seq<Desc>, entries: seq<Desc>, lengths: nat -> nat)
    requires Drawn(sent, lengths) && DrawnFrom(entries, lengths, |sent|)
    ensures Drawn(sent + entries, lengths)
  {
    forall k | 0 <= k < |sent + entries|
      ensures (sent + entries)[k].len == lengths(k)
    {
      if k >= |sent| {
        assert entries[k - |sent|].len == lengths(|sent| + (k - |sent|));
      }
    }
  }

  lemma SocketTurned(s: Socket, s': Socket, free: multiset<nat>, frameSize: nat)
    requires frameSize > 0 && Out(s', frameSize) == Out(s, frameSize) && Conserved(free, multiset{}, s, frameSize)
    ensures Conserved(free, multiset{}, s', frameSize)
  {
    hide Out, Area;
  }

  lemma BytesMore(ds: seq<Desc>, d: Desc)
    ensures Bytes(ds + [d]) == Bytes(ds) + d.len
  {
    assert (ds + [d])[..|ds|] == ds;
  }

  /** Why a loop ends. */
  datatype End = PacketLimit | ByteLimit | Stopped

  /** All but the last `burst` entries. */
  function AllBut(ds: seq<Desc>, burst: nat): (r: seq<Desc>) {
    if burst <= |ds| then ds[..|ds| - burst] else []
  }

  /** A prefix that lacks no more than a burst has at least the bytes of all but a burst. */
  lemma BytesAllBut(ds: seq<Desc>, k: nat, burst: nat)
    requires k <= |ds| <= k + burst
    ensures Bytes(AllBut(ds, burst)) <= Bytes(ds[..k])
  {
    var r := AllBut(ds, burst);
    BytesSplit(r, ds[|r|..k]);
    assert r + ds[|r|..k] == ds[..k];
  }

  /** After `t` passes that ended by no limit: all of the `ready` entries are received, or a burst in each pass. */
  ghost predicate Progress(got: nat, ready: nat, t: nat, burst: nat, rxBurst: nat) {
    got >= ready || (burst == rxBurst && got >= t * rxBurst)
  }

  function Least(a: nat, b: nat): nat {
    if a < b then a else b
  }

  /** A loop between two passes: its socket, the frames on the stack, the entries received or sent, and its burst. */
  datatype View = View(socket: Socket, free: nat, entries: seq<Desc>, burst: nat)

  /** The burst, made less when the packet limit is nearer. */
  function Asked(v: View, limitPackets: nat): nat {
    if limitPackets > 0 && |v.entries| <= limitPackets then Least(v.burst, limitPackets - |v.entries|) else v.burst
  }

  /**
   One pass of the read loop. The kernel has its turn; more than a burst of free frames all go to
   the fill ring; and of the entries returned by then, a burst or all there are are received, and
   their frames are free again.
   */
  ghost predicate ReadPass(v: View, v': View, turn: seq<Event>, limitPackets: nat, frameSize: nat)
    requires frameSize > 0
  {
    var k := ActAll(v.socket, turn, frameSize);
    var filled := if v.free > v.burst then v.free else 0;
    var cnt := Least(|k.returned|, Asked(v, limitPackets));
    && v'.burst == Asked(v, limitPackets)
    && v'.entries == v.entries + k.returned[..cnt] && v'.free == v.free - filled + cnt
    && v'.socket == k.(submitted := v'.socket.submitted, returned := k.returned[cnt..])
    && k.submitted <= v'.socket.submitted && |v'.socket.submitted| == |k.submitted| + filled
  }

  /** Why the read loop ends here, or goes on. */
  function ReadEnd(v: View, limitPackets: nat, limitBytes: nat): End {
    if 0 < limitPackets == |v.entries| then PacketLimit
    else if 0 < limitBytes < Bytes(v.entries) then ByteLimit
    else Stopped
  }

  /** The views before each pass and at the end, no limit being reached before. */
  ghost predicate ReadTrace(views: seq<View>, turns: seq<seq<Event>>, limitPackets: nat, limitBytes: nat,
                            frameSize: nat)
    requires frameSize > 0
  {
    && 0 < |views| <= |turns| + 1
    && forall t | 0 <= t < |views| - 1 ::
         && ReadPass(views[t], views[t + 1], turns[t], limitPackets, frameSize)
         && ReadEnd(views[t], limitPackets, limitBytes) == Stopped
  }

  lemma ReadStart(views: seq<View>, turns: seq<seq<Event>>, limitPackets: nat, limitBytes: nat, frameSize: nat)
    requires frameSize > 0 && |views| == 1
    ensures ReadTrace(views, turns, limitPackets, limitBytes, frameSize)
  {
  }

  /** A pass receives no more than was asked for, and that or all there is. */
  lemma PassReceives(v: View, v': View, turn: seq<Event>, limitPackets: nat, frameSize: nat)
    requires frameSize > 0 && ReadPass(v, v', turn, limitPackets, frameSize)
    ensures v.entries <= v'.entries && |v'.entries| <= |v.entries| + v'.burst
    ensures |v'.entries| == |v.entries| + v'.burst || v'.socket.returned == []
    ensures v'.burst <= v.burst
    ensures v'.burst == v.burst || (limitPackets > 0 && |v.entries| + v'.burst == limitPackets)
  {
    hide ActAll;
  }

  lemma ReadMore(views: seq<View>, turns: seq<seq<Event>>, limitPackets: nat, limitBytes: nat, frameSize: nat, v: View)
    requires frameSize > 0 && ReadTrace(views, turns, limitPackets, limitBytes, frameSize) && |views| <= |turns|
    requires ReadEnd(views[|views| - 1], limitPackets, limitBytes) == Stopped
    requires ReadPass(views[|views| - 1], v, turns[|views| - 1], limitPackets, frameSize)
    ensures ReadTrace(views + [v], turns, limitPackets, limitBytes, frameSize)
  {
    hide ReadPass, ReadEnd;
    var views' := views + [v];
    forall t | 0 <= t < |views'| - 1
      ensures ReadPass(views'[t], views'[t + 1], turns[t], limitPackets, frameSize)
      ensures ReadEnd(views'[t], limitPackets, limitBytes) == Stopped
    {
      if t < |views| - 1 {
        assert views'[t] == views[t] && views'[t + 1] == views[t + 1];
      }
    }
  }

  /** Why the generating loop ends here, or goes on. */
  function SendEnd(v: View, limitPackets: nat, limitBytes: nat): End {
    if 0 < limitPackets == |v.entries| then PacketLimit
    else if 0 < limitBytes <= Bytes(v.entries) then ByteLimit
    else Stopped
  }

  /** The kernel's turn, and the completions then there, up to a burst, collected. */
  ghost function Collected(v: View, turn: seq<Event>, limitPackets: nat, frameSize: nat): View
    requires frameSize > 0
  {
    var k := ActAll(v.socket, turn, frameSize);
    var cnt := Least(|k.returned|, Asked(v, limitPackets));
    View(k.(returned := k.returned[cnt..]), v.free + cnt, v.entries, Asked(v, limitPackets))
  }

  /** Whether collecting is done with that: there was no completion, and a burst's frames are free. */
  ghost predicate Enough(v: View, turn: seq<Event>, limitPackets: nat, frameSize: nat)
    requires frameSize > 0
  {
    var c := Collected(v, turn, limitPackets, frameSize);
    c.free == v.free >= c.burst
  }

  /** One turn of the generating loop: when collecting is done, a burst is sent at once, and only then. */
  ghost predicate SendTurn(v: View, v': View, turn: seq<Event>, limitPackets: nat, frameSize: nat)
    requires frameSize > 0
  {
    var c := Collected(v, turn, limitPackets, frameSize);
    if Enough(v, turn, limitPackets, frameSize) then
      && v.entries <= v'.entries && |v'.entries| == |v.entries| + c.burst
      && v'.free == c.free - c.burst && v'.burst == c.burst
      && v'.socket == c.socket.(submitted := c.socket.submitted + v'.entries[|v.entries|..])
    else v' == c
  }

  /** The views before each turn and at the end, no limit being reached before. */
  ghost predicate SendTrace(views: seq<View>, turns: seq<seq<Event>>, limitPackets: nat, limitBytes: nat,
                            frameSize: nat)
    requires frameSize > 0
  {
    && 0 < |views| <= |turns| + 1
    && forall t | 0 <= t < |views| - 1 ::
         && SendTurn(views[t], views[t + 1], turns[t], limitPackets, frameSize)
         && SendEnd(views[t], limitPackets, limitBytes) == Stopped
  }

  /** The last view before a turn, from which a burst is to be asked for. */
  ghost predicate Reached(views: seq<View>, turns: seq<seq<Event>>, rest: seq<seq<Event>>, limitPackets: nat,
                          limitBytes: nat, frameSize: nat)
    requires frameSize > 0
  {
    && 0 < |views| <= |turns| + 1 && rest == turns[|views| - 1..]
    && SendTrace(views, turns, limitPackets, limitBytes, frameSize)
  }

  /** A turn after which collecting goes on. */
  lemma StillCollecting(views: seq<View>, turns: seq<seq<Event>>, rest: seq<seq<Event>>, limitPackets: nat,
                        limitBytes: nat, frameSize: nat, v: View)
    requires frameSize > 0 && Reached(views, turns, rest, limitPackets, limitBytes, frameSize) && rest != []
    requires SendEnd(views[|views| - 1], limitPackets, limitBytes) == Stopped
    requires SendTurn(views[|views| - 1], v, rest[0], limitPackets, frameSize)
    ensures Reached(views + [v], turns, rest[1..], limitPackets, limitBytes, frameSize)
  {
    hide SendTurn, SendEnd;
    SendMore(views, turns, limitPackets, limitBytes, frameSize, v);
    hide SendTrace;
  }

  lemma SendStart(views: seq<View>, turns: seq<seq<Event>>, limitPackets: nat, limitBytes: nat, frameSize: nat)
    requires frameSize > 0 && |views| == 1
    ensures SendTrace(views, turns, limitPackets, limitBytes, frameSize)
  {
  }

  lemma SendMore(views: seq<View>, turns: seq<seq<Event>>, limitPackets: nat, limitBytes: nat, frameSize: nat, v: View)
    requires frameSize > 0 && SendTrace(views, turns, limitPackets, limitBytes, frameSize) && |views| <= |turns|
    requires SendEnd(views[|views| - 1], limitPackets, limitBytes) == Stopped
    requires SendTurn(views[|views| - 1], v, turns[|views| - 1], limitPackets, frameSize)
    ensures SendTrace(views + [v], turns, limitPackets, limitBytes, frameSize)
  {
    hide SendTurn, SendEnd;
    var views' := views + [v];
    forall t | 0 <= t < |views'| - 1
      ensures SendTurn(views'[t], views'[t + 1], turns[t], limitPackets, frameSize)
      ensures SendEnd(views'[t], limitPackets, limitBytes) == Stopped
    {
      if t < |views| - 1 {
        assert views'[t] == views[t] && views'[t + 1] == views[t + 1];
      }
    }
  }

  lemma NoProgress(ready: nat, burst: nat)
    ensures Progress(0, ready, 0, burst, burst)
  {
  }

  /** A pass that receives all there is, or the whole burst. */
  lemma MoreProgress(got: nat, ready: nat, t: nat, burst: nat, rxBurst: nat, cnt: nat, burst': nat)
    requires Progress(got, ready, t, burst, rxBurst)
    requires got + cnt >= ready || cnt == burst == burst'
    ensures Progress(got + cnt, ready, t + 1, burst', rxBurst)
  {
    assert (t + 1) * rxBurst == t * rxBurst + rxBurst;
  }

  lemma Progressed(got: nat, ready: nat, t: nat, burst: nat, rxBurst: nat)
    requires Progress(got, ready, t, burst, rxBurst)
    ensures got >= ready || got >= t * rxBurst
  {
  }

  /** One queue of `xdp_mode_read_loop`: the fill ring and the rx ring of its socket. */
  class Reader {
    const frameSize: nat
    const stack: AddrStack
    var socket: Socket
    var packetCnt: nat
    var bytesCnt: nat
    /** The entries of the rx ring processed so far. */
    ghost var received: seq<Desc>

    ghost predicate Shape()
      reads this, stack
    {
      frameSize > 0 && stack.Valid()
    }

    /** Between bursts: no frame is lost, and every entry the kernel returned is processed once, in order. */
    ghost predicate Valid()
      reads this, stack, stack.addresses
    {
      && Shape()
      && Conserved(stack.Free(frameSize), multiset{}, socket, frameSize)
      && received + socket.returned == socket.given
      && packetCnt == |received| && bytesCnt == Bytes(received)
    }

    constructor (frameSize: nat)
      requires frameSize > 0
      ensures Valid() && received == [] && this.frameSize == frameSize
    {
      hide Area, Frame, Frames, Listing, Conserved, Out, Bytes;
      this.frameSize := frameSize;
      stack := new AddrStack(frameSize);
      socket := Socket([], [], [], [], []);
      packetCnt, bytesCnt, received := 0, 0, [];
      AllFree(frameSize);
    }

    /** How much room each place takes up. */
    lemma Room(own: seq<Desc>)
      requires Shape() && Conserved(stack.Free(frameSize), Frames(own, frameSize), socket, frameSize)
      ensures stack.addrCnt + |own| + |socket.submitted| + |socket.held| + |socket.returned| == NUM_FRAMES
    {
      ConservedSize(stack.addresses[..], stack.addrCnt, own, socket, frameSize);
    }

    /** The top of the loop: give the kernel every free frame, once there are more than a burst of them. */
    method Fill(burst: nat)
      requires Valid()
      modifies `socket, stack, stack.addresses
      ensures Valid()
      ensures socket == old(socket).(submitted := socket.submitted) && old(socket.submitted) <= socket.submitted
      ensures stack.addrCnt == if old(stack.addrCnt) > burst then 0 else old(stack.addrCnt)
      ensures |socket.submitted| + stack.addrCnt == |old(socket.submitted)| + old(stack.addrCnt)
    {
      hide Frames, Area, Frame, Out, Conserved;
      OwnNothing(frameSize);
      Room([]);
      var free := NUM_FRAMES - |socket.submitted|;
      var reservable := if free < stack.addrCnt then free else stack.addrCnt;
      if reservable > burst {
        var entries := [];
        for i := 0 to reservable
          invariant Shape() && |entries| == i && stack.addrCnt == reservable - i
          invariant socket == old(socket)
          invariant Conserved(stack.Free(frameSize), Frames(entries, frameSize), socket, frameSize)
        {
          var addr := stack.Alloc(frameSize);
          if addr == None {
            assert false;
          }
          Reserved(stack.Free(frameSize), entries, Desc(addr.value, 0), socket, frameSize);
          entries := entries + [Desc(addr.value, 0)];
        }
        Submitted(stack.Free(frameSize), entries, socket, frameSize);
        socket := socket.(submitted := socket.submitted + entries);
      }
    }

    /** Peek at most a burst, put each frame back on the stack, count it, and release the entries. */
    method Receive(burst: nat) returns (cnt: nat)
      requires Valid()
      modifies `socket, `packetCnt, `bytesCnt, `received, stack, stack.addresses
      ensures Valid() && cnt == (if |old(socket.returned)| < burst then |old(socket.returned)| else burst)
      ensures received == old(received) + old(socket.returned)[..cnt]
      ensures socket == old(socket).(returned := old(socket.returned)[cnt..])
      ensures stack.addrCnt == old(stack.addrCnt) + cnt
    {
      hide Frames, Area, Frame, Out, Conserved, Bytes, Listing;
      cnt := if |socket.returned| < burst then |socket.returned| else burst;
      ghost var r := socket.returned;
      OwnNothing(frameSize);
      PeekNone(stack.Free(frameSize), socket, frameSize);
      for i := 0 to cnt
        invariant Shape() && socket == old(socket) && received == old(received) + r[..i]
        invariant Conserved(stack.Free(frameSize), multiset{}, socket.(returned := r[i..]), frameSize)
        invariant packetCnt == |received| && bytesCnt == Bytes(received) && stack.addrCnt == old(stack.addrCnt) + i
      {
        var desc := socket.returned[i];
        PeekRoom(r, i);
        Processed(stack.Free(frameSize), socket, r, i, frameSize);
        var ok := stack.FreeAddr(desc.addr, frameSize);
        if !ok {
          assert false;
        }
        BytesMore(received, desc);
        assert received + [desc] == old(received) + r[..i + 1];
        packetCnt, bytesCnt := packetCnt + 1, bytesCnt + desc.len;
        received := received + [desc];
      }
      socket := socket.(returned := socket.returned[cnt..]);
    }

    /** A frame peeked and not yet put back leaves room on the stack. */
    lemma PeekRoom(r: seq<Desc>, i: nat)
      requires Shape() && i < |r|
      requires Conserved(stack.Free(frameSize), multiset{}, socket.(returned := r[i..]), frameSize)
      ensures stack.addrCnt < NUM_FRAMES
    {
      hide Area, Frame, Out, Conserved, Listing;
      ConservedSize(stack.addresses[..], stack.addrCnt, [], socket.(returned := r[i..]), frameSize);
    }

    ghost function Now(burst: nat): View
      reads this, stack
    {
      View(socket, stack.addrCnt, received, burst)
    }

    /** One pass, unless a limit is reached; `asked` is the burst that is asked for from then on. */
    method Pass(turn: seq<Event>, burst: nat, limitPackets: nat, limitBytes: nat) returns (end: End, asked: nat)
      requires Valid() && (limitPackets > 0 ==> packetCnt <= limitPackets)
      modifies this, stack, stack.addresses
      ensures Valid() && end == ReadEnd(old(Now(burst)), limitPackets, limitBytes)
      ensures end == Stopped ==> ReadPass(old(Now(burst)), Now(asked), turn, limitPackets, frameSize)
      ensures end != Stopped ==> received == old(received)
      ensures limitPackets > 0 ==> packetCnt <= limitPackets
      ensures |old(socket.given)| <= |socket.given|
    {
      hide Frames, Area, Frame, Out, Conserved, Bytes, ActAll;
      asked := burst;
      ActAllKeeps(socket, turn, frameSize);
      Turned(socket, ActAll(socket, turn, frameSize), received, stack.Free(frameSize), frameSize);
      socket := ActAll(socket, turn, frameSize);
      Fill(burst);
      if limitPackets > 0 {
        if packetCnt == limitPackets {
          return PacketLimit, asked;
        }
        if packetCnt + burst > limitPackets {
          asked := limitPackets - packetCnt;
        }
      }
      if limitBytes > 0 && bytesCnt > limitBytes {
        return ByteLimit, asked;
      }
      var cnt := Receive(asked);
      end := Stopped;
    }

    /**
     xdp_mode_read_loop, until it is stopped after `turns`; before each pass the kernel takes
     and returns what it likes. Neither allocator exit is reached, and the packets counted are
     the rx entries in order. Every pass gives the kernel the free frames and receives what the
     kernel has returned by then, up to a burst, as the views tell. A packet limit is met exactly,
     a byte limit passed by no more than a burst; stopped below a packet limit, the loop has
     received a full burst in every pass, or at least all that was there at its start.
     */
    method Run(turns: seq<seq<Event>>, rxBurst: nat, limitPackets: nat, limitBytes: nat)
      returns (end: End, ghost views: seq<View>)
      requires Valid() && (limitPackets > 0 ==> packetCnt <= limitPackets)
      modifies this, stack, stack.addresses
      ensures Valid() && old(received) <= received
      ensures ReadTrace(views, turns, limitPackets, limitBytes, frameSize) && views[0] == old(Now(rxBurst))
      ensures received == views[|views| - 1].entries
      ensures if |views| == |turns| + 1 then end == Stopped
              else end == ReadEnd(views[|views| - 1], limitPackets, limitBytes) != Stopped
      ensures limitPackets > 0 ==> packetCnt <= limitPackets
      ensures end == PacketLimit ==> packetCnt == limitPackets > 0
      ensures end == ByteLimit ==> bytesCnt > limitBytes > 0
      ensures limitBytes > 0 && old(bytesCnt) <= limitBytes ==> Bytes(AllBut(received, rxBurst)) <= limitBytes
      ensures end == Stopped && (limitPackets == 0 || packetCnt < limitPackets) ==>
                || |received| - |old(received)| >= |old(socket.returned)|
                || |received| - |old(received)| >= |turns| * rxBurst
    {
      hide Frames, Area, Frame, Out, Conserved, Bytes, AllBut, Progress, ActAll, ReadPass, ReadTrace;
      NoProgress(|socket.returned|, rxBurst);
      var burst: nat := rxBurst;
      ghost var last := |received|;
      views := [Now(rxBurst)];
      ReadStart(views, turns, limitPackets, limitBytes, frameSize);
      assert received[..last] == received;
      for t := 0 to |turns|
        invariant Valid() && old(received) <= received && burst <= rxBurst
        invariant |views| == t + 1 && views[0] == old(Now(rxBurst)) && views[t] == Now(burst)
        invariant ReadTrace(views, turns, limitPackets, limitBytes, frameSize)
        invariant limitPackets > 0 ==> packetCnt <= limitPackets
        invariant last <= |received| <= last + rxBurst
        invariant limitBytes > 0 && old(bytesCnt) <= limitBytes ==> Bytes(received[..last]) <= limitBytes
        invariant |old(received)| + |old(socket.returned)| <= |socket.given|
        invariant limitPackets == 0 || packetCnt < limitPackets ==>
                    Progress(|received| - |old(received)|, |old(socket.returned)|, t, burst, rxBurst)
      {
        ghost var before, asked := received, burst;
        end, burst := Pass(turns[t], burst, limitPackets, limitBytes);
        if end != Stopped {
          BytesAllBut(received, last, rxBurst);
          return;
        }
        ReadMore(views, turns, limitPackets, limitBytes, frameSize, Now(burst));
        views := views + [Now(burst)];
        PassReceives(views[t], Now(burst), turns[t], limitPackets, frameSize);
        last := |before|;
        assert received[..last] == before;
        if limitPackets == 0 || packetCnt < limitPackets {
          MoreProgress(last - |old(received)|, |old(socket.returned)|, t, asked, rxBurst, |received| - last, burst);
        }
      }
      if limitPackets == 0 || packetCnt < limitPackets {
        Progressed(|received| - |old(received)|, |old(socket.returned)|, |turns|, burst, rxBurst);
      }
      BytesAllBut(received, last, rxBurst);
      end := Stopped;
    }
  }

  /** One queue of `xdp_mode_generate_loop`: the tx ring and the completion ring of its socket. */
  class Generator {
    const frameSize: nat
    /** The length drawn for each packet. */
    const lengths: nat -> nat
    const stack: AddrStack
    var socket: Socket
    var bytesCnt: nat

    ghost predicate Shape()
      reads this, stack
    {
      frameSize > 0 && stack.Valid()
    }

    /** Every packet put into the tx ring so far. */
    function Sent(): seq<Desc>
      reads this
    {
      socket.taken + socket.submitted
    }

    ghost predicate Valid()
      reads this, stack, stack.addresses
    {
      && Shape()
      && Conserved(stack.Free(frameSize), multiset{}, socket, frameSize)
      && Drawn(Sent(), lengths)
    }

    constructor (frameSize: nat, lengths: nat -> nat)
      requires frameSize > 0
      ensures Valid() && Sent() == [] && bytesCnt == 0 && this.lengths == lengths
    {
      hide Area, Frame, Frames, Listing, Conserved, Out;
      this.frameSize, this.lengths := frameSize, lengths;
      stack := new AddrStack(frameSize);
      socket := Socket([], [], [], [], []);
      bytesCnt := 0;
      AllFree(frameSize);
    }

    /** One peek of the completion ring. */
    method CollectBurst(burst: nat) returns (collected: nat)
      requires Valid()
      modifies `socket, stack, stack.addresses
      ensures Valid() && Sent() == old(Sent())
      ensures collected == (if |old(socket.returned)| < burst then |old(socket.returned)| else burst)
      ensures stack.addrCnt == old(stack.addrCnt) + collected
      ensures socket == old(socket).(returned := old(socket.returned)[collected..])
    {
      hide Frames, Area, Frame, Out, Conserved, Listing, Drawn;
      collected := if |socket.returned| < burst then |socket.returned| else burst;
      ghost var r := socket.returned;
      PeekNone(stack.Free(frameSize), socket, frameSize);
      for i := 0 to collected
        invariant Shape() && socket == old(socket) && stack.addrCnt == old(stack.addrCnt) + i
        invariant Conserved(stack.Free(frameSize), multiset{}, socket.(returned := r[i..]), frameSize)
      {
        OwnNothing(frameSize);
        ConservedSize(stack.addresses[..], stack.addrCnt, [], socket.(returned := r[i..]), frameSize);
        Processed(stack.Free(frameSize), socket, r, i, frameSize);
        var ok := stack.FreeAddr(socket.returned[i].addr, frameSize);
        if !ok {
          assert false;
        }
      }
      socket := socket.(returned := socket.returned[collected..]);
    }

    ghost function Now(burst: nat): View
      reads this, stack
    {
      View(socket, stack.addrCnt, Sent(), burst)
    }

    /** The kernel's turn and one peek of the completion ring. */
    method CollectOnce(burst: nat, turn: seq<Event>) returns (collected: nat)
      requires Valid()
      modifies `socket, stack, stack.addresses
      ensures Valid() && Sent() == old(Sent())
      ensures forall v: View, limitPackets |
                v == old(Now(v.burst)) && burst == Asked(v, limitPackets) ::
                Now(burst) == Collected(v, turn, limitPackets, frameSize)
      ensures stack.addrCnt == old(stack.addrCnt) + collected
      ensures old(socket.Idle()) ==> collected == 0
    {
      hide Frames, Area, Frame, Out, Conserved, Drawn, ActAll, Asked;
      IdleStays(socket, turn, frameSize);
      ActAllKeeps(socket, turn, frameSize);
      SocketTurned(socket, ActAll(socket, turn, frameSize), stack.Free(frameSize), frameSize);
      socket := ActAll(socket, turn, frameSize);
      collected := CollectBurst(burst);
    }

    /** Collect completions until there are none and a burst's frames are free; `done` is false when stopped before. */
    method Collect(burst: nat, rest: seq<seq<Event>>, ghost turns: seq<seq<Event>>, ghost views: seq<View>,
                   ghost limitPackets: nat, ghost limitBytes: nat)
      returns (done: bool, later: seq<seq<Event>>, ghost views': seq<View>)
      requires Valid() && rest != [] && Reached(views, turns, rest, limitPackets, limitBytes, frameSize)
      requires views[|views| - 1] == Now(views[|views| - 1].burst) && burst == Asked(views[|views| - 1], limitPackets)
      requires SendEnd(views[|views| - 1], limitPackets, limitBytes) == Stopped
      modifies `socket, stack, stack.addresses
      ensures Valid() && Sent() == old(Sent()) && views <= views' && |later| < |rest|
      ensures !done ==> later == [] && Reached(views', turns, later, limitPackets, limitBytes, frameSize)
      ensures done ==> |turns| - |later| == |views'| && burst <= stack.addrCnt
      ensures done ==> Reached(views', turns, [turns[|views'| - 1]] + later, limitPackets, limitBytes, frameSize)
      ensures done ==> SendEnd(views'[|views'| - 1], limitPackets, limitBytes) == Stopped
      ensures done ==> Enough(views'[|views'| - 1], turns[|views'| - 1], limitPackets, frameSize)
      ensures done ==> Now(burst) == Collected(views'[|views'| - 1], turns[|views'| - 1], limitPackets, frameSize)
      ensures 0 < |views'| && views'[|views'| - 1].entries == Sent()
      ensures old(socket.Idle()) && burst <= old(stack.addrCnt) ==> done
    {
      hide Frames, Area, Frame, Out, Conserved, Drawn, ActAll, SendTrace, Collected;
      later, views' := rest, views;
      while later != []
        invariant Valid() && Sent() == old(Sent()) && |later| <= |rest| && views <= views'
        invariant Reached(views', turns, later, limitPackets, limitBytes, frameSize)
        invariant views'[|views'| - 1] == Now(views'[|views'| - 1].burst)
        invariant old(socket.Idle()) && burst <= old(stack.addrCnt) ==>
                    later == rest && socket == old(socket) && stack.addrCnt == old(stack.addrCnt)
        invariant burst == Asked(views'[|views'| - 1], limitPackets)
        invariant SendEnd(views'[|views'| - 1], limitPackets, limitBytes) == Stopped
        decreases |later|
      {
        ghost var v := views'[|views'| - 1];
        var collected := CollectOnce(burst, later[0]);
        assert Now(burst) == Collected(v, later[0], limitPackets, frameSize);
        if collected == 0 && stack.addrCnt >= burst {
          later := later[1..];
          return true, later, views';
        }
        StillCollecting(views', turns, later, limitPackets, limitBytes, frameSize, Now(burst));
        views' := views' + [Now(burst)];
        later := later[1..];
      }
      done := false;
    }

    /** Fill a burst of reserved descriptors. */
    method FillEntries(burst: nat) returns (entries: seq<Desc>)
      requires Valid() && burst <= stack.addrCnt
      modifies stack, stack.addresses
      ensures Shape() && |entries| == burst && DrawnFrom(entries, lengths, |Sent()|)
      ensures stack.addrCnt == old(stack.addrCnt) - burst
      ensures Conserved(stack.Free(frameSize), Frames(entries, frameSize), socket, frameSize)
    {
      hide Frames, Area, Frame, Out, Conserved, Listing, Drawn, DrawnFrom;
      OwnNothing(frameSize);
      DrawnNone(lengths, |Sent()|);
      entries := [];
      for i := 0 to burst
        invariant Shape() && |entries| == i && stack.addrCnt == old(stack.addrCnt) - i
        invariant DrawnFrom(entries, lengths, |Sent()|)
        invariant Conserved(stack.Free(frameSize), Frames(entries, frameSize), socket, frameSize)
      {
        var addr := stack.Alloc(frameSize);
        if addr == None {
          assert false;
        }
        var desc := Desc(addr.value, lengths(|Sent()| + i));
        Reserved(stack.Free(frameSize), entries, desc, socket, frameSize);
        DrawnMore(entries, desc, lengths, |Sent()|);
        entries := entries + [desc];
      }
    }

    /** The lengths of the burst, summed. */
    method CountBytes(entries: seq<Desc>)
      modifies `bytesCnt
      ensures bytesCnt == old(bytesCnt) + Bytes(entries)
    {
      hide Bytes;
      BytesNone();
      for i := 0 to |entries|
        invariant bytesCnt == old(bytesCnt) + Bytes(entries[..i])
      {
        BytesMore(entries[..i], entries[i]);
        assert entries[..i + 1] == entries[..i] + [entries[i]];
        bytesCnt := bytesCnt + entries[i].len;
      }
      assert entries[..|entries|] == entries;
    }

    /** Reserve, fill and submit a burst of descriptors; the ring always has room for them. */
    method Send(burst: nat, countBytes: bool)
      requires Valid() && burst <= stack.addrCnt
      modifies `socket, `bytesCnt, stack, stack.addresses
      ensures Valid() && old(Sent()) <= Sent() && |Sent()| == |old(Sent())| + burst
      ensures socket == old(socket).(submitted := old(socket.submitted) + Sent()[|old(Sent())|..])
      ensures stack.addrCnt == old(stack.addrCnt) - burst
      ensures bytesCnt == old(bytesCnt) + if countBytes then Bytes(Sent()[|old(Sent())|..]) else 0
    {
      hide Frames, Area, Frame, Out, Conserved, Listing, Bytes, Drawn, DrawnFrom;
      OwnNothing(frameSize);
      ConservedSize(stack.addresses[..], stack.addrCnt, [], socket, frameSize);
      var cnt := if NUM_FRAMES - |socket.submitted| < burst then 0 else burst;
      if cnt != burst {
        assert false;
      }
      ghost var sent := Sent();
      var entries := FillEntries(burst);
      if countBytes {
        CountBytes(entries);
      }
      Submitted(stack.Free(frameSize), entries, socket, frameSize);
      DrawnConcat(sent, entries, lengths);
      socket := socket.(submitted := socket.submitted + entries);
      assert Sent() == sent + entries;
    }

    /** Collect, then send: what is left of a pass of the loop that no limit ends. */
    method Round(burst: nat, rest: seq<seq<Event>>, ghost turns: seq<seq<Event>>, ghost views: seq<View>,
                 limitPackets: nat, limitBytes: nat)
      returns (done: bool, later: seq<seq<Event>>, ghost views': seq<View>)
      requires Valid() && rest != [] && Reached(views, turns, rest, limitPackets, limitBytes, frameSize)
      requires views[|views| - 1] == Now(views[|views| - 1].burst) && burst == Asked(views[|views| - 1], limitPackets)
      requires SendEnd(views[|views| - 1], limitPackets, limitBytes) == Stopped
      modifies `socket, `bytesCnt, stack, stack.addresses
      ensures Valid() && views <= views' && |later| < |rest| && old(Sent()) <= Sent()
      ensures Reached(views', turns, later, limitPackets, limitBytes, frameSize)
      ensures views'[|views'| - 1].entries == Sent()
      ensures !done ==> later == [] && Sent() == old(Sent()) && bytesCnt == old(bytesCnt)
      ensures done ==> views'[|views'| - 1] == Now(burst) && |Sent()| == |old(Sent())| + burst
      ensures done && limitBytes > 0 && old(bytesCnt) == Bytes(old(Sent())) ==> bytesCnt == Bytes(Sent())
      ensures old(socket.Idle()) && burst <= old(stack.addrCnt) ==> done
    {
      hide Frames, Area, Frame, Out, Conserved, Bytes, Drawn, SendTrace, Collected, ActAll;
      done, later, views' := Collect(burst, rest, turns, views, limitPackets, limitBytes);
      if done {
        ghost var sent := Sent();
        Send(burst, limitBytes > 0);
        ghost var turn := turns[|views'| - 1];
        StillCollecting(views', turns, [turn] + later, limitPackets, limitBytes, frameSize, Now(burst));
        views' := views' + [Now(burst)];
        BytesSplit(sent, Sent()[|sent|..]);
        assert Sent() == sent + Sent()[|sent|..];
      }
    }

    /**
     xdp_mode_generate_loop. Neither allocator exit is reached, the tx ring always takes the
     burst, every packet has the length drawn for it. As the views tell, every turn collects what
     the kernel has completed by then, up to a burst, and a burst is sent at once whenever there
     is nothing to collect and a burst's frames are free. A packet limit is met exactly when the
     loop ends by it, and never passed; a byte limit is reached when it ends by that, and not
     before the last burst. With every frame free, the first turn sends a burst.
     */
    method Run(turns: seq<seq<Event>>, txBurst: nat, limitPackets: nat, limitBytes: nat)
      returns (end: End, ghost views: seq<View>)
      requires Valid() && Sent() == [] && bytesCnt == 0 && txBurst > 0
      modifies this, stack, stack.addresses
      ensures Valid()
      ensures SendTrace(views, turns, limitPackets, limitBytes, frameSize) && views[0] == old(Now(txBurst))
      ensures Sent() == views[|views| - 1].entries
      ensures if |views| == |turns| + 1 then end == Stopped
              else end == SendEnd(views[|views| - 1], limitPackets, limitBytes) != Stopped
      ensures limitPackets > 0 ==> |Sent()| <= limitPackets
      ensures end == PacketLimit ==> |Sent()| == limitPackets > 0
      ensures end == ByteLimit ==> 0 < limitBytes <= Bytes(Sent())
      ensures limitBytes > 0 ==> Bytes(AllBut(Sent(), txBurst)) < limitBytes
      ensures end == Stopped && turns != [] && old(stack.addrCnt) == NUM_FRAMES && txBurst <= NUM_FRAMES ==>
                |Sent()| >= txBurst || |Sent()| == limitPackets > 0
    {
      hide Frames, Area, Frame, Out, Conserved, Bytes, Drawn, AllBut, SendTrace, ActAll;
      var burst: nat, rest, rem: nat := txBurst, turns, limitPackets;
      ghost var last: nat := |Sent()|;
      views := [Now(txBurst)];
      SendStart(views, turns, limitPackets, limitBytes, frameSize);
      assert Sent()[..last] == Sent();
      OwnNothing(frameSize);
      ConservedSize(stack.addresses[..], stack.addrCnt, [], socket, frameSize);
      BytesNone();
      while rest != []
        invariant Valid() && 0 < burst <= txBurst
        invariant Reached(views, turns, rest, limitPackets, limitBytes, frameSize)
        invariant views[0] == old(Now(txBurst)) && views[|views| - 1] == Now(burst)
        invariant limitPackets > 0 ==> |Sent()| + rem == limitPackets
        invariant last <= |Sent()| <= last + txBurst
        invariant limitBytes > 0 ==> bytesCnt == Bytes(Sent()) && Bytes(Sent()[..last]) < limitBytes
        invariant Begun(rest == turns, old(stack.addrCnt), burst, txBurst, limitPackets)
        decreases |rest|
      {
        if limitPackets > 0 {
          if rem == 0 {
            BytesAllBut(Sent(), last, txBurst);
            return PacketLimit, views;
          }
          if rem < burst {
            burst := rem;
          }
        }
        if limitBytes > 0 && bytesCnt >= limitBytes {
          BytesAllBut(Sent(), last, txBurst);
          return ByteLimit, views;
        }
        ghost var sent := Sent();
        var done;
        done, rest, views := Round(burst, rest, turns, views, limitPackets, limitBytes);
        if !done {
          BytesAllBut(Sent(), last, txBurst);
          return Stopped, views;
        }
        last := |sent|;
        assert Sent()[..last] == sent;
        rem := if limitPackets > 0 then rem - burst else rem;
      }
      BytesAllBut(Sent(), last, txBurst);
      end := Stopped;
    }

    /** Nothing is sent and all frames are where they were, or the first burst is sent. */
    ghost predicate Begun(first: bool, free: nat, burst: nat, txBurst: nat, limitPackets: nat)
      reads this, stack
    {
      || (first && burst == txBurst && stack.addrCnt == free && (free == NUM_FRAMES ==> socket.Idle()))
      || |Sent()| >= txBurst || |Sent()| == limitPackets > 0
      || free != NUM_FRAMES || txBurst > NUM_FRAMES
    }
  }
}
