/**
 The transmit ring as a whole: the channel's masked pointers, the subscribers that
 write into windows of the ring, and the controller that reads what was published.
 The state carries the absolute positions the masked pointers stand for, and what
 each party wrote, published and sent. A cell of the ring holds a `T`: a byte for
 protocol 1, a packet header for protocol 2.
 */
module TxArbiter {
  import opened Ring
  import opened Options
  import opened ChannelCalls

  datatype TxState<T> = TxState(
    ch: State,
    hw: nat,                  // how far the controller has read
    seen: nat,                // how far it had read when the channel last asked
    sw: nat,                  // how far the subscribers have published
    grant: map<Id, nat>,      // the length of the window each subscription was last given
    mem: seq<T>,
    sent: map<Id, seq<T>>,    // what each subscription has published
    published: seq<T>,        // what all of them have published since the controller started
    taken: seq<T>)            // what the controller has read of it

  datatype Event<T> =
    | Hardware(n: nat)
    | Start(id: Id, ops: Option<int>)
    | Stop(id: Id, again: bool)
    | Sync(id: Id, req: Pointers)
    | Write(id: Id, at: nat, x: T)

  function Granted<T>(s: TxState<T>, id: Id): nat {
    if id in s.grant then s.grant[id] else 0
  }

  function Sent<T>(s: TxState<T>, id: Id): seq<T> {
    if id in s.sent then s.sent[id] else []
  }

  function Initial<T>(mem: seq<T>): TxState<T> {
    TxState(State(|mem|, 0, 0, None, 0, [], map[]), 0, 0, 0, map[], mem, map[], [], [])
  }

  /** How much of its window a sync request publishes. */
  function Publishes<T>(s: TxState<T>, id: Id, req: Pointers): nat
    requires s.ch.size > 0
  {
    if s.ch.locked == Some(id) then Mask(req.hwptr - s.ch.swptr, s.ch.size) else 0
  }

  /** What the driver relies on: nobody writes or publishes outside the window last given to it. */
  predicate Enabled<T>(s: TxState<T>, e: Event<T>)
    requires s.ch.size > 0
  {
    match e
    case Hardware(n) => s.hw + n <= s.sw
    case Start(id, ops) => id !in s.ch.list && (ops.Some? ==> 0 <= ops.value < s.ch.size)
    case Stop(id, _) => id in s.ch.list
    case Sync(id, req) =>
      id in s.ch.list && 0 <= req.hwptr < s.ch.size && Publishes(s, id, req) <= Granted(s, id)
    case Write(id, at, _) => at < Granted(s, id)
  }

  function DoStart<T>(s: TxState<T>, id: Id, ops: Option<int>): TxState<T>
    requires s.ch.size > 0
  {
    var ch := ChannelCalls.Start(s.ch, id, ops);
    if s.ch.startCount != 0 then s.(ch := ch, grant := s.grant[id := 0])
    else if ops.None? then s
    else
      // The restarted controller's pointer, as the next absolute position it can stand for.
      var p := s.sw + Mask(ops.value - s.ch.swptr, s.ch.size);
      s.(ch := ch, grant := s.grant[id := 0], hw := p, seen := p, sw := p, published := [], taken := [])
  }

  function Answer<T>(s: TxState<T>, id: Id, req: Pointers): TxResult
    requires s.ch.size > 0
  {
    TxGrant(s.ch.size, s.ch.hwptr, s.ch.swptr, HolderFor(s.ch.locked, id), req, Mask(s.hw, s.ch.size))
  }

  /** The driver call, and what it means: `id` publishes the next `k` cells of its window. */
  function DoSync<T>(s: TxState<T>, id: Id, req: Pointers): TxState<T>
    requires s.ch.size > 0 && |s.mem| > 0
  {
    var r := Answer(s, id, req);
    var data := Window(s.mem, s.sw, Publishes(s, id, req));
    s.(ch := TxSync(s.ch, id, req, Mask(s.hw, s.ch.size)),
       seen := if r.holder == Another then s.seen else s.hw,
       sw := s.sw + |data|,
       grant := s.grant[id := Mask(r.answer.swptr - r.answer.hwptr, s.ch.size)],
       sent := s.sent[id := Sent(s, id) + data],
       published := s.published + data)
  }

  function Do<T>(s: TxState<T>, e: Event<T>): TxState<T>
    requires s.ch.size > 0 && |s.mem| > 0
  {
    match e
    case Hardware(n) => s.(hw := s.hw + n, taken := s.taken + Window(s.mem, s.hw, n))
    case Start(id, ops) => DoStart(s, id, ops)
    case Stop(id, again) => s.(ch := ChannelCalls.Stop(s.ch, id, again), grant := s.grant[id := 0])
    case Sync(id, req) => DoSync(s, id, req)
    case Write(_, at, x) => s.(mem := s.mem[Mask(s.sw + at, |s.mem|) := x])
  }

  // ---- The invariant -----------------------------------------------------

  ghost predicate Inv<T>(s: TxState<T>) {
    && Shape(s)
    && Locking(s)
    // What the controller has not read yet is still in the ring.
    && Buffered(s)
  }

  /** The masked pointers stand for positions less than a ring apart. */
  ghost predicate Shape<T>(s: TxState<T>) {
    && s.ch.WellFormed()
    && |s.mem| == s.ch.size
    && NoDuplicates(s.ch.list)
    && s.ch.startCount == |s.ch.list|
    && s.seen <= s.hw <= s.sw <= s.seen + s.ch.size - 1
    && s.ch.hwptr == Mask(s.seen, s.ch.size)
    && s.ch.swptr == Mask(s.sw, s.ch.size)
  }

  /** Only the holder of the lock has a window, and it fits the free space. */
  ghost predicate Locking<T>(s: TxState<T>)
    requires s.ch.WellFormed()
  {
    && (forall id: Id :: Granted(s, id) > 0 ==> s.ch.locked == Some(id))
    && (s.ch.locked.Some? ==>
          var id := s.ch.locked.value;
          && id in s.ch.list
          && Granted(s, id) > 0
          && s.sw + Granted(s, id) <= s.seen + s.ch.size - 1
          && s.ch.ptr[id] == Pointers(Mask(s.sw, s.ch.size), Mask(s.sw + Granted(s, id), s.ch.size)))
  }

  lemma InitialInv<T>(mem: seq<T>)
    requires |mem| > 0
    ensures Inv(Initial(mem))
  {
  }

  /** What a subscription may be given after publishing `k`: its request, or the free space. */
  function Room(n: nat, hw: nat, sw: nat, req: Pointers): int
    requires n > 0
  {
    Min(Mask(req.swptr - req.hwptr, n), n - 1 - (sw - hw))
  }

  lemma PublishPosition(n: nat, sw: nat, req: int)
    requires n > 0 && 0 <= req < n
    ensures Mask(sw + Mask(req - Mask(sw, n), n), n) == req
  {
    MaskSum(req - Mask(sw, n), Mask(sw, n), n);
    MaskSum(sw, Mask(req - Mask(sw, n), n), n);
  }

  lemma RoomPositions(n: nat, sw: nat, len: nat)
    requires n > 0 && len < n
    ensures Mask(Mask(sw, n) + len, n) == Mask(sw + len, n)
    ensures Mask(Mask(sw + len, n) - Mask(sw, n), n) == len
  {
    MaskSum(sw, len, n);
    MaskDistance(sw, sw + len, n);
  }

  /** The driver's arithmetic on masked pointers, in absolute positions: the writer ends at `sw`. */
  lemma GrantPositions(n: nat, hwptr: int, swptr: int, hw: nat, sw: nat, holder: Holder, req: Pointers)
    requires n > 0 && hw <= sw <= hw + n - 1 && holder != Another
    requires Mask(sw, n) == if holder == Caller then req.hwptr else swptr
    ensures var len := Room(n, hw, sw, req);
            && 0 <= len < n
            && TxGrant(n, hwptr, swptr, holder, req, Mask(hw, n))
               == TxResult(Mask(hw, n), Mask(sw, n), if len == 0 then Nobody else Caller,
                           Pointers(Mask(sw, n), Mask(sw + len, n)))
            && Mask(Mask(sw + len, n) - Mask(sw, n), n) == len
  {
    hide Mask;
    FreeSpace(hw, sw, n);
    RoomPositions(n, sw, Room(n, hw, sw, req));
  }

  /** The driver's answer to a sync request the lock does not block. */
  lemma SyncAnswer<T>(s: TxState<T>, id: Id, req: Pointers)
    requires Inv(s) && Enabled(s, Sync(id, req)) && HolderFor(s.ch.locked, id) != Another
    ensures var n, sw := s.ch.size, s.sw + Publishes(s, id, req);
            && s.sw <= sw <= s.hw + n - 1
            && 0 <= Room(n, s.hw, sw, req) < n
            && Answer(s, id, req)
               == TxResult(Mask(s.hw, n), Mask(sw, n), if Room(n, s.hw, sw, req) == 0 then Nobody else Caller,
                           Pointers(Mask(sw, n), Mask(sw + Room(n, s.hw, sw, req), n)))
            && Mask(Mask(sw + Room(n, s.hw, sw, req), n) - Mask(sw, n), n) == Room(n, s.hw, sw, req)
  {
    hide Mask;
    PublishPosition(s.ch.size, s.sw, req.hwptr);
    GrantPositions(s.ch.size, s.ch.hwptr, s.ch.swptr, s.hw, s.sw + Publishes(s, id, req),
                   HolderFor(s.ch.locked, id), req);
  }

  ghost predicate Buffered<T>(s: TxState<T>)
    requires |s.mem| > 0
  {
    s.hw <= s.sw && s.taken + Window(s.mem, s.hw, s.sw - s.hw) == s.published
  }

  lemma SyncBuffered<T>(s: TxState<T>, id: Id, req: Pointers)
    requires s.ch.size > 0 && |s.mem| > 0 && Buffered(s)
    ensures Buffered(DoSync(s, id, req))
  {
    var k := Publishes(s, id, req);
    var d := s.sw - s.hw;
    WindowSplit(s.mem, s.hw, d, k);
    assert s.hw + d == s.sw;
    assert s.taken + (Window(s.mem, s.hw, d) + Window(s.mem, s.sw, k))
        == s.taken + Window(s.mem, s.hw, d) + Window(s.mem, s.sw, k);
  }

  lemma SyncInv<T>(s: TxState<T>, id: Id, req: Pointers)
    requires Inv(s) && Enabled(s, Sync(id, req))
    ensures Inv(DoSync(s, id, req))
  {
    SyncBuffered(s, id, req);
    if HolderFor(s.ch.locked, id) == Another {
      SyncBarred(s, id, req);
    } else {
      SyncGranted(s, id, req);
    }
    hide Shape, Locking, Buffered, DoSync;
  }

  lemma SyncBarred<T>(s: TxState<T>, id: Id, req: Pointers)
    requires Inv(s) && Enabled(s, Sync(id, req)) && HolderFor(s.ch.locked, id) == Another
    ensures Shape(DoSync(s, id, req)) && Locking(DoSync(s, id, req))
  {
    hide Mask, Window, Buffered, NoDuplicates;
    MaskDistance(s.sw, s.sw, s.ch.size);
  }

  lemma SyncGranted<T>(s: TxState<T>, id: Id, req: Pointers)
    requires Inv(s) && Enabled(s, Sync(id, req)) && HolderFor(s.ch.locked, id) != Another
    ensures Shape(DoSync(s, id, req)) && Locking(DoSync(s, id, req))
  {
    hide Mask, Window, Buffered, NoDuplicates;
    SyncAnswer(s, id, req);
  }

  lemma StartInv<T>(s: TxState<T>, id: Id, ops: Option<int>)
    requires Inv(s) && Enabled(s, Event<T>.Start(id, ops))
    ensures Inv(DoStart(s, id, ops))
  {
    StartShape(s, id, ops);
    EmptyWindow(s.mem, DoStart(s, id, ops).hw);
    hide Mask, Window, Shape, NoDuplicates;
  }

  lemma StartShape<T>(s: TxState<T>, id: Id, ops: Option<int>)
    requires Shape(s) && Enabled(s, Event<T>.Start(id, ops))
    ensures Shape(DoStart(s, id, ops))
  {
    if s.ch.startCount == 0 && ops.Some? {
      PublishPosition(s.ch.size, s.sw, ops.value);
    }
    hide Mask, Window;
  }

  lemma StopInv<T>(s: TxState<T>, id: Id, again: bool)
    requires Inv(s) && Enabled(s, Event<T>.Stop(id, again))
    ensures Inv(Do(s, Event<T>.Stop(id, again)))
  {
    StopShape(s, id, again);
    hide Mask, Window, Shape, NoDuplicates;
    RemoveMembers(s.ch.list, id);
  }

  lemma StopShape<T>(s: TxState<T>, id: Id, again: bool)
    requires Shape(s) && id in s.ch.list
    ensures Shape(Do(s, Event<T>.Stop(id, again)))
  {
    hide Mask, Window, NoDuplicates;
    RemoveMembers(s.ch.list, id);
  }

  lemma HardwareInv<T>(s: TxState<T>, n: nat)
    requires Inv(s) && Enabled(s, Event<T>.Hardware(n))
    ensures Inv(Do(s, Event<T>.Hardware(n)))
  {
    hide Mask;
    var d := s.sw - s.hw - n;
    WindowSplit(s.mem, s.hw, n, d);
    assert s.taken + Window(s.mem, s.hw, n) + Window(s.mem, s.hw + n, d)
        == s.taken + (Window(s.mem, s.hw, n) + Window(s.mem, s.hw + n, d));
  }

  lemma WriteInv<T>(s: TxState<T>, id: Id, at: nat, x: T)
    requires Inv(s) && Enabled(s, Write(id, at, x))
    ensures Inv(Do(s, Write(id, at, x)))
  {
    hide Mask;
    WindowWrite(s.mem, s.hw, s.sw - s.hw, s.sw + at, x);
  }

  /** Every enabled step, by anyone, keeps the invariant. */
  lemma StepInv<T>(s: TxState<T>, e: Event<T>)
    requires Inv(s) && Enabled(s, e)
    ensures Inv(Do(s, e))
  {
    match e
    case Hardware(n) => HardwareInv(s, n);
    case Start(id, ops) => StartInv(s, id, ops);
    case Stop(id, again) => StopInv(s, id, again);
    case Sync(id, req) => SyncInv(s, id, req);
    case Write(id, at, x) => WriteInv(s, id, at, x);
  }

  // ---- Runs --------------------------------------------------------------

  function Step<T>(s: TxState<T>, e: Event<T>): TxState<T>
    requires s.ch.size > 0 && |s.mem| > 0
  {
    if Enabled(s, e) then Do(s, e) else s
  }

  function Run<T>(s: TxState<T>, es: seq<Event<T>>): TxState<T>
    requires s.ch.size > 0 && |s.mem| > 0
    ensures Run(s, es).ch.size == s.ch.size && |Run(s, es).mem| == |s.mem|
    decreases |es|
  {
    if es == [] then s else Run(Step(s, es[0]), es[1..])
  }

  /** Every state any run reaches satisfies the invariant. */
  lemma {:induction false} RunInv<T>(s: TxState<T>, es: seq<Event<T>>)
    requires Inv(s)
    ensures Inv(Run(s, es))
    decreases |es|
  {
    if es != [] {
      if Enabled(s, es[0]) {
        StepInv(s, es[0]);
      }
      RunInv(Step(s, es[0]), es[1..]);
    }
  }

  /** The controller sends what was published, in order, whatever the run. */
  lemma SentInOrder<T>(s: TxState<T>, es: seq<Event<T>>)
    requires Inv(s)
    ensures Run(s, es).taken <= Run(s, es).published
  {
    RunInv(s, es);
  }

  lemma WindowIsStarted<T>(s: TxState<T>, me: Id)
    requires Inv(s) && Granted(s, me) > 0
    ensures me in s.ch.list
  {
  }

  lemma WindowBound<T>(s: TxState<T>, me: Id)
    requires Inv(s)
    ensures |s.mem| == s.ch.size > 0 && Granted(s, me) < s.ch.size
  {
  }

  /** At most one subscription has a window, and it shares no cell with what awaits sending. */
  lemma WindowIsPrivate<T>(s: TxState<T>, i: Id, j: Id, p: nat, q: nat)
    requires Inv(s) && Granted(s, i) > 0
    ensures Granted(s, j) > 0 ==> i == j
    ensures s.sw + Granted(s, i) <= s.hw + s.ch.size - 1
    ensures s.sw <= p < s.sw + Granted(s, i) && s.hw <= q < s.sw ==> Mask(p, s.ch.size) != Mask(q, s.ch.size)
  {
    hide Mask;
    if s.sw <= p < s.sw + Granted(s, i) && s.hw <= q < s.sw && Mask(p, s.ch.size) == Mask(q, s.ch.size) {
      MaskInjective(p, q, s.ch.size);
    }
  }

  // ---- One subscription among others -------------------------------------

  /** What the other parties do between two calls of `me`. */
  predicate Foreign<T>(e: Event<T>, me: Id) {
    e.Hardware? || e.id != me
  }

  function RunForeign<T>(s: TxState<T>, me: Id, es: seq<Event<T>>): TxState<T>
    requires s.ch.size > 0 && |s.mem| > 0
    ensures RunForeign(s, me, es).ch.size == s.ch.size && |RunForeign(s, me, es).mem| == |s.mem|
    decreases |es|
  {
    if es == [] then s
    else RunForeign(if Foreign(es[0], me) then Step(s, es[0]) else s, me, es[1..])
  }

  /** What nobody else can change: whether `me` is started, its window and the contents, what it has published. */
  ghost predicate Keeps<T>(s: TxState<T>, s': TxState<T>, me: Id)
    requires |s.mem| > 0 && |s'.mem| > 0
  {
    && s'.ch.size == s.ch.size
    && (me in s'.ch.list <==> me in s.ch.list)
    && Granted(s', me) == Granted(s, me)
    && Sent(s', me) == Sent(s, me)
    && (Granted(s, me) > 0 ==>
          && s'.sw == s.sw
          && Window(s'.mem, s.sw, Granted(s, me)) == Window(s.mem, s.sw, Granted(s, me)))
  }

  lemma ForeignStep<T>(s: TxState<T>, me: Id, e: Event<T>)
    requires Inv(s) && Foreign(e, me) && Enabled(s, e)
    ensures Keeps(s, Do(s, e), me)
  {
    hide Mask, Window, Buffered, NoDuplicates;
    match e
    case Hardware(n) =>
    case Start(id, ops) =>
    case Stop(id, again) => ForeignStop(s, me, id, again);
    case Sync(id, req) => ForeignSync(s, me, id, req);
    case Write(id, at, x) =>
  }

  lemma ForeignStop<T>(s: TxState<T>, me: Id, id: Id, again: bool)
    requires Inv(s) && id in s.ch.list && id != me
    ensures Keeps(s, Do(s, Event<T>.Stop(id, again)), me)
  {
    RemoveMembers(s.ch.list, id);
    hide Mask, Window, Shape, Buffered, NoDuplicates;
  }

  lemma ForeignSync<T>(s: TxState<T>, me: Id, id: Id, req: Pointers)
    requires Inv(s) && Enabled(s, Sync(id, req)) && id != me
    ensures Keeps(s, DoSync(s, id, req), me)
  {
    assert Granted(s, me) > 0 ==> HolderFor(s.ch.locked, id) == Another;
    EmptyWindow(s.mem, s.sw);
    hide Mask, Window, Shape, Locking, Buffered, NoDuplicates;
  }

  /** Whatever the others do between its calls, a subscription finds its window as it left it. */
  lemma {:induction false} ForeignRun<T>(s: TxState<T>, me: Id, es: seq<Event<T>>)
    requires Inv(s)
    ensures Inv(RunForeign(s, me, es)) && Keeps(s, RunForeign(s, me, es), me)
    decreases |es|
  {
    hide Mask;
    if es != [] {
      var s' := if Foreign(es[0], me) then Step(s, es[0]) else s;
      if Foreign(es[0], me) && Enabled(s, es[0]) {
        StepInv(s, es[0]);
        ForeignStep(s, me, es[0]);
      }
      ForeignRun(s', me, es[1..]);
    }
  }

  /** How much `me` publishes by a request, as seen from its own window. */
  function Own<T>(s: TxState<T>, me: Id, req: Pointers): nat
    requires s.ch.size > 0
  {
    if Granted(s, me) > 0 then Mask(req.hwptr - s.ch.swptr, s.ch.size) else 0
  }

  /** `me` has all the window it can have: another holds the lock, or the whole free space is its own. */
  ghost predicate Fully<T>(s: TxState<T>, me: Id) {
    || (s.ch.locked.Some? && s.ch.locked != Some(me))
    || (s.seen == s.hw <= s.sw && Granted(s, me) == s.ch.size - 1 - (s.sw - s.hw))
  }

  /** What a sync call gives its caller: its data are published, its new window follows them. */
  lemma OwnSync<T>(s: TxState<T>, me: Id, req: Pointers)
    requires Inv(s) && me in s.ch.list && 0 <= req.hwptr < s.ch.size && Own(s, me, req) <= Granted(s, me)
    ensures Enabled(s, Sync(me, req))
    ensures var s' := DoSync(s, me, req);
            var k := Own(s, me, req);
            && Inv(s') && s'.ch.list == s.ch.list && s'.ch.size == s.ch.size
            && s'.mem == s.mem && s'.sw == s.sw + k
            && Sent(s', me) == Sent(s, me) + Window(s.mem, s.sw, k)
            && me in s'.ch.ptr
            && s'.ch.ptr[me] == Pointers(Mask(s'.sw, s.ch.size), Mask(s'.sw + Granted(s', me), s.ch.size))
            && Granted(s', me) < s.ch.size
            && (req.swptr == req.hwptr ==> Granted(s', me) == 0)
            && (Mask(req.swptr - req.hwptr, s.ch.size) == s.ch.size - 1 ==>
                  Granted(s', me) >= Granted(s, me) - k && Fully(s', me))
  {
    hide Mask, Window, Buffered, NoDuplicates;
    assert Granted(s, me) > 0 <==> s.ch.locked == Some(me);
    SyncInv(s, me, req);
    if HolderFor(s.ch.locked, me) == Another {
      MaskDistance(s.sw, s.sw, s.ch.size);
      SameMask(s.ch.size);
    } else {
      SyncAnswer(s, me, req);
      SameMask(s.ch.size);
    }
  }

  lemma SameMask(n: nat)
    requires n > 0
    ensures Mask(0, n) == 0
  {
  }

  /** Filling part of one's own window is a series of writes. */
  lemma {:induction false} StoreInv<T>(s: TxState<T>, me: Id, at: nat, items: seq<T>)
    requires Inv(s) && at + |items| <= Granted(s, me)
    ensures Inv(s.(mem := Store(s.mem, s.sw + at, items)))
    decreases |items|
  {
    hide Mask;
    if items != [] {
      WriteInv(s, me, at, items[0]);
      var s' := Do(s, Write(me, at, items[0]));
      StoreInv(s', me, at + 1, items[1..]);
      assert |s.mem| > 0 && s.sw + at + 1 == s'.sw + (at + 1);
      assert s'.(mem := Store(s'.mem, s'.sw + (at + 1), items[1..])) == s.(mem := Store(s.mem, s.sw + at, items));
    }
  }

  /** `s'` is what `me` finds after a sync call that published `k` cells, whatever the others did before it. */
  ghost predicate Synced<T>(s: TxState<T>, s': TxState<T>, me: Id, k: nat)
    requires |s.mem| > 0 && |s'.mem| > 0 && s.ch.size > 0
  {
    && s'.ch.size == s.ch.size
    && me in s'.ch.list
    && Sent(s', me) == Sent(s, me) + Window(s.mem, s.sw, k)
    && (Granted(s, me) > 0 ==>
          && k <= Granted(s, me)
          && s'.sw == s.sw + k
          && Window(s'.mem, s'.sw, Granted(s, me) - k) == Window(s.mem, s.sw + k, Granted(s, me) - k))
    && me in s'.ch.ptr
    && s'.ch.ptr[me] == Pointers(Mask(s'.sw, s.ch.size), Mask(s'.sw + Granted(s', me), s.ch.size))
    && Granted(s', me) < s.ch.size
  }

  lemma Sizes<T>(s: TxState<T>)
    requires Inv(s)
    ensures s.ch.size == |s.mem| > 0
  {
  }

  /** A subscription that points `k` cells into its window publishes exactly those. */
  lemma SyncAmongOthers<T>(s: TxState<T>, me: Id, es: seq<Event<T>>, req: Pointers, k: nat)
    requires Inv(s) && me in s.ch.list && 0 <= req.hwptr < s.ch.size
    requires k <= Granted(s, me) && (Granted(s, me) > 0 ==> req.hwptr == Mask(s.sw + k, s.ch.size))
    ensures var s' := DoSync(RunForeign(s, me, es), me, req);
            && Inv(s') && Synced(s, s', me, k) && s'.ch.size == s.ch.size == |s'.mem|
            && (req.swptr == req.hwptr ==> Granted(s', me) == 0)
            && (Mask(req.swptr - req.hwptr, s.ch.size) == s.ch.size - 1 ==>
                  Granted(s', me) >= Granted(s, me) - k && Fully(s', me))
  {
    Sizes(s);
    hide Mask, Inv, RunForeign, Window;
    ForeignRun(s, me, es);
    var t := RunForeign(s, me, es);
    Sizes(t);
    OwnPublishes(s, t, me, req, k);
    OwnSync(t, me, req);
    hide DoSync, Own;
    SyncedAfter(s, t, DoSync(t, me, req), me, k);
  }

  /** The request publishes the same cells whether it comes before the others' steps or after. */
  lemma OwnPublishes<T>(s: TxState<T>, t: TxState<T>, me: Id, req: Pointers, k: nat)
    requires Inv(s) && Inv(t) && Keeps(s, t, me) && 0 <= req.hwptr < s.ch.size
    requires k <= Granted(s, me) && (Granted(s, me) > 0 ==> req.hwptr == Mask(s.sw + k, s.ch.size))
    ensures Own(t, me, req) == k
  {
    if Granted(s, me) > 0 {
      WindowBound(s, me);
      MaskDistance(s.sw, s.sw + k, s.ch.size);
    }
    hide Mask, Window;
  }

  lemma SyncedAfter<T>(s: TxState<T>, t: TxState<T>, s': TxState<T>, me: Id, k: nat)
    requires s.ch.size == |s.mem| > 0 && |t.mem| > 0 && Keeps(s, t, me) && k <= Granted(s, me)
    requires me in s'.ch.list && s'.ch.size == t.ch.size && s'.mem == t.mem && s'.sw == t.sw + k
    requires Sent(s', me) == Sent(t, me) + Window(t.mem, t.sw, k)
    requires me in s'.ch.ptr && Granted(s', me) < s.ch.size
    requires s'.ch.ptr[me] == Pointers(Mask(s'.sw, s.ch.size), Mask(s'.sw + Granted(s', me), s.ch.size))
    ensures Synced(s, s', me, k)
  {
    hide Mask, Window;
    var g := Granted(s, me);
    if g > 0 {
      SamePieces(s.mem, s.sw, t.mem, s.sw, k, g - k);
    } else {
      EmptyWindow(s.mem, s.sw);
      EmptyWindow(t.mem, t.sw);
    }
  }

  lemma SyncedAnswer<T>(s: TxState<T>, s': TxState<T>, me: Id, k: nat)
    requires |s.mem| > 0 && |s'.mem| > 0 && s.ch.size > 0 && Synced(s, s', me, k)
    ensures me in s'.ch.list && me in s'.ch.ptr
    ensures s'.ch.ptr[me] == Pointers(Mask(s'.sw, s.ch.size), Mask(s'.sw + Granted(s', me), s.ch.size))
  {
  }

  /** Starting gives a subscription no window and publishes nothing for it. */
  lemma OwnStart<T>(s: TxState<T>, me: Id, ops: Option<int>)
    requires Inv(s) && me !in s.ch.list && (ops.Some? ==> 0 <= ops.value < s.ch.size)
    ensures var s' := DoStart(s, me, ops);
            && Inv(s') && s'.ch.size == s.ch.size && Granted(s', me) == 0 && Sent(s', me) == Sent(s, me)
            && (me in s'.ch.list <==> s.ch.startCount > 0 || ops.Some?)
  {
    StartInv(s, me, ops);
  }

  /** Stopping takes the window away; only the last subscription can be told to try again. */
  lemma OwnStop<T>(s: TxState<T>, me: Id, again: bool)
    requires Inv(s) && me in s.ch.list
    ensures var s' := Do(s, Event<T>.Stop(me, again));
            && Inv(s') && s'.ch.size == s.ch.size && Granted(s', me) == 0 && Sent(s', me) == Sent(s, me)
            && (me in s'.ch.list <==> s.ch.startCount == 1 && again)
  {
    StopInv(s, me, again);
    RemoveMembers(s.ch.list, me);
  }
}
