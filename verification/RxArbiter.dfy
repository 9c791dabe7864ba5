/**
 The receive ring as a whole: the controller fills it, the subscriptions read it at
 their own pace, and cells are released once the slowest has passed them. The state
 carries the absolute positions behind the driver's masked pointers, and everything
 the controller has written since it started.
 */
module RxArbiter {
  import opened Ring
  import opened Sequences
  import opened Options
  import opened ChannelCalls

  datatype RxState<T> = RxState(
    ch: State,
    hw: nat,                // how far the controller has written
    seen: nat,              // how far it had written when the channel last asked
    sw: nat,                // how far the ring is released
    pos: map<Id, nat>,      // how far each started subscription has read
    given: map<Id, nat>,    // how far it was last told that it may read
    mem: seq<T>,
    base: nat,              // where the controller started
    stream: seq<T>)         // what it has written since

  datatype Event<T> =
    | Hardware(items: seq<T>)
    | Start(id: Id, ops: Option<int>)
    | Stop(id: Id, again: bool)
    | Sync(id: Id, swptr: int)

  function Initial<T>(mem: seq<T>): RxState<T> {
    RxState(State(|mem|, 0, 0, None, 0, [], map[]), 0, 0, 0, map[], map[], mem, 0, [])
  }

  /** How far a sync request moves the subscription's read position. */
  function Reads<T>(s: RxState<T>, id: Id, swptr: int): nat
    requires s.ch.size > 0 && id in s.ch.ptr
  {
    Mask(swptr - s.ch.ptr[id].swptr, s.ch.size)
  }

  /** The controller stays behind the released cells, a reader inside what it was told it may read. */
  predicate Enabled<T>(s: RxState<T>, e: Event<T>)
    requires s.ch.size > 0
  {
    match e
    case Hardware(items) => s.ch.startCount > 0 && s.hw + |items| <= s.sw + s.ch.size - 1
    case Start(id, ops) => id !in s.ch.list && (ops.Some? ==> 0 <= ops.value < s.ch.size)
    case Stop(id, _) => id in s.ch.list
    case Sync(id, swptr) =>
      && id in s.ch.list && id in s.ch.ptr && id in s.pos && id in s.given
      && 0 <= swptr < s.ch.size
      && s.pos[id] + Reads(s, id, swptr) <= s.given[id]
  }

  function DoStart<T>(s: RxState<T>, id: Id, ops: Option<int>): RxState<T>
    requires s.ch.size > 0
  {
    var ch := ChannelCalls.Start(s.ch, id, ops);
    if s.ch.startCount != 0 then s.(ch := ch, pos := s.pos[id := s.seen], given := s.given[id := s.seen])
    else if ops.None? then s
    else
      var p := s.hw + Mask(ops.value - Mask(s.hw, s.ch.size), s.ch.size);
      s.(ch := ch, hw := p, seen := p, sw := p, base := p, stream := [],
         pos := s.pos[id := p], given := s.given[id := p])
  }

  /** The driver call, and what it means: `id` reads on, and the controller is handed the new pointer. */
  function DoSync<T>(s: RxState<T>, id: Id, swptr: int): RxState<T>
    requires s.ch.size > 0 && s.ch.WellFormed() && id in s.ch.list && id in s.ch.ptr && id in s.pos
  {
    var ch := RxSync(s.ch, id, swptr, Mask(s.hw, s.ch.size));
    s.(ch := ch,
       seen := s.hw,
       sw := s.sw + Mask(ch.swptr - s.ch.swptr, s.ch.size),
       pos := s.pos[id := s.pos[id] + Reads(s, id, swptr)],
       given := s.given[id := s.hw])
  }

  function Do<T>(s: RxState<T>, e: Event<T>): RxState<T>
    requires s.ch.WellFormed() && |s.mem| > 0 && Enabled(s, e)
  {
    match e
    case Hardware(items) =>
      s.(hw := s.hw + |items|, mem := Store(s.mem, s.hw, items), stream := s.stream + items)
    case Start(id, ops) => DoStart(s, id, ops)
    case Stop(id, again) => s.(ch := ChannelCalls.Stop(s.ch, id, again))
    case Sync(id, swptr) => DoSync(s, id, swptr)
  }

  // ---- The slowest reader ------------------------------------------------

  function Positions(list: seq<Id>, pos: map<Id, nat>): (r: seq<nat>)
    requires forall i | i in list :: i in pos
    ensures |r| == |list|
  {
    seq(|list|, i requires 0 <= i < |list| => pos[list[i]])
  }

  /** The least of `top` and the first `k` positions. */
  function Slowest(ps: seq<nat>, top: nat, k: nat): (m: nat)
    requires k <= |ps|
  {
    if k == 0 then top
    else
      var m := Slowest(ps, top, k - 1);
      if ps[k - 1] < m then ps[k - 1] else m
  }

  lemma {:induction false} SlowestIsLeast(ps: seq<nat>, top: nat, k: nat)
    requires k <= |ps|
    ensures var m := Slowest(ps, top, k);
            && m <= top && (forall i | 0 <= i < k :: m <= ps[i])
            && (m == top || exists i | 0 <= i < k :: m == ps[i])
    decreases k
  {
    if k > 0 {
      SlowestIsLeast(ps, top, k - 1);
    }
  }

  /** The driver's scan by masked distances finds the slowest reader. */
  lemma {:induction false} FarthestIsSlowest(n: nat, low: nat, top: nat, own: int, ps: seq<nat>, ptrs: seq<int>, k: nat)
    requires n > 0 && low <= top < low + n && |ptrs| == |ps| && k <= |ps|
    requires forall i | 0 <= i < |ps| :: low <= ps[i] <= top && ptrs[i] == Mask(ps[i], n)
    ensures var m := Slowest(ps, top, k);
            && low <= m
            && Farthest(Mask(top, n), n, own, ptrs, k) == (top - m, if m == top then own else Mask(m, n))
    decreases k
  {
    hide Mask;
    SlowestIsLeast(ps, top, k);
    if k > 0 {
      FarthestIsSlowest(n, low, top, own, ps, ptrs, k - 1);
      MaskDistance(ps[k - 1], top, n);
    }
  }

  /** The pointer the driver's scan ends with, when the caller is one of the subscriptions scanned. */
  lemma SlowestPointer(n: nat, low: nat, top: nat, list: seq<Id>, pos: map<Id, nat>, ptr: map<Id, Pointers>, id: Id)
    requires n > 0 && low <= top < low + n && id in list
    requires forall i | i in list :: i in pos && i in ptr
    requires forall i | 0 <= i < |list| ::
               low <= pos[list[i]] <= top && ptr[list[i]].swptr == Mask(pos[list[i]], n)
    ensures var m := Slowest(Positions(list, pos), top, |list|);
            && low <= m
            && Farthest(Mask(top, n), n, ptr[id].swptr, ReadPointers(list, ptr), |list|).1 == Mask(m, n)
            && low + Mask(Mask(m, n) - Mask(low, n), n) == m
  {
    hide Mask;
    var ps, ptrs := Positions(list, pos), ReadPointers(list, ptr);
    FarthestIsSlowest(n, low, top, ptr[id].swptr, ps, ptrs, |ps|);
    var m := Slowest(ps, top, |ps|);
    SlowestIsLeast(ps, top, |ps|);
    MaskDistance(low, m, n);
    if m == top {
      var k :| 0 <= k < |list| && list[k] == id;
      assert m <= ps[k] <= top;
    }
  }

  // ---- The invariant -----------------------------------------------------

  ghost predicate Reader<T>(s: RxState<T>, id: Id)
    requires s.ch.size > 0
  {
    && id in s.pos && id in s.given && id in s.ch.ptr
    && s.sw <= s.pos[id] <= s.given[id] <= s.seen
    && s.ch.ptr[id] == Pointers(Mask(s.given[id], s.ch.size), Mask(s.pos[id], s.ch.size))
  }

  ghost predicate Inv<T>(s: RxState<T>) {
    && Shape(s)
    // No cell is released before every reader has passed it.
    && (forall id | id in s.ch.list :: Reader(s, id))
    // What is not released is still in the ring.
    && Buffered(s)
  }

  /** The masked pointers stand for positions less than a ring apart. */
  ghost predicate Shape<T>(s: RxState<T>) {
    && s.ch.WellFormed()
    && |s.mem| == s.ch.size
    && NoDuplicates(s.ch.list)
    && s.ch.startCount == |s.ch.list|
    && s.sw <= s.seen <= s.hw <= s.sw + s.ch.size - 1
    && s.ch.hwptr == Mask(s.seen, s.ch.size)
    && s.ch.swptr == Mask(s.sw, s.ch.size)
  }

  ghost predicate Buffered<T>(s: RxState<T>) {
    && |s.mem| > 0 && s.base <= s.sw <= s.hw == s.base + |s.stream|
    && Window(s.mem, s.sw, s.hw - s.sw) == s.stream[s.sw - s.base..]
  }

  lemma InitialInv<T>(mem: seq<T>)
    requires |mem| > 0
    ensures Inv(Initial(mem))
  {
  }

  lemma ReadPosition<T>(s: RxState<T>, id: Id, swptr: int)
    requires s.ch.size > 0 && id in s.ch.ptr && id in s.pos
    requires s.ch.ptr[id].swptr == Mask(s.pos[id], s.ch.size) && 0 <= swptr < s.ch.size
    ensures Mask(s.pos[id] + Reads(s, id, swptr), s.ch.size) == swptr
  {
    var k := Mask(swptr - s.ch.ptr[id].swptr, s.ch.size);
    MaskSum(swptr - s.ch.ptr[id].swptr, s.ch.ptr[id].swptr, s.ch.size);
    MaskSum(s.pos[id], k, s.ch.size);
  }

  /** The read pointers a sync call compares, and the positions they stand for. */
  lemma ComparedPointers<T>(s: RxState<T>, id: Id, swptr: int)
    requires Inv(s) && Enabled(s, Sync(id, swptr))
    ensures var s' := DoSync(s, id, swptr);
            && (forall i | i in s.ch.list :: i in s'.pos && i in s'.ch.ptr)
            && forall i | 0 <= i < |s.ch.list| ::
                 && s.sw <= s'.pos[s.ch.list[i]] <= s.seen
                 && s'.ch.ptr[s.ch.list[i]].swptr == Mask(s'.pos[s.ch.list[i]], s.ch.size)
  {
    ReadPosition(s, id, swptr);
    hide Mask, Farthest;
    assert Reader(s, id);
    forall i | 0 <= i < |s.ch.list|
      ensures Reader(s, s.ch.list[i])
    {
    }
  }

  /** After a sync call the ring is released exactly up to the slowest reader. */
  lemma SyncReleases<T>(s: RxState<T>, id: Id, swptr: int)
    requires Inv(s) && Enabled(s, Sync(id, swptr))
    ensures var s' := DoSync(s, id, swptr);
            && (forall i | i in s.ch.list :: i in s'.pos)
            && s'.sw == Slowest(Positions(s.ch.list, s'.pos), s.seen, |s.ch.list|)
            && s'.ch.swptr == Mask(s'.sw, s.ch.size)
            && s.sw <= s'.sw
  {
    hide Mask, Farthest, Slowest, Positions, ReadPointers, DoSync, Buffered, Reader, NoDuplicates;
    ComparedPointers(s, id, swptr);
    SyncPointer(s, id, swptr);
    var s' := DoSync(s, id, swptr);
    SlowestPointer(s.ch.size, s.sw, s.seen, s.ch.list, s'.pos, s'.ch.ptr, id);
  }

  /** The pointer a sync call hands to the controller, and what else it leaves as it was. */
  lemma SyncPointer<T>(s: RxState<T>, id: Id, swptr: int)
    requires s.ch.size > 0 && s.ch.WellFormed() && id in s.ch.list && id in s.ch.ptr && id in s.pos
    ensures var s' := DoSync(s, id, swptr);
            && (forall i | i in s.ch.list :: i in s'.ch.ptr) && s'.ch.ptr[id].swptr == swptr
            && s'.ch.swptr == Farthest(s.ch.hwptr, s.ch.size, swptr, ReadPointers(s.ch.list, s'.ch.ptr), |s.ch.list|).1
            && s'.sw == s.sw + Mask(s'.ch.swptr - s.ch.swptr, s.ch.size)
            && s'.mem == s.mem && s'.base == s.base && s'.stream == s.stream && s'.hw == s.hw
  {
    hide Mask, Farthest;
  }

  lemma SyncReaders<T>(s: RxState<T>, id: Id, swptr: int)
    requires Inv(s) && Enabled(s, Sync(id, swptr))
    ensures var s' := DoSync(s, id, swptr); forall i | i in s.ch.list :: Reader(s', i)
  {
    ReadPosition(s, id, swptr);
    SyncReleases(s, id, swptr);
    hide Mask, Farthest, Buffered;
    var s' := DoSync(s, id, swptr);
    var ps := Positions(s.ch.list, s'.pos);
    SlowestIsLeast(ps, s.seen, |ps|);
    forall i | i in s.ch.list
      ensures Reader(s', i)
    {
      assert Reader(s, i) && Reader(s, id);
      var k :| 0 <= k < |s.ch.list| && s.ch.list[k] == i;
      assert s'.sw <= ps[k];
    }
  }

  lemma SyncKeepsUnread<T>(s: RxState<T>, id: Id, swptr: int)
    requires Inv(s) && Enabled(s, Sync(id, swptr))
    ensures s.sw <= DoSync(s, id, swptr).sw <= s.seen && Buffered(DoSync(s, id, swptr))
  {
    SyncReleases(s, id, swptr);
    SyncPointer(s, id, swptr);
    var s' := DoSync(s, id, swptr);
    SlowestIsLeast(Positions(s.ch.list, s'.pos), s.seen, |s.ch.list|);
    assert s.sw <= s.seen <= s.hw;
    hide Mask, Farthest, Slowest, Reader, Positions, ReadPointers, DoSync, Enabled, Shape, Window, Buffered;
    StaysBuffered(s, s');
  }

  /** Releasing more of the ring leaves the rest in it. */
  lemma StaysBuffered<T>(s: RxState<T>, s': RxState<T>)
    requires Buffered(s) && s'.mem == s.mem && s'.base == s.base && s'.stream == s.stream && s'.hw == s.hw
    requires s.sw <= s'.sw <= s.hw
    ensures Buffered(s')
  {
    hide Mask, Window;
    Released(s.mem, s.sw, s'.sw, s.hw, s.stream[s.sw - s.base..]);
    assert s.stream[s.sw - s.base..][s'.sw - s.sw..] == s.stream[s'.sw - s.base..];
  }

  lemma SyncInv<T>(s: RxState<T>, id: Id, swptr: int)
    requires Inv(s) && Enabled(s, Sync(id, swptr))
    ensures Inv(DoSync(s, id, swptr))
  {
    SyncReaders(s, id, swptr);
    SyncReleases(s, id, swptr);
    SyncKeepsUnread(s, id, swptr);
    hide Mask, Farthest, Slowest, Reader, Positions, ReadPointers, Buffered;
  }

  lemma Released<T>(mem: seq<T>, sw: nat, sw': nat, hw: nat, items: seq<T>)
    requires |mem| > 0 && sw <= sw' <= hw && Window(mem, sw, hw - sw) == items
    ensures Window(mem, sw', hw - sw') == items[sw' - sw..]
  {
    hide Mask, Window;
    WindowSplit(mem, sw, sw' - sw, hw - sw');
  }

  lemma StartInv<T>(s: RxState<T>, id: Id, ops: Option<int>)
    requires Inv(s) && Enabled(s, Event<T>.Start(id, ops))
    ensures Inv(DoStart(s, id, ops))
  {
    StartReaders(s, id, ops);
    StartShape(s, id, ops);
    assert Buffered(DoStart(s, id, ops)) by {
      hide Mask, Reader, NoDuplicates;
      EmptyWindow(s.mem, DoStart(s, id, ops).sw);
    }
    hide Mask, Reader, Shape, Buffered, DoStart;
  }

  lemma StartShape<T>(s: RxState<T>, id: Id, ops: Option<int>)
    requires Shape(s) && Enabled(s, Event<T>.Start(id, ops))
    ensures Shape(DoStart(s, id, ops))
  {
    if s.ch.startCount == 0 && ops.Some? {
      Restarts(s.ch.size, s.hw, ops.value);
    }
    hide Mask;
  }

  lemma Restarts(n: nat, hw: nat, v: int)
    requires 0 <= v < n
    ensures Mask(hw + Mask(v - Mask(hw, n), n), n) == v
  {
    MaskSum(hw, Mask(v - Mask(hw, n), n), n);
    MaskSum(v - Mask(hw, n), Mask(hw, n), n);
  }

  lemma StartReaders<T>(s: RxState<T>, id: Id, ops: Option<int>)
    requires Inv(s) && Enabled(s, Event<T>.Start(id, ops))
    ensures var s' := DoStart(s, id, ops); forall i | i in s'.ch.list :: Reader(s', i)
  {
    if s.ch.startCount == 0 && ops.Some? {
      Restarts(s.ch.size, s.hw, ops.value);
    }
    hide Mask, Buffered;
    forall i | i in s.ch.list
      ensures Reader(s, i)
    {
    }
  }

  lemma StopInv<T>(s: RxState<T>, id: Id, again: bool)
    requires Inv(s) && Enabled(s, Event<T>.Stop(id, again))
    ensures Inv(Do(s, Event<T>.Stop(id, again)))
  {
    StopShape(s, id, again);
    StopReaders(s, id, again);
    assert Buffered(Do(s, Event<T>.Stop(id, again))) by {
      hide Mask, Window, Shape, Reader;
    }
    hide Mask, Shape, Reader, Buffered, Do;
  }

  lemma StopShape<T>(s: RxState<T>, id: Id, again: bool)
    requires Shape(s) && id in s.ch.list
    ensures Shape(Do(s, Event<T>.Stop(id, again)))
  {
    hide Mask, NoDuplicates;
    RemoveMembers(s.ch.list, id);
  }

  lemma StopReaders<T>(s: RxState<T>, id: Id, again: bool)
    requires Inv(s) && Enabled(s, Event<T>.Stop(id, again))
    ensures var s' := Do(s, Event<T>.Stop(id, again)); forall i | i in s'.ch.list :: Reader(s', i)
  {
    hide Mask, Buffered;
    RemoveMembers(s.ch.list, id);
    forall i | i in s.ch.list
      ensures Reader(s, i)
    {
    }
  }

  lemma HardwareInv<T>(s: RxState<T>, items: seq<T>)
    requires Inv(s) && Enabled(s, Hardware(items))
    ensures Inv(Do(s, Hardware(items)))
  {
    hide Mask;
    StoreWindow(s.mem, s.sw, s.hw - s.sw, items);
    assert (s.stream + items)[s.sw - s.base..] == s.stream[s.sw - s.base..] + items;
    var s' := Do(s, Hardware(items));
    forall i | i in s'.ch.list
      ensures Reader(s', i)
    {
      assert Reader(s, i);
    }
  }

  /** Every enabled step, by anyone, keeps the invariant. */
  lemma StepInv<T>(s: RxState<T>, e: Event<T>)
    requires Inv(s) && Enabled(s, e)
    ensures Inv(Do(s, e))
  {
    match e
    case Hardware(items) => HardwareInv(s, items);
    case Start(id, ops) => StartInv(s, id, ops);
    case Stop(id, again) => StopInv(s, id, again);
    case Sync(id, swptr) => SyncInv(s, id, swptr);
  }

  // ---- Runs --------------------------------------------------------------

  function Step<T>(s: RxState<T>, e: Event<T>): RxState<T>
    requires s.ch.WellFormed() && |s.mem| > 0
  {
    if Enabled(s, e) then Do(s, e) else s
  }

  /** Every run from `s`, as the states it passes through. */
  ghost predicate IsRun<T>(s: RxState<T>, es: seq<Event<T>>, states: seq<RxState<T>>) {
    && |states| == |es| + 1 && states[0] == s
    && forall i | 0 <= i < |es| ::
         && states[i].ch.WellFormed() && |states[i].mem| > 0
         && states[i + 1] == Step(states[i], es[i])
  }

  lemma StepAdvances<T>(s: RxState<T>, e: Event<T>)
    requires Inv(s)
    ensures Inv(Step(s, e)) && s.sw <= Step(s, e).sw
  {
    if Enabled(s, e) {
      StepInv(s, e);
      hide Inv, Mask;
    }
  }

  /** Over any run: every state satisfies the invariant, and the released position only moves on. */
  lemma {:induction false} RunReleasesForward<T>(s: RxState<T>, es: seq<Event<T>>, states: seq<RxState<T>>,
                                                 i: nat, j: nat)
    requires Inv(s) && IsRun(s, es, states) && i <= j < |states|
    ensures Inv(states[j]) && states[i].sw <= states[j].sw
    decreases j
  {
    hide Inv, Step;
    if j > 0 {
      RunReleasesForward(s, es, states, if i < j then i else j - 1, j - 1);
      StepAdvances(states[j - 1], es[j - 1]);
    }
  }

  // ---- One subscription among others -------------------------------------

  predicate Foreign<T>(e: Event<T>, me: Id) {
    e.Hardware? || e.id != me
  }

  function ForeignTurn<T>(s: RxState<T>, me: Id, e: Event<T>): RxState<T>
    requires s.ch.WellFormed() && |s.mem| > 0
  {
    if Foreign(e, me) then Step(s, e) else s
  }

  /** What the others leave to a started subscription: its place, and everything it has not read. */
  ghost predicate Keeps<T>(s: RxState<T>, s': RxState<T>, me: Id) {
    && s'.ch.size == s.ch.size
    && (me in s'.ch.list <==> me in s.ch.list)
    && (me in s.ch.list ==>
          && me in s.pos && me in s'.pos && s'.pos[me] == s.pos[me]
          && me in s.given && me in s'.given && s'.given[me] == s.given[me]
          && s'.base == s.base && s.stream <= s'.stream && s.hw <= s'.hw)
  }

  lemma ForeignStep<T>(s: RxState<T>, me: Id, e: Event<T>)
    requires Inv(s)
    ensures Inv(ForeignTurn(s, me, e)) && Keeps(s, ForeignTurn(s, me, e), me)
  {
    if me in s.ch.list {
      assert Reader(s, me);
    }
    if Foreign(e, me) && Enabled(s, e) {
      StepInv(s, e);
      ForeignKeeps(s, me, e);
    }
    hide Inv, Reader;
  }

  lemma ForeignKeeps<T>(s: RxState<T>, me: Id, e: Event<T>)
    requires Inv(s) && Foreign(e, me) && Enabled(s, e)
    ensures Keeps(s, Do(s, e), me)
  {
    if me in s.ch.list {
      assert Reader(s, me);
    }
    hide Mask, Farthest, Buffered, Reader, NoDuplicates;
    match e
    case Hardware(items) =>
    case Start(id, ops) =>
    case Stop(id, again) =>
      RemoveMembers(s.ch.list, id);
    case Sync(id, swptr) =>
  }

  function RunForeign<T>(s: RxState<T>, me: Id, es: seq<Event<T>>): (s': RxState<T>)
    requires Inv(s)
    ensures Inv(s') && Keeps(s, s', me)
    decreases |es|
  {
    if es == [] then
      assert me in s.ch.list ==> Reader(s, me);
      s
    else
      ForeignStep(s, me, es[0]);
      RunForeign(ForeignTurn(s, me, es[0]), me, es[1..])
  }

  /** A sync call moves its caller's read position, tells it how far the controller is, and nothing else of its. */
  lemma OwnSync<T>(s: RxState<T>, me: Id, swptr: int)
    requires Inv(s) && Enabled(s, Sync(me, swptr))
    ensures var s' := DoSync(s, me, swptr);
            && Inv(s') && s'.ch.size == s.ch.size && s'.ch.list == s.ch.list
            && s'.pos == s.pos[me := s.pos[me] + Reads(s, me, swptr)]
            && s'.given == s.given[me := s.hw]
            && s'.base == s.base && s'.stream == s.stream && s'.hw == s.hw && s'.mem == s.mem
  {
    SyncInv(s, me, swptr);
    hide Inv, Mask, Farthest;
  }

  /** A newly started subscription starts reading where the controller is. */
  lemma OwnStart<T>(s: RxState<T>, me: Id, ops: Option<int>)
    requires Inv(s) && me !in s.ch.list && (ops.Some? ==> 0 <= ops.value < s.ch.size)
    ensures var s' := DoStart(s, me, ops);
            && Inv(s') && s'.ch.size == s.ch.size
            && (me in s'.ch.list <==> s.ch.startCount > 0 || ops.Some?)
            && (me in s'.ch.list ==> Reader(s', me) && s'.pos[me] == s'.given[me] == s'.seen)
            && (s'.ch.startCount == 1 && me in s'.ch.list ==> ops.Some? && Mask(s'.seen, s.ch.size) == ops.value)
  {
    StartInv(s, me, ops);
    hide Mask, Buffered;
  }

  lemma OwnStop<T>(s: RxState<T>, me: Id, again: bool)
    requires Inv(s) && me in s.ch.list
    ensures var s' := Do(s, Event<T>.Stop(me, again));
            Inv(s') && s'.ch.size == s.ch.size && (me in s'.ch.list <==> s.ch.startCount == 1 && again)
  {
    StopInv(s, me, again);
    RemoveMembers(s.ch.list, me);
  }

  /** An unread cell, fetched through the mapping, is what the controller wrote there. */
  lemma Fetch<T>(s: RxState<T>, me: Id, p: nat)
    requires Inv(s) && me in s.ch.list && s.pos[me] <= p < s.hw
    ensures s.base <= p && |s.mem| > 0 && p - s.base < |s.stream|
    ensures s.mem[Mask(p, |s.mem|)] == s.stream[p - s.base]
  {
    assert Reader(s, me);
    hide Mask, Reader, Shape;
    assert Window(s.mem, s.sw, s.hw - s.sw)[p - s.sw] == s.stream[s.sw - s.base..][p - s.sw];
  }

  /** What the controller wrote from absolute position `a` to `b`. */
  ghost function Slice<T>(s: RxState<T>, a: nat, b: nat): (r: seq<T>)
    requires s.base <= a <= b <= s.base + |s.stream|
    ensures |r| == b - a
  {
    s.stream[a - s.base..b - s.base]
  }

  /** It stays what it is while the controller goes on. */
  lemma SliceAgain<T>(s: RxState<T>, s': RxState<T>, a: nat, b: nat)
    requires s'.base == s.base && s.stream <= s'.stream && s.base <= a <= b <= s.base + |s.stream|
    ensures Slice(s', a, b) == Slice(s, a, b)
  {
  }

  lemma SliceSplit<T>(s: RxState<T>, a: nat, b: nat, c: nat)
    requires s.base <= a <= b <= c <= s.base + |s.stream|
    ensures Slice(s, a, c)[..b - a] == Slice(s, a, b) && Slice(s, a, c)[b - a..] == Slice(s, b, c)
    ensures Slice(s, a, c) == Slice(s, a, b) + Slice(s, b, c)
  {
    Pieces(s.stream, a - s.base, b - s.base, c - s.base);
    Parts(Slice(s, a, b), Slice(s, b, c));
  }

  /** In other words: no reader is passed, and some reader is exactly there. */
  lemma ReleasedToSlowest<T>(s: RxState<T>, id: Id, swptr: int)
    requires Inv(s) && Enabled(s, Sync(id, swptr))
    ensures var s' := DoSync(s, id, swptr);
            && (forall i | i in s.ch.list :: i in s'.pos && s'.sw <= s'.pos[i])
            && exists i :: i in s.ch.list && i in s'.pos && s'.sw == s'.pos[i]
  {
    SyncReaders(s, id, swptr);
    SyncReleases(s, id, swptr);
    var s' := DoSync(s, id, swptr);
    var ps := Positions(s.ch.list, s'.pos);
    SlowestIsLeast(ps, s.seen, |ps|);
    hide Mask, Slowest, Farthest;
    assert Reader(s', id);
    if s'.sw == s.seen {
      assert s.seen == s'.pos[id] by {
        assert Reader(s, id) && s'.sw <= s'.pos[id] <= s.seen;
      }
    } else {
      var i :| 0 <= i < |ps| && s'.sw == ps[i];
      assert s.ch.list[i] in s.ch.list;
    }
  }

  /** What a started subscription finds after a sync call that read on by `k`, whatever the others did before. */
  ghost predicate Synced<T>(s: RxState<T>, s': RxState<T>, me: Id, k: nat) {
    && s'.ch.size == s.ch.size
    && me in s.pos && me in s'.ch.list && me in s'.pos && me in s'.given
    && s'.pos[me] == s.pos[me] + k && s'.given[me] == s'.hw
    && s'.base == s.base && s.stream <= s'.stream && s.hw <= s'.hw
  }

  /** The request that moves the read position by `k` is allowed inside what was given. */
  lemma RequestMoves<T>(s: RxState<T>, me: Id, k: nat)
    requires Inv(s) && me in s.ch.list && me in s.pos && me in s.given && s.pos[me] + k <= s.given[me]
    ensures var swptr := Mask(s.pos[me] + k, s.ch.size);
            && Enabled(s, Sync(me, swptr)) && Reads(s, me, swptr) == k
  {
    assert Reader(s, me);
    MaskDistance(s.pos[me], s.pos[me] + k, s.ch.size);
  }
}
