/**
 The transmission channel of the NDP driver (`ndp/channel.c`): one hardware ring
 shared by any number of subscriptions. The functions below compute one driver
 call on the driver's masked pointers. `NdpChannel.Channel` makes the same calls
 on the driver's mutable records and is proved against them; what the calls
 achieve over whole runs is proved in `TxArbiter` and `RxArbiter`.
 */
module ChannelCalls {
  import opened Ring
  import opened Options

  /** A subscription, as named by the handle user space passes to the driver. */
  type Id = nat

  /** The pair of masked pointers kept by a subscription and exchanged by a sync call. */
  datatype Pointers = Pointers(hwptr: int, swptr: int)

  /** `ptr` holds the pointers of the started subscriptions, those in `list`. */
  datatype State = State(
    size: nat,
    hwptr: int,
    swptr: int,
    locked: Option<Id>,
    startCount: int,
    list: seq<Id>,
    ptr: map<Id, Pointers>)
  {
    ghost predicate WellFormed() {
      && size > 0
      && forall i :: i in ptr <==> i in list
    }
  }

  function Min(a: int, b: int): int {
    if a < b then a else b
  }

  // ---- Start and stop ----------------------------------------------------

  /** `ops` is the hardware pointer the controller reports when it starts, or None when it fails to. */
  function Start(c: State, id: Id, ops: Option<int>): State {
    if c.startCount == 0 && ops.None? then c
    else
      var c := if c.startCount == 0 then c.(hwptr := ops.value, swptr := ops.value) else c;
      c.(startCount := c.startCount + 1,
         list := c.list + [id],
         ptr := c.ptr[id := Pointers(c.hwptr, c.hwptr)])
  }

  function Remove(list: seq<Id>, id: Id): seq<Id> {
    if list == [] then []
    else if list[0] == id then list[1..]
    else [list[0]] + Remove(list[1..], id)
  }

  ghost predicate NoDuplicates(list: seq<Id>) {
    forall i, j | 0 <= i < j < |list| :: list[i] != list[j]
  }

  /** list_del takes out one entry and leaves the others in order. */
  lemma {:induction false} RemoveMembers(list: seq<Id>, id: Id)
    requires NoDuplicates(list) && id in list
    ensures |Remove(list, id)| == |list| - 1
    ensures forall i :: i in Remove(list, id) <==> i in list && i != id
    ensures NoDuplicates(Remove(list, id))
  {
    var rest := list[1..];
    assert forall i :: i in list <==> i == list[0] || i in rest;
    if list[0] != id {
      RemoveMembers(rest, id);
      var left := Remove(rest, id);
      assert forall k | 0 <= k < |left| :: left[k] in rest && left[k] != list[0];
    }
  }

  /** What a stopping subscription gives up first: its write lock. */
  function Unlock(c: State, id: Id): State {
    if c.locked == Some(id) then c.(locked := None) else c
  }

  function Delist(c: State, id: Id): State {
    c.(startCount := c.startCount - 1, list := Remove(c.list, id), ptr := c.ptr - {id})
  }

  /** `again` tells that the controller answers -EAGAIN when the last subscription stops. */
  function Stop(c: State, id: Id, again: bool): State {
    if c.startCount - 1 == 0 && again then Unlock(c, id) else Delist(Unlock(c, id), id)
  }

  // ---- Receive -----------------------------------------------------------

  /** The read pointers of the subscriptions, in list order. */
  function ReadPointers(list: seq<Id>, ptr: map<Id, Pointers>): (r: seq<int>)
    requires forall i | i in list :: i in ptr
  {
    seq(|list|, i requires 0 <= i < |list| => ptr[list[i]].swptr)
  }

  /** Among the first `k` pointers, the longest masked distance behind `hwptr` and the first pointer at it. */
  function Farthest(hwptr: int, size: nat, own: int, ptrs: seq<int>, k: nat): (int, int)
    requires size > 0 && k <= |ptrs|
  {
    if k == 0 then (0, own)
    else
      var (maxLock, swptr) := Farthest(hwptr, size, own, ptrs, k - 1);
      var lock := Mask(hwptr - ptrs[k - 1], size);
      if lock > maxLock then (lock, ptrs[k - 1]) else (maxLock, swptr)
  }

  /** `hw` is what the controller's hardware pointer reads at the time of the call. */
  function RxSync(c: State, id: Id, swptr: int, hw: int): State
    requires c.WellFormed() && id in c.list
  {
    var ptr := c.ptr[id := Pointers(hw, swptr)];
    c.(swptr := Farthest(c.hwptr, c.size, swptr, ReadPointers(c.list, ptr), |c.list|).1, hwptr := hw, ptr := ptr)
  }

  // ---- Transmit ----------------------------------------------------------

  /** Who holds the write lock, seen from the calling subscription. */
  datatype Holder = Nobody | Caller | Another

  datatype TxResult = TxResult(hwptr: int, swptr: int, holder: Holder, answer: Pointers)

  /** `req` is what the subscriber passes, `hw` what the controller's hardware pointer reads. */
  function TxGrant(size: nat, hwptr: int, swptr: int, holder: Holder, req: Pointers, hw: int): TxResult
    requires size > 0
  {
    if holder == Another then TxResult(hwptr, swptr, Another, Pointers(swptr, swptr))
    else
      var swptr := if holder == Caller then req.hwptr else swptr;
      var len := Min(Mask(req.swptr - req.hwptr, size), Mask(hw - swptr - 1, size));
      TxResult(hw, swptr, if len == 0 then Nobody else Caller, Pointers(swptr, Mask(swptr + len, size)))
  }

  function HolderFor(locked: Option<Id>, id: Id): Holder {
    if locked == None then Nobody else if locked == Some(id) then Caller else Another
  }

  function TxSync(c: State, id: Id, req: Pointers, hw: int): State
    requires c.size > 0
  {
    var r := TxGrant(c.size, c.hwptr, c.swptr, HolderFor(c.locked, id), req, hw);
    c.(hwptr := r.hwptr,
       swptr := r.swptr,
       locked := match r.holder case Nobody => None case Caller => Some(id) case Another => c.locked,
       ptr := c.ptr[id := r.answer])
  }
}
