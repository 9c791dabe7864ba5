/** The channel and subscription records of the NDP driver, updated in place. */
module NdpChannel {
  import opened Ring
  import opened Options
  import opened ChannelCalls

  class Subscription {
    const id: Id
    var hwptr: int
    var swptr: int

    constructor (id: Id)
      ensures this.id == id && hwptr == 0 && swptr == 0
    {
      this.id := id;
      hwptr, swptr := 0, 0;
    }
  }

  function Ids(list: seq<Subscription>): seq<Id> {
    seq(|list|, i requires 0 <= i < |list| => list[i].id)
  }

  ghost function Pointed(list: seq<Subscription>): seq<int>
    reads list
  {
    seq(|list|, i requires 0 <= i < |list| reads list => list[i].swptr)
  }

  /** The list after list_del of one record. */
  function Without(list: seq<Subscription>, sub: Subscription): seq<Subscription> {
    if list == [] then []
    else if list[0] == sub then list[1..]
    else [list[0]] + Without(list[1..], sub)
  }

  /** A handle names one listed record. */
  lemma SameRecord(list: seq<Subscription>, s: Subscription)
    requires NoDuplicates(Ids(list)) && s in list
    ensures s.id in Ids(list)
    ensures forall t | t in list && t.id == s.id :: t == s
  {
    var k :| 0 <= k < |list| && list[k] == s;
    assert Ids(list)[k] == s.id;
    forall t | t in list && t.id == s.id
      ensures t == s
    {
      var j :| 0 <= j < |list| && list[j] == t;
      assert Ids(list)[j] == t.id;
    }
  }

  lemma AppendIds(list: seq<Subscription>, sub: Subscription)
    requires NoDuplicates(Ids(list)) && sub.id !in Ids(list)
    ensures Ids(list + [sub]) == Ids(list) + [sub.id]
    ensures NoDuplicates(Ids(list + [sub]))
    ensures forall s :: s in list + [sub] <==> s in list || s == sub
    ensures forall i :: i in Ids(list + [sub]) <==> i in Ids(list) || i == sub.id
  {
  }

  lemma {:induction false} WithoutMembers(list: seq<Subscription>, sub: Subscription)
    requires NoDuplicates(Ids(list)) && sub in list
    ensures Ids(Without(list, sub)) == Remove(Ids(list), sub.id)
    ensures forall s | s in Without(list, sub) :: s in list && s.id != sub.id
    ensures forall s | s in list && s != sub :: s in Without(list, sub)
  {
    var rest := list[1..];
    assert Ids(list)[1..] == Ids(rest);
    assert forall s :: s in list <==> s == list[0] || s in rest;
    SameRecord(list, list[0]);
    if list[0] != sub {
      SameRecord(list, sub);
      WithoutMembers(rest, sub);
      assert Ids([list[0]] + Without(rest, sub)) == [list[0].id] + Ids(Without(rest, sub));
    } else {
      forall s | s in rest
        ensures s.id != sub.id
      {
        var k :| 0 <= k < |rest| && rest[k] == s;
        assert Ids(list)[k + 1] == s.id && Ids(list)[0] == sub.id;
      }
    }
  }

  /** The list and the table of pointers stay about the same subscriptions. */
  lemma Enlisted(list: seq<Subscription>, sub: Subscription, table: map<Id, Pointers>, p: Pointers)
    requires NoDuplicates(Ids(list)) && sub.id !in Ids(list) && forall i :: i in table <==> i in Ids(list)
    ensures Ids(list + [sub]) == Ids(list) + [sub.id] && NoDuplicates(Ids(list + [sub]))
    ensures forall i :: i in table[sub.id := p] <==> i in Ids(list + [sub])
    ensures forall s | s in list + [sub] && s != sub :: s in list && s.id != sub.id
  {
    AppendIds(list, sub);
    forall s | s in list + [sub] && s != sub
      ensures s in list && s.id != sub.id
    {
      SameRecord(list, s);
    }
  }

  lemma Delisted(list: seq<Subscription>, sub: Subscription, table: map<Id, Pointers>)
    requires NoDuplicates(Ids(list)) && sub in list && forall i :: i in table <==> i in Ids(list)
    ensures var l := Without(list, sub);
            && Ids(l) == Remove(Ids(list), sub.id) && NoDuplicates(Ids(l)) && |l| == |list| - 1
            && (forall i :: i in table - {sub.id} <==> i in Ids(l))
            && (forall s | s in l :: s in list && s.id != sub.id && s.id in table - {sub.id})
            && (forall s | s in list && s != sub :: s in l)
  {
    SameRecord(list, sub);
    WithoutMembers(list, sub);
    RemoveMembers(Ids(list), sub.id);
    hide Without, Remove, NoDuplicates;
    var l := Without(list, sub);
    forall s | s in l
      ensures s.id in table - {sub.id}
    {
      SameRecord(list, s);
    }
    assert |Ids(l)| == |l| && |Ids(list)| == |list|;
  }

  class Channel {
    const size: nat
    /** The channel's direction. */
    const rx: bool
    var hwptr: int
    var swptr: int
    var lockedSub: Subscription?
    var startCount: int
    var list: seq<Subscription>
    /** The software pointer last handed to the controller. */
    var register: int
    /** The pointers of the listed subscriptions, by name. */
    ghost var table: map<Id, Pointers>

    ghost predicate Shape()
      reads this
    {
      && size > 0
      && NoDuplicates(Ids(list))
      && startCount == |list|
      && (lockedSub != null ==> lockedSub in list)
      && register == swptr
    }

    ghost predicate Valid()
      reads this, list
    {
      && Shape()
      && (forall i :: i in table <==> i in Ids(list))
      && (forall s | s in list :: s.id in table && table[s.id] == Pointers(s.hwptr, s.swptr))
    }

    ghost function View(): (c: State)
      requires Valid()
      reads this, list
      ensures c.WellFormed()
    {
      State(size, hwptr, swptr, if lockedSub == null then None else Some(lockedSub.id), startCount, Ids(list), table)
    }

    constructor (size: nat, rx: bool)
      requires size > 0
      ensures Valid() && list == [] && View() == State(size, 0, 0, None, 0, [], map[])
    {
      this.size, this.rx := size, rx;
      hwptr, swptr, register := 0, 0, 0;
      lockedSub := null;
      startCount := 0;
      list := [];
      table := map[];
    }

    function HolderOf(sub: Subscription): Holder
      reads this
    {
      if lockedSub == null then Nobody else if lockedSub == sub then Caller else Another
    }

    /** Whether the lock is the caller's does not depend on naming it by record or by handle. */
    lemma HolderView(sub: Subscription)
      requires Valid() && sub in list
      ensures sub.id in Ids(list) && HolderOf(sub) == HolderFor(View().locked, sub.id)
    {
      SameRecord(list, sub);
    }

    method Start(sub: Subscription, ops: Option<int>) returns (ok: bool)
      requires Valid() && sub.id !in Ids(list)
      modifies this, sub
      ensures Valid() && ok == (old(startCount) > 0 || ops.Some?)
      ensures View() == ChannelCalls.Start(old(View()), sub.id, ops)
      ensures list == if ok then old(list) + [sub] else old(list)
    {
      hide NoDuplicates, Ids;
      startCount := startCount + 1;
      if startCount - 1 == 0 {
        if ops.None? {
          startCount := startCount - 1;
          return false;
        }
        hwptr := ops.value;
        swptr, register := hwptr, hwptr;
      }
      assert sub !in list by {
        if sub in list {
          SameRecord(list, sub);
        }
      }
      sub.swptr, sub.hwptr := hwptr, hwptr;
      Enlisted(list, sub, table, Pointers(hwptr, hwptr));
      list := list + [sub];
      table := table[sub.id := Pointers(hwptr, hwptr)];
      return true;
    }

    method Stop(sub: Subscription, again: bool) returns (done: bool)
      requires Valid() && sub in list
      modifies this
      ensures Valid() && done == !(old(startCount) == 1 && again)
      ensures list == if done then Without(old(list), sub) else old(list)
      ensures View() == ChannelCalls.Stop(old(View()), sub.id, again)
    {
      hide Without, Remove, NoDuplicates, Ids;
      HolderView(sub);
      if lockedSub == sub {
        lockedSub := null;
      }
      startCount := startCount - 1;
      if startCount == 0 {
        if again {
          startCount := startCount + 1;
          return false;
        }
      }
      Delisted(list, sub, table);
      list := Without(list, sub);
      table := table - {sub.id};
      return true;
    }

    lemma PointedIsRead()
      requires Valid()
      ensures Pointed(list) == ReadPointers(Ids(list), table)
    {
      forall k | 0 <= k < |list|
        ensures Pointed(list)[k] == table[Ids(list)[k]].swptr
      {
        assert list[k] in list;
      }
    }

    method RxSync(sub: Subscription, sync: Pointers, hwNow: int) returns (answer: Pointers)
      requires Shape() && sub in list
      modifies `hwptr, `swptr, `register, sub
      ensures Shape() && sub.swptr == sync.swptr
      ensures hwptr == sub.hwptr == hwNow && answer == sync.(hwptr := hwNow)
      ensures swptr == Farthest(old(hwptr), size, sync.swptr, Pointed(list), |list|).1
    {
      hide Mask, NoDuplicates;
      sub.swptr := sync.swptr;
      ghost var ptrs := Pointed(list);
      var maxLock, sw := 0, sub.swptr;
      for i := 0 to |list|
        invariant (maxLock, sw) == Farthest(hwptr, size, sync.swptr, ptrs, i)
      {
        var subSwptr := list[i].swptr;
        var subLock := Mask(hwptr - subSwptr, size);
        if subLock > maxLock {
          maxLock := subLock;
          sw := subSwptr;
        }
      }
      if sw != swptr {
        swptr := sw;
        register := sw;
      }
      hwptr := hwNow;
      sub.hwptr := hwptr;
      assert Pointed(list) == ptrs;
      return sync.(hwptr := sub.hwptr);
    }

    method TxSync(sub: Subscription, sync: Pointers, hwNow: int) returns (answer: Pointers)
      requires Shape() && sub in list
      modifies `hwptr, `swptr, `lockedSub, `register, sub
      ensures Shape() && answer == Pointers(sub.hwptr, sub.swptr)
      ensures TxResult(hwptr, swptr, HolderOf(sub), answer)
           == TxGrant(size, old(hwptr), old(swptr), old(HolderOf(sub)), sync, hwNow)
      ensures HolderOf(sub) == Another ==> lockedSub == old(lockedSub)
    {
      sub.swptr := sync.swptr;
      sub.hwptr := sync.hwptr;
      if lockedSub == sub {
        if sub.hwptr != swptr {
          swptr := sub.hwptr;
          register := swptr;
        }
        hwptr := hwNow;
        var chlen := Mask(hwptr - swptr - 1, size);
        var len := Min(Mask(sub.swptr - sub.hwptr, size), chlen);
        if len == 0 {
          lockedSub := null;
        }
        sub.hwptr := swptr;
        sub.swptr := Mask(swptr + len, size);
      } else if lockedSub == null {
        hwptr := hwNow;
        var chlen := Mask(hwptr - swptr - 1, size);
        var len := Min(Mask(sub.swptr - sub.hwptr, size), chlen);
        if len != 0 {
          lockedSub := sub;
        }
        sub.hwptr := swptr;
        sub.swptr := Mask(swptr + len, size);
      } else {
        sub.hwptr := swptr;
        sub.swptr := swptr;
      }
      return Pointers(sub.hwptr, sub.swptr);
    }

    /** The system call: the call of the channel's direction, as computed on values. */
    method Sync(sub: Subscription, sync: Pointers, hwNow: int) returns (answer: Pointers)
      requires Valid() && sub in list
      modifies this, sub
      ensures Valid() && list == old(list)
      ensures rx ==> View() == ChannelCalls.RxSync(old(View()), sub.id, sync.swptr, hwNow)
      ensures rx ==> answer == sync.(hwptr := hwNow)
      ensures !rx ==> View() == ChannelCalls.TxSync(old(View()), sub.id, sync, hwNow)
      ensures !rx ==> answer == View().ptr[sub.id]
    {
      hide Mask, Farthest, TxGrant, NoDuplicates;
      HolderView(sub);
      SameRecord(list, sub);
      if rx {
        ghost var ptr := table[sub.id := Pointers(hwNow, sync.swptr)];
        answer := RxSync(sub, sync, hwNow);
        table := ptr;
        PointedIsRead();
      } else {
        answer := TxSync(sub, sync, hwNow);
        table := table[sub.id := answer];
        HolderView(sub);
      }
    }
  }
}
