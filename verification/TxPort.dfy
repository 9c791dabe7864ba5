/**
 A transmit subscription seen from user space: the system calls a queue makes on its
 file descriptor, each after whatever the other parties have done since the last.
 */
module TxPorts {
  import opened Ring
  import opened Options
  import opened ChannelCalls
  import opened TxArbiter

  class Port<T> {
    const id: Id
    const size: nat
    /** The ring with its channel, the controller and the other subscriptions. */
    var kernel: TxState<T>
    /** What the others do before each of this subscription's calls. */
    var others: seq<seq<Event<T>>>

    ghost predicate Valid()
      reads this
    {
      Inv(kernel) && kernel.ch.size == size == |kernel.mem|
    }

    predicate Running()
      reads this
    {
      id in kernel.ch.list
    }

    /** A subscription of a channel as the others left it, and what they are going to do. */
    constructor (id: Id, kernel: TxState<T>, others: seq<seq<Event<T>>>)
      requires Inv(kernel) && id !in kernel.ch.list && Sent(kernel, id) == []
      ensures Valid() && this.id == id && this.kernel == kernel
    {
      this.id, this.size, this.kernel, this.others := id, kernel.ch.size, kernel, others;
    }

    /** The others' turn. What this subscription holds and has published stays. */
    method Turn()
      requires Valid()
      modifies this
      ensures Valid() && Keeps(old(kernel), kernel, id)
    {
      hide Mask;
      var theirs := if others == [] then [] else others[0];
      others := if others == [] then [] else others[1..];
      ForeignRun(kernel, id, theirs);
      kernel := RunForeign(kernel, id, theirs);
      WindowBound(kernel, id);
    }

    /** NDP_IOC_SYNC. With a window, the pointers passed publish its first `k` cells. */
    method Sync(sync: Pointers, ghost k: nat) returns (ok: bool, answer: Pointers)
      requires Valid() && 0 <= sync.hwptr < size
      requires k <= Granted(kernel, id) && (Granted(kernel, id) > 0 ==> sync.hwptr == Mask(kernel.sw + k, size))
      modifies this
      ensures Valid() && ok == old(Running()) == Running()
      ensures !ok ==> answer == sync && Keeps(old(kernel), kernel, id)
      ensures ok ==> Synced(old(kernel), kernel, id, k)
      ensures ok ==> answer == Pointers(Mask(kernel.sw, size), Mask(kernel.sw + Granted(kernel, id), size))
      ensures ok && sync.swptr == sync.hwptr ==> Granted(kernel, id) == 0
      ensures ok && Mask(sync.swptr - sync.hwptr, size) == size - 1 ==>
                Granted(kernel, id) >= old(Granted(kernel, id)) - k && Fully(kernel, id)
    {
      hide Mask, Inv, RunForeign, DoSync, Synced, Fully, Window;
      Sizes(kernel);
      ghost var was := kernel;
      var theirs := if others == [] then [] else others[0];
      others := if others == [] then [] else others[1..];
      ForeignRun(kernel, id, theirs);
      if id in kernel.ch.list {
        SyncAmongOthers(kernel, id, theirs, sync, k);
      }
      kernel := RunForeign(kernel, id, theirs);
      WindowBound(kernel, id);
      if id !in kernel.ch.list {
        return false, sync;
      }
      kernel := DoSync(kernel, id, sync);
      SyncedAnswer(was, kernel, id, k);
      return true, kernel.ch.ptr[id];
    }

    /** NDP_IOC_START; `ops` is how the controller answers when it has to be started. */
    method Start(ops: Option<int>) returns (ok: bool)
      requires Valid() && (ops.Some? ==> 0 <= ops.value < size)
      modifies this
      ensures Valid() && Sent(kernel, id) == old(Sent(kernel, id))
      ensures old(Running()) ==> !ok && Keeps(old(kernel), kernel, id)
      ensures !old(Running()) ==> Granted(kernel, id) == old(Granted(kernel, id)) == 0
      ensures Running() == (ok || old(Running()))
      ensures !old(Running()) && ops.Some? ==> ok
    {
      hide Mask, Inv;
      if Granted(kernel, id) > 0 {
        WindowIsStarted(kernel, id);
      }
      Turn();
      if id in kernel.ch.list {
        return false;
      }
      Sizes(kernel);
      OwnStart(kernel, id, ops);
      kernel := DoStart(kernel, id, ops);
      WindowBound(kernel, id);
      return id in kernel.ch.list;
    }

    /** One NDP_IOC_STOP; `again` is whether the controller puts the last subscription off. */
    method Stop(again: bool)
      requires Valid() && Running()
      modifies this
      ensures Valid() && Granted(kernel, id) == 0
      ensures Sent(kernel, id) == old(Sent(kernel, id))
      ensures !again ==> !Running()
    {
      hide Mask, Inv;
      Turn();
      Sizes(kernel);
      OwnStop(kernel, id, again);
      kernel := Do(kernel, Event<T>.Stop(id, again));
      WindowBound(kernel, id);
    }

    /** Stores into the window through the mapping: `address` is that of the window's cell `at`. */
    method Put(address: nat, items: seq<T>, ghost at: nat)
      requires Valid() && at + |items| <= Granted(kernel, id)
      requires Mask(address, size) == Mask(kernel.sw + at, size)
      modifies `kernel
      ensures Valid()
      ensures kernel == old(kernel).(mem := Store(old(kernel.mem), kernel.sw + at, items))
    {
      hide Mask, Inv, Store;
      StoreInv(kernel, id, at, items);
      StoreAlias(kernel.mem, address, kernel.sw + at, items);
      kernel := kernel.(mem := Store(kernel.mem, address, items));
    }
  }
}
