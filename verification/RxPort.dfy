/**
 A receive subscription seen from user space: the system calls a queue makes on its
 file descriptor, each after whatever the other parties have done since the last.
 */
module RxPorts {
  import opened Ring
  import opened Options
  import opened ChannelCalls
  import opened RxArbiter

  function Now<T>(turns: seq<seq<T>>): seq<T> {
    if turns == [] then [] else turns[0]
  }

  function Later<T>(turns: seq<seq<T>>): seq<seq<T>> {
    if turns == [] then [] else turns[1..]
  }

  /** The two states agree on what the controller has written and on the part the channel knows of. */
  ghost predicate SameStream<T>(s: RxState<T>, s': RxState<T>) {
    s'.stream == s.stream && s'.base == s.base && s'.hw == s.hw && (s'.seen == s.seen || s'.seen == s.hw)
  }

  /** What an application calls on a started queue. */
  datatype Call = Get(count: nat) | Put

  /** A call that comes to `c` returned `n` packets, all it was asked for or all that had been written by `hw`. */
  predicate Returned(call: Call, n: nat, c: nat, hw: nat) {
    match call
    case Get(count) => n <= count && (n < count ==> hw <= c)
    case Put => n == 0
  }

  class Port<T> {
    const id: Id
    const size: nat
    /** The ring with its channel, the controller and the other subscriptions. */
    var kernel: RxState<T>
    /** What the others do before each of this subscription's calls. */
    var others: seq<seq<Event<T>>>

    ghost predicate Valid()
      reads this
    {
      Inv(kernel) && kernel.ch.size == size == |kernel.mem|
    }

    predicate Running()
      reads this
    {
      id in kernel.ch.list
    }

    constructor (id: Id, kernel: RxState<T>, others: seq<seq<Event<T>>>)
      requires Inv(kernel) && id !in kernel.ch.list
      ensures Valid() && this.id == id && this.kernel == kernel && this.others == others
    {
      this.id, this.size, this.kernel, this.others := id, kernel.ch.size, kernel, others;
    }

    /** The others' turn. */
    method Turn()
      requires Valid()
      modifies this
      ensures Valid() && Keeps(old(kernel), kernel, id)
      ensures kernel == RunForeign(old(kernel), id, Now(old(others))) && others == Later(old(others))
    {
      hide Mask;
      kernel := RunForeign(kernel, id, Now(others));
      others := Later(others);
    }

    /** NDP_IOC_SYNC: read on by `k`, and be told how far the controller has written. */
    method Sync(sync: Pointers, ghost k: nat) returns (ok: bool, answer: Pointers)
      requires Valid()
      requires Running() ==>
                 && id in kernel.pos && id in kernel.given && kernel.pos[id] + k <= kernel.given[id]
                 && sync.swptr == Mask(kernel.pos[id] + k, size)
      modifies this
      ensures Valid() && ok == old(Running()) == Running()
      ensures !ok ==> answer == sync
      ensures ok ==> Synced(old(kernel), kernel, id, k) && answer == sync.(hwptr := Mask(kernel.hw, size))
      ensures SameStream(RunForeign(old(kernel), id, Now(old(others))), kernel) && others == Later(old(others))
    {
      hide Mask, Farthest;
      Turn();
      if id !in kernel.ch.list {
        return false, sync;
      }
      RequestMoves(kernel, id, k);
      OwnSync(kernel, id, sync.swptr);
      kernel := DoSync(kernel, id, sync.swptr);
      return true, sync.(hwptr := Mask(kernel.hw, size));
    }

    /** NDP_IOC_START: the answer carries both of the subscription's pointers. */
    method Start(sync: Pointers, ops: Option<int>) returns (ok: bool, answer: Pointers)
      requires Valid() && (ops.Some? ==> 0 <= ops.value < size)
      modifies this
      ensures Valid() && Running() == (ok || old(Running()))
      ensures old(Running()) ==> !ok
      ensures !old(Running()) && ops.Some? ==> ok
      ensures !ok ==> answer == sync && kernel == RunForeign(old(kernel), id, Now(old(others)))
      ensures kernel.hw == kernel.base + |kernel.stream|
      ensures ok ==>
                && id in kernel.pos && id in kernel.given && kernel.base <= kernel.pos[id] <= kernel.hw
                && kernel.pos[id] == kernel.given[id] == kernel.seen
                && answer == Pointers(Mask(kernel.seen, size), Mask(kernel.seen, size))
      ensures ok && kernel.ch.startCount == 1 ==> ops.Some? && Mask(kernel.seen, size) == ops.value
      ensures others == Later(old(others))
      ensures SameStream(RunForeign(old(kernel), id, Now(old(others))), kernel)
           || (kernel.stream == [] && kernel.seen == kernel.base)
    {
      hide Mask;
      Turn();
      if id in kernel.ch.list {
        return false, sync;
      }
      OwnStart(kernel, id, ops);
      kernel := DoStart(kernel, id, ops);
      if id !in kernel.ch.list {
        return false, sync;
      }
      return true, kernel.ch.ptr[id];
    }

    /** One NDP_IOC_STOP; `again` is whether the controller puts the last subscription off. */
    method Stop(again: bool)
      requires Valid() && Running()
      modifies this
      ensures Valid() && (!again ==> !Running())
      ensures SameStream(RunForeign(old(kernel), id, Now(old(others))), kernel) && others == Later(old(others))
    {
      hide Mask;
      Turn();
      OwnStop(kernel, id, again);
      kernel := Do(kernel, Event<T>.Stop(id, again));
    }
  }
}
