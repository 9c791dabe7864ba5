/**
 Who may share a channel (`ndp_channel_subscribe` in `ndp/channel.c`): a subscription that
 wants the channel for itself gets it only alone, and those that share it agree on its flags.
 */
module Subscribing {

  type Flags = bv32

  const EXCLUSIVE: Flags := 0x2

  function And(a: Flags, b: Flags): Flags {
    a & b
  }

  function Or(a: Flags, b: Flags): Flags {
    a | b
  }

  function Without(a: Flags, b: Flags): Flags {
    a & !b
  }

  lemma Parts(a: Flags, b: Flags)
    ensures Or(And(a, b), Without(a, b)) == a
    ensures And(Without(a, b), b) == 0
    ensures And(And(a, b), b) == And(a, b)
  {
  }

  lemma OrMasked(a: Flags, b: Flags, m: Flags)
    ensures And(Or(a, b), m) == Or(And(a, m), And(b, m))
  {
  }

  lemma OrZero(a: Flags, b: Flags)
    ensures Or(a, b) == 0 <==> a == 0 && b == 0
  {
  }

  lemma OrAnd(a: Flags, b: Flags, m: Flags)
    ensures And(Or(a, b), m) == 0 <==> And(a, m) == 0 && And(b, m) == 0
  {
    hide And, Or;
    OrMasked(a, b, m);
    OrZero(And(a, m), And(b, m));
  }

  class Channel {
    var subscriptionsCount: nat
    var flags: Flags
    /** The flags the controller works with. */
    var opsFlags: Flags
    /** The flags each present subscription asked for. */
    ghost var members: seq<Flags>

    /** All present subscriptions asked for the channel's flags; an exclusive one is alone. */
    ghost predicate Valid()
      reads this
    {
      && subscriptionsCount == |members|
      && (members != [] ==> And(opsFlags, EXCLUSIVE) == 0)
      && (forall i | 0 <= i < |members| :: members[i] == Or(flags, opsFlags))
      && (|members| > 1 ==> And(flags, EXCLUSIVE) == 0)
    }

    constructor ()
      ensures Valid() && members == []
    {
      subscriptionsCount, flags, opsFlags, members := 0, 0, 0, [];
    }

    /** A subscription is exclusive when it asked to be. */
    lemma ExclusiveAlone(i: nat)
      requires Valid() && i < |members| && And(members[i], EXCLUSIVE) != 0
      ensures |members| == 1
    {
      hide And, Or;
      OrAnd(flags, opsFlags, EXCLUSIVE);
    }

    /**
     ndp_channel_subscribe; `answer` is what the controller makes of the flags it is given.
     The first subscription decides the flags, if the controller takes them as they are;
     later ones get in exactly when neither side is exclusive and they ask for the same.
     */
    method Subscribe(request: Flags, answer: Flags) returns (ok: bool)
      requires Valid()
      modifies this
      ensures Valid() && members == if ok then old(members) + [request] else old(members)
      ensures old(members) == [] ==> (ok <==> answer == Without(request, EXCLUSIVE))
      ensures old(members) != [] ==>
                (ok <==> request == old(members)[0] && And(request, EXCLUSIVE) == 0)
    {
      hide And, Or, Without;
      ok := true;
      Parts(request, EXCLUSIVE);
      subscriptionsCount := subscriptionsCount + 1;
      if subscriptionsCount - 1 == 0 {
        opsFlags := answer;
        if answer != Without(request, EXCLUSIVE) {
          ok := false;
        } else {
          flags := And(request, EXCLUSIVE);
        }
      } else {
        OrAnd(request, flags, EXCLUSIVE);
        OrAnd(flags, opsFlags, EXCLUSIVE);
        if And(Or(request, flags), EXCLUSIVE) != 0 {
          ok := false;
        }
        // The source tests for a bit in which the two words differ.
        if request != Or(flags, opsFlags) {
          ok := false;
        }
      }
      if !ok {
        subscriptionsCount := subscriptionsCount - 1;
      } else {
        members := members + [request];
      }
    }

    /** ndp_channel_unsubscribe, of member `i`. */
    method Unsubscribe(ghost i: nat)
      requires Valid() && i < |members|
      modifies this
      ensures Valid() && members == old(members)[..i] + old(members)[i + 1..]
    {
      hide And, Or;
      subscriptionsCount := subscriptionsCount - 1;
      members := members[..i] + members[i + 1..];
    }
  }
}
