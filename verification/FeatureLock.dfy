/**
 Component locks (`lock.c`): applications lock features, the bits of a 64-bit word, of a
 component named by its device-tree path. The driver keeps a list of items; the proofs
 relate it to the set of (application, path, bit) locks in force.
 */
module FeatureLock {

  type App = nat
  type Path = string
  type Word = bv64

  /** `struct nfb_lock_item` */
  datatype Item = Item(app: App, path: Path, features: Word)

  datatype Status = Ok | Busy | NoDevice

  // ---- Bits --------------------------------------------------------------

  /** A word with one bit set, which stands for that bit. */
  predicate Single(m: Word) {
    m != 0 && m & (m - 1) == 0
  }

  predicate Has(features: Word, m: Word) {
    features & m != 0
  }

  /** `a & b`, `a | b` and `a & ~b`. */
  predicate Shares(a: Word, b: Word) {
    a & b != 0
  }

  function Or(a: Word, b: Word): Word {
    a | b
  }

  function Clear(a: Word, b: Word): Word {
    a & !b
  }

  lemma OrMasked(a: Word, b: Word, m: Word)
    ensures Or(a, b) & m == Or(a & m, b & m)
  {
  }

  lemma OrZero(x: Word, y: Word)
    ensures Or(x, y) == 0 <==> x == 0 && y == 0
  {
  }

  lemma OrBits(a: Word, b: Word, m: Word)
    ensures Has(Or(a, b), m) <==> Has(a, m) || Has(b, m)
  {
    hide Or;
    OrMasked(a, b, m);
    OrZero(a & m, b & m);
  }

  lemma AllOrNone(x: Word, m: Word)
    requires Single(m)
    ensures x & m == 0 || x & m == m
  {
  }

  lemma ClearMasked(a: Word, b: Word, m: Word)
    ensures b & m == 0 ==> Clear(a, b) & m == a & m
    ensures b & m == m ==> Clear(a, b) & m == 0
  {
  }

  lemma ClearBits(a: Word, b: Word, m: Word)
    requires Single(m)
    ensures Has(Clear(a, b), m) <==> Has(a, m) && !Has(b, m)
  {
    hide Clear;
    AllOrNone(b, m);
    ClearMasked(a, b, m);
  }

  lemma AndBits(a: Word, b: Word, m: Word)
    requires Single(m)
    ensures Has(a & b, m) <==> Has(a, m) && Has(b, m)
  {
  }

  /** Two words share a bit exactly when their conjunction is not zero. */
  lemma SharedBit(a: Word, b: Word)
    ensures Shares(a, b) <==> exists m :: Single(m) && Has(a, m) && Has(b, m)
  {
    if Shares(a, b) {
      var c := a & b;
      var m := c & (0 - c);
      LowestBit(c);
      AndBits(a, b, m);
    }
    if m :| Single(m) && Has(a, m) && Has(b, m) {
      AndBits(a, b, m);
      NothingMasked(m);
    }
  }

  lemma LowestBit(c: Word)
    requires c != 0
    ensures Single(c & (0 - c)) && Has(c, c & (0 - c))
  {
  }

  lemma NothingMasked(m: Word)
    ensures !Has(0, m)
  {
  }

  // ---- Locks in force ----------------------------------------------------

  datatype Lock = Lock(app: App, path: Path, bit: Word)

  /** Item `i` gives a lock. */
  ghost predicate Gives(items: seq<Item>, i: int, l: Lock) {
    && 0 <= i < |items| && items[i].app == l.app && items[i].path == l.path && Has(items[i].features, l.bit)
  }

  ghost function Locks(items: seq<Item>): iset<Lock> {
    iset l: Lock | Single(l.bit) && exists i :: Gives(items, i, l)
  }

  /** The locks a request names. */
  ghost function Named(app: App, path: Path, features: Word): iset<Lock> {
    iset l: Lock | Single(l.bit) && l.app == app && l.path == path && Has(features, l.bit)
  }

  /** A requested bit is locked, by anyone. */
  ghost predicate Conflict(locks: iset<Lock>, path: Path, features: Word) {
    exists l: Lock :: l in locks && l.path == path && Has(features, l.bit)
  }

  /** What the three calls do to the locks in force. */
  ghost function Locked(locks: iset<Lock>, app: App, path: Path, features: Word): iset<Lock> {
    if Conflict(locks, path, features) then locks else locks + Named(app, path, features)
  }

  ghost function Unlocked(locks: iset<Lock>, app: App, path: Path, features: Word): iset<Lock> {
    locks - Named(app, path, features)
  }

  ghost function Released(locks: iset<Lock>, app: App): iset<Lock> {
    iset l | l in locks && l.app != app
  }

  /** No bit of a path is locked by two applications. */
  ghost predicate Exclusive(locks: iset<Lock>) {
    forall l, l' | l in locks && l' in locks && l.path == l'.path && l.bit == l'.bit :: l.app == l'.app
  }

  lemma LockedExclusive(locks: iset<Lock>, app: App, path: Path, features: Word)
    requires Exclusive(locks)
    ensures Exclusive(Locked(locks, app, path, features))
  {
    hide Has, Single, Shares, Or, Clear;
  }

  /** An unlock undoes the lock just taken, and lets everyone else have it. */
  lemma UnlockUndoes(locks: iset<Lock>, app: App, path: Path, features: Word)
    requires !Conflict(locks, path, features)
    ensures Unlocked(Locked(locks, app, path, features), app, path, features) == locks
    ensures !Conflict(Unlocked(Locked(locks, app, path, features), app, path, features), path, features)
  {
    hide Has, Single, Shares, Or, Clear;
    var named := Named(app, path, features);
    forall l | l in named
      ensures l !in locks
    {
    }
    assert locks + named - named == locks;
  }

  // ---- The list ----------------------------------------------------------

  /** An application has one item for a path. */
  ghost predicate OneEach(items: seq<Item>) {
    forall i, j | 0 <= i < |items| && 0 <= j < |items| && i != j ::
      items[i].app != items[j].app || items[i].path != items[j].path
  }

  /** The items of a path share no bit. */
  ghost predicate Disjoint(items: seq<Item>) {
    forall i, j | 0 <= i < |items| && 0 <= j < |items| && i != j && items[i].path == items[j].path ::
      !Shares(items[i].features, items[j].features)
  }

  lemma DisjointExclusive(items: seq<Item>)
    requires Disjoint(items)
    ensures Exclusive(Locks(items))
  {
    forall l, l' | l in Locks(items) && l' in Locks(items) && l.path == l'.path && l.bit == l'.bit
      ensures l.app == l'.app
    {
      var i :| Gives(items, i, l);
      var j :| Gives(items, j, l');
      if i != j {
        SharedBit(items[i].features, items[j].features);
      }
    }
  }

  /** Item `i` stands in the way of a request. */
  predicate Blocks(items: seq<Item>, i: int, path: Path, features: Word) {
    0 <= i < |items| && items[i].path == path && Shares(items[i].features, features)
  }

  lemma BlockerConflicts(items: seq<Item>, i: nat, path: Path, features: Word)
    requires Blocks(items, i, path, features)
    ensures Conflict(Locks(items), path, features)
  {
    hide Has, Single, Shares, Or, Clear;
    SharedBit(items[i].features, features);
    var m :| Single(m) && Has(items[i].features, m) && Has(features, m);
    var l := Lock(items[i].app, path, m);
    assert Gives(items, i, l);
    assert l in Locks(items);
  }

  lemma ConflictBlocks(items: seq<Item>, path: Path, features: Word) returns (i: nat)
    requires Conflict(Locks(items), path, features)
    ensures Blocks(items, i, path, features)
  {
    hide Has, Single, Shares, Or, Clear;
    var l: Lock :| l in Locks(items) && l.path == path && Has(features, l.bit);
    i :| Gives(items, i, l);
    SharedBit(items[i].features, features);
  }

  /** Replacing one item changes the locks it gives. */
  lemma ItemChanged(items: seq<Item>, t: nat, features: Word, l: Lock)
    requires t < |items|
    ensures var items' := items[t := items[t].(features := features)];
            && ((exists i :: Gives(items', i, l)) <==> Gives(items', t, l) || exists i :: i != t && Gives(items, i, l))
            && ((exists i :: Gives(items, i, l)) <==> Gives(items, t, l) || exists i :: i != t && Gives(items, i, l))
  {
    hide Has;
    var items' := items[t := items[t].(features := features)];
    assert forall i | i != t :: Gives(items', i, l) <==> Gives(items, i, l);
  }

  /** Adding bits to an item adds the locks they name. */
  lemma LocksMore(items: seq<Item>, t: nat, features: Word)
    requires t < |items|
    ensures Locks(items[t := items[t].(features := Or(items[t].features, features))])
         == Locks(items) + Named(items[t].app, items[t].path, features)
  {
    hide Has, Single, Shares, Or, Clear;
    var items' := items[t := items[t].(features := Or(items[t].features, features))];
    forall l: Lock
      ensures l in Locks(items') <==> l in Locks(items) + Named(items[t].app, items[t].path, features)
    {
      ItemChanged(items, t, Or(items[t].features, features), l);
      OrBits(items[t].features, features, l.bit);
    }
  }

  /** Clearing bits takes them away, when no other item gives them to this application. */
  lemma LocksLess(items: seq<Item>, t: nat, features: Word)
    requires t < |items| && OneEach(items)
    ensures Locks(items[t := items[t].(features := Clear(items[t].features, features))])
         == Unlocked(Locks(items), items[t].app, items[t].path, features)
  {
    hide Has, Single, Shares, Or, Clear;
    var items' := items[t := items[t].(features := Clear(items[t].features, features))];
    forall l: Lock
      ensures l in Locks(items') <==> l in Unlocked(Locks(items), items[t].app, items[t].path, features)
    {
      ItemChanged(items, t, Clear(items[t].features, features), l);
      if Single(l.bit) {
        ClearBits(items[t].features, features, l.bit);
      }
    }
  }

  function Remove(items: seq<Item>, t: nat): seq<Item>
    requires t < |items|
  {
    items[..t] + items[t + 1..]
  }

  /** Removing an item takes away what it gives. */
  lemma LocksRemoved(items: seq<Item>, t: nat, l: Lock)
    requires t < |items|
    ensures (exists i :: Gives(Remove(items, t), i, l)) <==> exists i :: i != t && Gives(items, i, l)
  {
    hide Has;
    var items' := Remove(items, t);
    if i :| Gives(items', i, l) {
      assert Gives(items, if i < t then i else i + 1, l);
    }
    if i :| i != t && Gives(items, i, l) {
      assert Gives(items', if i < t then i else i - 1, l);
    }
  }

  /** An item without features gives nothing. */
  lemma LocksDropped(items: seq<Item>, t: nat)
    requires t < |items| && items[t].features == 0
    ensures Locks(Remove(items, t)) == Locks(items)
  {
    hide Has, Single, Shares, Or, Clear, Remove;
    forall l: Lock
      ensures l in Locks(Remove(items, t)) <==> l in Locks(items)
    {
      LocksRemoved(items, t, l);
      NothingMasked(l.bit);
      assert !Gives(items, t, l);
    }
  }

  /** A new item without features gives nothing yet. */
  lemma LocksAdded(items: seq<Item>, app: App, path: Path)
    ensures Locks([Item(app, path, 0)] + items) == Locks(items)
  {
    hide Has, Single, Shares, Or, Clear;
    var items' := [Item(app, path, 0)] + items;
    assert Remove(items', 0) == items;
    LocksDropped(items', 0);
  }

  predicate Belongs(item: Item, app: App, path: Path) {
    item.app == app && item.path == path
  }

  /** The list has been looked through up to `i`: nothing is in the way, and `temp` is the application's item. */
  ghost predicate Searched(items: seq<Item>, i: nat, temp: nat, app: App, path: Path, features: Word) {
    && i <= |items| && (temp < |items| ==> Belongs(items[temp], app, path))
    && (forall j | 0 <= j < i :: !Blocks(items, j, path, features))
    && (forall j | 0 <= j < i && Belongs(items[j], app, path) :: temp < |items|)
  }

  lemma AddedValid(items: seq<Item>, app: App, path: Path, features: Word)
    requires OneEach(items) && Disjoint(items) && Searched(items, |items|, |items|, app, path, features)
    ensures var items' := [Item(app, path, 0)] + items;
            OneEach(items') && Disjoint(items') && Searched(items', |items'|, 0, app, path, features)
  {
    hide Has, Single, Shares, Or, Clear;
    var items' := [Item(app, path, 0)] + items;
    forall j | 0 < j < |items'|
      ensures !Blocks(items', j, path, features) && !Belongs(items'[j], app, path)
    {
      assert !Blocks(items, j - 1, path, features) && !Belongs(items[j - 1], app, path);
    }
    NoneShared(0, features);
    forall i, j | 0 <= i < |items'| && 0 <= j < |items'| && i != j && items'[i].path == items'[j].path
      ensures !Shares(items'[i].features, items'[j].features)
    {
      NoneShared(0, items'[j].features);
      NoneShared(0, items'[i].features);
    }
  }

  lemma NoneShared(z: Word, a: Word)
    requires z == 0
    ensures !Shares(z, a) && !Shares(a, z)
  {
  }

  lemma OrApart(a: Word, b: Word, c: Word)
    requires !Shares(a, c) && !Shares(c, b)
    ensures !Shares(Or(a, b), c) && !Shares(c, Or(a, b))
  {
  }

  lemma MoreValid(items: seq<Item>, t: nat, app: App, path: Path, features: Word)
    requires t < |items| && OneEach(items) && Disjoint(items) && Searched(items, |items|, t, app, path, features)
    ensures var items' := items[t := items[t].(features := Or(items[t].features, features))];
            OneEach(items') && Disjoint(items')
  {
    hide Has, Single, Shares, Or, Clear;
    var items' := items[t := items[t].(features := Or(items[t].features, features))];
    forall i, j | 0 <= i < |items'| && 0 <= j < |items'| && i != j && items'[i].path == items'[j].path
      ensures !Shares(items'[i].features, items'[j].features)
    {
      if i == t {
        assert !Blocks(items, j, path, features);
        OrApart(items[t].features, features, items[j].features);
      } else if j == t {
        assert !Blocks(items, i, path, features);
        assert !Shares(items[t].features, items[i].features);
        OrApart(items[t].features, features, items[i].features);
      }
    }
  }

  lemma Apart(a: Word, b: Word, f: Word)
    requires !Shares(a, b)
    ensures !Shares(Clear(a, f), b) && !Shares(b, Clear(a, f))
  {
  }

  lemma LessValid(items: seq<Item>, t: nat, features: Word)
    requires t < |items| && OneEach(items) && Disjoint(items)
    ensures var items' := items[t := items[t].(features := Clear(items[t].features, features))];
            OneEach(items') && Disjoint(items')
  {
    hide Has, Single, Shares, Or, Clear;
    var items' := items[t := items[t].(features := Clear(items[t].features, features))];
    forall i, j | 0 <= i < |items'| && 0 <= j < |items'| && i != j && items'[i].path == items'[j].path
      ensures !Shares(items'[i].features, items'[j].features)
    {
      assert !Shares(items[i].features, items[j].features) && !Shares(items[j].features, items[i].features);
      if i == t {
        Apart(items[t].features, items[j].features, features);
      } else if j == t {
        Apart(items[t].features, items[i].features, features);
      }
    }
  }

  lemma RemovedValid(items: seq<Item>, t: nat)
    requires t < |items| && OneEach(items) && Disjoint(items)
    ensures OneEach(Remove(items, t)) && Disjoint(Remove(items, t))
  {
    hide Has, Single, Shares, Or, Clear;
  }

  /** The same, bit by bit. */
  lemma PlainLocks(items: seq<Item>, app: App, path: Path, features: Word)
    ensures Conflict(Locks(items), path, features)
       <==> exists l | l in Locks(items) :: l.path == path && Has(features, l.bit)
    ensures forall l :: l in Locked(Locks(items), app, path, features) <==>
                        || l in Locks(items)
                        || (!Conflict(Locks(items), path, features)
                            && Single(l.bit) && l.app == app && l.path == path && Has(features, l.bit))
    ensures forall l :: l in Unlocked(Locks(items), app, path, features) <==>
                        l in Locks(items) && !(l.app == app && l.path == path && Has(features, l.bit))
    ensures forall l :: l in Released(Locks(items), app) <==> l in Locks(items) && l.app != app
  {
    hide Has, Single;
  }

  // ---- The calls ---------------------------------------------------------

  class Device {
    var items: seq<Item>

    ghost predicate Valid()
      reads this
    {
      OneEach(items) && Disjoint(items)
    }

    constructor ()
      ensures Valid() && Locks(items) == iset{}
    {
      items := [];
    }

    /** nfb_lock_try_lock: refused exactly when one of the bits is locked, by the caller itself or another. */
    method TryLock(app: App, path: Path, features: Word) returns (status: Status)
      requires Valid()
      modifies this
      ensures Valid() && Locks(items) == Locked(old(Locks(items)), app, path, features)
      ensures status == if Conflict(old(Locks(items)), path, features) then Busy else Ok
      // Bit by bit: all locks stay, and those asked for come if none of them was there.
      ensures status == Busy <==> exists l | l in old(Locks(items)) :: l.path == path && Has(features, l.bit)
      ensures forall l :: l in Locks(items) <==>
                        || l in old(Locks(items))
                        || (status == Ok && Single(l.bit) && l.app == app && l.path == path && Has(features, l.bit))
    {
      hide Has, Single, Shares, Or, Clear, Conflict, Locks, Named, OneEach, Disjoint;
      PlainLocks(items, app, path, features);
      var temp: nat := |items|;
      var i := 0;
      while i < |items|
        invariant items == old(items) && Valid()
        invariant Searched(items, i, temp, app, path, features)
      {
        if items[i].path == path {
          if Shares(items[i].features, features) {
            BlockerConflicts(items, i, path, features);
            return Busy;
          }
          if items[i].app == app {
            temp := i;
          }
        }
        i := i + 1;
      }
      if Conflict(Locks(items), path, features) {
        var b := ConflictBlocks(items, path, features);
        assert false;
      }
      if temp >= |items| {
        LocksAdded(items, app, path);
        AddedValid(items, app, path, features);
        items := [Item(app, path, 0)] + items;
        temp := 0;
      }
      LocksMore(items, temp, features);
      MoreValid(items, temp, app, path, features);
      items := items[temp := items[temp].(features := Or(items[temp].features, features))];
      status := Ok;
    }

    /** nfb_lock_unlock: takes away the named bits the application has, and nothing else. */
    method Unlock(app: App, path: Path, features: Word) returns (status: Status)
      requires Valid()
      modifies this
      ensures Valid() && Locks(items) == Unlocked(old(Locks(items)), app, path, features)
      ensures status == NoDevice <==> forall item | item in old(items) :: !Belongs(item, app, path)
      ensures status == NoDevice || status == Ok
      ensures forall l :: l in Locks(items) <==>
                        l in old(Locks(items)) && !(l.app == app && l.path == path && Has(features, l.bit))
    {
      hide Has, Single, Shares, Or, Clear, Conflict, Locks, OneEach, Disjoint, Unlocked;
      PlainLocks(items, app, path, features);
      var i := 0;
      while i < |items| && !Belongs(items[i], app, path)
        invariant i <= |items| && items == old(items)
        invariant forall j | 0 <= j < i :: !Belongs(items[j], app, path)
      {
        i := i + 1;
      }
      if i == |items| {
        NoneNamed(items, app, path, features);
        return NoDevice;
      }
      LocksLess(items, i, features);
      LessValid(items, i, features);
      items := items[i := items[i].(features := Clear(items[i].features, features))];
      if items[i].features == 0 {
        LocksDropped(items, i);
        RemovedValid(items, i);
        items := Remove(items, i);
      }
      status := Ok;
    }

    /** nfb_lock_release: takes away every lock of the application, and nothing else. */
    method Release(app: App)
      requires Valid()
      modifies this
      ensures Valid() && Locks(items) == Released(old(Locks(items)), app)
      ensures forall item | item in items :: item.app != app
      ensures forall l :: l in Locks(items) <==> l in old(Locks(items)) && l.app != app
    {
      hide Has, Single, Shares, Or, Clear, Locks, OneEach, Disjoint, Released;
      PlainLocks(items, app, "", 0);
      var i := 0;
      ReleasedNone(items, app);
      while i < |items|
        invariant i <= |items| && Valid()
        invariant Released(Locks(items), app) == Released(old(Locks(items)), app)
        invariant forall j | 0 <= j < i :: items[j].app != app
        decreases |items| - i
      {
        if items[i].app == app {
          ReleasedItem(items, i, app);
          RemovedValid(items, i);
          items := Remove(items, i);
        } else {
          i := i + 1;
        }
      }
      ReleasedNone(items, app);
    }
  }

  lemma NoneNamed(items: seq<Item>, app: App, path: Path, features: Word)
    requires forall j | 0 <= j < |items| :: !Belongs(items[j], app, path)
    ensures Unlocked(Locks(items), app, path, features) == Locks(items)
  {
    hide Has, Single, Shares, Or, Clear;
  }

  lemma ReleasedNone(items: seq<Item>, app: App)
    ensures (forall j | 0 <= j < |items| :: items[j].app != app) ==> Released(Locks(items), app) == Locks(items)
  {
    hide Has, Single, Shares, Or, Clear;
  }

  lemma ReleasedItem(items: seq<Item>, t: nat, app: App)
    requires t < |items| && items[t].app == app
    ensures Released(Locks(Remove(items, t)), app) == Released(Locks(items), app)
  {
    hide Has, Single, Shares, Or, Clear, Remove;
    forall l: Lock
      ensures l in Released(Locks(Remove(items, t)), app) <==> l in Released(Locks(items), app)
    {
      LocksRemoved(items, t, l);
    }
  }

  // ---- Runs --------------------------------------------------------------

  datatype Call =
    | TryLock(app: App, path: Path, features: Word)
    | Unlock(app: App, path: Path, features: Word)
    | Release(app: App)

  /** The locks in force after the first `k` calls. */
  ghost function LocksAfter(locks: iset<Lock>, calls: seq<Call>, k: nat): iset<Lock>
    requires k <= |calls|
  {
    if k == 0 then locks
    else
      var before := LocksAfter(locks, calls, k - 1);
      match calls[k - 1]
      case TryLock(app, path, features) => Locked(before, app, path, features)
      case Unlock(app, path, features) => Unlocked(before, app, path, features)
      case Release(app) => Released(before, app)
  }

  /** Over any series of calls no bit is ever locked by two applications. */
  lemma {:induction false} AlwaysExclusive(locks: iset<Lock>, calls: seq<Call>, k: nat)
    requires k <= |calls| && Exclusive(locks)
    ensures Exclusive(LocksAfter(locks, calls, k))
    decreases k
  {
    hide Has, Single, Conflict, Locked;
    if k > 0 {
      AlwaysExclusive(locks, calls, k - 1);
      var call, before := calls[k - 1], LocksAfter(locks, calls, k - 1);
      if call.TryLock? {
        LockedExclusive(before, call.app, call.path, call.features);
      }
    }
  }

  /** And the driver's list always stands for those locks. */
  method Run(device: Device, calls: seq<Call>)
    requires device.Valid()
    modifies device
    ensures device.Valid() && Locks(device.items) == LocksAfter(old(Locks(device.items)), calls, |calls|)
    ensures Exclusive(Locks(device.items))
  {
    hide Has, Single, Conflict, Locked, Unlocked, Released, Locks;
    for i := 0 to |calls|
      invariant device.Valid() && Locks(device.items) == LocksAfter(old(Locks(device.items)), calls, i)
    {
      var status: Status;
      match calls[i] {
        case TryLock(app, path, features) => status := device.TryLock(app, path, features);
        case Unlock(app, path, features) => status := device.Unlock(app, path, features);
        case Release(app) => device.Release(app);
      }
    }
    DisjointExclusive(device.items);
  }
}
