/**
 The character device's map of memory that applications can mmap (`char.c`): drivers
 register regions, which get offsets by first fit, and a request is passed to the region
 that contains it. Offsets and sizes are 64-bit words.
 */
module MmapRegions {
  import opened Options

  const LIMIT: nat := 0x1_0000_0000_0000_0000

  /** The sum of two words. */
  function Sum(x: nat, y: nat): (r: nat)
    ensures x + y < LIMIT ==> r == x + y
  {
    (x + y) % LIMIT
  }

  /** `struct nfb_char_mmap_mod`, the driver's function and data as `handler`. */
  datatype Region = Region(offset: nat, size: nat, handler: nat)

  function End(r: Region): nat {
    r.offset + r.size
  }

  /** Regions in order, without overlap, below the end of the offsets. */
  ghost predicate Sound(rs: seq<Region>) {
    && (forall i | 0 <= i < |rs| :: 0 < rs[i].size && End(rs[i]) < LIMIT)
    && (forall i, j | 0 <= i < j < |rs| :: End(rs[i]) <= rs[j].offset)
  }

  /** No region reaches into `size` bytes from `offset` on. */
  ghost predicate Free(rs: seq<Region>, offset: nat, size: nat) {
    forall i | 0 <= i < |rs| :: offset + size <= rs[i].offset || End(rs[i]) <= offset
  }

  ghost predicate Lowest(rs: seq<Region>, offset: nat, size: nat) {
    Free(rs, offset, size) && forall o: nat | Free(rs, o, size) :: offset <= o
  }

  /** Where the gap before region `k` starts. */
  function GapStart(rs: seq<Region>, k: nat): nat
    requires k <= |rs|
  {
    if k == 0 then 0 else End(rs[k - 1])
  }

  /** The same with the driver's sums. */
  function SumStart(rs: seq<Region>, k: nat): nat
    requires k <= |rs|
  {
    if k == 0 then 0 else Sum(rs[k - 1].offset, rs[k - 1].size)
  }

  lemma SumsExact(rs: seq<Region>)
    requires Sound(rs)
    ensures forall k | 0 <= k <= |rs| :: SumStart(rs, k) == GapStart(rs, k)
  {
  }

  /** First fit, in unbounded numbers: the first region the new one goes before. */
  function FirstFit(rs: seq<Region>, size: nat, k: nat): (r: nat)
    requires k <= |rs|
    ensures k <= r <= |rs|
    decreases |rs| - k
  {
    if k == |rs| || GapStart(rs, k) + size <= rs[k].offset then k else FirstFit(rs, size, k + 1)
  }

  lemma {:induction false} FirstFitSkips(rs: seq<Region>, size: nat, k: nat)
    requires k <= |rs|
    ensures forall j | k <= j < FirstFit(rs, size, k) :: GapStart(rs, j) + size > rs[j].offset
    ensures var r := FirstFit(rs, size, k); r < |rs| ==> GapStart(rs, r) + size <= rs[r].offset
    decreases |rs| - k
  {
    if k < |rs| && GapStart(rs, k) + size > rs[k].offset {
      FirstFitSkips(rs, size, k + 1);
    }
  }

  /** First fit is the lowest offset at which the size fits. */
  lemma FirstFitIsLowest(rs: seq<Region>, size: nat)
    requires Sound(rs) && size > 0
    ensures Lowest(rs, GapStart(rs, FirstFit(rs, size, 0)), size)
  {
    var k := FirstFit(rs, size, 0);
    FirstFitSkips(rs, size, 0);
    var offset := GapStart(rs, k);
    forall o: nat | Free(rs, o, size)
      ensures offset <= o
    {
      if o < offset {
        NotBelow(rs, size, o, k);
      }
    }
  }

  /** Nothing of this size fits before the gap at `k` when every gap before is too small. */
  lemma {:induction false} NotBelow(rs: seq<Region>, size: nat, o: nat, k: nat)
    requires size > 0 && k <= |rs| && o < GapStart(rs, k)
    requires forall j | 0 <= j < k :: GapStart(rs, j) + size > rs[j].offset
    ensures !Free(rs, o, size)
    decreases k
  {
    if o < GapStart(rs, k - 1) {
      NotBelow(rs, size, o, k - 1);
    } else {
      assert o + size > rs[k - 1].offset;
    }
  }

  function Insert(rs: seq<Region>, k: nat, r: Region): seq<Region>
    requires k <= |rs|
  {
    rs[..k] + [r] + rs[k..]
  }

  /** `rs'` is `rs` with `r` before its element `k`, or at its end. */
  ghost predicate IsInserted(rs: seq<Region>, rs': seq<Region>, k: nat, r: Region) {
    k <= |rs| && rs' == rs[..k] + [r] + rs[k..]
  }

  lemma Inserted(rs: seq<Region>, k: nat, r: Region)
    requires k <= |rs|
    ensures IsInserted(rs, Insert(rs, k, r), k, r)
    ensures multiset(Insert(rs, k, r)) == multiset(rs) + multiset{r}
  {
    assert rs == rs[..k] + rs[k..];
  }

  /** A new region goes into the list exactly when it is free and does not go beyond the offsets. */
  lemma InsertSound(rs: seq<Region>, k: nat, r: Region)
    requires Sound(rs) && k <= |rs| && r.size > 0 && r.offset == GapStart(rs, k)
    ensures Sound(Insert(rs, k, r)) <==> End(r) < LIMIT && (k < |rs| ==> End(r) <= rs[k].offset)
  {
    var rs' := Insert(rs, k, r);
    assert rs'[k] == r && (k < |rs| ==> rs'[k + 1] == rs[k]);
    if End(r) < LIMIT && (k < |rs| ==> End(r) <= rs[k].offset) {
      forall i, j | 0 <= i < j < |rs'|
        ensures End(rs'[i]) <= rs'[j].offset
      {
        if i < k == j {
          assert End(rs[i]) <= GapStart(rs, k);
        }
      }
    }
  }

  /** The driver's scan, with its 64-bit sums, stops where first fit does, or the new region does not fit at all. */
  predicate Stops(rs: seq<Region>, size: nat, k: nat)
    requires k < |rs|
  {
    Sum(SumStart(rs, k), size) <= rs[k].offset
  }

  /** Where the scan from `k` on stops. */
  function Stop(rs: seq<Region>, size: nat, k: nat): (r: nat)
    requires k <= |rs|
    ensures k <= r <= |rs| && (r < |rs| ==> Stops(rs, size, r))
    ensures forall j | k <= j < r :: !Stops(rs, size, j)
    decreases |rs| - k
  {
    if k == |rs| || Stops(rs, size, k) then k else Stop(rs, size, k + 1)
  }

  /** The list after a registration and after taking a region out. */
  function Registered(rs: seq<Region>, size: nat, handler: nat): seq<Region> {
    if size == 0 then rs
    else
      var k := Stop(rs, size, 0);
      Insert(rs, k, Region(SumStart(rs, k), size, handler))
  }

  /** Where a registration puts its region. */
  function Placed(rs: seq<Region>, size: nat): nat {
    SumStart(rs, Stop(rs, size, 0))
  }

  function Unregistered(rs: seq<Region>, offset: nat): seq<Region> {
    if rs == [] then []
    else if rs[0].offset == offset then rs[1..]
    else [rs[0]] + Unregistered(rs[1..], offset)
  }

  lemma ScanIsFirstFit(rs: seq<Region>, size: nat, k: nat)
    requires Sound(rs) && 0 < size < LIMIT && k <= |rs|
    requires forall j | 0 <= j < k :: !Stops(rs, size, j)
    requires k < |rs| ==> Stops(rs, size, k)
    ensures GapStart(rs, FirstFit(rs, size, 0)) + size < LIMIT ==> k == FirstFit(rs, size, 0)
    ensures var r := Region(GapStart(rs, k), size, 0);
            (End(r) < LIMIT && (k < |rs| ==> End(r) <= rs[k].offset)
             <==> GapStart(rs, FirstFit(rs, size, 0)) + size < LIMIT)
  {
    var f := FirstFit(rs, size, 0);
    SumsExact(rs);
    FirstFitSkips(rs, size, 0);
    assert f < k ==> !Stops(rs, size, f);
    if k < f {
      GapsGrow(rs, k, f);
    }
  }

  lemma GapsGrow(rs: seq<Region>, i: nat, j: nat)
    requires Sound(rs) && i < j <= |rs|
    ensures GapStart(rs, i) <= rs[i].offset < GapStart(rs, j)
  {
  }

  /** The region holds the whole request. */
  predicate Contains(r: Region, offset: nat, size: nat) {
    r.offset <= offset && offset + size <= End(r)
  }

  /** The driver's test of a request. */
  predicate Accepts(r: Region, offset: nat, size: nat) {
    r.offset <= offset && r.size >= size && Sum(r.offset, r.size) >= Sum(offset, size)
  }

  /** It is right for requests that do not run over the last offset, and for no others. */
  lemma AcceptsExact(r: Region, offset: nat, size: nat)
    requires End(r) < LIMIT && offset < LIMIT && size < LIMIT
    ensures offset + size < LIMIT ==> (Accepts(r, offset, size) <==> Contains(r, offset, size))
    ensures Accepts(r, offset, size) ==> (Contains(r, offset, size) <==> offset + size < LIMIT)
  {
    if offset + size >= LIMIT {
      assert !Contains(r, offset, size);
    }
  }

  /** The handler of the first region from `k` on whose test the request passes. */
  function FirstAccepting(rs: seq<Region>, offset: nat, size: nat, k: nat): Option<nat>
    requires k <= |rs|
    decreases |rs| - k
  {
    if k == |rs| then None
    else if Accepts(rs[k], offset, size) then Some(rs[k].handler)
    else FirstAccepting(rs, offset, size, k + 1)
  }

  /** A request that runs over the last offset can be taken for one of a region it is far from. */
  lemma WrappingAccepted()
    ensures var r := Region(0, 8192, 0);
            Accepts(r, LIMIT - 4096, 8192) && !Contains(r, LIMIT - 4096, 8192)
  {
    assert (LIMIT - 4096 + 8192) % LIMIT == 4096;
  }

  datatype Status = Ok | Invalid | NoDevice

  class Device {
    var regions: seq<Region>

    constructor ()
      ensures Sound(regions) && regions == []
    {
      regions := [];
    }

    /**
     nfb_char_register_mmap. Of a list in order without overlap, the new region is at the lowest
     offset where it fits, and the list stays so, exactly when that is below the last offset.
     */
    method Register(size: nat, handler: nat) returns (status: Status, offset: nat)
      requires size < LIMIT
      modifies this
      ensures status == if size == 0 then Invalid else Ok
      ensures size == 0 ==> regions == old(regions)
      ensures regions == Registered(old(regions), size, handler)
      // The new region is put between others, which all stay, in their order.
      ensures size > 0 ==>
                exists k :: IsInserted(old(regions), regions, k, Region(offset, size, handler))
      ensures size > 0 ==> multiset(regions) == multiset(old(regions)) + multiset{Region(offset, size, handler)}
      ensures size > 0 ==> offset == Placed(old(regions), size)
      ensures size > 0 && Sound(old(regions)) ==>
                var lowest := GapStart(old(regions), FirstFit(old(regions), size, 0));
                && Lowest(old(regions), lowest, size)
                && (Sound(regions) <==> lowest + size < LIMIT)
                && (lowest + size < LIMIT ==> offset == lowest)
    {
      hide Sound, Lowest, FirstFit, Insert, IsInserted;
      offset := 0;
      if size == 0 {
        return Invalid, offset;
      }
      var pos := 0;
      while pos < |regions| && !(Sum(offset, size) <= regions[pos].offset)
        invariant pos <= |regions| && regions == old(regions) && offset == SumStart(regions, pos)
        invariant forall j | 0 <= j < pos :: !Stops(regions, size, j)
        invariant Stop(regions, size, 0) == Stop(regions, size, pos)
      {
        offset := Sum(regions[pos].offset, regions[pos].size);
        pos := pos + 1;
      }
      if Sound(regions) {
        SumsExact(regions);
        FirstFitIsLowest(regions, size);
        ScanIsFirstFit(regions, size, pos);
        InsertSound(regions, pos, Region(offset, size, handler));
      }
      Inserted(regions, pos, Region(offset, size, handler));
      regions := Insert(regions, pos, Region(offset, size, handler));
      status := Ok;
    }

    /** nfb_char_unregister_mmap: takes the first region at this offset out, if there is one. */
    method Unregister(offset: nat) returns (status: Status)
      modifies this
      ensures regions == Unregistered(old(regions), offset)
      ensures status == NoDevice <==> forall r | r in old(regions) :: r.offset != offset
      ensures status == if regions == old(regions) then NoDevice else Ok
      // Only the first one with the offset is taken out.
      ensures status == Ok ==>
                exists k | 0 <= k < |old(regions)| ::
                  && old(regions)[k].offset == offset && (forall j | 0 <= j < k :: old(regions)[j].offset != offset)
                  && regions == old(regions)[..k] + old(regions)[k + 1..]
      ensures Sound(old(regions)) ==>
                Sound(regions) && forall r :: r in regions <==> r in old(regions) && r.offset != offset
    {
      hide Sound;
      var i := 0;
      while i < |regions|
        invariant i <= |regions| && regions == old(regions)
        invariant forall j | 0 <= j < i :: regions[j].offset != offset
      {
        if regions[i].offset == offset {
          UnregisteredAt(regions, offset, i);
          RemovedSize(regions, i);
          if Sound(regions) {
            RemoveSound(regions, i);
            RemoveAllMembers(regions, i);
          }
          regions := Remove(regions, i);
          return Ok;
        }
        i := i + 1;
      }
      UnregisteredAt(regions, offset, i);
      if Sound(regions) {
        assert forall r | r in regions :: r.offset != offset;
      }
      status := NoDevice;
    }

    /**
     The lookup of nfb_char_mmap: the first region whose test the request passes. In a list in
     order, for requests that do not run over the last offset, that is the one region that
     contains it, if any does; for others it is never one that does.
     */
    method Lookup(offset: nat, size: nat) returns (handler: Option<nat>)
      requires offset < LIMIT && 0 < size < LIMIT
      ensures handler == FirstAccepting(regions, offset, size, 0)
      ensures Sound(regions) && offset + size >= LIMIT ==> forall r | r in regions :: !Contains(r, offset, size)
      ensures Sound(regions) && offset + size < LIMIT ==>
                && (handler == None <==> forall r | r in regions :: !Contains(r, offset, size))
                && (forall r | r in regions && Contains(r, offset, size) :: handler == Some(r.handler))
    {
      var i := 0;
      while i < |regions|
        invariant i <= |regions|
        invariant FirstAccepting(regions, offset, size, 0) == FirstAccepting(regions, offset, size, i)
        invariant Sound(regions) && offset + size < LIMIT ==>
                    forall j | 0 <= j < i :: !Contains(regions[j], offset, size)
      {
        if End(regions[i]) < LIMIT {
          AcceptsExact(regions[i], offset, size);
        }
        if Accepts(regions[i], offset, size) {
          return Some(regions[i].handler);
        }
        i := i + 1;
      }
      handler := None;
    }
  }

  function Remove(rs: seq<Region>, k: nat): seq<Region>
    requires k < |rs|
  {
    rs[..k] + rs[k + 1..]
  }

  lemma RemoveAt(rs: seq<Region>, k: nat, i: nat)
    requires k < |rs| && i < |rs| - 1
    ensures |Remove(rs, k)| == |rs| - 1 && Remove(rs, k)[i] == rs[if i < k then i else i + 1]
  {
  }

  lemma RemoveSound(rs: seq<Region>, k: nat)
    requires Sound(rs) && k < |rs|
    ensures Sound(Remove(rs, k)) && |Remove(rs, k)| == |rs| - 1
  {
    hide Remove;
    var rs' := Remove(rs, k);
    assert |rs'| == |rs| - 1 by { RemovedSize(rs, k); }
    forall i | 0 <= i < |rs'|
      ensures rs'[i] == rs[if i < k then i else i + 1]
    {
      RemoveAt(rs, k, i);
    }
  }

  lemma RemovedSize(rs: seq<Region>, k: nat)
    requires k < |rs|
    ensures |Remove(rs, k)| == |rs| - 1
  {
  }

  /** The region taken out is the only one with its offset. */
  lemma RemoveMembers(rs: seq<Region>, k: nat, r: Region)
    requires Sound(rs) && k < |rs|
    ensures r in Remove(rs, k) <==> r in rs && r.offset != rs[k].offset
  {
    if r in rs && r.offset != rs[k].offset {
      var i :| 0 <= i < |rs| && rs[i] == r;
      RemoveAt(rs, k, if i < k then i else i - 1);
    }
    if r in Remove(rs, k) {
      var i :| 0 <= i < |Remove(rs, k)| && Remove(rs, k)[i] == r;
      RemoveAt(rs, k, i);
      assert rs[if i < k then i else i + 1] == r;
    }
  }

  lemma RemoveAllMembers(rs: seq<Region>, k: nat)
    requires Sound(rs) && k < |rs|
    ensures forall r :: r in Remove(rs, k) <==> r in rs && r.offset != rs[k].offset
  {
    hide Sound, Remove;
    forall r
      ensures r in Remove(rs, k) <==> r in rs && r.offset != rs[k].offset
    {
      RemoveMembers(rs, k, r);
    }
  }

  lemma RemoveLater(rs: seq<Region>, i: nat)
    requires 0 < i < |rs|
    ensures Remove(rs, i) == [rs[0]] + Remove(rs[1..], i - 1)
  {
  }

  lemma RemoveFirst(rs: seq<Region>)
    requires rs != []
    ensures Remove(rs, 0) == rs[1..]
  {
  }

  /** What is taken out is the first region with the offset, the one at `i`. */
  lemma {:induction false} UnregisteredAt(rs: seq<Region>, offset: nat, i: nat)
    requires i <= |rs| && (forall j | 0 <= j < i :: rs[j].offset != offset) && (i < |rs| ==> rs[i].offset == offset)
    ensures Unregistered(rs, offset) == if i < |rs| then Remove(rs, i) else rs
  {
    hide Remove;
    if i > 0 {
      UnregisteredAt(rs[1..], offset, i - 1);
      if i < |rs| {
        RemoveLater(rs, i);
      } else {
        assert rs == [rs[0]] + rs[1..];
      }
    } else if rs != [] {
      RemoveFirst(rs);
    }
  }

  // ---- Series of calls ---------------------------------------------------

  datatype Call = Register(size: nat, handler: nat) | Unregister(offset: nat)

  function Called(rs: seq<Region>, call: Call): seq<Region> {
    match call
    case Register(size, handler) => Registered(rs, size, handler)
    case Unregister(offset) => Unregistered(rs, offset)
  }

  /** The list after the first `k` calls. */
  function After(rs: seq<Region>, calls: seq<Call>, k: nat): seq<Region>
    requires k <= |calls|
  {
    if k == 0 then rs else Called(After(rs, calls, k - 1), calls[k - 1])
  }

  /** A region to be registered fits below the last offset. */
  predicate Fitting(rs: seq<Region>, call: Call) {
    call.Register? && call.size > 0 ==> GapStart(rs, FirstFit(rs, call.size, 0)) + call.size < LIMIT
  }

  predicate Words(calls: seq<Call>) {
    forall i | 0 <= i < |calls| && calls[i].Register? :: calls[i].size < LIMIT
  }

  lemma CalledSound(rs: seq<Region>, call: Call)
    requires Sound(rs) && (call.Register? ==> call.size < LIMIT)
    ensures Sound(Called(rs, call)) <==> Fitting(rs, call)
  {
    match call
    case Register(size, handler) =>
      if size > 0 {
        var k := Stop(rs, size, 0);
        SumsExact(rs);
        ScanIsFirstFit(rs, size, k);
        InsertSound(rs, k, Region(GapStart(rs, k), size, handler));
      }
    case Unregister(offset) =>
      if i :| 0 <= i < |rs| && rs[i].offset == offset {
        OffsetOnce(rs, i);
        UnregisteredAt(rs, offset, i);
        RemoveSound(rs, i);
      } else {
        UnregisteredAt(rs, offset, |rs|);
      }
  }

  lemma OffsetOnce(rs: seq<Region>, i: nat)
    requires Sound(rs) && i < |rs|
    ensures forall j | 0 <= j < i :: rs[j].offset != rs[i].offset
  {
  }

  /** The list is in order after each of the first `n` calls, and before them. */
  ghost predicate AllSound(rs: seq<Region>, calls: seq<Call>, n: nat)
    requires n <= |calls|
  {
    forall k | 0 <= k <= n :: Sound(After(rs, calls, k))
  }

  /** Every region registered by the first `n` calls fits at its turn. */
  ghost predicate AllFit(rs: seq<Region>, calls: seq<Call>, n: nat)
    requires n <= |calls|
  {
    forall k | 0 <= k < n :: Fitting(After(rs, calls, k), calls[k])
  }

  lemma NoCalls(rs: seq<Region>, calls: seq<Call>)
    requires Sound(rs)
    ensures AllSound(rs, calls, 0) && AllFit(rs, calls, 0)
  {
    hide Sound;
    assert After(rs, calls, 0) == rs;
  }

  lemma OneMoreCall(rs: seq<Region>, calls: seq<Call>, n: nat)
    requires n < |calls|
    ensures AllSound(rs, calls, n + 1) <==> AllSound(rs, calls, n) && Sound(After(rs, calls, n + 1))
    ensures AllSound(rs, calls, n) ==> Sound(After(rs, calls, n))
    ensures AllFit(rs, calls, n + 1) <==> AllFit(rs, calls, n) && Fitting(After(rs, calls, n), calls[n])
    ensures After(rs, calls, n + 1) == Called(After(rs, calls, n), calls[n])
  {
    hide Sound, Fitting, Called;
  }

  /** Over a series of calls the list stays in order without overlap exactly when every region fits at its turn. */
  lemma {:induction false} AlwaysSound(rs: seq<Region>, calls: seq<Call>, n: nat)
    requires Sound(rs) && n <= |calls| && Words(calls)
    ensures AllSound(rs, calls, n) <==> AllFit(rs, calls, n)
    decreases n
  {
    hide Sound, Fitting, Called, After, AllSound, AllFit;
    if n == 0 {
      NoCalls(rs, calls);
    } else {
      AlwaysSound(rs, calls, n - 1);
      OneMoreCall(rs, calls, n - 1);
      if AllSound(rs, calls, n - 1) {
        CalledSound(After(rs, calls, n - 1), calls[n - 1]);
      }
    }
  }

  /** One call takes out no region but at the offset it unregisters. */
  lemma CalledKeeps(rs: seq<Region>, call: Call, r: Region)
    requires r in rs && (call.Unregister? ==> call.offset != r.offset)
    ensures r in Called(rs, call)
  {
    match call
    case Register(size, handler) =>
      if size > 0 {
        var k := Stop(rs, size, 0);
        assert rs == rs[..k] + rs[k..];
      }
    case Unregister(offset) => UnregisteredKeeps(rs, offset, r);
  }

  lemma {:induction false} UnregisteredKeeps(rs: seq<Region>, offset: nat, r: Region)
    requires r in rs && offset != r.offset
    ensures r in Unregistered(rs, offset)
  {
    if r != rs[0] {
      UnregisteredKeeps(rs[1..], offset, r);
    }
  }

  /** From call `i` on, before call `n`, nothing is unregistered at `offset`. */
  ghost predicate Unasked(calls: seq<Call>, i: nat, n: nat, offset: nat) {
    forall k | i <= k < n && k < |calls| && calls[k].Unregister? :: calls[k].offset != offset
  }

  lemma {:induction false} StaysListed(rs: seq<Region>, calls: seq<Call>, i: nat, n: nat, r: Region)
    requires i <= n <= |calls| && r in After(rs, calls, i) && Unasked(calls, i, n, r.offset)
    ensures r in After(rs, calls, n)
    decreases n
  {
    hide Called;
    if i < n {
      StaysListed(rs, calls, i, n - 1, r);
      CalledKeeps(After(rs, calls, n - 1), calls[n - 1], r);
    }
  }

  /** Call `i` registers `r`, and nothing unregisters it before call `n`. */
  ghost predicate Keeps(rs: seq<Region>, calls: seq<Call>, i: nat, n: nat, r: Region) {
    && i < n <= |calls| && calls[i].Register? && calls[i].size > 0
    && r == Region(Placed(After(rs, calls, i), calls[i].size), calls[i].size, calls[i].handler)
    && Unasked(calls, i, n, r.offset)
  }

  /** A request inside `r` is passed to its own handler. */
  ghost predicate Reached(rs: seq<Region>, r: Region) {
    forall offset: nat, size: nat | 0 < size && Contains(r, offset, size) ::
      FirstAccepting(rs, offset, size, 0) == Some(r.handler)
  }

  /** A region registered and not unregistered is there, and requests inside it reach its handler. */
  lemma RegisteredReached(rs: seq<Region>, calls: seq<Call>, i: nat, n: nat, r: Region)
    requires Keeps(rs, calls, i, n, r)
    ensures r in After(rs, calls, n) && (Sound(After(rs, calls, n)) ==> Reached(After(rs, calls, n), r))
  {
    hide Called, Sound, Reached, Unasked;
    var was := After(rs, calls, i);
    RegisteredListed(was, calls[i], r);
    assert After(rs, calls, i + 1) == Called(was, calls[i]);
    UnaskedFrom(calls, i, n, r.offset);
    StaysListed(rs, calls, i + 1, n, r);
    if Sound(After(rs, calls, n)) {
      SoundReached(After(rs, calls, n), r);
    }
  }

  lemma UnaskedFrom(calls: seq<Call>, i: nat, n: nat, offset: nat)
    requires Unasked(calls, i, n, offset)
    ensures Unasked(calls, i + 1, n, offset)
  {
  }

  lemma RegisteredListed(rs: seq<Region>, call: Call, r: Region)
    requires call.Register? && call.size > 0 && r == Region(Placed(rs, call.size), call.size, call.handler)
    ensures r in Called(rs, call)
  {
    hide Sum;
    var k := Stop(rs, call.size, 0);
    assert Called(rs, call)[k] == r;
  }

  lemma SoundReached(rs: seq<Region>, r: Region)
    requires Sound(rs) && r in rs
    ensures Reached(rs, r)
  {
    forall offset: nat, size: nat | 0 < size && Contains(r, offset, size)
      ensures FirstAccepting(rs, offset, size, 0) == Some(r.handler)
    {
      FirstIsOwn(rs, r, offset, size, 0);
    }
  }

  lemma {:induction false} FirstIsOwn(rs: seq<Region>, r: Region, offset: nat, size: nat, k: nat)
    requires Sound(rs) && k <= |rs| && r in rs[k..] && 0 < size && Contains(r, offset, size)
    ensures FirstAccepting(rs, offset, size, k) == Some(r.handler)
    decreases |rs| - k
  {
    assert k < |rs|;
    var i :| k <= i < |rs| && rs[i] == r;
    AcceptsExact(rs[k], offset, size);
    if i != k {
      FirstIsOwn(rs, r, offset, size, k + 1);
    }
  }

  /**
   Any series of calls, made on the device, and the offsets they are answered with. Each region
   registered and not unregistered by the end is in the list at its offset; when every region
   fitted, requests inside it reach its own handler.
   */
  method Run(device: Device, calls: seq<Call>) returns (offsets: seq<nat>)
    requires Words(calls)
    modifies device
    ensures device.regions == After(old(device.regions), calls, |calls|)
    ensures Sound(old(device.regions)) ==>
              (AllSound(old(device.regions), calls, |calls|) <==> AllFit(old(device.regions), calls, |calls|))
    ensures |offsets| == |calls|
    ensures forall i | 0 <= i < |calls| && calls[i].Register? && calls[i].size > 0
                       && Unasked(calls, i, |calls|, offsets[i]) ::
              var r := Region(offsets[i], calls[i].size, calls[i].handler);
              && r in device.regions
              && (Sound(old(device.regions)) && AllFit(old(device.regions), calls, |calls|) ==>
                    Reached(device.regions, r))
  {
    hide Sound, Fitting, Registered, Unregistered, Reached, Unasked, Placed, AllSound, AllFit;
    ghost var rs := device.regions;
    offsets := [];
    for i := 0 to |calls|
      invariant device.regions == After(rs, calls, i) && |offsets| == i
      invariant forall j | 0 <= j < i && calls[j].Register? && calls[j].size > 0 ::
                  offsets[j] == Placed(After(rs, calls, j), calls[j].size)
    {
      var status;
      match calls[i] {
        case Register(size, handler) =>
          var offset;
          status, offset := device.Register(size, handler);
          offsets := offsets + [offset];
        case Unregister(offset) =>
          status := device.Unregister(offset);
          offsets := offsets + [offset];
      }
    }
    if Sound(rs) {
      AlwaysSound(rs, calls, |calls|);
      SoundAtEnd(rs, calls, |calls|);
    }
    forall i | 0 <= i < |calls| && calls[i].Register? && calls[i].size > 0 && Unasked(calls, i, |calls|, offsets[i])
      ensures Keeps(rs, calls, i, |calls|, Region(offsets[i], calls[i].size, calls[i].handler))
      ensures var r := Region(offsets[i], calls[i].size, calls[i].handler);
              r in device.regions && (Sound(device.regions) ==> Reached(device.regions, r))
    {
      RegisteredReached(rs, calls, i, |calls|, Region(offsets[i], calls[i].size, calls[i].handler));
    }
  }

  lemma SoundAtEnd(rs: seq<Region>, calls: seq<Call>, n: nat)
    requires n <= |calls|
    ensures AllSound(rs, calls, n) ==> Sound(After(rs, calls, n))
  {
    hide Sound;
  }
}
