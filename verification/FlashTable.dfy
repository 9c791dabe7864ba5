/**
 The slots of the configuration flash of a BittWare card (`boot/bw-bmc.c`): the driver
 builds them from the controller's file table, filling the gaps with empty slots, and a
 load erases and writes files through them.
 */
module FlashTable {

  const PAGE: nat := 0x1000
  const MAX_SIZE: nat := 0x1000_0000

  /** A line of the controller's file table. */
  datatype File = File(offset: nat, size: nat)

  /** A binary slot in the device tree. */
  datatype Slot = Slot(id: nat, offset: nat, size: nat, empty: bool)

  /** `(x + 0xFFF) & ~0xFFF` in 32 bits. */
  function RoundUp(x: nat): (r: nat) {
    (x + 0xFFF) % 0x1_0000_0000 / PAGE * PAGE
  }

  lemma RoundUpLeast(x: nat, y: nat)
    requires x <= MAX_SIZE
    ensures x <= RoundUp(x) < x + PAGE && RoundUp(x) % PAGE == 0
    ensures y % PAGE == 0 && x <= y ==> RoundUp(x) <= y
  {
  }

  function End(f: File): nat {
    f.offset + f.size
  }

  function SlotEnd(s: Slot): nat {
    s.offset + s.size
  }

  /** The flash pages a file is stored in end here. */
  function PagesEnd(f: File): nat {
    RoundUp(End(f))
  }

  // ---- Sorting -----------------------------------------------------------

  function Insert(f: File, fs: seq<File>): seq<File> {
    if fs == [] || f.offset <= fs[0].offset then [f] + fs else [fs[0]] + Insert(f, fs[1..])
  }

  /** The files by offset. */
  function Sort(fs: seq<File>): seq<File> {
    if fs == [] then [] else Insert(fs[0], Sort(fs[1..]))
  }

  ghost predicate Ascending(lo: nat, fs: seq<File>)
    decreases |fs|
  {
    fs == [] || (lo <= fs[0].offset && Ascending(fs[0].offset, fs[1..]))
  }

  lemma {:induction false} InsertSorts(f: File, lo: nat, fs: seq<File>)
    requires Ascending(lo, fs) && lo <= f.offset
    ensures Ascending(lo, Insert(f, fs)) && multiset(Insert(f, fs)) == multiset{f} + multiset(fs)
    decreases |fs|
  {
    var r := Insert(f, fs);
    if fs == [] || f.offset <= fs[0].offset {
      assert r == [f] + fs && r[1..] == fs;
    } else {
      InsertSorts(f, fs[0].offset, fs[1..]);
      var rest := Insert(f, fs[1..]);
      assert r == [fs[0]] + rest;
      hide Insert;
      assert r[1..] == rest;
      assert multiset(r) == multiset{fs[0]} + multiset(rest);
      assert fs == [fs[0]] + fs[1..];
    }
  }

  lemma {:induction false} SortSorts(fs: seq<File>)
    ensures Ascending(0, Sort(fs)) && multiset(Sort(fs)) == multiset(fs)
  {
    if fs != [] {
      SortSorts(fs[1..]);
      InsertSorts(fs[0], 0, Sort(fs[1..]));
      assert fs == [fs[0]] + fs[1..];
    }
  }

  lemma {:induction false} AscendingPair(lo: nat, fs: seq<File>, i: nat, j: nat)
    requires Ascending(lo, fs) && i <= j < |fs|
    ensures lo <= fs[i].offset <= fs[j].offset
    decreases |fs|
  {
    if i > 0 {
      AscendingPair(fs[0].offset, fs[1..], i - 1, j - 1);
    } else if j > 0 {
      AscendingPair(fs[0].offset, fs[1..], 0, j - 1);
    }
  }

  // ---- The table ---------------------------------------------------------

  /** The slots made so far, the next free id, and whether the first image has been seen. */
  datatype Builder = Builder(slots: seq<Slot>, id: nat, first: bool)

  /** Identifier 1 is for the image at offset 0, identifier 0 for the first one after that. */
  function AddEmpty(b: Builder, offset: nat, size: nat): Builder {
    Builder(b.slots + [Slot(b.id, offset, size, true)], b.id + 1, b.first)
  }

  function AddFile(b: Builder, f: File): Builder {
    if f.offset == 0 then b.(slots := b.slots + [Slot(1, f.offset, f.size, false)])
    else if !b.first then Builder(b.slots + [Slot(0, f.offset, f.size, false)], b.id, true)
    else Builder(b.slots + [Slot(b.id, f.offset, f.size, false)], b.id + 1, b.first)
  }

  /** The space from `gap` to `to` becomes an empty slot. */
  function AddGap(b: Builder, gap: nat, to: nat): Builder {
    if gap < to then AddEmpty(b, gap, to - gap) else b
  }

  /** What the loop holds after `k` files: the slots, and where the next gap would start. */
  function Build(ps: seq<File>, k: nat): (r: (Builder, nat))
    requires k <= |ps|
  {
    if k == 0 then (Builder([], 2, false), 0)
    else
      var (b, gap) := Build(ps, k - 1);
      (AddFile(AddGap(b, gap, ps[k - 1].offset), ps[k - 1]), PagesEnd(ps[k - 1]))
  }

  function Table(fs: seq<File>): seq<Slot> {
    var ps := Sort(fs);
    var (b, gap) := Build(ps, |ps|);
    AddGap(b, gap, MAX_SIZE).slots
  }

  /** nfb_boot_bw_bmc_load_partition_table, from the files the controller listed. */
  method LoadPartitionTable(files: seq<File>) returns (slots: seq<Slot>)
    ensures slots == Table(files)
  {
    hide Sort, Insert, AddFile, RoundUp;
    var ps := Sort(files);
    var b := Builder([], 2, false);
    var gap := 0;
    for i := 0 to |ps|
      invariant (b, gap) == Build(ps, i)
    {
      var p := ps[i];
      if gap < p.offset {
        b := AddEmpty(b, gap, p.offset - gap);
      }
      b := AddFile(b, p);
      gap := PagesEnd(p);
    }
    if gap < MAX_SIZE {
      b := AddEmpty(b, gap, MAX_SIZE - gap);
    }
    slots := b.slots;
  }

  // ---- Identifiers -------------------------------------------------------

  /** How many files are at offset 0. */
  function Zeros(fs: seq<File>): nat {
    if fs == [] then 0 else Zeros(fs[1..]) + if fs[0].offset == 0 then 1 else 0
  }

  /** How many slots have identifier 1. */
  function Ones(slots: seq<Slot>, k: nat): nat
    requires k <= |slots|
  {
    if k == 0 then 0 else Ones(slots, k - 1) + if slots[k - 1].id == 1 then 1 else 0
  }

  ghost predicate DistinctIds(slots: seq<Slot>) {
    forall i, j | 0 <= i < j < |slots| :: slots[i].id != slots[j].id
  }

  /** No identifier but 1 is used twice, and 1 only for images at offset 0. */
  ghost predicate Numbered(b: Builder) {
    && b.id >= 2
    && (forall i | 0 <= i < |b.slots| :: b.slots[i].id < b.id && (b.slots[i].id == 0 ==> b.first))
    && (forall i, j | 0 <= i < j < |b.slots| :: b.slots[i].id == b.slots[j].id ==> b.slots[i].id == 1)
  }

  lemma {:induction false} ZerosSorted(f: File, fs: seq<File>)
    ensures Zeros(Insert(f, fs)) == Zeros([f]) + Zeros(fs)
    decreases |fs|
  {
    var r := Insert(f, fs);
    assert [f][1..] == [];
    if fs == [] || f.offset <= fs[0].offset {
      assert r[1..] == fs;
    } else {
      ZerosSorted(f, fs[1..]);
      assert r[1..] == Insert(f, fs[1..]);
    }
  }

  lemma {:induction false} ZerosSort(fs: seq<File>)
    ensures Zeros(Sort(fs)) == Zeros(fs)
  {
    if fs != [] {
      ZerosSort(fs[1..]);
      ZerosSorted(fs[0], Sort(fs[1..]));
      assert [fs[0]][1..] == [];
    }
  }

  lemma {:induction false} ZerosAppend(fs: seq<File>, f: File)
    ensures Zeros(fs + [f]) == Zeros(fs) + if f.offset == 0 then 1 else 0
    decreases |fs|
  {
    if fs == [] {
      assert (fs + [f])[1..] == [];
    } else {
      assert (fs + [f])[1..] == fs[1..] + [f];
      ZerosAppend(fs[1..], f);
    }
  }

  lemma {:induction false} OnesPrefix(slots: seq<Slot>, more: seq<Slot>, k: nat)
    requires k <= |slots|
    ensures Ones(slots + more, k) == Ones(slots, k)
    decreases k
  {
    if k > 0 {
      OnesPrefix(slots, more, k - 1);
    }
  }

  lemma OnesAppend(slots: seq<Slot>, s: Slot)
    ensures Ones(slots + [s], |slots| + 1) == Ones(slots, |slots|) + if s.id == 1 then 1 else 0
  {
    OnesPrefix(slots, [s], |slots|);
  }

  lemma {:induction false} OnesCount(slots: seq<Slot>, k: nat)
    requires k <= |slots|
    ensures Ones(slots, k) == 0 <==> forall i | 0 <= i < k :: slots[i].id != 1
    ensures Ones(slots, k) <= 1 <==> forall i, j | 0 <= i < j < k :: slots[i].id != 1 || slots[j].id != 1
    decreases k
  {
    if k > 0 {
      OnesCount(slots, k - 1);
      if Ones(slots, k - 1) > 0 && slots[k - 1].id == 1 {
        var i :| 0 <= i < k - 1 && slots[i].id == 1;
        assert slots[i].id == 1 && slots[k - 1].id == 1;
      }
    }
  }

  lemma GapNumbers(b: Builder, gap: nat, to: nat)
    requires Numbered(b)
    ensures var b' := AddGap(b, gap, to); Numbered(b') && Ones(b'.slots, |b'.slots|) == Ones(b.slots, |b.slots|)
  {
    if gap < to {
      OnesAppend(b.slots, Slot(b.id, gap, to - gap, true));
    }
  }

  lemma FileNumbers(b: Builder, f: File)
    requires Numbered(b)
    ensures var b' := AddFile(b, f);
            && Numbered(b')
            && Ones(b'.slots, |b'.slots|) == Ones(b.slots, |b.slots|) + if f.offset == 0 then 1 else 0
  {
    var b' := AddFile(b, f);
    var s := b'.slots[|b.slots|];
    assert b'.slots == b.slots + [s];
    OnesAppend(b.slots, s);
  }

  lemma NoneNumbered()
    ensures Numbered(Builder([], 2, false)) && Ones([], 0) == Zeros([]) == 0
  {
  }

  lemma {:induction false} BuildNumbers(ps: seq<File>, k: nat)
    requires k <= |ps|
    ensures var b := Build(ps, k).0; Numbered(b) && Ones(b.slots, |b.slots|) == Zeros(ps[..k])
    decreases k
  {
    hide Numbered, Ones, AddFile, AddGap, Zeros;
    NoneNumbered();
    if k > 0 {
      BuildNumbers(ps, k - 1);
      var (b, gap) := Build(ps, k - 1);
      var p := ps[k - 1];
      GapNumbers(b, gap, p.offset);
      FileNumbers(AddGap(b, gap, p.offset), p);
      assert ps[..k] == ps[..k - 1] + [p];
      ZerosAppend(ps[..k - 1], p);
    }
  }

  lemma DistinctBut(slots: seq<Slot>, b: Builder)
    requires Numbered(b) && slots == b.slots
    ensures DistinctIds(slots) <==> Ones(slots, |slots|) <= 1
  {
    OnesCount(slots, |slots|);
  }

  /** The slots have different identifiers exactly when at most one file is at offset 0. */
  lemma IdsDistinct(fs: seq<File>)
    ensures DistinctIds(Table(fs)) <==> Zeros(fs) <= 1
  {
    hide Numbered, Ones, AddFile, AddGap, Zeros, DistinctIds, Build;
    var ps := Sort(fs);
    BuildNumbers(ps, |ps|);
    ZerosSort(fs);
    assert ps[..|ps|] == ps;
    var (b, gap) := Build(ps, |ps|);
    GapNumbers(b, gap, MAX_SIZE);
    DistinctBut(Table(fs), AddGap(b, gap, MAX_SIZE));
  }

  /** The image at offset 0 has identifier 1, and the first one after it identifier 0. */
  ghost predicate Roles(b: Builder) {
    && b.id >= 2
    && (forall i | 0 <= i < |b.slots| :: b.slots[i].id == 1 <==> IsImage(b.slots[i]) && b.slots[i].offset == 0)
    && (forall i | 0 <= i < |b.slots| :: b.slots[i].id == 0 <==> FirstLater(b.slots, i))
    && (b.first <==> exists i :: 0 <= i < |b.slots| && LaterImage(b.slots[i]))
  }

  predicate IsImage(s: Slot) {
    !s.empty
  }

  predicate LaterImage(s: Slot) {
    !s.empty && s.offset != 0
  }

  /** Slot `i` is the first image that is not at offset 0. */
  ghost predicate FirstLater(slots: seq<Slot>, i: nat)
    requires i < |slots|
  {
    LaterImage(slots[i]) && forall j | 0 <= j < i :: !LaterImage(slots[j])
  }

  lemma RolesMore(b: Builder, s: Slot, id: nat, first: bool)
    requires Roles(b) && id >= b.id
    requires s.id == 1 <==> IsImage(s) && s.offset == 0
    requires s.id == 0 <==> LaterImage(s) && !b.first
    requires first <==> b.first || LaterImage(s)
    ensures Roles(Builder(b.slots + [s], id, first))
  {
    hide LaterImage, IsImage;
    var slots := b.slots + [s];
    assert slots[|b.slots|] == s;
    forall i | 0 <= i < |b.slots|
      ensures FirstLater(slots, i) <==> FirstLater(b.slots, i)
    {
      assert forall j | 0 <= j <= i :: slots[j] == b.slots[j];
    }
    assert FirstLater(slots, |b.slots|) <==> LaterImage(s) && !b.first by {
      assert forall j | 0 <= j < |b.slots| :: slots[j] == b.slots[j];
    }
    if b.first {
      var i :| 0 <= i < |b.slots| && LaterImage(b.slots[i]);
      assert LaterImage(slots[i]);
    }
  }

  lemma GapRoles(b: Builder, gap: nat, to: nat)
    requires Roles(b)
    ensures Roles(AddGap(b, gap, to))
  {
    hide Roles;
    if gap < to {
      RolesStart(b);
      RolesMore(b, Slot(b.id, gap, to - gap, true), b.id + 1, b.first);
    }
  }

  lemma RolesStart(b: Builder)
    requires Roles(b)
    ensures b.id >= 2
  {
  }

  lemma FileRoles(b: Builder, f: File)
    requires Roles(b)
    ensures Roles(AddFile(b, f))
  {
    RolesStart(b);
    hide Roles;
    var b' := AddFile(b, f);
    var s := b'.slots[|b.slots|];
    assert b'.slots == b.slots + [s];
    RolesMore(b, s, b'.id, b'.first);
  }

  lemma {:induction false} BuildRoles(ps: seq<File>, k: nat)
    requires k <= |ps|
    ensures Roles(Build(ps, k).0)
    decreases k
  {
    hide AddFile, AddGap;
    if k > 0 {
      BuildRoles(ps, k - 1);
      hide Roles;
      var (b, gap) := Build(ps, k - 1);
      GapRoles(b, gap, ps[k - 1].offset);
      FileRoles(AddGap(b, gap, ps[k - 1].offset), ps[k - 1]);
    }
  }

  /** What the two reserved identifiers stand for. */
  lemma ReservedIds(fs: seq<File>, i: nat)
    requires i < |Table(fs)|
    ensures Table(fs)[i].id == 1 <==> !Table(fs)[i].empty && Table(fs)[i].offset == 0
    ensures Table(fs)[i].id == 0 <==> FirstLater(Table(fs), i)
  {
    hide AddFile, AddGap, Build, FirstLater;
    var ps := Sort(fs);
    var (b, gap) := Build(ps, |ps|);
    BuildRoles(ps, |ps|);
    GapRoles(b, gap, MAX_SIZE);
  }

  /** How many of the first `k` slots have neither reserved identifier. */
  function Others(slots: seq<Slot>, k: nat): nat
    requires k <= |slots|
  {
    if k == 0 then 0 else Others(slots, k - 1) + if slots[k - 1].id >= 2 then 1 else 0
  }

  /** These are numbered one after another, from 2 on. */
  ghost predicate InTurn(b: Builder) {
    && b.id == 2 + Others(b.slots, |b.slots|)
    && forall i | 0 <= i < |b.slots| && b.slots[i].id >= 2 :: b.slots[i].id == 2 + Others(b.slots, i)
  }

  lemma {:induction false} OthersPrefix(slots: seq<Slot>, more: seq<Slot>, k: nat)
    requires k <= |slots|
    ensures Others(slots + more, k) == Others(slots, k)
    decreases k
  {
    if k > 0 {
      OthersPrefix(slots, more, k - 1);
    }
  }

  lemma TurnMore(b: Builder, s: Slot, id: nat, first: bool)
    requires InTurn(b) && (s.id < 2 || s.id == b.id) && id == b.id + if s.id >= 2 then 1 else 0
    ensures InTurn(Builder(b.slots + [s], id, first))
  {
    var slots := b.slots + [s];
    OthersAppend(b.slots, s);
    hide Others;
    forall i | 0 <= i < |slots| && slots[i].id >= 2
      ensures slots[i].id == 2 + Others(slots, i)
    {
      if i < |b.slots| {
        OthersPrefix(b.slots, [s], i);
        assert slots[i] == b.slots[i];
      }
    }
  }

  lemma OthersAppend(slots: seq<Slot>, s: Slot)
    ensures Others(slots + [s], |slots|) == Others(slots, |slots|)
    ensures Others(slots + [s], |slots| + 1) == Others(slots, |slots|) + if s.id >= 2 then 1 else 0
  {
    OthersPrefix(slots, [s], |slots|);
  }

  lemma GapInTurn(b: Builder, gap: nat, to: nat)
    requires InTurn(b)
    ensures InTurn(AddGap(b, gap, to))
  {
    if gap < to {
      assert b.id >= 2;
      hide InTurn;
      TurnMore(b, Slot(b.id, gap, to - gap, true), b.id + 1, b.first);
    }
  }

  lemma FileInTurn(b: Builder, f: File)
    requires InTurn(b)
    ensures InTurn(AddFile(b, f))
  {
    assert b.id >= 2;
    hide InTurn;
    var b' := AddFile(b, f);
    var s := b'.slots[|b.slots|];
    assert b'.slots == b.slots + [s];
    TurnMore(b, s, b'.id, b'.first);
  }

  lemma {:induction false} BuildInTurn(ps: seq<File>, k: nat)
    requires k <= |ps|
    ensures InTurn(Build(ps, k).0)
    decreases k
  {
    hide AddFile, AddGap;
    if k > 0 {
      BuildInTurn(ps, k - 1);
      hide InTurn;
      var (b, gap) := Build(ps, k - 1);
      GapInTurn(b, gap, ps[k - 1].offset);
      FileInTurn(AddGap(b, gap, ps[k - 1].offset), ps[k - 1]);
    }
  }

  /** All other slots have the identifiers from 2 on, in order. */
  lemma OtherIds(fs: seq<File>, i: nat)
    requires i < |Table(fs)| && Table(fs)[i].id >= 2
    ensures Table(fs)[i].id == 2 + Others(Table(fs), i)
  {
    hide AddFile, AddGap, Build, Others;
    var ps := Sort(fs);
    var (b, gap) := Build(ps, |ps|);
    BuildInTurn(ps, |ps|);
    GapInTurn(b, gap, MAX_SIZE);
  }

  // ---- Files apart -------------------------------------------------------

  predicate Apart(f: File, g: File) {
    End(f) <= g.offset || End(g) <= f.offset
  }

  /** A file the controller can hold: it starts a page, is not empty and lies in the flash. */
  predicate Stored(f: File) {
    f.offset % PAGE == 0 && 0 < f.size && End(f) <= MAX_SIZE
  }

  ghost predicate Sound(fs: seq<File>)
    decreases |fs|
  {
    fs == [] || (Stored(fs[0]) && (forall g | g in fs[1..] :: Apart(fs[0], g)) && Sound(fs[1..]))
  }

  lemma {:induction false} InsertMembers(f: File, fs: seq<File>)
    ensures forall g :: g in Insert(f, fs) <==> g == f || g in fs
    decreases |fs|
  {
    if fs != [] && f.offset > fs[0].offset {
      InsertMembers(f, fs[1..]);
      assert forall g :: g in fs <==> g == fs[0] || g in fs[1..];
    }
  }

  lemma {:induction false} InsertSound(f: File, fs: seq<File>)
    requires Sound(fs) && Stored(f) && forall g | g in fs :: Apart(f, g)
    ensures Sound(Insert(f, fs))
    decreases |fs|
  {
    hide Stored, Apart;
    var r := Insert(f, fs);
    if fs == [] || f.offset <= fs[0].offset {
      assert r[1..] == fs;
    } else {
      InsertMembers(f, fs[1..]);
      InsertSound(f, fs[1..]);
      assert r[1..] == Insert(f, fs[1..]);
      assert Apart(fs[0], f) by { ApartSymmetric(f, fs[0]); }
    }
  }

  lemma ApartSymmetric(f: File, g: File)
    requires Apart(f, g)
    ensures Apart(g, f)
  {
  }

  lemma {:induction false} SortSound(fs: seq<File>)
    requires Sound(fs)
    ensures Sound(Sort(fs)) && forall g :: g in Sort(fs) <==> g in fs
    decreases |fs|
  {
    hide Stored, Apart;
    if fs != [] {
      SortSound(fs[1..]);
      InsertSound(fs[0], Sort(fs[1..]));
      InsertMembers(fs[0], Sort(fs[1..]));
      assert forall g :: g in fs <==> g == fs[0] || g in fs[1..];
    }
  }

  lemma {:induction false} SoundAt(fs: seq<File>, i: nat, j: nat)
    requires Sound(fs) && i < |fs| && j < |fs|
    ensures Stored(fs[i]) && (i != j ==> Apart(fs[i], fs[j]))
    decreases |fs|
  {
    hide Stored, Apart;
    if i > 0 && j > 0 {
      SoundAt(fs[1..], i - 1, j - 1);
    } else if i > 0 {
      SoundAt(fs[1..], i - 1, i - 1);
      assert fs[1..][i - 1] == fs[i];
      ApartSymmetric(fs[0], fs[i]);
    } else if j > 0 {
      assert fs[1..][j - 1] == fs[j];
    }
  }

  /** What the gap filler relies on: no file starts before the pages of the one before it end. */
  ghost predicate InOrder(ps: seq<File>) {
    && (forall i | 0 <= i < |ps| :: Stored(ps[i]))
    && (forall i, j | 0 <= i && j == i + 1 < |ps| :: PagesEnd(ps[i]) <= ps[j].offset)
  }

  lemma SortInOrder(fs: seq<File>)
    requires Sound(fs)
    ensures InOrder(Sort(fs))
  {
    var ps := Sort(fs);
    SortSorts(fs);
    SortSound(fs);
    forall i | 0 <= i < |ps|
      ensures Stored(ps[i]) && forall j | j == i + 1 < |ps| :: PagesEnd(ps[i]) <= ps[j].offset
    {
      SoundAt(ps, i, i);
      if i + 1 < |ps| {
        SoundAt(ps, i, i + 1);
        SoundAt(ps, i + 1, i);
        AscendingPair(0, ps, i, i + 1);
        RoundUpLeast(End(ps[i]), ps[i + 1].offset);
      }
    }
  }

  // ---- Tiling ------------------------------------------------------------

  /** The slots follow each other, each starts a page, and none goes beyond `at`. */
  ghost predicate Tiled(slots: seq<Slot>, at: nat) {
    && (forall i | 0 <= i < |slots| ::
          0 < slots[i].size && slots[i].offset % PAGE == 0 && SlotEnd(slots[i]) <= at)
    && (forall i, j | 0 <= i < j < |slots| :: SlotEnd(slots[i]) <= slots[j].offset)
  }

  /** The files of the slots that are not empty, in order. */
  function FilesOf(slots: seq<Slot>, k: nat): seq<File>
    requires k <= |slots|
  {
    if k == 0 then []
    else FilesOf(slots, k - 1) + if slots[k - 1].empty then [] else [File(slots[k - 1].offset, slots[k - 1].size)]
  }

  lemma {:induction false} FilesOfPrefix(slots: seq<Slot>, more: seq<Slot>, k: nat)
    requires k <= |slots|
    ensures FilesOf(slots + more, k) == FilesOf(slots, k)
    decreases k
  {
    if k > 0 {
      FilesOfPrefix(slots, more, k - 1);
    }
  }

  /** The page at `p` lies in an empty slot. */
  ghost predicate EmptyAt(slots: seq<Slot>, p: nat) {
    exists i :: 0 <= i < |slots| && slots[i].empty && slots[i].offset <= p && p + PAGE <= SlotEnd(slots[i])
  }

  predicate Touches(f: File, p: nat) {
    f.offset < p + PAGE && p < End(f)
  }

  ghost predicate TouchedAt(ps: seq<File>, k: nat, p: nat)
    requires k <= |ps|
  {
    exists i :: 0 <= i < k && Touches(ps[i], p)
  }

  /** A page is touched by a stored file exactly when it lies in its pages. */
  lemma TouchesPages(f: File, p: nat)
    requires Stored(f) && p % PAGE == 0
    ensures Touches(f, p) <==> f.offset <= p && p + PAGE <= PagesEnd(f)
    ensures PagesEnd(f) % PAGE == 0 && f.offset < PagesEnd(f) <= MAX_SIZE
    ensures !Touches(f, p) ==> p + PAGE <= f.offset || PagesEnd(f) <= p
  {
    RoundUpLeast(End(f), MAX_SIZE);
    RoundUpLeast(End(f), p);
  }

  /** All that holds after `k` files. */
  ghost predicate Filled(slots: seq<Slot>, at: nat, ps: seq<File>, k: nat)
    requires k <= |ps|
  {
    && at % PAGE == 0 && Tiled(slots, at) && FilesOf(slots, |slots|) == ps[..k]
    && forall p: nat | p % PAGE == 0 && p + PAGE <= at :: EmptyAt(slots, p) <==> !TouchedAt(ps, k, p)
  }

  lemma TiledMore(slots: seq<Slot>, at: nat, s: Slot, at': nat)
    requires Tiled(slots, at) && at <= s.offset && s.offset % PAGE == 0 && 0 < s.size && SlotEnd(s) <= at'
    ensures Tiled(slots + [s], at')
  {
  }

  lemma EmptyMore(slots: seq<Slot>, s: Slot, p: nat)
    ensures EmptyAt(slots + [s], p) <==> EmptyAt(slots, p) || (s.empty && s.offset <= p && p + PAGE <= SlotEnd(s))
  {
    var t := slots + [s];
    assert t[|slots|] == s;
    if EmptyAt(slots, p) {
      var i :| 0 <= i < |slots| && slots[i].empty && slots[i].offset <= p && p + PAGE <= SlotEnd(slots[i]);
      assert t[i] == slots[i];
    }
  }

  lemma NotEmptyBeyond(slots: seq<Slot>, at: nat, p: nat)
    requires Tiled(slots, at) && at <= p
    ensures !EmptyAt(slots, p)
  {
  }

  /** The pages of the first `k` files end before `at`. */
  ghost predicate Behind(ps: seq<File>, k: nat, at: nat)
    requires k <= |ps|
  {
    forall i | 0 <= i < k :: PagesEnd(ps[i]) <= at
  }

  lemma NotTouchedBeyond(ps: seq<File>, k: nat, at: nat, p: nat)
    requires InOrder(ps) && k <= |ps| && Behind(ps, k, at) && at <= p && p % PAGE == 0
    ensures !TouchedAt(ps, k, p)
  {
    forall i | 0 <= i < k
      ensures !Touches(ps[i], p)
    {
      TouchesPages(ps[i], p);
    }
  }

  lemma FillGap(b: Builder, gap: nat, to: nat, ps: seq<File>, k: nat)
    requires k <= |ps| && InOrder(ps) && Behind(ps, k, gap) && Filled(b.slots, gap, ps, k)
    requires gap <= to && to % PAGE == 0
    ensures Filled(AddGap(b, gap, to).slots, to, ps, k)
  {
    hide Stored, PagesEnd, Touches, InOrder, Tiled, EmptyAt, TouchedAt, Behind;
    if gap < to {
      var s := Slot(b.id, gap, to - gap, true);
      TiledMore(b.slots, gap, s, to);
      FilesOfPrefix(b.slots, [s], |b.slots|);
      forall p: nat | p % PAGE == 0 && p + PAGE <= to
        ensures EmptyAt(b.slots + [s], p) <==> !TouchedAt(ps, k, p)
      {
        EmptyMore(b.slots, s, p);
        if p >= gap {
          NotTouchedBeyond(ps, k, gap, p);
        }
      }
    }
  }

  lemma FillFile(b: Builder, at: nat, ps: seq<File>, k: nat)
    requires k < |ps| && InOrder(ps) && Filled(b.slots, at, ps, k) && at == ps[k].offset
    ensures Filled(AddFile(b, ps[k]).slots, PagesEnd(ps[k]), ps, k + 1)
  {
    hide EmptyAt;
    var b' := AddFile(b, ps[k]);
    var s := b'.slots[|b.slots|];
    assert b'.slots == b.slots + [s];
    RoundUpLeast(End(ps[k]), MAX_SIZE);
    TiledMore(b.slots, at, s, PagesEnd(ps[k]));
    FilesOfPrefix(b.slots, [s], |b.slots|);
    assert ps[..k + 1] == ps[..k] + [ps[k]];
    forall p: nat | p % PAGE == 0 && p + PAGE <= PagesEnd(ps[k])
      ensures EmptyAt(b'.slots, p) <==> !TouchedAt(ps, k + 1, p)
    {
      EmptyMore(b.slots, s, p);
      TouchesPages(ps[k], p);
      if p >= at {
        NotEmptyBeyond(b.slots, at, p);
      }
    }
  }

  lemma {:induction false} BuildFills(ps: seq<File>, k: nat)
    requires k <= |ps| && InOrder(ps)
    ensures var (b, gap) := Build(ps, k); Filled(b.slots, gap, ps, k) && Behind(ps, k, gap) && gap <= MAX_SIZE
    ensures k < |ps| ==> Build(ps, k).1 <= ps[k].offset
    decreases k
  {
    hide Filled, AddGap, AddFile, Stored, RoundUp;
    FilledNone(ps);
    if k > 0 {
      BuildFills(ps, k - 1);
      var (b, gap) := Build(ps, k - 1);
      StoredFile(ps, k - 1);
      FillGap(b, gap, ps[k - 1].offset, ps, k - 1);
      FillFile(AddGap(b, gap, ps[k - 1].offset), ps[k - 1].offset, ps, k - 1);
    }
  }

  lemma FilledNone(ps: seq<File>)
    ensures Filled([], 0, ps, 0)
  {
  }

  lemma StoredFile(ps: seq<File>, i: nat)
    requires InOrder(ps) && i < |ps|
    ensures ps[i].offset % PAGE == 0 && ps[i].offset <= PagesEnd(ps[i]) <= MAX_SIZE
  {
    TouchesPages(ps[i], 0);
  }

  lemma TableFilled(fs: seq<File>)
    requires Sound(fs)
    ensures Filled(Table(fs), MAX_SIZE, Sort(fs), |Sort(fs)|)
  {
    hide Filled, AddGap, Behind, InOrder;
    var ps := Sort(fs);
    SortInOrder(fs);
    BuildFills(ps, |ps|);
    var (b, gap) := Build(ps, |ps|);
    FillGap(b, gap, MAX_SIZE, ps, |ps|);
  }

  /**
   For files apart from each other, the slots follow each other and stay in the flash, and
   those that are not empty are the files.
   */
  lemma TableTiles(fs: seq<File>)
    requires Sound(fs)
    ensures Tiled(Table(fs), MAX_SIZE)
    ensures FilesOf(Table(fs), |Table(fs)|) == Sort(fs) && multiset(Sort(fs)) == multiset(fs)
  {
    hide Tiled, EmptyAt, TouchedAt, Table;
    TableFilled(fs);
    SortSorts(fs);
    assert Sort(fs)[..|Sort(fs)|] == Sort(fs);
  }

  /** And a page is in an empty slot exactly when no file touches it. */
  lemma PageIsFree(fs: seq<File>, p: nat)
    requires Sound(fs) && p % PAGE == 0 && p + PAGE <= MAX_SIZE
    ensures EmptyAt(Table(fs), p) <==> forall f | f in fs :: !Touches(f, p)
  {
    hide Touches, EmptyAt, Tiled, Table, FilesOf;
    var ps := Sort(fs);
    TableFilled(fs);
    SortSound(fs);
    if f :| f in fs && Touches(f, p) {
      var i :| 0 <= i < |ps| && ps[i] == f;
      assert TouchedAt(ps, |ps|, p);
    }
  }

  /** In exactly one: slots that share a byte are the same. */
  lemma OneSlotEach(slots: seq<Slot>, at: nat, i: nat, j: nat, a: nat)
    requires Tiled(slots, at) && i < |slots| && j < |slots|
    requires slots[i].offset <= a < SlotEnd(slots[i]) && slots[j].offset <= a < SlotEnd(slots[j])
    ensures i == j
  {
  }

  // ---- Loads -------------------------------------------------------------

  /** What is asked of a slot, and whether the controller carries out the erase and the write. */
  datatype Request = Request(slot: nat, size: nat, erase: bool, write: bool, unlinks: bool, loads: bool)

  datatype Status = Done | NoSpace | Invalid | ControllerFailed

  /** Slot `j` is the empty space the load may run on into. */
  predicate Adjoins(slots: seq<Slot>, k: nat, j: nat)
    requires k < |slots| && j < |slots|
  {
    j != k && slots[j].empty && RoundUp(SlotEnd(slots[k])) == slots[j].offset
  }

  /** The first slot from `j` on that adjoins slot `k`. */
  function Adjoining(slots: seq<Slot>, k: nat, j: nat): (r: nat)
    requires k < |slots| && j <= |slots|
    ensures j <= r <= |slots| && (r < |slots| ==> Adjoins(slots, k, r))
    ensures forall i | j <= i < r :: !Adjoins(slots, k, i)
    decreases |slots| - j
  {
    if j == |slots| || Adjoins(slots, k, j) then j else Adjoining(slots, k, j + 1)
  }

  function Room(slots: seq<Slot>, k: nat): nat
    requires k < |slots|
  {
    var j := Adjoining(slots, k, 0);
    slots[k].size + if j < |slots| then slots[j].size else 0
  }

  /** A load has the room of its slot, and of the empty one that starts where its pages end, if there is one. */
  lemma RoomExact(slots: seq<Slot>, k: nat, j: nat)
    requires Tiled(slots, MAX_SIZE) && k < |slots| && j <= |slots|
    requires j < |slots| ==> j != k && slots[j].empty && RoundUp(slots[k].offset + slots[k].size) == slots[j].offset
    requires j == |slots| ==> forall i | 0 <= i < |slots| && i != k && slots[i].empty ::
                                RoundUp(slots[k].offset + slots[k].size) != slots[i].offset
    ensures Room(slots, k) == slots[k].size + if j < |slots| then slots[j].size else 0
  {
    var i := Adjoining(slots, k, 0);
    if j < |slots| {
      assert Adjoins(slots, k, j);
    }
  }

  function Without(fs: seq<File>, offset: nat): seq<File> {
    if fs == [] then []
    else (if fs[0].offset == offset then [] else [fs[0]]) + Without(fs[1..], offset)
  }

  /** The controller's files after a request, by what the slots say. */
  function Load(fs: seq<File>, r: Request): (Status, seq<File>)
    requires r.slot < |Table(fs)|
  {
    var slots := Table(fs);
    var s := slots[r.slot];
    if Room(slots, r.slot) < r.size then (NoSpace, fs)
    else if r.erase && s.empty then (Invalid, fs)
    else if r.erase && !r.unlinks then (ControllerFailed, fs)
    else if !r.erase && !s.empty then (Invalid, fs)
    else
      var left := if r.erase then Without(fs, s.offset) else fs;
      if !r.write then (Done, left)
      else if !r.loads then (ControllerFailed, left)
      else (Done, [File(s.offset, r.size)] + left)
  }

  /** When a request ends how. */
  lemma LoadStatus(fs: seq<File>, r: Request)
    requires r.slot < |Table(fs)|
    ensures var (status, s) := (Load(fs, r).0, Table(fs)[r.slot]);
            && (status == NoSpace <==> r.size > Room(Table(fs), r.slot))
            && (status == Invalid <==> r.size <= Room(Table(fs), r.slot) && r.erase == s.empty)
            && (status == ControllerFailed <==>
                  && r.size <= Room(Table(fs), r.slot) && r.erase != s.empty
                  && ((r.erase && !r.unlinks) || (r.write && !r.loads)))
  {
    hide Table, Room;
  }

  /** Whether a request gets as far as the controller's unlinking the slot's file. */
  predicate Erases(slots: seq<Slot>, r: Request)
    requires r.slot < |slots|
  {
    r.size <= Room(slots, r.slot) && r.erase && !slots[r.slot].empty && r.unlinks
  }

  /** How often file `g` is there after a request that ended with `status`. */
  ghost predicate Leaves(fs: seq<File>, fs': seq<File>, slots: seq<Slot>, r: Request, status: Status)
    requires r.slot < |slots|
  {
    forall g ::
      multiset(fs')[g]
      == (if Erases(slots, r) && g.offset == slots[r.slot].offset then 0 else multiset(fs)[g])
         + (if status == Done && r.write && g == File(slots[r.slot].offset, r.size) then 1 else 0)
  }

  lemma {:induction false} WithoutCounts(fs: seq<File>, offset: nat, g: File)
    ensures multiset(Without(fs, offset))[g] == if g.offset == offset then 0 else multiset(fs)[g]
    decreases |fs|
  {
    if fs != [] {
      WithoutCounts(fs[1..], offset, g);
      assert fs == [fs[0]] + fs[1..];
    }
  }

  /** An erase takes the slot's file and no other; a write adds one; a refused request changes nothing. */
  lemma LoadLeaves(fs: seq<File>, r: Request)
    requires r.slot < |Table(fs)|
    ensures Leaves(fs, Load(fs, r).1, Table(fs), r, Load(fs, r).0)
  {
    hide Table, Room;
    var s := Table(fs)[r.slot];
    forall g
      ensures multiset(Without(fs, s.offset))[g] == if g.offset == s.offset then 0 else multiset(fs)[g]
    {
      WithoutCounts(fs, s.offset, g);
    }
  }

  predicate Writes(fs: seq<File>, r: Request)
    requires r.slot < |Table(fs)|
  {
    Load(fs, r).0 == Done && r.write
  }

  lemma {:induction false} WithoutMembers(fs: seq<File>, offset: nat)
    ensures forall g :: g in Without(fs, offset) <==> g in fs && g.offset != offset
    decreases |fs|
  {
    if fs != [] {
      WithoutMembers(fs[1..], offset);
      assert forall g :: g in fs <==> g == fs[0] || g in fs[1..];
    }
  }

  lemma {:induction false} WithoutSound(fs: seq<File>, offset: nat)
    requires Sound(fs)
    ensures Sound(Without(fs, offset))
    decreases |fs|
  {
    hide Stored, Apart;
    if fs != [] {
      WithoutSound(fs[1..], offset);
      WithoutMembers(fs[1..], offset);
      var rest := Without(fs[1..], offset);
      assert ([fs[0]] + rest)[1..] == rest;
      assert [] + rest == rest;
    }
  }

  lemma {:induction false} FileHasSlot(slots: seq<Slot>, k: nat, g: File) returns (j: nat)
    requires k <= |slots| && g in FilesOf(slots, k)
    ensures j < k && !slots[j].empty && slots[j].offset == g.offset && slots[j].size == g.size
    decreases k
  {
    if g in FilesOf(slots, k - 1) {
      j := FileHasSlot(slots, k - 1, g);
    } else {
      j := k - 1;
    }
  }

  /** What a load may overwrite: its own slot, the padding behind it, and an empty slot that adjoins. */
  lemma WriteExtent(slots: seq<Slot>, k: nat, size: nat, a: nat)
    requires Tiled(slots, MAX_SIZE) && k < |slots| && size <= Room(slots, k)
    requires slots[k].offset <= a < slots[k].offset + size
    ensures var j := Adjoining(slots, k, 0);
            || a < SlotEnd(slots[k])
            || (j < |slots| && slots[j].empty
                && (a < RoundUp(SlotEnd(slots[k])) == slots[j].offset || slots[j].offset <= a < SlotEnd(slots[j])))
  {
    RoundUpLeast(SlotEnd(slots[k]), 0);
  }

  /** So it leaves every other file alone. */
  lemma WriteApart(slots: seq<Slot>, k: nat, size: nat, i: nat)
    requires Tiled(slots, MAX_SIZE) && k < |slots| && size <= Room(slots, k)
    requires i < |slots| && i != k && !slots[i].empty
    ensures slots[k].offset + size <= slots[i].offset || SlotEnd(slots[i]) <= slots[k].offset
    ensures slots[k].offset + size <= MAX_SIZE
  {
    var j := Adjoining(slots, k, 0);
    RoundUpLeast(SlotEnd(slots[k]), slots[i].offset);
    RoundUpLeast(SlotEnd(slots[k]), MAX_SIZE);
    hide RoundUp;
    if i < k {
      assert SlotEnd(slots[i]) <= slots[k].offset;
    } else {
      assert SlotEnd(slots[k]) <= slots[i].offset;
      if j < i {
        assert SlotEnd(slots[j]) <= slots[i].offset;
      }
    }
  }

  lemma WriteFits(slots: seq<Slot>, k: nat, size: nat)
    requires Tiled(slots, MAX_SIZE) && k < |slots| && size <= Room(slots, k)
    ensures slots[k].offset + size <= MAX_SIZE
  {
    RoundUpLeast(SlotEnd(slots[k]), MAX_SIZE);
  }

  /** A file that stays is in a slot of its own. */
  lemma OthersApart(fs: seq<File>, r: Request, g: File)
    requires Sound(fs) && r.slot < |Table(fs)| && r.size <= Room(Table(fs), r.slot)
    requires g in fs && (!Table(fs)[r.slot].empty ==> g.offset != Table(fs)[r.slot].offset)
    ensures Apart(File(Table(fs)[r.slot].offset, r.size), g)
  {
    hide Tiled, Table, Room, FilesOf, Sort;
    var slots := Table(fs);
    TableTiles(fs);
    SortSound(fs);
    var j := FileHasSlot(slots, |slots|, g);
    WriteApart(slots, r.slot, r.size, j);
  }

  /** Every request leaves the files apart from each other, unless it writes an empty file. */
  lemma LoadSound(fs: seq<File>, r: Request)
    requires Sound(fs) && r.slot < |Table(fs)|
    ensures Sound(Load(fs, r).1) <==> (Writes(fs, r) ==> r.size > 0)
  {
    hide Tiled, Table, Room, Apart, RoundUp;
    var s := Table(fs)[r.slot];
    TableTiles(fs);
    WithoutSound(fs, s.offset);
    WithoutMembers(fs, s.offset);
    if Writes(fs, r) {
      var left := if r.erase then Without(fs, s.offset) else fs;
      WriteFits(Table(fs), r.slot, r.size);
      SlotAligned(Table(fs), r.slot);
      var f := File(s.offset, r.size);
      assert ([f] + left)[1..] == left;
      forall g | g in left
        ensures Apart(f, g)
      {
        OthersApart(fs, r, g);
      }
    }
  }

  lemma SlotAligned(slots: seq<Slot>, k: nat)
    requires Tiled(slots, MAX_SIZE) && k < |slots|
    ensures slots[k].offset % PAGE == 0
  {
  }

  lemma EmptyFlash()
    ensures Sound([]) && Table([]) == [Slot(2, 0, MAX_SIZE, true)]
    ensures Load([], Request(0, 0, false, true, true, true)) == (Done, [File(0, 0)])
  {
    var slots := Table([]);
    assert Sort([]) == [];
    assert slots == [Slot(2, 0, MAX_SIZE, true)];
    assert [File(0, 0)] + [] == [File(0, 0)];
  }

  /**
   Writing nothing into the empty flash makes an empty file at offset 0, which leaves an empty slot
   there; a load into that makes two slots with identifier 1.
   */
  lemma EmptyFileCollides()
    ensures Sound([]) && Load([], Request(0, 0, false, true, true, true)) == (Done, [File(0, 0)])
    ensures var fs := [File(0, 0)];
            && Table(fs) == [Slot(1, 0, 0, false), Slot(2, 0, MAX_SIZE, true)]
            && Load(fs, Request(1, 1, false, true, true, true)) == (Done, [File(0, 1), File(0, 0)])
            && !DistinctIds(Table([File(0, 1), File(0, 0)]))
  {
    EmptyFlash();
    var fs := [File(0, 0)];
    assert fs[1..] == [] && Sort(fs) == fs;
    assert Build(fs, 0) == (Builder([], 2, false), 0);
    assert RoundUp(0) == 0;
    assert AddFile(Builder([], 2, false), fs[0]).slots == [Slot(1, 0, 0, false)];
    assert Build(fs, 1) == (Builder([Slot(1, 0, 0, false)], 2, false), 0);
    var fs' := [File(0, 1), File(0, 0)];
    assert fs'[1..] == fs;
    IdsDistinct(fs');
    var slots := Table(fs);
    assert slots == [Slot(1, 0, 0, false), Slot(2, 0, MAX_SIZE, true)];
    assert Adjoining(slots, 1, 0) == 2;
    assert [File(0, 1)] + fs == fs';
  }

  /** The files after a series of requests; one for a slot that does not exist finds no node. */
  function LoadAll(fs: seq<File>, rs: seq<Request>): seq<File>
    decreases |rs|
  {
    if rs == [] then fs
    else LoadAll(if rs[0].slot < |Table(fs)| then Load(fs, rs[0]).1 else fs, rs[1..])
  }

  /** Whatever is erased and written, in any order, the files stay apart and the slots tile the flash. */
  lemma {:induction false} LoadsSound(fs: seq<File>, rs: seq<Request>)
    requires Sound(fs) && forall r | r in rs && r.write :: r.size > 0
    ensures Sound(LoadAll(fs, rs)) && Tiled(Table(LoadAll(fs, rs)), MAX_SIZE) && DistinctIds(Table(LoadAll(fs, rs)))
    decreases |rs|
  {
    hide Table, Tiled, Load, DistinctIds, Sound;
    if rs == [] {
      TableTiles(fs);
      IdsDistinct(fs);
      SoundZeros(fs);
    } else {
      if rs[0].slot < |Table(fs)| {
        LoadSound(fs, rs[0]);
      }
      LoadsSound(if rs[0].slot < |Table(fs)| then Load(fs, rs[0]).1 else fs, rs[1..]);
    }
  }

  /** The slot of file `g` is not erased by any of the requests. */
  predicate Spares(fs: seq<File>, rs: seq<Request>, g: File)
    decreases |rs|
  {
    rs == []
    || if rs[0].slot < |Table(fs)| then
         && !(Erases(Table(fs), rs[0]) && Table(fs)[rs[0].slot].offset == g.offset)
         && Spares(Load(fs, rs[0]).1, rs[1..], g)
       else Spares(fs, rs[1..], g)
  }

  /** A file stays through any series of requests that does not erase its slot, whatever else is erased and written. */
  lemma {:induction false} FilesStay(fs: seq<File>, rs: seq<Request>, g: File)
    requires g in fs && Spares(fs, rs, g)
    ensures g in LoadAll(fs, rs)
    decreases |rs|
  {
    hide Table, Load, Erases;
    if rs != [] {
      var r := rs[0];
      if r.slot < |Table(fs)| {
        LoadLeaves(fs, r);
        assert multiset(Load(fs, r).1)[g] >= multiset(fs)[g] > 0;
        FilesStay(Load(fs, r).1, rs[1..], g);
      } else {
        FilesStay(fs, rs[1..], g);
      }
    }
  }

  lemma {:induction false} SoundZeros(fs: seq<File>)
    requires Sound(fs)
    ensures Zeros(fs) <= 1
    decreases |fs|
  {
    if fs != [] {
      SoundZeros(fs[1..]);
      if fs[0].offset == 0 {
        NoZeros(fs[1..], fs[0]);
      }
    }
  }

  lemma {:induction false} NoZeros(fs: seq<File>, f: File)
    requires f.offset == 0 && Stored(f) && Sound(fs) && forall g | g in fs :: Apart(f, g)
    ensures Zeros(fs) == 0
    decreases |fs|
  {
    if fs != [] {
      assert Apart(f, fs[0]);
      NoZeros(fs[1..], f);
    }
  }

  /** The driver's record of the flash: the controller's files and the slots made of them. */
  class Boot {
    var files: seq<File>
    var slots: seq<Slot>

    ghost predicate Valid()
      reads this
    {
      slots == Table(files)
    }

    /** nfb_boot_bw_bmc_attach */
    constructor (files: seq<File>)
      ensures Valid() && this.files == files
    {
      this.files := files;
      new;
      slots := LoadPartitionTable(files);
    }

    /** nfb_boot_bw_bmc_load, for any command but setting priorities. */
    method LoadImage(r: Request) returns (status: Status)
      requires Valid() && r.slot < |slots|
      modifies this
      ensures Valid() && (status, files) == Load(old(files), r)
      ensures status == NoSpace <==> r.size > Room(old(slots), r.slot)
      ensures status == Invalid <==> r.size <= Room(old(slots), r.slot) && r.erase == old(slots)[r.slot].empty
      ensures status == ControllerFailed <==>
                && r.size <= Room(old(slots), r.slot) && r.erase != old(slots)[r.slot].empty
                && ((r.erase && !r.unlinks) || (r.write && !r.loads))
      // Of the files, exactly those at the slot's offset go, when it is erased, and the written one comes.
      ensures Leaves(old(files), files, old(slots), r, status)
    {
      LoadStatus(files, r);
      LoadLeaves(files, r);
      hide Table, Room, Leaves, Erases;
      var s := slots[r.slot];
      var size := s.size;
      var j := 0;
      while j < |slots|
        invariant j <= |slots| && size == s.size
        invariant Valid() && files == old(files) && slots == old(slots)
        invariant Adjoining(slots, r.slot, 0) == Adjoining(slots, r.slot, j)
      {
        if Adjoins(slots, r.slot, j) {
          size := size + slots[j].size;
          break;
        }
        j := j + 1;
      }
      if size < r.size {
        return NoSpace;
      }
      var update := false;
      if r.erase {
        if s.empty {
          return Invalid;
        }
        if !r.unlinks {
          return ControllerFailed;
        }
        files := Without(files, s.offset);
        update := true;
      } else if !s.empty {
        return Invalid;
      }
      status := Done;
      if r.write {
        if r.loads {
          files := [File(s.offset, r.size)] + files;
          update := true;
        } else {
          status := ControllerFailed;
        }
      }
      if update {
        slots := LoadPartitionTable(files);
      }
    }
  }
}
