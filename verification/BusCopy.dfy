/**
 Copies to and from the memory interface bus (`mi.c`): single accesses of up to eight
 bytes, lined up with their bus offset. One side of the copy is the bus.
 */
module BusCopy {
  import opened Bytes

  /** One bus access, by its bus offset. */
  datatype Access = Access(offset: nat, width: nat)

  /** The accesses follow one another from `from` to `to`, each one, two, four or eight bytes wide. */
  predicate Tiles(log: seq<Access>, from: nat, to: nat) {
    if log == [] then from == to
    else
      var last := log[|log| - 1];
      && last.width in {1, 2, 4, 8} && last.offset + last.width == to
      && Tiles(log[..|log| - 1], from, last.offset)
  }

  /** The access is at a multiple of its width. */
  predicate InPlace(a: Access) {
    a.width > 0 && a.offset % a.width == 0
  }

  predicate Aligned(log: seq<Access>) {
    forall i | 0 <= i < |log| :: InPlace(log[i])
  }

  /** The access is in place, and no wider one in place would end before `end`. */
  predicate Widest(a: Access, end: nat) {
    && InPlace(a)
    && (a.offset % 8 == 0 && a.offset + 8 <= end ==> a.width == 8)
    && (a.offset % 4 == 0 && a.offset + 4 <= end ==> a.width >= 4)
    && (a.offset % 2 == 0 && a.offset + 2 <= end ==> a.width >= 2)
  }

  predicate AllWidest(log: seq<Access>, end: nat) {
    forall i | 0 <= i < |log| :: Widest(log[i], end)
  }

  lemma WidestAligned(log: seq<Access>, end: nat)
    requires AllWidest(log, end)
    ensures Aligned(log)
  {
    forall i | 0 <= i < |log|
      ensures InPlace(log[i])
    {
      assert Widest(log[i], end);
    }
  }

  lemma TilesMore(log: seq<Access>, from: nat, a: Access)
    requires Tiles(log, from, a.offset) && a.width in {1, 2, 4, 8}
    ensures Tiles(log + [a], from, a.offset + a.width)
  {
    assert (log + [a])[..|log|] == log;
  }

  lemma {:induction false} TilesForward(log: seq<Access>, from: nat, to: nat)
    requires Tiles(log, from, to)
    ensures from <= to && |log| <= to - from
    decreases |log|
  {
    if log != [] {
      TilesForward(log[..|log| - 1], from, log[|log| - 1].offset);
    }
  }

  /** Every bus byte is accessed once: the access it is in is the only one. */
  lemma {:induction false} TilesOnce(log: seq<Access>, from: nat, to: nat, x: nat) returns (k: nat)
    requires Tiles(log, from, to) && from <= x < to
    ensures k < |log|
    ensures forall i | 0 <= i < |log| :: log[i].offset <= x < log[i].offset + log[i].width <==> i == k
    decreases |log|
  {
    var n := |log| - 1;
    TilesInside(log[..n], from, log[n].offset);
    if x >= log[n].offset {
      k := n;
      assert forall i | 0 <= i < n :: log[..n][i] == log[i];
    } else {
      k := TilesOnce(log[..n], from, log[n].offset, x);
      assert forall i | 0 <= i < n :: log[..n][i] == log[i];
    }
  }

  lemma {:induction false} TilesInside(log: seq<Access>, from: nat, to: nat)
    requires Tiles(log, from, to)
    ensures forall i | 0 <= i < |log| :: from <= log[i].offset && log[i].offset + log[i].width <= to
    decreases |log|
  {
    TilesForward(log, from, to);
    if log != [] {
      var n := |log| - 1;
      TilesForward(log[..n], from, log[n].offset);
      TilesInside(log[..n], from, log[n].offset);
      assert forall i | 0 <= i < n :: log[..n][i] == log[i];
    }
  }

  /** When the rest of a copy can go on with accesses as wide as it allows. */
  predicate LinedUp(p: nat, rest: nat) {
    (rest >= 4 ==> p % 8 == 0) && (rest >= 2 ==> p % 4 == 0)
  }

  /** The first `k` bytes are copied, and nothing else is changed. */
  ghost predicate Partial(now: seq<byte>, before: seq<byte>, to: nat, data: seq<byte>, from: nat, k: nat,
                          log: seq<Access>, start: nat)
  {
    && to + k <= |before| && from + k <= |data|
    && now == Overwrite(before, to, data[from..from + k])
    && Tiles(log, start, start + k)
  }

  lemma PartialMore(was: seq<byte>, before: seq<byte>, to: nat, data: seq<byte>, from: nat, k: nat,
                    log: seq<Access>, start: nat, width: nat)
    requires Partial(was, before, to, data, from, k, log, start) && width in {1, 2, 4, 8}
    requires to + k + width <= |before| && from + k + width <= |data|
    ensures |was| == |before|
    ensures Partial(Overwrite(was, to + k, data[from + k..from + k + width]), before, to, data, from, k + width,
                    log + [Access(start + k, width)], start)
  {
    hide Overwrite, Tiles;
    Spliced(before, to, data[from..from + k], data[from + k..from + k + width]);
    assert data[from..from + k] + data[from + k..from + k + width] == data[from..from + (k + width)];
    TilesMore(log, start, Access(start + k, width));
  }

  lemma WidestMore(log: seq<Access>, a: Access, end: nat)
    requires AllWidest(log, end) && Widest(a, end)
    ensures AllWidest(log + [a], end)
  {
    hide Widest;
  }

  lemma WidestNone(end: nat)
    ensures AllWidest([], end)
  {
  }

  lemma AlignedOne(a: Access)
    ensures Aligned([a]) <==> InPlace(a)
  {
    assert [a][0] == a;
  }

  lemma Lined8(p: nat, rest: nat, end: nat)
    requires LinedUp(p, rest) && rest >= 8 && p + rest == end
    ensures Widest(Access(p, 8), end) && LinedUp(p + 8, rest - 8)
  {
  }

  lemma Lined4(p: nat, rest: nat, end: nat)
    requires LinedUp(p, rest) && 4 <= rest < 8 && p + rest == end
    ensures Widest(Access(p, 4), end) && LinedUp(p + 4, rest - 4)
  {
  }

  lemma Lined2(p: nat, rest: nat, end: nat)
    requires LinedUp(p, rest) && 2 <= rest < 4 && p + rest == end
    ensures Widest(Access(p, 2), end) && LinedUp(p + 2, rest - 2)
  {
  }

  lemma Lined1(p: nat, end: nat)
    requires p + 1 == end
    ensures Widest(Access(p, 1), end)
  {
  }

  /** `offset & 1`, `offset & 2` and `offset & 4`. */
  predicate OddByte(offset: nat) {
    offset % 2 == 1
  }

  predicate OddHalf(offset: nat) {
    offset / 2 % 2 == 1
  }

  predicate OddWord(offset: nat) {
    offset / 4 % 2 == 1
  }

  lemma EvenHalf(p: nat)
    ensures p % 4 == 0 <==> !OddByte(p) && !OddHalf(p)
  {
    assert p % 2 == 0 ==> p % 4 == 2 * (p / 2 % 2);
  }

  lemma EvenWord(p: nat)
    ensures p % 8 == 0 <==> p % 4 == 0 && !OddWord(p)
  {
    assert p % 4 == 0 ==> p % 8 == 4 * (p / 4 % 2);
  }

  lemma AfterByte(p: nat, end: nat)
    requires OddByte(p)
    ensures Widest(Access(p, 1), end) && !OddByte(p + 1)
  {
  }

  /** An access of an odd width, the smaller ones being even, is in place and makes that width even too. */
  lemma AfterHalf(p: nat, end: nat)
    requires !OddByte(p) && OddHalf(p)
    ensures Widest(Access(p, 2), end) && (p + 2) % 4 == 0
  {
  }

  lemma AfterWord(p: nat, end: nat)
    requires p % 4 == 0 && OddWord(p)
    ensures Widest(Access(p, 4), end) && (p + 4) % 8 == 0 && (p + 4) % 4 == 0
  {
  }

  class Transfer {
    const dst: array<byte>
    const src: array<byte>
    var d: nat
    var s: nat
    var nbyte: nat
    var offset: nat
    ghost const to: nat
    ghost const from: nat
    ghost const total: nat
    ghost const start: nat
    ghost const before: seq<byte>
    ghost var log: seq<Access>

    ghost predicate Fits()
      reads this
    {
      dst != src && to + total <= dst.Length == |before| && from + total <= src.Length
    }

    ghost predicate Copied(k: nat)
      reads this, dst, src
    {
      Fits() && k <= total && Partial(dst[..], before, to, src[..], from, k, log, start)
    }

    /** And the pointers are behind them. */
    ghost predicate At(k: nat)
      reads this, dst, src
    {
      Copied(k) && d == to + k && s == from + k && nbyte == total - k
    }

    constructor (dst: array<byte>, d: nat, src: array<byte>, s: nat, nbyte: nat, offset: nat)
      requires dst != src && d + nbyte <= dst.Length && s + nbyte <= src.Length
      ensures At(0) && this.offset == offset && log == [] && fresh(this)
      ensures this.dst == dst && this.src == src && to == d && from == s
      ensures total == nbyte && start == offset && before == dst[..]
    {
      this.dst, this.src, this.d, this.s, this.nbyte, this.offset := dst, src, d, s, nbyte, offset;
      to, from, total, start, before := d, s, nbyte, offset, dst[..];
      log := [];
    }

    /** The access itself. */
    method Store(width: nat)
      requires dst != src && d + width <= dst.Length && s + width <= src.Length
      modifies dst
      ensures dst[..] == Overwrite(old(dst[..]), d, src[s..s + width])
    {
      forall i | 0 <= i < width {
        dst[d + i] := src[s + i];
      }
    }

    /** One access, and the macro behind it: done, or move on. */
    method Step(width: nat, ghost k: nat) returns (done: bool)
      requires At(k) && width in {1, 2, 4, 8} && width <= nbyte
      modifies `d, `s, `nbyte, `log, dst
      ensures done == (old(nbyte) == width)
      ensures done ==> Copied(total)
      ensures !done ==> At(k + width)
      ensures log == old(log) + [Access(start + k, width)]
      ensures AllWidest(old(log), start + total) && Widest(Access(start + k, width), start + total) ==>
                AllWidest(log, start + total)
    {
      hide Overwrite, Partial, AllWidest, Widest;
      ghost var was := dst[..];
      if AllWidest(log, start + total) && Widest(Access(start + k, width), start + total) {
        WidestMore(log, Access(start + k, width), start + total);
      }
      Store(width);
      PartialMore(was, before, to, src[..], from, k, log, start, width);
      assert src[..][from + k..from + k + width] == src[s..s + width];
      log := log + [Access(start + k, width)];
      if nbyte == width {
        return true;
      }
      s, d, nbyte := s + width, d + width, nbyte - width;
      done := false;
    }

    /** nfb_bus_mi_memcopy_simple: four or eight bytes in one access, wherever they are. */
    method Simple() returns (done: bool)
      requires At(0) && nbyte == total && log == []
      modifies `d, `s, `nbyte, `log, dst
      ensures done == (total == 4 || total == 8)
      ensures done ==> Copied(total) && log == [Access(start, total)]
      ensures !done ==> At(0) && log == []
    {
      done := false;
      if nbyte == 4 || nbyte == 8 {
        done := Step(nbyte, 0);
      }
    }

    /** The first part of the prelude: up to where four bytes line up. */
    method PreludeHalf() returns (done: bool)
      requires At(0) && offset == start && log == [] && offset % 4 != 0
      modifies `d, `s, `nbyte, `offset, `log, dst
      ensures AllWidest(log, start + total)
      ensures done ==> Copied(total)
      ensures !done ==> nbyte <= total && At(total - nbyte) && offset == start + (total - nbyte)
      ensures !done && nbyte >= 2 ==> offset % 4 == 0
    {
      hide Partial, AllWidest, Widest, OddByte, OddHalf;
      WidestNone(start + total);
      EvenHalf(offset);
      if OddByte(offset) && nbyte >= 1 {
        AfterByte(offset, start + total);
        done := Step(1, total - nbyte);
        if done {
          return;
        }
        offset := offset + 1;
        EvenHalf(offset);
      }
      if OddHalf(offset) && nbyte >= 2 {
        AfterHalf(offset, start + total);
        done := Step(2, total - nbyte);
        if done {
          return;
        }
        offset := offset + 2;
      }
      done := false;
    }

    /** nfb_bus_mi_memcopy_prelude: accesses of one, two and four bytes, up to where eight line up. */
    method Prelude() returns (done: bool)
      requires At(0) && offset == start && log == []
      modifies `d, `s, `nbyte, `offset, `log, dst
      ensures AllWidest(log, start + total)
      ensures done ==> Copied(total)
      ensures !done ==> nbyte <= total && At(total - nbyte) && LinedUp(start + (total - nbyte), nbyte)
    {
      hide Partial, AllWidest, Widest, OddWord;
      WidestNone(start + total);
      if offset % 4 != 0 {
        done := PreludeHalf();
        if done {
          return;
        }
      }
      EvenWord(offset);
      if OddWord(offset) && nbyte >= 4 {
        AfterWord(offset, start + total);
        done := Step(4, total - nbyte);
        if done {
          return;
        }
        offset := offset + 4;
      }
      done := false;
    }

    /** nfb_bus_mi_memcopy_postlude: eight bytes at a time, then what is left. */
    method Postlude()
      requires nbyte <= total && At(total - nbyte) && LinedUp(start + (total - nbyte), nbyte)
      requires AllWidest(log, start + total)
      modifies `d, `s, `nbyte, `log, dst
      ensures Copied(total) && AllWidest(log, start + total)
    {
      hide Partial, AllWidest, Widest, LinedUp;
      var done;
      while nbyte >= 8
        invariant nbyte <= total && At(total - nbyte) && LinedUp(start + (total - nbyte), nbyte)
        invariant AllWidest(log, start + total)
        decreases nbyte
      {
        Lined8(start + (total - nbyte), nbyte, start + total);
        done := Step(8, total - nbyte);
        if done {
          return;
        }
      }
      if nbyte >= 4 {
        Lined4(start + (total - nbyte), nbyte, start + total);
        done := Step(4, total - nbyte);
        if done {
          return;
        }
      }
      if nbyte >= 2 {
        Lined2(start + (total - nbyte), nbyte, start + total);
        done := Step(2, total - nbyte);
        if done {
          return;
        }
      }
      if nbyte >= 1 {
        Lined1(start + (total - nbyte), start + total);
        done := Step(1, total - nbyte);
      }
    }
  }

  /**
   nfb_bus_mi_memcopy_noopt. Exactly the bytes asked for are copied, each by one access in
   order of their place on the bus; every access is at a multiple of its width, and the widest
   there that the bytes left allow, except when the one-access shortcut is taken.
   */
  method Memcopy(dst: array<byte>, d: nat, src: array<byte>, s: nat, nbyte: nat, offset: nat)
    returns (ret: nat, ghost log: seq<Access>)
    requires dst != src && d + nbyte <= dst.Length && s + nbyte <= src.Length
    modifies dst
    ensures ret == nbyte && dst[..] == Overwrite(old(dst[..]), d, src[s..s + nbyte])
    ensures Tiles(log, offset, offset + nbyte)
    ensures Aligned(log) <==> !((nbyte == 4 || nbyte == 8) && offset % nbyte != 0)
    ensures if nbyte == 4 || nbyte == 8 then log == [Access(offset, nbyte)] else AllWidest(log, offset + nbyte)
  {
    hide Tiles, Overwrite, Aligned, AllWidest;
    AlignedOne(Access(offset, nbyte));
    assert src[..][s..s + nbyte] == src[s..s + nbyte];
    var t := new Transfer(dst, d, src, s, nbyte, offset);
    ret := nbyte;
    var done := t.Simple();
    if !done {
      done := t.Prelude();
      if !done {
        t.Postlude();
      }
    }
    log := t.log;
    if !(nbyte == 4 || nbyte == 8) {
      WidestAligned(log, offset + nbyte);
    }
  }

  lemma Spliced(before: seq<byte>, at: nat, data: seq<byte>, more: seq<byte>)
    requires at + |data| + |more| <= |before|
    ensures Overwrite(before, at, data + more) == Overwrite(Overwrite(before, at, data), at + |data|, more)
  {
  }
}
