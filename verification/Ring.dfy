/**
 Ring pointers. The driver and the library keep every ring pointer masked with
 `size - 1`, where the size is a power of two; the proofs talk about unbounded
 absolute positions. This module relates the two. `Mask` subtracts or adds the
 size until the pointer is in range, which keeps the arithmetic linear.
 */
module Ring {

  /** The masked form of the pointer expression `x` in a ring of `n` cells: `x & (n - 1)`, see `MaskIsBitwise`. */
  function Mask(x: int, n: int): (r: int)
    requires n > 0
    ensures 0 <= r < n
    decreases if x < 0 then n - x else x
  {
    if x < 0 then Mask(x + n, n) else if x < n then x else Mask(x - n, n)
  }

  /** The masked form depends on nothing but the residue. */
  lemma {:induction false} MaskIsRemainder(x: int, n: int)
    requires n > 0
    ensures Mask(x, n) == x % n
    decreases if x < 0 then n - x else x
  {
    MaskOnce(x, n);
    hide Mask;
    if x < 0 {
      MaskIsRemainder(x + n, n);
      RemainderStep(x, n);
    } else if x < n {
      DivisionUnique(0, x, x / n, x % n, n);
    } else {
      MaskIsRemainder(x - n, n);
      RemainderStep(x - n, n);
    }
  }

  lemma MaskOnce(x: int, n: int)
    requires n > 0
    ensures Mask(x, n) == if x < 0 then Mask(x + n, n) else if x < n then x else Mask(x - n, n)
  {
  }

  lemma RemainderStep(x: int, n: int)
    requires n > 0
    ensures (x + n) % n == x % n
  {
    var q := x / n;
    assert (q + 1) * n == q * n + n;
    DivisionUnique(q + 1, x % n, (x + n) / n, (x + n) % n, n);
  }

  lemma DivisionUnique(q: int, r: int, q': int, r': int, n: int)
    requires 0 <= r < n && 0 <= r' < n && q * n + r == q' * n + r'
    ensures q == q' && r == r'
  {
    assert (q - q') * n == q * n - q' * n == r' - r;
    if q > q' {
      AtLeastOnce(q - q', n);
    } else if q < q' {
      assert (q' - q) * n == -((q - q') * n);
      AtLeastOnce(q' - q, n);
    }
  }

  lemma AtLeastOnce(d: int, n: int)
    requires d >= 1 && n > 0
    ensures d * n >= n
  {
    assert d * n == (d - 1) * n + n;
  }

  // ---- The bitwise form --------------------------------------------------

  function Pow2(k: nat): (r: nat)
    ensures r > 0
  {
    if k == 0 then 1 else 2 * Pow2(k - 1)
  }

  /** `x & m`, bit by bit. */
  function And(x: nat, m: nat): nat {
    if x == 0 || m == 0 then 0 else x % 2 * (m % 2) + 2 * And(x / 2, m / 2)
  }

  lemma {:induction false} Pow2Sum(i: nat, j: nat)
    ensures Pow2(i + j) == Pow2(i) * Pow2(j)
  {
    if i > 0 {
      Pow2Sum(i - 1, j);
      Doubled(i);
      Doubled(i + j);
      assert i - 1 + j == i + j - 1;
      TwiceProduct(Pow2(i - 1), Pow2(j));
    } else {
      assert Pow2(0) == 1;
    }
    hide Pow2;
  }

  lemma Doubled(i: nat)
    requires i > 0
    ensures Pow2(i) == 2 * Pow2(i - 1)
  {
  }

  lemma TwiceProduct(a: nat, b: nat)
    ensures 2 * a * b == 2 * (a * b)
  {
  }

  lemma HalfRemainder(x: nat, p: nat)
    requires p > 0
    ensures x % (2 * p) == x % 2 + 2 * (x / 2 % p)
  {
    var h := x / 2;
    Quotient(h, p);
    assert x == 2 * h + x % 2;
    assert 2 * (h / p * p) == h / p * (2 * p);
    Quotient(x, 2 * p);
    DivisionUnique(h / p, x % 2 + 2 * (h % p), x / (2 * p), x % (2 * p), 2 * p);
  }

  lemma Quotient(x: int, n: int)
    requires n > 0
    ensures x / n * n + x % n == x && 0 <= x % n < n
  {
  }

  lemma {:induction false} AndLow(x: nat, k: nat)
    ensures And(x, Pow2(k) - 1) == x % Pow2(k)
    decreases k
  {
    if k > 0 {
      var p := Pow2(k - 1);
      AndLow(x / 2, k - 1);
      HalfRemainder(x, p);
      assert (2 * p - 1) / 2 == p - 1 && (2 * p - 1) % 2 == 1;
    }
  }

  /** Wrapping a sum of pointers to 64 bits leaves its residue in a ring whose size divides them. */
  lemma WrapResidue(x: int, n: nat, m: nat)
    requires n > 0 && m > 0 && n * m > 0
    ensures x % (n * m) % n == x % n
  {
    var w := n * m;
    var r := x % w;
    Quotient(x, w);
    Quotient(r, n);
    Quotient(x, n);
    assert x / w * w == x / w * m * n;
    assert (x / w * m + r / n) * n == x / w * m * n + r / n * n;
    DivisionUnique(x / w * m + r / n, r % n, x / n, x % n, n);
  }

  /** For a size that is a power of two, it is the driver's `x & (n - 1)` on 64-bit words. */
  lemma MaskIsBitwise(x: int, k: nat)
    requires k <= 64
    ensures Mask(x, Pow2(k)) == And(x % Pow2(64), Pow2(k) - 1)
  {
    MaskIsRemainder(x, Pow2(k));
    AndLow(x % Pow2(64), k);
    Pow2Sum(k, 64 - k);
    WrapResidue(x, Pow2(k), Pow2(64 - k));
  }

  // ---- Arithmetic of masked pointers -------------------------------------

  /** Masking an operand of a sum first changes nothing. */
  lemma {:induction false} MaskSum(x: int, y: int, n: int)
    requires n > 0
    ensures Mask(Mask(x, n) + y, n) == Mask(x + y, n)
    decreases if x < 0 then n - x else x
  {
    if x < 0 {
      MaskSum(x + n, y, n);
      assert Mask(x + y + n, n) == Mask(x + y, n);
    } else if x >= n {
      MaskSum(x - n, y, n);
      assert Mask(x - n + y + n, n) == Mask(x - n + y, n);
    }
  }

  /** The masked distance of two positions less than a ring apart is their distance. */
  lemma {:induction false} MaskDistance(a: int, b: int, n: int)
    requires n > 0 && 0 <= a <= b < a + n
    ensures Mask(Mask(b, n) - Mask(a, n), n) == b - a
    decreases a
  {
    if a >= n {
      MaskDistance(a - n, b - n, n);
    }
  }

  /** Positions less than a ring apart that share a cell are equal. */
  lemma MaskInjective(a: int, b: int, n: int)
    requires n > 0 && 0 <= a < b + n && 0 <= b < a + n
    requires Mask(a, n) == Mask(b, n)
    ensures a == b
  {
    if a <= b {
      MaskDistance(a, b, n);
    } else {
      MaskDistance(b, a, n);
    }
  }

  /** The write room the driver computes, one cell short of the whole ring. */
  lemma FreeSpace(hw: int, sw: int, n: int)
    requires n > 0 && 0 <= hw <= sw <= hw + n - 1
    ensures Mask(Mask(hw, n) - Mask(sw, n) - 1, n) == n - 1 - (sw - hw)
  {
    MaskDistance(sw + 1, hw + n, n);
    assert Mask(hw + n, n) == Mask(hw, n);
    var d := Mask(hw, n) - Mask(sw + 1, n);
    MaskSum(sw, 1, n);
    assert Mask(sw, n) + 1 == Mask(sw + 1, n) || (Mask(sw, n) + 1 == n && Mask(sw + 1, n) == 0);
  }

  /** `n` consecutive cells of the ring, from an absolute position. */
  function Window<T>(mem: seq<T>, from: nat, len: nat): (w: seq<T>)
    requires |mem| > 0
    ensures |w| == len
  {
    seq(len, i requires 0 <= i < len => mem[Mask(from + i, |mem|)])
  }

  /** Writing one cell changes the window at that position, or not at all. */
  lemma WindowWrite<T>(mem: seq<T>, from: nat, len: nat, p: nat, x: T)
    requires |mem| > 0 && len <= |mem| && from <= p < from + |mem|
    ensures Window(mem[Mask(p, |mem|) := x], from, len)
         == if p < from + len then Window(mem, from, len)[p - from := x] else Window(mem, from, len)
  {
    var old', new' := Window(mem, from, len), Window(mem[Mask(p, |mem|) := x], from, len);
    forall i | 0 <= i < len
      ensures new'[i] == if from + i == p then x else old'[i]
    {
      if Mask(from + i, |mem|) == Mask(p, |mem|) {
        MaskInjective(from + i, p, |mem|);
      }
    }
  }

  lemma WindowSplit<T>(mem: seq<T>, from: nat, a: nat, b: nat)
    requires |mem| > 0
    ensures Window(mem, from, a + b) == Window(mem, from, a) + Window(mem, from + a, b)
  {
    var whole, tail := Window(mem, from, a + b), Window(mem, from + a, b);
    forall i | 0 <= i < b
      ensures whole[a + i] == tail[i]
    {
      assert from + (a + i) == (from + a) + i;
    }
  }

  /** Storing consecutive items from a position on; the last write to a cell wins. */
  function Store<T>(mem: seq<T>, from: nat, items: seq<T>): (m: seq<T>)
    requires |mem| > 0
    ensures |m| == |mem|
    decreases |items|
  {
    if items == [] then mem
    else Store(mem[Mask(from, |mem|) := items[0]], from + 1, items[1..])
  }

  /** A stored block reads back, and what lies less than a ring before it is untouched. */
  lemma {:induction false} StoreWindow<T>(mem: seq<T>, start: nat, len: nat, items: seq<T>)
    requires |mem| > 0 && len + |items| <= |mem|
    ensures Window(Store(mem, start + len, items), start, len + |items|) == Window(mem, start, len) + items
    decreases |items|
  {
    if items != [] {
      var mem' := mem[Mask(start + len, |mem|) := items[0]];
      WindowWrite(mem, start, len, start + len, items[0]);
      WindowSplit(mem', start, len, 1);
      assert Window(mem', start, len + 1) == Window(mem, start, len) + [items[0]];
      StoreWindow(mem', start, len + 1, items[1..]);
      assert Window(mem, start, len) + [items[0]] + items[1..] == Window(mem, start, len) + items;
    } else {
      assert Store(mem, start + len, items) == mem;
    }
  }

  lemma SplitEqual<T>(a: seq<T>, b: seq<T>, c: seq<T>, d: seq<T>)
    requires a + b == c + d && |a| == |c|
    ensures a == c && b == d
  {
    assert a == (a + b)[..|a|] && b == (a + b)[|a|..];
    assert c == (c + d)[..|c|] && d == (c + d)[|c|..];
  }

  /** A pointer asking for one cell less than its own position asks for the whole ring. */
  lemma WholeRing(h: int, n: int)
    requires n > 0
    ensures Mask(Mask(h - 1, n) - h, n) == n - 1
  {
    MaskSum(h - 1, -h, n);
  }

  /** What is left of a window of which `u` cells are used. */
  lemma MaskRemaining(a: int, b: int, u: int, n: int)
    requires n > 0 && 0 <= a <= b < a + n && 0 <= u <= b - a
    ensures Mask(Mask(b, n) - Mask(a, n) - u, n) == b - a - u
  {
    MaskDistance(a, b, n);
    MaskSum(Mask(b, n) - Mask(a, n), -u, n);
  }

  /** Two addresses of the same cell store the same. */
  lemma {:induction false} StoreAlias<T>(mem: seq<T>, a: nat, b: nat, items: seq<T>)
    requires |mem| > 0 && Mask(a, |mem|) == Mask(b, |mem|)
    ensures Store(mem, a, items) == Store(mem, b, items)
    decreases |items|
  {
    if items != [] {
      MaskSum(a, 1, |mem|);
      MaskSum(b, 1, |mem|);
      StoreAlias(mem[Mask(a, |mem|) := items[0]], a + 1, b + 1, items[1..]);
    }
  }

  /** Windows that agree agree on their pieces. */
  lemma SamePieces<T>(mem: seq<T>, sw: nat, mem': seq<T>, sw': nat, a: nat, b: nat)
    requires |mem| > 0 && |mem'| > 0
    requires Window(mem, sw, a + b) == Window(mem', sw', a + b)
    ensures Window(mem, sw, a) == Window(mem', sw', a)
    ensures Window(mem, sw + a, b) == Window(mem', sw' + a, b)
  {
    hide Mask, Window;
    WindowSplit(mem, sw, a, b);
    WindowSplit(mem', sw', a, b);
    SplitEqual(Window(mem, sw, a), Window(mem, sw + a, b), Window(mem', sw', a), Window(mem', sw' + a, b));
  }

  lemma EmptyWindow<T>(mem: seq<T>, p: nat)
    requires |mem| > 0
    ensures Window(mem, p, 0) == []
  {
  }

  lemma StoreOne<T>(mem: seq<T>, p: nat, x: T)
    requires |mem| > 0
    ensures Store(mem, p, [x]) == mem[Mask(p, |mem|) := x]
  {
    var mem' := mem[Mask(p, |mem|) := x];
    assert Store(mem', p + 1, [x][1..]) == mem';
  }
}
