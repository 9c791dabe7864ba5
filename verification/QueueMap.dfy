/**
 How DMA queues are spread over network interfaces and PCI endpoints (`netcope/info.h`):
 queue `q` of `cnt` goes to interface `q * ifc / cnt`.
 */
module QueueMap {

  function Target(q: nat, ifc: nat, cnt: nat): nat
    requires cnt > 0
  {
    q * ifc / cnt
  }

  /** The least number whose product with `n` reaches `a`. */
  function Ceil(a: nat, n: nat): nat
    requires n > 0
  {
    (a + n - 1) / n
  }

  /** The first queue of interface `i`. */
  function Start(i: nat, ifc: nat, cnt: nat): nat
    requires ifc > 0
  {
    Ceil(i * cnt, ifc)
  }

  // ---- Division ----------------------------------------------------------

  lemma DivBounds(x: nat, n: nat)
    requires n > 0
    ensures x / n * n <= x < x / n * n + n
  {
  }

  lemma Times(a: nat, b: nat, n: nat)
    requires a < b
    ensures a * n + n <= b * n
  {
    assert (b - a) * n == b * n - a * n;
    Positive(b - a, n);
  }

  lemma Positive(d: nat, n: nat)
    requires d >= 1
    ensures d * n >= n
  {
    assert d * n == (d - 1) * n + n;
  }

  lemma DivReaches(x: nat, n: nat, i: nat)
    requires n > 0
    ensures i <= x / n <==> i * n <= x
  {
    DivBounds(x, n);
    if i <= x / n {
      if i < x / n {
        Times(i, x / n, n);
      }
    } else {
      Times(x / n, i, n);
    }
  }

  lemma CeilReaches(a: nat, n: nat, q: nat)
    requires n > 0
    ensures Ceil(a, n) <= q <==> a <= q * n
  {
    var y := a + n - 1;
    DivBounds(y, n);
    if y / n <= q {
      if y / n < q {
        Times(y / n, q, n);
      }
    } else {
      Times(q, y / n, n);
    }
  }

  // ---- Blocks ------------------------------------------------------------

  /** An interface's queues are the block from its start to the next interface's. */
  lemma TargetIsBlock(q: nat, i: nat, ifc: nat, cnt: nat)
    requires ifc > 0 && cnt > 0
    ensures Target(q, ifc, cnt) == i <==> Start(i, ifc, cnt) <= q < Start(i + 1, ifc, cnt)
  {
    DivReaches(q * ifc, cnt, i);
    DivReaches(q * ifc, cnt, i + 1);
    CeilReaches(i * cnt, ifc, q);
    CeilReaches((i + 1) * cnt, ifc, q);
  }

  /** Without division: the interface a queue goes to is the one whose share of the products its own falls into. */
  lemma TargetExact(q: nat, i: nat, ifc: nat, cnt: nat)
    requires cnt > 0
    ensures Target(q, ifc, cnt) == i <==> i * cnt <= q * ifc < (i + 1) * cnt
  {
    DivReaches(q * ifc, cnt, i);
    DivReaches(q * ifc, cnt, i + 1);
  }

  lemma StartEnds(ifc: nat, cnt: nat)
    requires ifc > 0
    ensures Start(0, ifc, cnt) == 0 && Start(ifc, ifc, cnt) == cnt
  {
    CeilReaches(0, ifc, 0);
    CeilReaches(ifc * cnt, ifc, cnt);
    assert cnt * ifc == ifc * cnt;
    if cnt > 0 {
      CeilReaches(ifc * cnt, ifc, cnt - 1);
      assert (cnt - 1) * ifc == cnt * ifc - ifc;
    }
  }

  lemma BlockAtMost(i: nat, ifc: nat, cnt: nat)
    requires ifc > 0
    ensures Start(i + 1, ifc, cnt) <= Start(i, ifc, cnt) + Ceil(cnt, ifc)
  {
    hide Ceil;
    var s, c := Ceil(i * cnt, ifc), Ceil(cnt, ifc);
    CeilReaches(i * cnt, ifc, s);
    CeilReaches(cnt, ifc, c);
    Spread(i, 1, cnt);
    Spread(s, c, ifc);
    CeilReaches((i + 1) * cnt, ifc, s + c);
  }

  lemma BlockAtLeast(i: nat, ifc: nat, cnt: nat)
    requires ifc > 0
    ensures Start(i, ifc, cnt) + cnt / ifc <= Start(i + 1, ifc, cnt)
  {
    hide Ceil;
    var e, f := Ceil((i + 1) * cnt, ifc), cnt / ifc;
    CeilReaches((i + 1) * cnt, ifc, e);
    Spread(i, 1, cnt);
    DivReaches(cnt, ifc, f);
    if f <= e {
      // What is left of the end without its share reaches the start.
      Spread(e - f, f, ifc);
      CeilReaches(i * cnt, ifc, e - f);
      LessReaches(i * cnt, cnt, e, f, ifc);
    } else {
      Times(e, f, ifc);
    }
  }

  /** If `e` reaches `a + b` with `f` steps short of `b`, then `e - f` reaches `a`. */
  lemma LessReaches(a: nat, b: nat, e: nat, f: nat, n: nat)
    requires f <= e && f * n <= b && a + b <= e * n
    requires e * n == (e - f) * n + f * n
    ensures a <= (e - f) * n
  {
  }

  lemma Spread(a: nat, b: nat, n: nat)
    ensures (a + b) * n == a * n + b * n
  {
  }

  /** Every block has the rounded-down or the rounded-up share of the queues. */
  lemma BlockSize(i: nat, ifc: nat, cnt: nat)
    requires ifc > 0
    ensures Start(i, ifc, cnt) + cnt / ifc <= Start(i + 1, ifc, cnt) <= Start(i, ifc, cnt) + Ceil(cnt, ifc)
  {
    BlockAtLeast(i, ifc, cnt);
    BlockAtMost(i, ifc, cnt);
  }

  /** No queue is without an interface, and later queues do not go to earlier ones. */
  lemma TargetInRange(q: nat, r: nat, ifc: nat, cnt: nat)
    requires ifc > 0 && q <= r < cnt
    ensures Target(q, ifc, cnt) <= Target(r, ifc, cnt) < ifc
  {
    DivReaches(r * ifc, cnt, ifc);
    assert ifc * cnt == cnt * ifc;
    Times(r, cnt, ifc);
    DivBounds(q * ifc, cnt);
    if q < r {
      Times(q, r, ifc);
    }
    DivReaches(r * ifc, cnt, q * ifc / cnt);
  }

  // ---- Counters ----------------------------------------------------------

  /** How many of the first `q` queues go to interface `i`. */
  function Count(i: nat, q: nat, ifc: nat, cnt: nat): nat
    requires cnt > 0
  {
    if q == 0 then 0 else Count(i, q - 1, ifc, cnt) + if Target(q - 1, ifc, cnt) == i then 1 else 0
  }

  lemma {:induction false} CountIsBlock(i: nat, q: nat, ifc: nat, cnt: nat)
    requires ifc > 0 && cnt > 0
    ensures var s, e := Start(i, ifc, cnt), Start(i + 1, ifc, cnt);
            s <= e && Count(i, q, ifc, cnt) == (if q <= s then 0 else if q <= e then q - s else e - s)
    decreases q
  {
    hide Target, Start;
    BlockSize(i, ifc, cnt);
    if q > 0 {
      CountIsBlock(i, q - 1, ifc, cnt);
      TargetIsBlock(q - 1, i, ifc, cnt);
    }
  }

  lemma {:induction false} StartGrows(i: nat, j: nat, ifc: nat, cnt: nat)
    requires ifc > 0 && i <= j
    ensures Start(i, ifc, cnt) <= Start(j, ifc, cnt)
    decreases j
  {
    hide Start;
    if i < j {
      StartGrows(i, j - 1, ifc, cnt);
      BlockSize(j - 1, ifc, cnt);
    }
  }

  /** All the queues of an interface. */
  lemma CountAll(i: nat, ifc: nat, cnt: nat)
    requires i < ifc && cnt > 0
    ensures Count(i, cnt, ifc, cnt) == Start(i + 1, ifc, cnt) - Start(i, ifc, cnt)
    ensures cnt / ifc <= Count(i, cnt, ifc, cnt) <= Ceil(cnt, ifc)
  {
    hide Start, Count;
    CountIsBlock(i, cnt, ifc, cnt);
    StartGrows(i + 1, ifc, ifc, cnt);
    StartEnds(ifc, cnt);
    BlockSize(i, ifc, cnt);
  }

  function Sum(ns: seq<nat>, k: nat): nat
    requires k <= |ns|
  {
    if k == 0 then 0 else Sum(ns, k - 1) + ns[k - 1]
  }

  lemma {:induction false} CountsSum(ns: seq<nat>, k: nat, ifc: nat, cnt: nat)
    requires cnt > 0 && ifc > 0 && k <= ifc == |ns| && forall i | 0 <= i < ifc :: ns[i] == Count(i, cnt, ifc, cnt)
    ensures Sum(ns, k) == Start(k, ifc, cnt)
    decreases k
  {
    hide Start, Count;
    if k == 0 {
      StartEnds(ifc, cnt);
    } else {
      CountsSum(ns, k - 1, ifc, cnt);
      CountAll(k - 1, ifc, cnt);
    }
  }

  /** Queue `q` of `cnt` goes to `i`, of `n`. */
  ghost predicate Goes(i: nat, q: nat, n: nat, cnt: nat) {
    i * cnt <= q * n < (i + 1) * cnt
  }

  /** `struct nc_ifc_queue_map_info` */
  datatype Queue = Queue(id: nat, ep: nat, ifc: nat)

  /**
   A queue loop of nc_ifc_map_info_create_ordinary. Every interface gets its share of the
   queues as one block, and the counters are the sizes of the blocks.
   */
  method MapQueues(queues: array<Queue>, counters: array<nat>, epCount: nat)
    requires counters.Length > 0
    requires forall i | 0 <= i < counters.Length :: counters[i] == 0
    modifies queues, counters
    ensures var cnt, ifc := queues.Length, counters.Length;
            && (forall q | 0 <= q < cnt :: queues[q] == Queue(q, Target(q, epCount, cnt), Target(q, ifc, cnt)))
            && (forall q | 0 <= q < cnt :: Goes(queues[q].ifc, q, ifc, cnt) && Goes(queues[q].ep, q, epCount, cnt))
            && (forall i | 0 <= i < ifc :: cnt / ifc <= counters[i] <= Ceil(cnt, ifc))
            && (cnt > 0 ==> forall i | 0 <= i < ifc :: counters[i] == Start(i + 1, ifc, cnt) - Start(i, ifc, cnt))
            && Sum(counters[..], ifc) == cnt
  {
    hide Target, Start, Count, Sum, Ceil, Goes;
    var cnt, ifc := queues.Length, counters.Length;
    if cnt > 0 {
      NoCounts(ifc, cnt);
    }
    for q := 0 to cnt
      invariant forall p | 0 <= p < q :: queues[p] == Queue(p, Target(p, epCount, cnt), Target(p, ifc, cnt))
      invariant forall p | 0 <= p < q :: Goes(queues[p].ifc, p, ifc, cnt) && Goes(queues[p].ep, p, epCount, cnt)
      invariant forall i | 0 <= i < ifc :: counters[i] == if cnt == 0 then 0 else Count(i, q, ifc, cnt)
    {
      TargetGoes(q, ifc, cnt);
      TargetGoes(q, epCount, cnt);
      TargetInRange(q, q, ifc, cnt);
      var i := Target(q, ifc, cnt);
      queues[q] := Queue(q, Target(q, epCount, cnt), i);
      counters[i] := counters[i] + 1;
      NextCounts(q, ifc, cnt);
    }
    if cnt > 0 {
      forall i | 0 <= i < ifc
        ensures counters[i] == Start(i + 1, ifc, cnt) - Start(i, ifc, cnt) && cnt / ifc <= counters[i] <= Ceil(cnt, ifc)
      {
        CountAll(i, ifc, cnt);
      }
      CountsSum(counters[..], ifc, ifc, cnt);
      StartEnds(ifc, cnt);
    } else {
      NoQueues(counters[..], ifc);
    }
  }

  lemma TargetGoes(q: nat, n: nat, cnt: nat)
    requires cnt > 0
    ensures Goes(Target(q, n, cnt), q, n, cnt)
  {
    TargetExact(q, Target(q, n, cnt), n, cnt);
  }

  lemma NextCounts(q: nat, ifc: nat, cnt: nat)
    requires cnt > 0
    ensures forall i: nat ::
              Count(i, q + 1, ifc, cnt) == Count(i, q, ifc, cnt) + if Target(q, ifc, cnt) == i then 1 else 0
  {
  }

  lemma NoCounts(ifc: nat, cnt: nat)
    requires cnt > 0
    ensures forall i: nat :: Count(i, 0, ifc, cnt) == 0
  {
  }

  lemma {:induction false} NoQueues(ns: seq<nat>, k: nat)
    requires k <= |ns| && forall i | 0 <= i < |ns| :: ns[i] == 0
    ensures Sum(ns, k) == 0
    ensures forall n | n > 0 :: 0 / n == 0 == Ceil(0, n)
    decreases k
  {
    if k > 0 {
      NoQueues(ns, k - 1);
    }
  }

  // ---- Endpoints ---------------------------------------------------------

  /** The endpoint of interface `i`. */
  function InterfaceEndpoint(i: nat, epCount: nat, ifc: nat): nat
    requires ifc > 0
  {
    Target(i, epCount, ifc)
  }

  lemma Scales(a: nat, b: nat, n: nat)
    requires n > 0
    ensures a <= b <==> a * n <= b * n
  {
    if a < b {
      Times(a, b, n);
    } else if b < a {
      Times(b, a, n);
    }
  }

  lemma Swap(a: nat, b: nat, c: nat)
    ensures a * b * c == a * c * b
  {
  }

  lemma Regroup(a: nat, b: nat, c: nat)
    ensures a * (b * c) == a * b * c
  {
  }

  /** `v` reaches `y * m / c` in steps of `m` exactly when it reaches `y / c`. */
  lemma NestedReaches(y: nat, m: nat, c: nat, v: nat)
    requires m > 0 && c > 0
    ensures v * m <= y * m / c <==> v <= y / c
  {
    DivReaches(y * m, c, v * m);
    DivReaches(y, c, v);
    Swap(v, m, c);
    Scales(v * c, y, m);
  }

  lemma Nested(y: nat, m: nat, c: nat)
    requires m > 0 && c > 0
    ensures y * m / c / m == y / c
  {
    var e, i := y / c, y * m / c;
    NestedReaches(y, m, c, e);
    NestedReaches(y, m, c, e + 1);
    DivReaches(i, m, e);
    DivReaches(i, m, e + 1);
  }

  lemma Cancel(i: nat, m: nat, n: nat)
    requires m > 0 && n > 0 && m * n > 0
    ensures i * n / (m * n) == i / m
  {
    var e := i / m;
    DivReaches(i * n, m * n, e);
    DivReaches(i * n, m * n, e + 1);
    Regroup(e, m, n);
    Regroup(e + 1, m, n);
    Scales(e * m, i, n);
    Scales((e + 1) * m, i, n);
    DivReaches(i, m, e);
    DivReaches(i, m, e + 1);
  }

  /** With the same number of interfaces on every endpoint, a queue is on the endpoint of its interface. */
  lemma EndpointsAgree(q: nat, epCount: nat, each: nat, cnt: nat)
    requires cnt > 0 && epCount > 0 && each > 0
    ensures var ifc := each * epCount;
            ifc > 0 && InterfaceEndpoint(Target(q, ifc, cnt), epCount, ifc) == Target(q, epCount, cnt)
  {
    var ifc := each * epCount;
    Positive(each, epCount);
    Regroup(q, each, epCount);
    Swap(q, each, epCount);
    Nested(q * epCount, each, cnt);
    Cancel(Target(q, ifc, cnt), each, epCount);
  }

  /** Otherwise some number of queues puts a queue on another endpoint than its interface. */
  lemma EndpointsDisagree(epCount: nat, ifc: nat)
    requires epCount > 0 && ifc > 0 && ifc % epCount != 0
    ensures var q, cnt := ifc, ifc * epCount;
            && cnt > q && Target(q, epCount, cnt) == 1
            && InterfaceEndpoint(Target(q, ifc, cnt), epCount, ifc) == 0
  {
    var cnt := ifc * epCount;
    NotOne(epCount, ifc);
    Swap(1, epCount, ifc);
    Times(1, epCount, ifc);
    Cancel(1, 1, cnt);
    Cancel(ifc, epCount, ifc);
    Remainder(ifc, epCount);
    DivReaches(ifc / epCount * epCount, ifc, 1);
  }

  lemma NotOne(d: nat, x: nat)
    requires d > 0 && x % d != 0
    ensures d > 1
  {
  }

  lemma Remainder(x: nat, d: nat)
    requires d > 0 && x % d != 0
    ensures x / d * d < x
  {
  }
}
