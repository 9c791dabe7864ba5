module Sequences {

  /** The first `k` parts, one after another. */
  function Concat<T>(parts: seq<seq<T>>, k: nat): seq<T>
    requires k <= |parts|
  {
    if k == 0 then [] else Concat(parts, k - 1) + parts[k - 1]
  }

  lemma {:induction false} ConcatPrefix<T>(parts: seq<seq<T>>, more: seq<seq<T>>, k: nat)
    requires k <= |parts|
    ensures Concat(parts + more, k) == Concat(parts, k)
    decreases k
  {
    if k > 0 {
      ConcatPrefix(parts, more, k - 1);
    }
  }

  lemma ConcatMore<T>(parts: seq<seq<T>>, part: seq<T>)
    ensures Concat(parts + [part], |parts| + 1) == Concat(parts, |parts|) + part
  {
    ConcatPrefix(parts, [part], |parts|);
  }

  /** A piece is its two parts. */
  lemma Pieces<T>(t: seq<T>, i: nat, j: nat, k: nat)
    requires i <= j <= k <= |t|
    ensures t[i..k] == t[i..j] + t[j..k]
  {
  }

  lemma Parts<T>(x: seq<T>, y: seq<T>)
    ensures (x + y)[..|x|] == x && (x + y)[|x|..] == y
  {
  }
}
