/**
 Sequence operations that the message history is built from: reversal (the
 `rev().collect()` of a read), truncation to a prefix (`VecDeque::truncate`)
 and the suffix of a given length (the newest messages, oldest first).
 */
module Sequences {

  function Min(a: nat, b: nat): nat
  {
    if a <= b then a else b
  }

  /** The elements of `s` in the opposite order. */
  function Reverse<T>(s: seq<T>): (r: seq<T>)
    ensures |r| == |s|
  {
    if s == [] then [] else Reverse(s[1..]) + [s[0]]
  }

  /** Element `k` of the reversal is element `|s| - 1 - k` of the original. */
  lemma {:induction false} ReverseAt<T>(s: seq<T>, k: nat)
    requires k < |s|
    ensures Reverse(s)[k] == s[|s| - 1 - k]
  {
    if k < |s| - 1 {
      ReverseAt(s[1..], k);
    }
  }

  /** Reversal is determined element by element. */
  lemma ReverseIndexes<T>(s: seq<T>)
    ensures forall k :: 0 <= k < |s| ==> Reverse(s)[k] == s[|s| - 1 - k]
  {
    forall k | 0 <= k < |s| ensures Reverse(s)[k] == s[|s| - 1 - k] {
      ReverseAt(s, k);
    }
  }

  /** Reversing twice gives the original sequence back. */
  lemma ReverseReverse<T>(s: seq<T>)
    ensures Reverse(Reverse(s)) == s
  {
    ReverseIndexes(s);
    ReverseIndexes(Reverse(s));
  }

  /** Pushing onto the front becomes appending at the back once reversed. */
  lemma ReverseCons<T>(x: T, s: seq<T>)
    ensures Reverse([x] + s) == Reverse(s) + [x]
  {
    assert ([x] + s)[1..] == s;
  }

  /**
   The first `n` elements of `s` (all of `s` when it is shorter), as
   `VecDeque::truncate(n)` leaves them.
   */
  function Truncate<T>(s: seq<T>, n: nat): (r: seq<T>)
    ensures |r| == Min(|s|, n)
    ensures r <= s
  {
    if |s| <= n then s else s[..n]
  }

  /** The last `n` elements of `s` (all of `s` when it is shorter), in order. */
  function LastN<T>(s: seq<T>, n: nat): (r: seq<T>)
    ensures |r| == Min(|s|, n)
    ensures r == s[|s| - |r|..]
  {
    if |s| <= n then s else s[|s| - n..]
  }

  /** Keeping the front `n` and reversing keeps the back `n` of the reversal. */
  lemma ReverseTruncate<T>(s: seq<T>, n: nat)
    ensures Reverse(Truncate(s, n)) == LastN(Reverse(s), n)
  {
    var t := Truncate(s, n);
    var l := LastN(Reverse(s), n);
    ReverseIndexes(s);
    ReverseIndexes(t);
    assert |Reverse(t)| == |l|;
    forall k | 0 <= k < |l| ensures Reverse(t)[k] == l[k] {
      assert l[k] == Reverse(s)[|s| - |l| + k];
    }
  }

  /**
   Appending one element to the last `n` and keeping the last `n` again is the
   same as keeping the last `n` of the longer sequence.
   */
  lemma LastNSnoc<T>(s: seq<T>, x: T, n: nat)
    ensures LastN(LastN(s, n) + [x], n) == LastN(s + [x], n)
  {
    var a := LastN(LastN(s, n) + [x], n);
    var b := LastN(s + [x], n);
    assert |a| == |b|;
    forall k | 0 <= k < |a| ensures a[k] == b[k] {
      if k == |a| - 1 {
        assert a[k] == x == b[k];
      }
    }
  }
}
