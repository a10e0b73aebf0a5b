/** Bytes and the order-reversal that Node's Buffer.reverse() performs. */
module Seqs {

  /** One octet of a Node Buffer. */
  type byte = b: int | 0 <= b < 256

  function Min(a: int, b: int): (m: int) {
    if a <= b then a else b
  }

  /** The elements of `s` in the opposite order. */
  function Reverse<T>(s: seq<T>): (r: seq<T>)
    ensures |r| == |s|
  {
    if s == [] then [] else Reverse(s[1..]) + [s[0]]
  }

  /** Element `k` of the reversal is element `|s| - 1 - k` of the original. */
  lemma {:induction false} ReverseAt<T>(s: seq<T>, k: nat)
    requires k < |s|
    ensures Reverse(s)[k] == s[|s| - 1 - k]
  {
    if k < |s| - 1 {
      ReverseAt(s[1..], k);
    }
  }

  /** Reversal turns a concatenation around. */
  lemma {:induction false} ReverseConcat<T>(a: seq<T>, b: seq<T>)
    ensures Reverse(a + b) == Reverse(b) + Reverse(a)
  {
    if a == [] {
      assert a + b == b;
    } else {
      assert (a + b)[1..] == a[1..] + b;
      ReverseConcat(a[1..], b);
    }
  }

  /** Reversing twice gives back the original sequence. */
  lemma {:induction false} ReverseInvolution<T>(s: seq<T>)
    ensures Reverse(Reverse(s)) == s
  {
    if s != [] {
      ReverseConcat(Reverse(s[1..]), [s[0]]);
      ReverseInvolution(s[1..]);
      assert Reverse([s[0]]) == [s[0]];
    }
  }

  /** A sequence is left as it was by reversal exactly when it reads the same both ways. */
  lemma ReverseFixedPoint<T>(s: seq<T>)
    ensures Reverse(s) == s <==> forall k :: 0 <= k < |s| ==> s[k] == s[|s| - 1 - k]
  {
    forall k | 0 <= k < |s| {
      ReverseAt(s, k);
    }
  }
}
