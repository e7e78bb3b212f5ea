/** Bit strings: pointwise exclusive-or, and how many positions of a string are set. */
module BitString {

  /** Bitwise exclusive-or of two bit strings of one length. */
  function XorBits(a: seq<bool>, b: seq<bool>): (r: seq<bool>)
    requires |a| == |b|
    ensures |r| == |a|
    ensures forall i :: 0 <= i < |r| ==> r[i] == (a[i] != b[i])
  {
    seq(|a|, i requires 0 <= i < |a| => a[i] != b[i])
  }

  function Zeros(n: nat): (r: seq<bool>)
    ensures |r| == n
    ensures forall i :: 0 <= i < n ==> !r[i]
  {
    seq(n, i => false)
  }

  /** The number of set bits. */
  function Weight(bits: seq<bool>): nat {
    if bits == [] then 0 else Weight(bits[..|bits| - 1]) + if bits[|bits| - 1] then 1 else 0
  }

  function Reversed(bits: seq<bool>): (r: seq<bool>)
    ensures |r| == |bits|
    ensures forall i :: 0 <= i < |r| ==> r[i] == bits[|bits| - 1 - i]
  {
    seq(|bits|, i requires 0 <= i < |bits| => bits[|bits| - 1 - i])
  }

  lemma XorBitsConcat(a: seq<bool>, b: seq<bool>, x: seq<bool>, y: seq<bool>)
    requires |a| == |b| && |x| == |y|
    ensures XorBits(a + x, b + y) == XorBits(a, b) + XorBits(x, y)
  {
  }

  lemma {:induction false} WeightConcat(a: seq<bool>, b: seq<bool>)
    ensures Weight(a + b) == Weight(a) + Weight(b)
  {
    if b == [] {
      assert a + b == a;
    } else {
      var n := |b| - 1;
      assert (a + b)[..|a + b| - 1] == a + b[..n];
      WeightConcat(a, b[..n]);
    }
  }

  lemma {:induction false} WeightZero(bits: seq<bool>)
    ensures Weight(bits) == 0 <==> bits == Zeros(|bits|)
  {
    if bits != [] {
      var n := |bits| - 1;
      WeightZero(bits[..n]);
      assert bits == bits[..n] + [bits[n]];
      assert Zeros(n + 1) == Zeros(n) + [false];
    }
  }

  /** The last set bit of a string that has one. */
  lemma {:induction false} LastSetBit(bits: seq<bool>) returns (i: nat)
    requires Weight(bits) > 0
    ensures i < |bits| && bits[i]
    ensures bits == bits[..i] + [true] + Zeros(|bits| - i - 1)
    ensures Weight(bits[..i]) == Weight(bits) - 1
  {
    var n := |bits| - 1;
    if bits[n] {
      i := n;
    } else {
      i := LastSetBit(bits[..n]);
      assert bits[..n][..i] == bits[..i];
      assert bits == bits[..n] + [false];
    }
  }
}
