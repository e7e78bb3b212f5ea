/** Sixteen-bit registers as bit vectors: the exclusive-or and right-shift
    that the checksum loops use, and the algebra that the checksum proofs need. */
module Word16 {
  import opened BitString

  type Word = bv16
  type Byte = bv8

  function ZeroBytes(n: nat): (r: seq<Byte>)
    ensures |r| == n
    ensures forall i :: 0 <= i < n ==> r[i] == 0
  {
    seq(n, i => 0)
  }

  function Xor(a: Word, b: Word): Word {
    a ^ b
  }

  function Half(w: Word): Word {
    w >> 1
  }

  predicate Odd(w: Word) {
    w & 1 != 0
  }

  /** `w` when `b` holds, and zero otherwise. */
  function Mask(b: bool, w: Word): Word {
    if b then w else 0
  }

  /** Bit `i` of `w`, where bit 0 is the least significant. */
  predicate Bit(w: Word, i: nat) {
    Odd(Drop(w, i))
  }

  /** The low `n` bits of `w`, least significant first. */
  function WordBits(w: Word, n: nat): (bits: seq<bool>)
    ensures |bits| == n
    ensures forall i :: 0 <= i < n ==> bits[i] == Bit(w, i)
  {
    seq(n, i requires 0 <= i => Bit(w, i))
  }

  // Some lemmas, here and in the modules that use this one, take a length such as 16 as a
  // parameter whose value they require.  Dafny evaluates a recursive function of literals in
  // full, so a literal would make the solver unroll `Drop` or `Shift` sixteen times at once;
  // a parameter makes it unroll only where the proof asks.

  /** What is left of `w` after dropping its low `n` bits. */
  function Drop(w: Word, n: nat): Word {
    if n == 0 then w else Half(Drop(w, n - 1))
  }

  lemma OddXor(a: Word, b: Word)
    ensures Odd(Xor(a, b)) == (Odd(a) != Odd(b))
  {
  }

  lemma HalfXor(a: Word, b: Word)
    ensures Half(Xor(a, b)) == Xor(Half(a), Half(b))
  {
  }

  lemma XorSelf(a: Word)
    ensures Xor(a, a) == 0
  {
  }

  lemma XorZero(a: Word)
    ensures Xor(a, 0) == a && Xor(0, a) == a
  {
  }

  lemma MaskXor(s: bool, t: bool, w: Word)
    ensures Mask(s != t, w) == Xor(Mask(s, w), Mask(t, w))
  {
    XorSelf(w);
    XorZero(w);
    XorZero(0);
  }

  lemma HalfOddDetermine(a: Word, b: Word)
    requires Odd(a) == Odd(b) && Half(a) == Half(b)
    ensures a == b
  {
  }

  // ----- Words and their bit strings -----

  lemma {:induction false} XorDrop(a: Word, b: Word, i: nat)
    ensures Drop(Xor(a, b), i) == Xor(Drop(a, i), Drop(b, i))
  {
    if i > 0 {
      XorDrop(a, b, i - 1);
      HalfXor(Drop(a, i - 1), Drop(b, i - 1));
    }
  }

  lemma XorBit(a: Word, b: Word, i: nat)
    ensures Bit(Xor(a, b), i) == (Bit(a, i) != Bit(b, i))
  {
    XorDrop(a, b, i);
    OddXor(Drop(a, i), Drop(b, i));
  }

  lemma XorWordBits(a: Word, b: Word, n: nat)
    ensures WordBits(Xor(a, b), n) == XorBits(WordBits(a, n), WordBits(b, n))
  {
    forall i | 0 <= i < n {
      XorBit(a, b, i);
    }
  }

  lemma {:induction false} DropHalf(w: Word, n: nat)
    ensures Drop(Half(w), n) == Drop(w, n + 1)
  {
    if n > 0 {
      DropHalf(w, n - 1);
    }
  }

  lemma {:induction false} DropOfZero(n: nat)
    ensures Drop(0, n) == 0
  {
    if n > 0 {
      DropOfZero(n - 1);
    }
  }

  lemma HalfFour(v: Word)
    ensures Half(Half(Half(Half(v)))) == v >> 4
  {
  }

  lemma DropFour(w: Word, n: nat)
    ensures Drop(w, n + 4) == Half(Half(Half(Half(Drop(w, n)))))
  {
    assert Drop(w, n + 1) == Half(Drop(w, n));
    assert Drop(w, n + 3) == Half(Drop(w, n + 2));
  }

  lemma ShiftedOut(w: Word, v4: Word, v8: Word, v12: Word, v16: Word)
    requires v4 == w >> 4 && v8 == v4 >> 4 && v12 == v8 >> 4 && v16 == v12 >> 4
    ensures v16 == 0
    ensures w < 0x100 ==> v8 == 0
  {
  }

  lemma DropAll(w: Word)
    ensures Drop(w, 16) == 0
    ensures w < 0x100 ==> Drop(w, 8) == 0
  {
    DropFour(w, 0);
    DropFour(w, 4);
    DropFour(w, 8);
    DropFour(w, 12);
    HalfFour(w);
    HalfFour(Drop(w, 4));
    HalfFour(Drop(w, 8));
    HalfFour(Drop(w, 12));
    ShiftedOut(w, Drop(w, 4), Drop(w, 8), Drop(w, 12), Drop(w, 16));
  }

  lemma BitBeyond(c: Word, n: nat)
    requires n == 16
    ensures !Bit(c, n)
  {
    DropAll(c);
  }

  lemma DropByte(b: Byte)
    ensures Drop(b as Word, 8) == 0
  {
    DropAll(b as Word);
  }

  lemma HalfBit(w: Word, j: nat)
    ensures Bit(Half(w), j) == Bit(w, j + 1)
  {
    DropHalf(w, j);
  }

  lemma MaskBit(b: bool, w: Word, j: nat)
    ensures Bit(Mask(b, w), j) == (b && Bit(w, j))
  {
    DropOfZero(j);
  }

  lemma {:induction false} BitsAndDropDetermine(a: Word, b: Word, n: nat)
    requires forall i :: 0 <= i < n ==> Bit(a, i) == Bit(b, i)
    requires Drop(a, n) == Drop(b, n)
    ensures a == b
  {
    if n > 0 {
      assert Bit(a, n - 1) == Bit(b, n - 1);
      HalfOddDetermine(Drop(a, n - 1), Drop(b, n - 1));
      BitsAndDropDetermine(a, b, n - 1);
    }
  }

  /** A word is determined by its sixteen bits. */
  lemma BitsDetermine(a: Word, b: Word)
    requires WordBits(a, 16) == WordBits(b, 16)
    ensures a == b
  {
    DropAll(a);
    DropAll(b);
    forall i | 0 <= i < 16 ensures Bit(a, i) == Bit(b, i) {
      assert WordBits(a, 16)[i] == WordBits(b, 16)[i];
    }
    BitsAndDropDetermine(a, b, 16);
  }

  // ----- The algebra of exclusive-or -----

  lemma XorFourExpanded(a: Word, b: Word, c: Word, d: Word)
    ensures Xor(a ^ b, c ^ d) == Xor(a ^ c, b ^ d)
  {
  }

  lemma XorFour(a: Word, b: Word, c: Word, d: Word)
    ensures Xor(Xor(a, b), Xor(c, d)) == Xor(Xor(a, c), Xor(b, d))
  {
    XorFourExpanded(a, b, c, d);
  }

  lemma XorAssociates(a: Word, b: Word, c: Word)
    ensures Xor(Xor(a, b), c) == Xor(a, Xor(b, c))
  {
    XorFour(a, b, 0, c);
    XorZero(a);
    XorZero(c);
  }

  lemma XorZeroEqual(a: Word, b: Word)
    ensures Xor(a, b) == 0 <==> a == b
  {
    XorSelf(a);
    if Xor(a, b) == 0 {
      XorAssociates(a, b, b);
      XorSelf(b);
      XorZero(a);
      XorZero(b);
    }
  }
}
