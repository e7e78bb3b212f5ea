/** Bursts in command frames: exactly the listed changes go unnoticed. */
module CommandBursts {
  import opened Word16
  import opened Crc16
  import opened CrcOrder
  import opened CrcDetection
  import opened CrcDistance
  import opened Wire
  import opened Framing
  import opened FrameErrors
  import opened FrameBursts
  import opened HiddenChanges

  // ----- From bursts to changes -----

  /** The two-byte field of a command frame. */
  lemma CommandField(c: Word)
    ensures Put(c as int, 2) == [HighByte(c), LowByte(c)]
  {
    WordValue(c);
    PutTwo(c as int, HighByte(c), LowByte(c));
  }

  /** Two bytes as a word, the first in its low half. */
  function Pair(b: seq<Byte>): Word
    requires |b| == 2
  {
    Join(b[0], b[1])
  }

  lemma PairBits(b: seq<Byte>, sixteen: nat)
    requires |b| == 2 && sixteen == 16
    ensures WordBits(Pair(b), sixteen) == DataBits(b)
  {
    SplitJoin(b[0], b[1]);
    WordBitsAreByteBits(Pair(b), sixteen);
    assert b == [b[0]] + [b[1]];
    DataBitsConcat([b[0]], [b[1]]);
    OneByteDistance(b[0], b[1]);
    assert [b[0]][..0] == [] && [b[1]][..0] == [];
  }

  lemma PairXorBit(b: seq<Byte>, d: seq<Byte>, e: Word, k: nat)
    requires |b| == |d| == 2 && k < 16 && e == Xor(Pair(b), Pair(d))
    ensures Bit(e, k) == (DataBits(b)[k] != DataBits(d)[k])
  {
    PairBits(b, 16);
    PairBits(d, 16);
    assert WordBits(Pair(b), 16)[k] == DataBits(b)[k];
    assert WordBits(Pair(d), 16)[k] == DataBits(d)[k];
    XorBit(Pair(b), Pair(d), k);
  }

  lemma PairDiffers(b: seq<Byte>, d: seq<Byte>)
    requires |b| == |d| == 2
    ensures Xor(Pair(b), Pair(d)) == 0 <==> b == d
  {
    XorZeroEqual(Pair(b), Pair(d));
    SplitJoin(b[0], b[1]);
    SplitJoin(d[0], d[1]);
  }

  /** A change confined to a payload's last two bytes changes the checksum by its own. */
  lemma TailChange(a: seq<Byte>, t: seq<Byte>, t': seq<Byte>)
    requires |t| == |t'| == 2
    ensures Xor(Crc(KERMIT, a + t), Crc(KERMIT, a + t')) == Shift(KERMIT, Xor(Pair(t), Pair(t')), 16)
  {
    var c := Crc(KERMIT, a);
    assert t == [t[0], t[1]] && t' == [t'[0], t'[1]];
    CrcAppendTwo(KERMIT, a, t[0], t[1]);
    CrcAppendTwo(KERMIT, a, t'[0], t'[1]);
    ShiftLinear(KERMIT, Xor(c, Pair(t)), Xor(c, Pair(t')), 16);
    XorFour(c, Pair(t), c, Pair(t'));
    XorSelf(c);
    XorZero(Xor(Pair(t), Pair(t')));
  }

  lemma FieldIsSwapped(c: Word)
    ensures Pair([HighByte(c), LowByte(c)]) == Swapped(c)
  {
  }

  lemma XorCancels(a: Word, b: Word, d: Word)
    requires Xor(a, b) == Xor(a, d)
    ensures b == d
  {
    XorAssociates(a, a, b);
    XorAssociates(a, a, d);
    XorSelf(a);
    XorZero(b);
    XorZero(d);
  }

  /** A field matches the changed payload exactly when it changed as the payload demands. */
  lemma FieldMatches(a: seq<Byte>, t: seq<Byte>, t': seq<Byte>, field: seq<Byte>)
    requires |t| == |t'| == |field| == 2
    ensures field == Check(COMMAND, a + t')
            <==> Xor(Pair(Check(COMMAND, a + t)), Pair(field)) == FieldChange(Xor(Pair(t), Pair(t')), 16)
  {
    var c, c' := Crc(KERMIT, a + t), Crc(KERMIT, a + t');
    CommandField(c);
    CommandField(c');
    FieldIsSwapped(c);
    FieldIsSwapped(c');
    TailChange(a, t, t');
    SwappedXor(c, c');
    if Xor(Swapped(c), Pair(field)) == Xor(Swapped(c), Swapped(c')) {
      XorCancels(Swapped(c), Pair(field), Swapped(c'));
      PairDiffers(field, Check(COMMAND, a + t'));
      XorSelf(Swapped(c'));
    }
  }

  /** A burst that starts `m` bits into the last two payload bytes leaves the bits before. */
  lemma PayloadBit(a: seq<Byte>, t: seq<Byte>, t': seq<Byte>, m: nat, k: nat)
    requires |t| == |t'| == 2 && k < m <= 16 && DifferWithin(a + t, a + t', 8 * |a| + m, 16)
    ensures DataBits(t)[k] == DataBits(t')[k]
  {
    if DataBits(t)[k] != DataBits(t')[k] {
      BackDiffers(a, a, t, t', 8 * |a| + m, 16, k);
    }
  }

  lemma PayloadMask(a: seq<Byte>, t: seq<Byte>, t': seq<Byte>, m: nat, e: Word)
    requires |t| == |t'| == 2 && m <= 16 && DifferWithin(a + t, a + t', 8 * |a| + m, 16)
    requires e == Xor(Pair(t), Pair(t'))
    ensures e & LowMask(m) == 0
  {
    forall k | 0 <= k < m ensures !Bit(e, k) {
      PayloadBit(a, t, t', m, k);
      PairXorBit(t, t', e, k);
    }
    LowClear(e, m);
  }

  /** A burst that ends `m` bits into the field leaves the bits after. */
  lemma FieldBit(p: seq<Byte>, p': seq<Byte>, b: seq<Byte>, b': seq<Byte>, i: nat, m: nat, k: nat)
    requires |p| == |p'| && |b| == |b'| == 2 && m <= k < 16 && i + 16 == 8 * |p| + m
    requires DifferWithin(p + b, p' + b', i, 16)
    ensures DataBits(b)[k] == DataBits(b')[k]
  {
    if DataBits(b)[k] != DataBits(b')[k] {
      BackDiffers(p, p', b, b', i, 16, k);
    }
  }

  lemma FieldMask(p: seq<Byte>, p': seq<Byte>, b: seq<Byte>, b': seq<Byte>, i: nat, m: nat, f: Word)
    requires |p| == |p'| && |b| == |b'| == 2 && m <= 16 && i + 16 == 8 * |p| + m
    requires DifferWithin(p + b, p' + b', i, 16) && f == Xor(Pair(b), Pair(b'))
    ensures f & !LowMask(m) == 0
  {
    forall k | m <= k < 16 ensures !Bit(f, k) {
      FieldBit(p, p', b, b', i, m, k);
      PairXorBit(b, b', f, k);
    }
    HighClear(f, m);
  }

  /** A burst that changes both payload and field leaves all but the payload's last two
      bytes alone, and starts within them. */
  lemma BurstStart(a: seq<Byte>, a': seq<Byte>, t: seq<Byte>, t': seq<Byte>, b: seq<Byte>, b': seq<Byte>, i: nat)
    returns (m: nat)
    requires |a| == |a'| && |t| == |t'| == |b| == |b'| == 2
    requires a + t != a' + t' && b != b' && DifferWithin(a + t + b, a' + t' + b', i, 16)
    ensures a == a' && 1 <= m <= 15 && i == 8 * |a| + m
  {
    var k := DifferingBit(b, b');
    BackDiffers(a + t, a' + t', b, b', i, 16, k);
    FrontDiffers(a + t, a' + t', b, b', i, 16);
    FrontDiffers(a, a', t, t', i, 16);
    m := i - 8 * |a|;
  }

  /** A payload's last two bytes, with zeros before a shorter one. */
  function LastTwo(p: seq<Byte>): (t: seq<Byte>)
    ensures |t| == 2
  {
    ([0, 0] + p)[|p|..]
  }

  /** The payload's last two bytes and the field change so that the field matches. */
  predicate HidesBurst(p: seq<Byte>, p': seq<Byte>, field: seq<Byte>)
    requires |field| == 2
  {
    IsHidden(Xor(Pair(LastTwo(p)), Pair(LastTwo(p'))), Xor(Pair(Check(COMMAND, p)), Pair(field)))
  }

  /** A burst that leaves the field alone is always noticed. */
  lemma FieldUntouched(p: seq<Byte>, p': seq<Byte>, i: nat)
    requires |p| == |p'| && p != p' && DifferWithin(p, p', i, 16)
    ensures Check(COMMAND, p) != Check(COMMAND, p')
  {
    BurstDetected(KERMIT, p, p', i);
    CommandField(Crc(KERMIT, p));
    CommandField(Crc(KERMIT, p'));
    if Check(COMMAND, p) == Check(COMMAND, p') {
      var c, c' := Check(COMMAND, p), Check(COMMAND, p');
      assert c[0] == c'[0] && c[1] == c'[1];
      SameRegister(Crc(KERMIT, p), Crc(KERMIT, p'));
    }
  }

  lemma TailBurst(a: seq<Byte>, t: seq<Byte>, t': seq<Byte>, field: seq<Byte>, m: nat)
    requires |t| == |t'| == |field| == 2 && 1 <= m <= 15
    requires t != t' && field != Check(COMMAND, a + t)
    requires DifferWithin(a + t + Check(COMMAND, a + t), a + t' + field, 8 * |a| + m, 16)
    ensures field == Check(COMMAND, a + t')
            <==> IsHidden(Xor(Pair(t), Pair(t')), Xor(Pair(Check(COMMAND, a + t)), Pair(field)))
  {
    var b := Check(COMMAND, a + t);
    PairDiffers(t, t');
    PairDiffers(b, field);
    FrontDiffers(a + t, a + t', b, field, 8 * |a| + m, 16);
    var e, f := Xor(Pair(t), Pair(t')), Xor(Pair(b), Pair(field));
    PayloadMask(a, t, t', m, e);
    FieldMask(a + t, a + t', b, field, 8 * |a| + m, m, f);
    FieldMatches(a, t, t', field);
    HiddenExactly(e, f, m, 0);
  }

  lemma NothingHidden(e: Word, f: Word)
    requires e == 0 || f == 0
    ensures !IsHidden(e, f)
  {
  }

  lemma {:induction false} LongCommandBurst(p: seq<Byte>, p': seq<Byte>, field: seq<Byte>, i: nat)
    requires |p| == |p'| >= 2 && |field| == 2 && !(p == p' && field == Check(COMMAND, p))
    requires DifferWithin(p + Check(COMMAND, p), p' + field, i, 16)
    ensures field == Check(COMMAND, p') <==> HidesBurst(p, p', field)
  {
    var n, b := |p| - 2, Check(COMMAND, p);
    var a, t, a', t' := p[..n], p[n..], p'[..n], p'[n..];
    assert p == a + t && p' == a' + t';
    assert LastTwo(p) == t && LastTwo(p') == t';
    if p != p' && b != field {
      var m := BurstStart(a, a', t, t', b, field, i);
      TailBurst(a, t, t', field, m);
    } else if p != p' {
      FrontDiffers(p, p', b, field, i, 16);
      FieldUntouched(p, p', i);
      PairDiffers(b, field);
      NothingHidden(Xor(Pair(t), Pair(t')), 0);
    } else {
      PairDiffers(t, t');
      NothingHidden(0, Xor(Pair(b), Pair(field)));
    }
  }

  lemma PaddedCheck(p: seq<Byte>)
    ensures Check(COMMAND, [0, 0] + p) == Check(COMMAND, p)
  {
    CrcAppendTwo(KERMIT, [], 0, 0);
    assert [] + [0, 0] == [0 as Byte, 0];
    ShiftOfZero(KERMIT, 16);
    CrcConcat(KERMIT, [0, 0], p);
  }

  lemma PaddedBurst(z: seq<Byte>, a: seq<Byte>, b: seq<Byte>, i: nat, width: nat)
    requires |a| == |b| && DifferWithin(a, b, i, width)
    ensures DifferWithin(z + a, z + b, 8 * |z| + i, width)
  {
    forall k | 0 <= k < 8 * |z + a| && DataBits(z + a)[k] != DataBits(z + b)[k]
      ensures 8 * |z| + i <= k < 8 * |z| + i + width
    {
      if k < 8 * |z| {
        BitBefore(z, a, k);
        BitBefore(z, b, k);
      } else {
        BitAfter(z, a, k - 8 * |z|);
        BitAfter(z, b, k - 8 * |z|);
      }
    }
  }

  /** A command payload and field that arrive changed within sixteen consecutive bits match
      exactly when the change is one of the twelve listed. */
  lemma {:induction false} CommandBurstMatches(p: seq<Byte>, p': seq<Byte>, field: seq<Byte>, i: nat)
    requires |p| == |p'| && |field| == 2 && !(p == p' && field == Check(COMMAND, p))
    requires DifferWithin(p + Check(COMMAND, p), p' + field, i, 16)
    ensures field == Check(COMMAND, p') <==> HidesBurst(p, p', field)
  {
    var z: seq<Byte> := [0, 0];
    var q, q' := z + p, z + p';
    PaddedBurst(z, p + Check(COMMAND, p), p' + field, i, 16);
    Associates(z, p, Check(COMMAND, p));
    Associates(z, p', field);
    PaddedCheck(p);
    PaddedCheck(p');
    assert q[2..] == p && q'[2..] == p';
    assert LastTwo(q) == LastTwo(p) && LastTwo(q') == LastTwo(p');
    LongCommandBurst(q, q', field, 16 + i);
  }

  /** A command frame whose payload and checksum field arrive changed within sixteen
      consecutive bits is accepted exactly when the change is one of the twelve listed. */
  lemma CommandBurstAccepted(p: seq<Byte>, p': seq<Byte>, field: seq<Byte>, i: nat, rest: seq<Byte>)
    requires Fits(COMMAND, p) && |p| == |p'| && |field| == 2 && !(p == p' && field == Check(COMMAND, p))
    requires DifferWithin(p + Check(COMMAND, p), p' + field, i, 16)
    ensures NextFrame(COMMAND, ZeroBytes(0) + Put(|p|, 2) + p' + field + rest)
         == if HidesBurst(p, p', field) then Frame(p', rest) else Bad
  {
    CommandBurstMatches(p, p', field, i);
    FieldDecides(COMMAND, p', field, rest);
  }

  // ----- Shorter bursts -----

  lemma PairXorBits(t: seq<Byte>, t': seq<Byte>, b: seq<Byte>, b': seq<Byte>, e: Word, f: Word) returns (j: nat, k: nat)
    requires |t| == |t'| == |b| == |b'| == 2 && e == Xor(Pair(t), Pair(t')) && f == Xor(Pair(b), Pair(b'))
    requires IsHidden(e, f)
    ensures j < 16 && k < 16 && 16 + k >= j + 12
    ensures DataBits(t)[j] != DataBits(t')[j] && DataBits(b)[k] != DataBits(b')[k]
  {
    j, k := HiddenSpan(e, f);
    PairXorBit(t, t', e, j);
    PairXorBit(b, b', f, k);
  }

  /** Two bits of a hidden burst that lie at least thirteen positions apart, both included. */
  lemma HiddenBits(p: seq<Byte>, p': seq<Byte>, field: seq<Byte>) returns (j: nat, k: nat)
    requires |field| == 2 && HidesBurst(p, p', field)
    ensures j < 16 && k < 16 && 16 + k >= j + 12
    ensures DataBits(LastTwo(p))[j] != DataBits(LastTwo(p'))[j]
    ensures DataBits(Check(COMMAND, p))[k] != DataBits(field)[k]
  {
    var b := Check(COMMAND, p);
    j, k := PairXorBits(LastTwo(p), LastTwo(p'), b, field,
                        Xor(Pair(LastTwo(p)), Pair(LastTwo(p'))), Xor(Pair(b), Pair(field)));
  }

  lemma BitsFarApart(a: seq<Byte>, a': seq<Byte>, t: seq<Byte>, t': seq<Byte>, b: seq<Byte>, b': seq<Byte>,
                     i: nat, width: nat, j: nat, k: nat)
    requires |a| == |a'| && |t| == |t'| == |b| == |b'| == 2 && j < 16 && k < 16
    requires DataBits(t)[j] != DataBits(t')[j] && DataBits(b)[k] != DataBits(b')[k]
    requires DifferWithin(a + t + b, a' + t' + b', i, width)
    ensures 16 + k < j + width
  {
    FrontDiffers(a + t, a' + t', b, b', i, width);
    BackDiffers(a, a', t, t', i, width, j);
    BackDiffers(a + t, a' + t', b, b', i, width, k);
  }

  lemma PaddedParts(p: seq<Byte>, b: seq<Byte>)
    ensures [0, 0] + (p + b) == ([0, 0] + p)[..|p|] + LastTwo(p) + b
  {
    Associates([0, 0], p, b);
    assert [0, 0] + p == ([0, 0] + p)[..|p|] + LastTwo(p);
  }

  /** How far apart a burst's bits in the last two bytes and in the field can be. */
  lemma TailBitsFarApart(p: seq<Byte>, p': seq<Byte>, b: seq<Byte>, b': seq<Byte>, i: nat, width: nat, j: nat, k: nat)
    requires |p| == |p'| && |b| == |b'| == 2 && j < 16 && k < 16
    requires DataBits(LastTwo(p))[j] != DataBits(LastTwo(p'))[j] && DataBits(b)[k] != DataBits(b')[k]
    requires DifferWithin(p + b, p' + b', i, width)
    ensures 16 + k < j + width
  {
    PaddedBurst([0, 0], p + b, p' + b', i, width);
    PaddedParts(p, b);
    PaddedParts(p', b');
    BitsFarApart(([0, 0] + p)[..|p|], ([0, 0] + p')[..|p|], LastTwo(p), LastTwo(p'), b, b', 16 + i, width, j, k);
  }

  /** A burst of at most twelve bits in payload and field is noticed at any length. */
  lemma {:induction false} ShortCommandBurst(p: seq<Byte>, p': seq<Byte>, field: seq<Byte>, i: nat)
    requires |p| == |p'| && |field| == 2 && !(p == p' && field == Check(COMMAND, p))
    requires DifferWithin(p + Check(COMMAND, p), p' + field, i, 12)
    ensures field != Check(COMMAND, p')
  {
    CommandBurstMatches(p, p', field, i);
    if field == Check(COMMAND, p') {
      var j, k := HiddenBits(p, p', field);
      TailBitsFarApart(p, p', Check(COMMAND, p), field, i, 12, j, k);
    }
  }
}
