/** The changes of a command frame's last two payload bytes that a change of its checksum
    field hides within sixteen consecutive bits. */
module HiddenChanges {
  import opened Word16
  import opened Crc16
  import opened CrcOrder
  import opened CrcDetection
  import opened CrcDistance

  /** The register's bytes in the order in which they are sent. */
  function Swapped(c: Word): Word {
    Join(HighByte(c), LowByte(c))
  }

  /** What a change of the last two payload bytes, the first in the low half, makes of the
      checksum field, its first byte likewise in the low half, after sixteen steps. */
  function FieldChange(e: Word, sixteen: nat): Word {
    Swapped(Shift(KERMIT, e, sixteen))
  }

  /** The change of the checksum field that hides a change of the last two payload bytes within
      a burst of sixteen bits; zero when no change does. */
  function HiddenBy(e: Word): Word {
    match e
    case 0x8000 => 0x0884
    case 0x4000 => 0x0442
    case 0xC000 => 0x0CC6
    case 0x2000 => 0x0221
    case 0x6000 => 0x0663
    case 0xA000 => 0x0AA5
    case 0xE000 => 0x0EE7
    case 0x9100 => 0x0085
    case 0xAC40 => 0x0029
    case 0xA310 => 0x0002
    case 0x5188 => 0x0001
    case 0xF298 => 0x0003
    case _ => 0
  }

  predicate IsHidden(e: Word, f: Word) {
    f != 0 && f == HiddenBy(e)
  }

  lemma SwappedIsRotated(c: Word)
    ensures Swapped(c) == (c >> 8) ^ (c << 8)
  {
  }

  lemma SwappedXor(c: Word, d: Word)
    ensures Swapped(Xor(c, d)) == Xor(Swapped(c), Swapped(d))
  {
  }

  /** The lowest `m` bits. */
  function LowMask(m: nat): Word {
    if m == 0 then 0 else (LowMask(m - 1) << 1) | 1
  }

  lemma MaskStep(w: Word, m: Word)
    ensures !Odd(w) && Half(w) & m == 0 ==> w & ((m << 1) | 1) == 0
    ensures Half(w) & !m == 0 ==> w & !((m << 1) | 1) == 0
  {
  }

  lemma {:induction false} LowClear(w: Word, m: nat)
    requires forall k :: 0 <= k < m ==> !Bit(w, k)
    ensures w & LowMask(m) == 0
  {
    if m > 0 {
      assert !Bit(w, 0);
      forall k | 0 <= k < m - 1 ensures !Bit(Half(w), k) {
        HalfBit(w, k);
        assert !Bit(w, k + 1);
      }
      LowClear(Half(w), m - 1);
      MaskStep(w, LowMask(m - 1));
    }
  }

  lemma {:induction false} DroppedMask(w: Word, m: nat)
    requires Drop(w, m) == 0
    ensures w & !LowMask(m) == 0
  {
    if m > 0 {
      DropHalf(w, m - 1);
      DroppedMask(Half(w), m - 1);
      MaskStep(w, LowMask(m - 1));
    }
  }

  lemma HighClear(w: Word, m: nat)
    requires m <= 16 && forall k :: m <= k < 16 ==> !Bit(w, k)
    ensures w & !LowMask(m) == 0
  {
    DropAll(w);
    DropAdds(w, m, 16 - m);
    DropOfZero(16 - m);
    forall k | 0 <= k < 16 - m ensures !Bit(Drop(w, m), k) && !Bit(0, k) {
      DropAdds(w, m, k);
      DropOfZero(k);
      assert !Bit(w, m + k);
    }
    BitsAndDropDetermine(Drop(w, m), 0, 16 - m);
    DroppedMask(w, m);
  }

  lemma MaskValue(m: nat)
    requires 1 <= m <= 15
    ensures m <= 8 ==> LowMask(m) in {0x1, 0x3, 0x7, 0xF, 0x1F, 0x3F, 0x7F, 0xFF}
    ensures m > 8 ==> LowMask(m) in {0x1FF, 0x3FF, 0x7FF, 0xFFF, 0x1FFF, 0x3FFF, 0x7FFF}
  {
    assert LowMask(1) == 0x1;
    assert LowMask(2) == 0x3;
    assert LowMask(3) == 0x7;
    assert LowMask(4) == 0xF;
    assert LowMask(5) == 0x1F;
    assert LowMask(6) == 0x3F;
    assert LowMask(7) == 0x7F;
    assert LowMask(8) == 0xFF;
    assert LowMask(9) == 0x1FF;
    assert LowMask(10) == 0x3FF;
    assert LowMask(11) == 0x7FF;
    assert LowMask(12) == 0xFFF;
    assert LowMask(13) == 0x1FFF;
    assert LowMask(14) == 0x3FFF;
    assert LowMask(15) == 0x7FFF;
  }

  /** Sixteen empty steps of the command checksum, four at a time. */
  ghost predicate SixteenSteps(e: Word, s4: Word, s8: Word, s12: Word, s: Word) {
    && s4 == FourSteps(KERMIT, e) && s8 == FourSteps(KERMIT, s4)
    && s12 == FourSteps(KERMIT, s8) && s == FourSteps(KERMIT, s12)
  }

  /** The changes of the payload whose effect on the field stays within the burst: when it
      reaches back eight payload bits or more, and when it does not. */
  lemma FarReach(e: Word, s4: Word, s8: Word, s12: Word, s: Word, f: Word, mask: Word)
    requires mask in {0x1, 0x3, 0x7, 0xF, 0x1F, 0x3F, 0x7F, 0xFF}
    requires e != 0 && e & mask == 0 && f & !mask == 0
    requires SixteenSteps(e, s4, s8, s12, s) && f == (s >> 8) ^ (s << 8)
    ensures e == 0x8000 || e == 0x4000 || e == 0xC000 || e == 0x2000 || e == 0x6000 || e == 0xA000 ||
            e == 0xE000 || e == 0x9100 || e == 0xAC40 || e == 0xA310 || e == 0x5188 || e == 0xF298
  {
  }

  lemma NearReach(e: Word, s4: Word, s8: Word, s12: Word, s: Word, f: Word, mask: Word)
    requires mask in {0x1FF, 0x3FF, 0x7FF, 0xFFF, 0x1FFF, 0x3FFF, 0x7FFF}
    requires e != 0 && e & mask == 0 && f & !mask == 0
    requires SixteenSteps(e, s4, s8, s12, s) && f == (s >> 8) ^ (s << 8)
    ensures e == 0x8000 || e == 0x4000 || e == 0xC000 || e == 0x2000 || e == 0x6000 || e == 0xA000 ||
            e == 0xE000
  {
  }

  lemma NextFour(e: Word, n: nat, s: Word, s': Word)
    requires s == Shift(KERMIT, e, n) && s' == Shift(KERMIT, e, n + 4)
    ensures s' == FourSteps(KERMIT, s)
  {
    ShiftFour(KERMIT, e, n);
  }

  lemma FieldChangeSteps(e: Word, n: nat, s4: Word, s8: Word, s12: Word, s: Word)
    requires n == 0 && s4 == Shift(KERMIT, e, n + 4) && s8 == Shift(KERMIT, e, n + 8)
    requires s12 == Shift(KERMIT, e, n + 12) && s == Shift(KERMIT, e, n + 16)
    ensures SixteenSteps(e, s4, s8, s12, s) && FieldChange(e, n + 16) == (s >> 8) ^ (s << 8)
  {
    NextFour(e, n, e, s4);
    NextFour(e, n + 4, s4, s8);
    NextFour(e, n + 8, s8, s12);
    NextFour(e, n + 12, s12, s);
    SwappedIsRotated(s);
  }

  lemma KnownChange(e: Word, s4: Word, s8: Word, s12: Word, s: Word, n: nat)
    requires n == 0 && SixteenSteps(e, s4, s8, s12, s)
    ensures FieldChange(e, n + 16) == (s >> 8) ^ (s << 8)
  {
    ShiftFour(KERMIT, e, n);
    ShiftFour(KERMIT, e, n + 4);
    ShiftFour(KERMIT, e, n + 8);
    ShiftFour(KERMIT, e, n + 12);
    SwappedIsRotated(s);
  }

  lemma ShortChanges(n: nat)
    requires n == 0
    ensures FieldChange(0x8000, n + 16) == 0x0884
    ensures FieldChange(0x4000, n + 16) == 0x0442
    ensures FieldChange(0xC000, n + 16) == 0x0CC6
    ensures FieldChange(0x2000, n + 16) == 0x0221
    ensures FieldChange(0x6000, n + 16) == 0x0663
    ensures FieldChange(0xA000, n + 16) == 0x0AA5
    ensures FieldChange(0xE000, n + 16) == 0x0EE7
  {
    KnownChange(0x8000, 0x0800, 0x0080, 0x0008, 0x8408, n);
    KnownChange(0x4000, 0x0400, 0x0040, 0x0004, 0x4204, n);
    KnownChange(0xC000, 0x0C00, 0x00C0, 0x000C, 0xC60C, n);
    KnownChange(0x2000, 0x0200, 0x0020, 0x0002, 0x2102, n);
    KnownChange(0x6000, 0x0600, 0x0060, 0x0006, 0x6306, n);
    KnownChange(0xA000, 0x0A00, 0x00A0, 0x000A, 0xA50A, n);
    KnownChange(0xE000, 0x0E00, 0x00E0, 0x000E, 0xE70E, n);
  }

  lemma LongChanges(n: nat)
    requires n == 0
    ensures FieldChange(0x9100, n + 16) == 0x0085
    ensures FieldChange(0xAC40, n + 16) == 0x0029
    ensures FieldChange(0xA310, n + 16) == 0x0002
    ensures FieldChange(0x5188, n + 16) == 0x0001
    ensures FieldChange(0xF298, n + 16) == 0x0003
  {
    KnownChange(0x9100, 0x0910, 0x0091, 0x1088, 0x8500, n);
    KnownChange(0xAC40, 0x0AC4, 0x42A8, 0x8022, 0x2900, n);
    KnownChange(0xA310, 0x0A31, 0x1022, 0x2000, 0x0200, n);
    KnownChange(0x5188, 0x8110, 0x0811, 0x1000, 0x0100, n);
    KnownChange(0xF298, 0x8B21, 0x1833, 0x3000, 0x0300, n);
  }

  lemma HiddenChange(e: Word, n: nat)
    requires n == 0 && HiddenBy(e) != 0
    ensures HiddenBy(e) == FieldChange(e, n + 16)
  {
    ShortChanges(n);
    LongChanges(n);
  }

  lemma ListedChange(e: Word, f: Word, m: nat, n: nat)
    requires n == 0 && 1 <= m <= 15 && e != 0 && e & LowMask(m) == 0 && f & !LowMask(m) == 0
    requires f == FieldChange(e, n + 16)
    ensures HiddenBy(e) != 0
  {
    var s4, s8 := Shift(KERMIT, e, n + 4), Shift(KERMIT, e, n + 8);
    var s12, s := Shift(KERMIT, e, n + 12), Shift(KERMIT, e, n + 16);
    MaskValue(m);
    FieldChangeSteps(e, n, s4, s8, s12, s);
    if m <= 8 {
      FarReach(e, s4, s8, s12, s, f, LowMask(m));
    } else {
      NearReach(e, s4, s8, s12, s, f, LowMask(m));
    }
  }

  /** Within a burst, a change of the payload's last two bytes is hidden exactly by the field
      changes listed. */
  lemma HiddenExactly(e: Word, f: Word, m: nat, n: nat)
    requires n == 0 && 1 <= m <= 15 && e != 0 && e & LowMask(m) == 0 && f & !LowMask(m) == 0 && f != 0
    ensures f == FieldChange(e, n + 16) <==> IsHidden(e, f)
  {
    if f == FieldChange(e, n + 16) {
      ListedChange(e, f, m, n);
      HiddenChange(e, n);
    } else if IsHidden(e, f) {
      HiddenChange(e, n);
    }
  }

  // ----- How far they reach -----

  /** Bits by quarters of a word. */
  lemma QuarterBits(w: Word, k: nat, n: nat)
    requires n == 0
    ensures Bit(w, n + 4 + k) == Bit(w >> 4, k) && Bit(w, n + 8 + k) == Bit(w >> 8, k)
    ensures Bit(w, n + 12 + k) == Bit(w >> 12, k)
  {
    DropShifts(w, n);
    DropAdds(w, n + 4, k);
    DropAdds(w, n + 8, k);
    DropAdds(w, n + 12, k);
  }

  lemma BitsOfQuarter(v: Word)
    ensures Bit(v, 0) == (v & 1 != 0) && Bit(v, 1) == (v & 2 != 0)
    ensures Bit(v, 2) == (v & 4 != 0) && Bit(v, 3) == (v & 8 != 0)
  {
    HalvesAreShifts(v);
  }

  /** The listed changes span at least thirteen bits. */
  lemma HiddenSpan(e: Word, f: Word) returns (j: nat, k: nat)
    requires IsHidden(e, f)
    ensures j < 16 && k < 16 && Bit(e, j) && Bit(f, k) && 16 + k >= j + 12
  {
    match e {
      case 0x8000 =>
        j, k := 15, 11;
        QuarterBits(0x8000, 3, 0);
        BitsOfQuarter(0x0008);
        QuarterBits(0x0884, 3, 0);
        BitsOfQuarter(0x0008);
      case 0x4000 =>
        j, k := 14, 10;
        QuarterBits(0x4000, 2, 0);
        BitsOfQuarter(0x0004);
        QuarterBits(0x0442, 2, 0);
        BitsOfQuarter(0x0004);
      case 0xC000 =>
        j, k := 14, 11;
        QuarterBits(0xC000, 2, 0);
        BitsOfQuarter(0x000C);
        QuarterBits(0x0CC6, 3, 0);
        BitsOfQuarter(0x000C);
      case 0x2000 =>
        j, k := 13, 9;
        QuarterBits(0x2000, 1, 0);
        BitsOfQuarter(0x0002);
        QuarterBits(0x0221, 1, 0);
        BitsOfQuarter(0x0002);
      case 0x6000 =>
        j, k := 13, 10;
        QuarterBits(0x6000, 1, 0);
        BitsOfQuarter(0x0006);
        QuarterBits(0x0663, 2, 0);
        BitsOfQuarter(0x0006);
      case 0xA000 =>
        j, k := 13, 11;
        QuarterBits(0xA000, 1, 0);
        BitsOfQuarter(0x000A);
        QuarterBits(0x0AA5, 3, 0);
        BitsOfQuarter(0x000A);
      case 0xE000 =>
        j, k := 13, 11;
        QuarterBits(0xE000, 1, 0);
        BitsOfQuarter(0x000E);
        QuarterBits(0x0EE7, 3, 0);
        BitsOfQuarter(0x000E);
      case 0x9100 =>
        j, k := 8, 7;
        QuarterBits(0x9100, 0, 0);
        BitsOfQuarter(0x0091);
        QuarterBits(0x0085, 3, 0);
        BitsOfQuarter(0x0008);
      case 0xAC40 =>
        j, k := 6, 5;
        QuarterBits(0xAC40, 2, 0);
        BitsOfQuarter(0x0AC4);
        QuarterBits(0x0029, 1, 0);
        BitsOfQuarter(0x0002);
      case 0xA310 =>
        j, k := 4, 1;
        QuarterBits(0xA310, 0, 0);
        BitsOfQuarter(0x0A31);
        BitsOfQuarter(0x0002);
      case 0x5188 =>
        j, k := 3, 0;
        BitsOfQuarter(0x5188);
        BitsOfQuarter(0x0001);
      case 0xF298 =>
        j, k := 3, 1;
        BitsOfQuarter(0xF298);
        BitsOfQuarter(0x0003);
    }
  }
}
