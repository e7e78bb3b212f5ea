/** The Teltonika sender: one sample becomes one Codec 8 record. */
module Teltonika {
  import opened Options
  import opened Word16
  import opened Wire
  import opened Records
  import opened Samples

  function Codec8Record(ts: int, s: Sample): Record {
    Record([Unsigned(ts, 8), 0, Unsigned(Scaled(s.lon), 4), Unsigned(Scaled(s.lat), 4), 0,
            Unsigned(s.heading, 2), 10, Unsigned(s.speed, 2), 0, 5],
           [[Io(239, Flag(s.ignition)), Io(240, Flag(s.movement)), Io(21, 4)],
            [Io(66, Unsigned(s.powerMV, 2))],
            [Io(16, Unsigned(s.odometerM, 4))],
            []])
  }

  lemma HeaderFits(ts: int, s: Sample)
    ensures FieldsFit(TELTONIKA_WIDTHS, Codec8Record(ts, s).header)
  {
    PowerValues();
    FieldsFitEverywhere(TELTONIKA_WIDTHS, Codec8Record(ts, s).header);
  }

  lemma ElementsFit(ts: int, s: Sample, sizes: seq<nat>)
    requires sizes == SIZES
    ensures GroupsFit(Codec8Record(ts, s).groups, sizes)
  {
    var g := Codec8Record(ts, s).groups;
    PowerValues();
    IosFitCons(g[0][2..], 1);
    IosFitCons(g[0][1..], 1);
    IosFitCons(g[0], 1);
    IosFitCons(g[1], 2);
    IosFitCons(g[2], 4);
    assert sizes[1..][1..] == sizes[2..] && sizes[2..][1..] == sizes[3..] && sizes[3..][1..] == [];
    assert g[1..][1..] == g[2..] && g[2..][1..] == g[3..] && g[3..][1..] == [];
    assert GroupsFit(g[3..], sizes[3..]);
    assert GroupsFit(g[2..], sizes[2..]);
    assert GroupsFit(g[1..], sizes[1..]);
  }

  lemma TotalOfSample(ts: int, s: Sample)
    ensures TotalStated(Codec8Record(ts, s))
  {
    var g := Codec8Record(ts, s).groups;
    assert g[1..][1..] == g[2..] && g[2..][1..] == g[3..] && g[3..][1..] == [];
    assert TotalElements(g[3..]) == 0;
    assert TotalElements(g[2..]) == 1;
    assert TotalElements(g[1..]) == 2;
  }

  lemma RecordOfSampleFits(ts: int, s: Sample)
    ensures RecordFits(Codec8Record(ts, s), TELTONIKA_WIDTHS)
    ensures Codec8Fits([Codec8Record(ts, s)])
  {
    HeaderFits(ts, s);
    ElementsFit(ts, s, SIZES);
    TotalOfSample(ts, s);
  }

  /** The layout in the order the builder appends it. */
  function Codec8Layout(ts: int, s: Sample): seq<Byte> {
    [0x08] + [0x01] + Put(Unsigned(ts, 8), 8) + [0x00]
    + Put(Unsigned(Scaled(s.lon), 4), 4) + Put(Unsigned(Scaled(s.lat), 4), 4)
    + Put(0, 2) + Put(Unsigned(s.heading, 2), 2) + [10] + Put(Unsigned(s.speed, 2), 2)
    + [0x00] + [0x05]
    + [0x03] + [0xEF, if s.ignition then 1 else 0] + [0xF0, if s.movement then 1 else 0] + [0x15, 0x04]
    + [0x01] + ([0x42] + Put(Unsigned(s.powerMV, 2), 2))
    + [0x01] + ([0x10] + Put(Unsigned(s.odometerM, 4), 4))
    + [0x00]
    + [0x01]
  }

  lemma HeaderLayout(total: seq<Byte>, x: seq<Byte>, ts: int, s: Sample, w: seq<nat>)
    requires w == TELTONIKA_WIDTHS && total == x + PutFields(w, Codec8Record(ts, s).header)
    ensures total == x + Put(Unsigned(ts, 8), 8) + [0x00]
            + Put(Unsigned(Scaled(s.lon), 4), 4) + Put(Unsigned(Scaled(s.lat), 4), 4)
            + Put(0, 2) + Put(Unsigned(s.heading, 2), 2) + [10] + Put(Unsigned(s.speed, 2), 2)
            + [0x00] + [0x05]
  {
    TenFieldsOut(total, x, w, Codec8Record(ts, s).header);
    OneByte(0, 0x00);
    OneByte(10, 10);
    OneByte(5, 0x05);
  }

  lemma FlagElements(x: seq<Byte>, ios: seq<Io>, ignition: bool, movement: bool)
    requires ios == [Io(239, Flag(ignition)), Io(240, Flag(movement)), Io(21, 4)]
    ensures x + Put(|ios|, 1) + PutIos(ios, 1)
         == x + [0x03] + [0xEF, if ignition then 1 else 0] + [0xF0, if movement then 1 else 0] + [0x15, 0x04]
  {
    OneByte(3, 3);
    ThreeElements(x + [0x03], ios, 1);
    TwoBytes(239, Flag(ignition), 0xEF, if ignition then 1 else 0);
    TwoBytes(240, Flag(movement), 0xF0, if movement then 1 else 0);
    TwoBytes(21, 4, 0x15, 0x04);
  }

  lemma GroupsLayout(total: seq<Byte>, x: seq<Byte>, ts: int, s: Sample, sizes: seq<nat>)
    requires sizes == SIZES && total == x + PutGroups(Codec8Record(ts, s).groups, sizes)
    ensures total == x
            + [0x03] + [0xEF, if s.ignition then 1 else 0] + [0xF0, if s.movement then 1 else 0] + [0x15, 0x04]
            + [0x01] + ([0x42] + Put(Unsigned(s.powerMV, 2), 2))
            + [0x01] + ([0x10] + Put(Unsigned(s.odometerM, 4), 4))
            + [0x00]
  {
    var g := Codec8Record(ts, s).groups;
    FourGroupsOut(total, x, g, sizes);
    FlagElements(x, g[0], s.ignition, s.movement);
    var x1 := x + [0x03] + [0xEF, if s.ignition then 1 else 0] + [0xF0, if s.movement then 1 else 0] + [0x15, 0x04];
    SingleElement(x1, g[1], 2, 0x42, Unsigned(s.powerMV, 2));
    var x2 := x1 + [0x01] + ([0x42] + Put(Unsigned(s.powerMV, 2), 2));
    SingleElement(x2, g[2], 4, 0x10, Unsigned(s.odometerM, 4));
    OneByte(0, 0);
    assert PutIos(g[3], 8) == [];
  }

  lemma StartLayout()
    ensures PutFields([1, 1], [CODEC8, 1]) == [0x08] + [0x01]
  {
    OneByte(8, 0x08);
    OneByte(1, 0x01);
    assert [1, 1][1..] == [1] && [CODEC8, 1][1..] == [1];
    assert PutFields([1], [1]) == Put(1, 1) + [];
  }

  lemma OneRecordData(r: Record, x: seq<Byte>, start: seq<Byte>)
    requires RecordFits(r, TELTONIKA_WIDTHS) && start == PutFields([1, 1], [CODEC8, 1])
    requires x == (start + PutFields(TELTONIKA_WIDTHS, r.header)) + PutGroups(r.groups, SIZES)
    ensures RecordsFit([r], TELTONIKA_WIDTHS) && PutCodec8([r]) == x + Put(1, 1)
  {
    Associates(start, PutFields(TELTONIKA_WIDTHS, r.header), PutGroups(r.groups, SIZES));
    assert [r][1..] == [];
    assert PutRecords([r], TELTONIKA_WIDTHS) == PutRecord(r, TELTONIKA_WIDTHS) + [];
  }

  lemma LayoutIsCodec8(ts: int, s: Sample)
    ensures RecordsFit([Codec8Record(ts, s)], TELTONIKA_WIDTHS)
    ensures Codec8Layout(ts, s) == PutCodec8([Codec8Record(ts, s)])
  {
    var r := Codec8Record(ts, s);
    RecordOfSampleFits(ts, s);
    StartLayout();
    var start := [0x08] + [0x01];
    var y := start + PutFields(TELTONIKA_WIDTHS, r.header);
    HeaderLayout(y, start, ts, s, TELTONIKA_WIDTHS);
    var z := y + PutGroups(r.groups, SIZES);
    GroupsLayout(z, y, ts, s, SIZES);
    OneRecordData(r, z, start);
    OneByte(1, 1);
  }

  // ----- The builder -----

  /** Appends, field by field, the codec, the counts and one record. */
  method BuildCodec8Record(ts: int, s: Sample) returns (buf: seq<Byte>)
    requires Encodable(s.lat) && Encodable(s.lon)
    ensures buf == Codec8Layout(ts, s)
    ensures |buf| == 47 && GetCodec8(buf) == Some([Codec8Record(ts, s)])
  {
    buf := [0x08];
    buf := buf + [0x01];

    var b8 := new Byte[8];
    PutUint(b8, 0, 8, Unsigned(ts, 8));
    buf := buf + b8[..];
    buf := buf + [0x00];

    var lonInt, latInt := Scaled(s.lon), Scaled(s.lat);
    var b4 := new Byte[4];
    PutUint(b4, 0, 4, Unsigned(lonInt, 4));
    buf := buf + b4[..];
    PutUint(b4, 0, 4, Unsigned(latInt, 4));
    buf := buf + b4[..];
    var b2 := new Byte[2];
    PutUint(b2, 0, 2, 0);
    buf := buf + b2[..];
    PutUint(b2, 0, 2, Unsigned(s.heading, 2));
    buf := buf + b2[..];
    buf := buf + [10];
    PutUint(b2, 0, 2, Unsigned(s.speed, 2));
    buf := buf + b2[..];

    var ioIgn: Byte := 0;
    if s.ignition {
      ioIgn := 1;
    }
    var ioMov: Byte := 0;
    if s.movement {
      ioMov := 1;
    }
    buf := buf + [0x00];
    buf := buf + [0x05];

    buf := buf + [0x03];
    buf := buf + [0xEF, ioIgn];
    buf := buf + [0xF0, ioMov];
    buf := buf + [0x15, 0x04];

    buf := buf + [0x01];
    Associates(buf, [0x42], Put(Unsigned(s.powerMV, 2), 2));
    buf := buf + [0x42];
    PutUint(b2, 0, 2, Unsigned(s.powerMV, 2));
    buf := buf + b2[..];

    buf := buf + [0x01];
    Associates(buf, [0x10], Put(Unsigned(s.odometerM, 4), 4));
    buf := buf + [0x10];
    PutUint(b4, 0, 4, Unsigned(s.odometerM, 4));
    buf := buf + b4[..];

    buf := buf + [0x00];
    buf := buf + [0x01];
    LayoutDecodes(ts, s);
  }

  lemma LayoutDecodes(ts: int, s: Sample)
    ensures |Codec8Layout(ts, s)| == 47
    ensures GetCodec8(Codec8Layout(ts, s)) == Some([Codec8Record(ts, s)])
  {
    LayoutIsCodec8(ts, s);
    RecordOfSampleFits(ts, s);
    Codec8Decodes([Codec8Record(ts, s)]);
  }

  // ----- The receiver's view -----

  function Codec8Reading(r: Record): Reading
    requires |r.header| == 10 && |r.groups| == 4
  {
    Reading(r.header[0], Signed32(r.header[2]), Signed32(r.header[3]), r.header[5], r.header[7],
            Lookup(r.groups[0], 239), Lookup(r.groups[0], 240),
            Lookup(r.groups[1], 66), Lookup(r.groups[2], 16))
  }

  lemma RecordReading(ts: int, s: Sample)
    requires Encodable(s.lat) && Encodable(s.lon)
    ensures Codec8Reading(Codec8Record(ts, s)) == Expected(Unsigned(ts, 8), s)
  {
    SignedUnsigned(Scaled(s.lon));
    SignedUnsigned(Scaled(s.lat));
    var r := Codec8Record(ts, s);
    var ios := r.groups[0];
    assert Lookup(ios[1..], 240) == Some(Flag(s.movement));
    assert Lookup(ios, 240) == Lookup(ios[1..], 240);
    assert Lookup(ios, 239) == Some(Flag(s.ignition));
    assert Lookup(r.groups[1], 66) == Some(Unsigned(s.powerMV, 2));
    assert Lookup(r.groups[2], 16) == Some(Unsigned(s.odometerM, 4));
  }

  /** The 47 bytes decode, by their embedded counts alone, to the one record of the
      sample; every count agrees; and the reading carries the sample's values, each
      reduced to its field's width. */
  lemma Codec8RoundTrip(ts: int, s: Sample) returns (r: Record)
    requires Encodable(s.lat) && Encodable(s.lon)
    ensures |Codec8Layout(ts, s)| == 47 && GetCodec8(Codec8Layout(ts, s)) == Some([r])
    ensures |r.header| == 10 && |r.groups| == 4
    ensures r.header[9] == |r.groups[0]| + |r.groups[1]| + |r.groups[2]| + |r.groups[3]|
    ensures Codec8Reading(r) == Expected(Unsigned(ts, 8), s)
  {
    r := Codec8Record(ts, s);
    LayoutDecodes(ts, s);
    RecordReading(ts, s);
  }
}
