/** The Ruptela sender: identity and one sample become one command 1 payload. */
module Ruptela {
  import opened Options
  import opened Word16
  import opened Wire
  import opened Records
  import opened Samples
  import opened Imei

  function CommandRecord(ts: int, s: Sample): Record {
    Record([Unsigned(ts, 4), 0, 0, Unsigned(Scaled(s.lon), 4), Unsigned(Scaled(s.lat), 4), 0,
            Unsigned(s.heading, 2), 10, Unsigned(s.speed, 2), 15, 0],
           [[Io(5, Flag(s.ignition)), Io(173, Flag(s.movement))],
            [Io(29, Unsigned(s.powerMV, 2))],
            [Io(65, Unsigned(s.odometerM, 4))],
            []])
  }

  function CommandPayload(imei: string, ts: int, s: Sample): RuptelaPayload {
    RuptelaPayload(Scan(imei), 0, [CommandRecord(ts, s)])
  }

  lemma HeaderFits(ts: int, s: Sample)
    ensures FieldsFit(RUPTELA_WIDTHS, CommandRecord(ts, s).header)
  {
    PowerValues();
    FieldsFitEverywhere(RUPTELA_WIDTHS, CommandRecord(ts, s).header);
  }

  lemma ElementsFit(ts: int, s: Sample, sizes: seq<nat>)
    requires sizes == SIZES
    ensures GroupsFit(CommandRecord(ts, s).groups, sizes)
  {
    var g := CommandRecord(ts, s).groups;
    PowerValues();
    IosFitCons(g[0][1..], 1);
    IosFitCons(g[0], 1);
    IosFitCons(g[1], 2);
    IosFitCons(g[2], 4);
    assert sizes[1..][1..] == sizes[2..] && sizes[2..][1..] == sizes[3..] && sizes[3..][1..] == [];
    assert g[1..][1..] == g[2..] && g[2..][1..] == g[3..] && g[3..][1..] == [];
    assert GroupsFit(g[3..], sizes[3..]);
    assert GroupsFit(g[2..], sizes[2..]);
    assert GroupsFit(g[1..], sizes[1..]);
  }

  lemma PayloadFits(imei: string, ts: int, s: Sample)
    ensures RecordFits(CommandRecord(ts, s), RUPTELA_WIDTHS)
    ensures RuptelaFits(CommandPayload(imei, ts, s))
  {
    HeaderFits(ts, s);
    ElementsFit(ts, s, SIZES);
    PowerValues();
  }

  // ----- The layout, in the order the builder appends it -----

  function PayloadLayout(imei: string, ts: int, s: Sample): seq<Byte> {
    Put(Scan(imei), 8) + [0x01] + [0x00] + [0x01]
    + Put(Unsigned(ts, 4), 4) + [0x00] + [0x00]
    + Put(Unsigned(Scaled(s.lon), 4), 4) + Put(Unsigned(Scaled(s.lat), 4), 4)
    + Put(0, 2) + Put(Unsigned(s.heading, 2), 2) + [10] + Put(Unsigned(s.speed, 2), 2) + [15] + [0]
    + [0x02] + ([5] + [if s.ignition then 1 else 0]) + ([173] + [if s.movement then 1 else 0])
    + [0x01] + ([29] + Put(Unsigned(s.powerMV, 2), 2))
    + [0x01] + ([65] + Put(Unsigned(s.odometerM, 4), 4))
    + [0x00]
  }

  lemma HeaderLayout(total: seq<Byte>, x: seq<Byte>, ts: int, s: Sample, w: seq<nat>)
    requires w == RUPTELA_WIDTHS && total == x + PutFields(w, CommandRecord(ts, s).header)
    ensures total == x + Put(Unsigned(ts, 4), 4) + [0x00] + [0x00]
            + Put(Unsigned(Scaled(s.lon), 4), 4) + Put(Unsigned(Scaled(s.lat), 4), 4)
            + Put(0, 2) + Put(Unsigned(s.heading, 2), 2) + [10] + Put(Unsigned(s.speed, 2), 2) + [15] + [0]
  {
    ElevenFieldsOut(total, x, w, CommandRecord(ts, s).header);
    OneByte(0, 0);
    OneByte(10, 10);
    OneByte(15, 15);
  }

  lemma FlagElements(x: seq<Byte>, ios: seq<Io>, ignition: bool, movement: bool)
    requires ios == [Io(5, Flag(ignition)), Io(173, Flag(movement))]
    ensures x + Put(|ios|, 1) + PutIos(ios, 1)
         == x + [0x02] + ([5] + [if ignition then 1 else 0]) + ([173] + [if movement then 1 else 0])
  {
    OneByte(2, 2);
    TwoElements(x + [0x02], ios, 1);
    OneByte(5, 5);
    OneByte(173, 173);
    OneByte(Flag(ignition), if ignition then 1 else 0);
    OneByte(Flag(movement), if movement then 1 else 0);
  }

  lemma GroupsLayout(total: seq<Byte>, x: seq<Byte>, ts: int, s: Sample, sizes: seq<nat>)
    requires sizes == SIZES && total == x + PutGroups(CommandRecord(ts, s).groups, sizes)
    ensures total == x
            + [0x02] + ([5] + [if s.ignition then 1 else 0]) + ([173] + [if s.movement then 1 else 0])
            + [0x01] + ([29] + Put(Unsigned(s.powerMV, 2), 2))
            + [0x01] + ([65] + Put(Unsigned(s.odometerM, 4), 4))
            + [0x00]
  {
    var g := CommandRecord(ts, s).groups;
    FourGroupsOut(total, x, g, sizes);
    FlagElements(x, g[0], s.ignition, s.movement);
    var x1 := x + [0x02] + ([5] + [if s.ignition then 1 else 0]) + ([173] + [if s.movement then 1 else 0]);
    SingleElement(x1, g[1], 2, 29, Unsigned(s.powerMV, 2));
    var x2 := x1 + [0x01] + ([29] + Put(Unsigned(s.powerMV, 2), 2));
    SingleElement(x2, g[2], 4, 65, Unsigned(s.odometerM, 4));
    OneByte(0, 0);
    assert PutIos(g[3], 8) == [];
  }

  lemma StartLayout(n: nat, w: seq<nat>)
    requires w == RUPTELA_PREFIX
    ensures PutFields(w, [n, COMMAND_RECORDS, 0, 1]) == Put(n, 8) + [0x01] + [0x00] + [0x01]
  {
    FourFields(w, [n, COMMAND_RECORDS, 0, 1]);
    OneByte(0, 0);
    OneByte(1, 1);
  }

  lemma OneRecordPayload(p: RuptelaPayload, r: Record, x: seq<Byte>, start: seq<Byte>)
    requires p.records == [r] && RecordFits(r, RUPTELA_WIDTHS)
    requires start == PutFields(RUPTELA_PREFIX, [p.imei, COMMAND_RECORDS, p.recordsLeft, 1])
    requires x == (start + PutFields(RUPTELA_WIDTHS, r.header)) + PutGroups(r.groups, SIZES)
    ensures RecordsFit(p.records, RUPTELA_WIDTHS) && PutRuptela(p) == x
  {
    Associates(start, PutFields(RUPTELA_WIDTHS, r.header), PutGroups(r.groups, SIZES));
    assert [r][1..] == [];
    assert PutRecords([r], RUPTELA_WIDTHS) == PutRecord(r, RUPTELA_WIDTHS) + [];
  }

  lemma LayoutIsPayload(imei: string, ts: int, s: Sample)
    ensures RecordsFit(CommandPayload(imei, ts, s).records, RUPTELA_WIDTHS)
    ensures PayloadLayout(imei, ts, s) == PutRuptela(CommandPayload(imei, ts, s))
  {
    var r := CommandRecord(ts, s);
    PayloadFits(imei, ts, s);
    StartLayout(Scan(imei), RUPTELA_PREFIX);
    var start := Put(Scan(imei), 8) + [0x01] + [0x00] + [0x01];
    var y := start + PutFields(RUPTELA_WIDTHS, r.header);
    HeaderLayout(y, start, ts, s, RUPTELA_WIDTHS);
    var z := y + PutGroups(r.groups, SIZES);
    GroupsLayout(z, y, ts, s, SIZES);
    OneRecordPayload(CommandPayload(imei, ts, s), r, z, start);
  }

  lemma LayoutDecodes(imei: string, ts: int, s: Sample)
    ensures |PayloadLayout(imei, ts, s)| == 50
    ensures GetRuptela(PayloadLayout(imei, ts, s)) == Some(CommandPayload(imei, ts, s))
  {
    LayoutIsPayload(imei, ts, s);
    PayloadFits(imei, ts, s);
    RuptelaDecodes(CommandPayload(imei, ts, s));
  }

  // ----- The builder -----

  /** Appends, field by field, the identity, the command, the counts and one record. */
  method BuildRuptelaPayload(imei: string, ts: int, s: Sample) returns (buf: seq<Byte>)
    requires Encodable(s.lat) && Encodable(s.lon)
    ensures buf == PayloadLayout(imei, ts, s)
    ensures |buf| == 50 && GetRuptela(buf) == Some(CommandPayload(imei, ts, s))
  {
    var imeiNum := Scan(imei);
    var b8 := new Byte[8];
    PutUint(b8, 0, 8, imeiNum);
    buf := b8[..];

    buf := buf + [0x01];
    buf := buf + [0x00];
    buf := buf + [0x01];

    var b4 := new Byte[4];
    PutUint(b4, 0, 4, Unsigned(ts, 4));
    buf := buf + b4[..];
    buf := buf + [0x00];
    buf := buf + [0x00];

    var lonInt, latInt := Scaled(s.lon), Scaled(s.lat);
    PutUint(b4, 0, 4, Unsigned(lonInt, 4));
    buf := buf + b4[..];
    PutUint(b4, 0, 4, Unsigned(latInt, 4));
    buf := buf + b4[..];

    var b2 := new Byte[2];
    PutUint(b2, 0, 2, 0);
    buf := buf + b2[..];
    PutUint(b2, 0, 2, Unsigned(s.heading, 2));
    buf := buf + b2[..];
    buf := buf + [10];
    PutUint(b2, 0, 2, Unsigned(s.speed, 2));
    buf := buf + b2[..];
    buf := buf + [15];
    buf := buf + [0];

    buf := buf + [0x02];
    Associates(buf, [5], [if s.ignition then 1 else 0]);
    buf := buf + [5];
    if s.ignition {
      buf := buf + [0x01];
    } else {
      buf := buf + [0x00];
    }
    Associates(buf, [173], [if s.movement then 1 else 0]);
    buf := buf + [173];
    if s.movement {
      buf := buf + [0x01];
    } else {
      buf := buf + [0x00];
    }

    buf := buf + [0x01];
    Associates(buf, [29], Put(Unsigned(s.powerMV, 2), 2));
    buf := buf + [29];
    PutUint(b2, 0, 2, Unsigned(s.powerMV, 2));
    buf := buf + b2[..];

    buf := buf + [0x01];
    Associates(buf, [65], Put(Unsigned(s.odometerM, 4), 4));
    buf := buf + [65];
    PutUint(b4, 0, 4, Unsigned(s.odometerM, 4));
    buf := buf + b4[..];

    buf := buf + [0x00];
    LayoutDecodes(imei, ts, s);
  }

  // ----- The receiver's view -----

  function CommandReading(r: Record): Reading
    requires |r.header| == 11 && |r.groups| == 4
  {
    Reading(r.header[0], Signed32(r.header[3]), Signed32(r.header[4]), r.header[6], r.header[8],
            Lookup(r.groups[0], 5), Lookup(r.groups[0], 173),
            Lookup(r.groups[1], 29), Lookup(r.groups[2], 65))
  }

  lemma RecordReading(ts: int, s: Sample)
    requires Encodable(s.lat) && Encodable(s.lon)
    ensures CommandReading(CommandRecord(ts, s)) == Expected(Unsigned(ts, 4), s)
  {
    SignedUnsigned(Scaled(s.lon));
    SignedUnsigned(Scaled(s.lat));
    var r := CommandRecord(ts, s);
    var ios := r.groups[0];
    assert Lookup(ios[1..], 173) == Some(Flag(s.movement));
    assert Lookup(ios, 173) == Lookup(ios[1..], 173);
    assert Lookup(ios, 5) == Some(Flag(s.ignition));
    assert Lookup(r.groups[1], 29) == Some(Unsigned(s.powerMV, 2));
    assert Lookup(r.groups[2], 65) == Some(Unsigned(s.odometerM, 4));
  }

  /** The 50 bytes decode to one record with the sample's values, each reduced to its
      field's width; and the printed identity is the given string exactly when that string
      survives. */
  lemma {:induction false} RuptelaRoundTrip(imei: string, ts: int, s: Sample) returns (p: RuptelaPayload)
    requires Encodable(s.lat) && Encodable(s.lon)
    ensures |PayloadLayout(imei, ts, s)| == 50 && GetRuptela(PayloadLayout(imei, ts, s)) == Some(p)
    ensures p.recordsLeft == 0 && |p.records| == 1
    ensures |p.records[0].header| == 11 && |p.records[0].groups| == 4
    ensures CommandReading(p.records[0]) == Expected(Unsigned(ts, 4), s)
    ensures Padded(p.imei, DIGITS_PRINTED) == Padded(Scan(imei), DIGITS_PRINTED)
    ensures Padded(p.imei, DIGITS_PRINTED) == imei <==> Survives(imei)
  {
    p := CommandPayload(imei, ts, s);
    LayoutDecodes(imei, ts, s);
    RecordReading(ts, s);
    IdentityRoundTrip(imei);
  }
}
