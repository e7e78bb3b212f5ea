/** The record containers of the two protocols and strict parsers for them, driven only
    by the counts in the bytes. */
module Records {
  import opened Options
  import opened Word16
  import opened Wire

  /** The fixed fields of a record in wire order, and its IO elements by value size. */
  datatype Record = Record(header: seq<nat>, groups: seq<seq<Io>>)

  const SIZES: seq<nat> := [1, 2, 4, 8]

  // Teltonika: timestamp, priority, longitude, latitude, altitude, heading, satellites,
  // speed, event IO, total IO count.
  const TELTONIKA_WIDTHS: seq<nat> := [8, 1, 4, 4, 2, 2, 1, 2, 1, 1]

  // Ruptela command 1: timestamp, timestamp extension, priority, longitude, latitude,
  // altitude, heading, satellites, speed, HDOP, event IO.
  const RUPTELA_WIDTHS: seq<nat> := [4, 1, 1, 4, 4, 2, 2, 1, 2, 1, 1]

  const CODEC8: nat := 8

  ghost predicate RecordFits(r: Record, widths: seq<nat>) {
    FieldsFit(widths, r.header) && GroupsFit(r.groups, SIZES)
  }

  function PutRecord(r: Record, widths: seq<nat>): seq<Byte>
    requires |r.header| == |widths| && |r.groups| == |SIZES|
  {
    PutFields(widths, r.header) + PutGroups(r.groups, SIZES)
  }

  function GetRecord(b: seq<Byte>, widths: seq<nat>): Read<Record> {
    match GetFields(b, widths)
    case Short => Short
    case Read(header, rest) =>
      match GetGroups(rest, SIZES)
      case Short => Short
      case Read(groups, rest') => Read(Record(header, groups), rest')
  }

  lemma RecordRoundTrip(r: Record, widths: seq<nat>, rest: seq<Byte>)
    requires RecordFits(r, widths)
    ensures GetRecord(PutRecord(r, widths) + rest, widths) == Read(r, rest)
  {
    Associates(PutFields(widths, r.header), PutGroups(r.groups, SIZES), rest);
    FieldsRoundTrip(widths, r.header, PutGroups(r.groups, SIZES) + rest);
    GroupsRoundTrip(r.groups, SIZES, rest);
  }

  lemma RecordCanonical(b: seq<Byte>, widths: seq<nat>, r: Record, rest: seq<Byte>)
    requires GetRecord(b, widths) == Read(r, rest)
    ensures RecordFits(r, widths) && b == PutRecord(r, widths) + rest
  {
    var fields := GetFields(b, widths);
    FieldsCanonical(b, widths, r.header, fields.rest);
    GroupsCanonical(fields.rest, SIZES, r.groups, rest);
    Associates(PutFields(widths, r.header), PutGroups(r.groups, SIZES), rest);
  }

  lemma SixFieldsOut(total: seq<Byte>, x: seq<Byte>, w: seq<nat>, v: seq<nat>, i: nat)
    requires |w| == |v| && i + 5 < |w| && total == x + PutFields(w[i..], v[i..])
    ensures total == x + Put(v[i], w[i]) + Put(v[i + 1], w[i + 1]) + Put(v[i + 2], w[i + 2])
                     + Put(v[i + 3], w[i + 3]) + Put(v[i + 4], w[i + 4]) + Put(v[i + 5], w[i + 5])
                     + PutFields(w[i + 6..], v[i + 6..])
  {
    ThreeFieldsOut(total, x, w, v, i);
    var x3 := x + Put(v[i], w[i]) + Put(v[i + 1], w[i + 1]) + Put(v[i + 2], w[i + 2]);
    ThreeFieldsOut(total, x3, w, v, i + 3);
  }

  lemma TenFieldsOut(total: seq<Byte>, x: seq<Byte>, w: seq<nat>, v: seq<nat>)
    requires |w| == |v| == 10 && total == x + PutFields(w, v)
    ensures total == x + Put(v[0], w[0]) + Put(v[1], w[1]) + Put(v[2], w[2]) + Put(v[3], w[3])
                     + Put(v[4], w[4]) + Put(v[5], w[5]) + Put(v[6], w[6]) + Put(v[7], w[7])
                     + Put(v[8], w[8]) + Put(v[9], w[9])
  {
    assert w[0..] == w && v[0..] == v;
    SixFieldsOut(total, x, w, v, 0);
    var x6 := x + Put(v[0], w[0]) + Put(v[1], w[1]) + Put(v[2], w[2]) + Put(v[3], w[3])
              + Put(v[4], w[4]) + Put(v[5], w[5]);
    ThreeFieldsOut(total, x6, w, v, 6);
    var x9 := x6 + Put(v[6], w[6]) + Put(v[7], w[7]) + Put(v[8], w[8]);
    FieldOut(total, x9, w, v, 9);
    NoFields(x9 + Put(v[9], w[9]), w[10..], v[10..]);
  }

  lemma ElevenFieldsOut(total: seq<Byte>, x: seq<Byte>, w: seq<nat>, v: seq<nat>)
    requires |w| == |v| == 11 && total == x + PutFields(w, v)
    ensures total == x + Put(v[0], w[0]) + Put(v[1], w[1]) + Put(v[2], w[2]) + Put(v[3], w[3])
                     + Put(v[4], w[4]) + Put(v[5], w[5]) + Put(v[6], w[6]) + Put(v[7], w[7])
                     + Put(v[8], w[8]) + Put(v[9], w[9]) + Put(v[10], w[10])
  {
    assert w[0..] == w && v[0..] == v;
    SixFieldsOut(total, x, w, v, 0);
    var x6 := x + Put(v[0], w[0]) + Put(v[1], w[1]) + Put(v[2], w[2]) + Put(v[3], w[3])
              + Put(v[4], w[4]) + Put(v[5], w[5]);
    ThreeFieldsOut(total, x6, w, v, 6);
    var x9 := x6 + Put(v[6], w[6]) + Put(v[7], w[7]) + Put(v[8], w[8]);
    TwoFieldsOut(total, x9, w, v, 9);
    NoFields(x9 + Put(v[9], w[9]) + Put(v[10], w[10]), w[11..], v[11..]);
  }

  lemma TwoGroupsOut(total: seq<Byte>, x: seq<Byte>, g: seq<seq<Io>>, sizes: seq<nat>, i: nat)
    requires |g| == |sizes| && i + 1 < |g| && total == x + PutGroups(g[i..], sizes[i..])
    ensures total == x + Put(|g[i]|, 1) + PutIos(g[i], sizes[i]) + Put(|g[i + 1]|, 1) + PutIos(g[i + 1], sizes[i + 1])
                     + PutGroups(g[i + 2..], sizes[i + 2..])
  {
    GroupOut(total, x, g, sizes, i);
    GroupOut(total, x + Put(|g[i]|, 1) + PutIos(g[i], sizes[i]), g, sizes, i + 1);
  }

  lemma FourGroupsOut(total: seq<Byte>, x: seq<Byte>, g: seq<seq<Io>>, sizes: seq<nat>)
    requires |g| == |sizes| == 4 && total == x + PutGroups(g, sizes)
    ensures total == x + Put(|g[0]|, 1) + PutIos(g[0], sizes[0]) + Put(|g[1]|, 1) + PutIos(g[1], sizes[1])
                     + Put(|g[2]|, 1) + PutIos(g[2], sizes[2]) + Put(|g[3]|, 1) + PutIos(g[3], sizes[3])
  {
    assert g[0..] == g && sizes[0..] == sizes;
    TwoGroupsOut(total, x, g, sizes, 0);
    var y := x + Put(|g[0]|, 1) + PutIos(g[0], sizes[0]) + Put(|g[1]|, 1) + PutIos(g[1], sizes[1]);
    TwoGroupsOut(total, y, g, sizes, 2);
    NoGroups(y + Put(|g[2]|, 1) + PutIos(g[2], sizes[2]) + Put(|g[3]|, 1) + PutIos(g[3], sizes[3]), g[4..], sizes[4..]);
  }

  lemma NoGroups(x: seq<Byte>, g: seq<seq<Io>>, sizes: seq<nat>)
    requires g == [] && sizes == []
    ensures x + PutGroups(g, sizes) == x
  {
  }

  // ----- A counted list of records -----

  ghost predicate RecordsFit(rs: seq<Record>, widths: seq<nat>) {
    rs == [] || (RecordFits(rs[0], widths) && RecordsFit(rs[1..], widths))
  }

  ghost function PutRecords(rs: seq<Record>, widths: seq<nat>): seq<Byte>
    requires RecordsFit(rs, widths)
  {
    if rs == [] then [] else PutRecord(rs[0], widths) + PutRecords(rs[1..], widths)
  }

  function GetRecords(b: seq<Byte>, count: nat, widths: seq<nat>): Read<seq<Record>>
    decreases count
  {
    if count == 0 then Read([], b)
    else
      match GetRecord(b, widths)
      case Short => Short
      case Read(r, rest) =>
        match GetRecords(rest, count - 1, widths)
        case Short => Short
        case Read(rs, rest') => Read([r] + rs, rest')
  }

  lemma PutRecordsCons(rs: seq<Record>, r: Record, tail: seq<Record>, widths: seq<nat>, rest: seq<Byte>)
    requires rs == [r] + tail && RecordFits(r, widths) && RecordsFit(tail, widths)
    ensures RecordsFit(rs, widths)
    ensures PutRecords(rs, widths) + rest == PutRecord(r, widths) + (PutRecords(tail, widths) + rest)
  {
    assert rs[1..] == tail;
    Associates(PutRecord(r, widths), PutRecords(tail, widths), rest);
  }

  lemma GetRecordsCons(b: seq<Byte>, count: nat, widths: seq<nat>, r: Record, mid: seq<Byte>)
    requires count > 0 && GetRecord(b, widths) == Read(r, mid)
    ensures GetRecords(b, count, widths) ==
            match GetRecords(mid, count - 1, widths)
            case Short => Short
            case Read(rs, rest) => Read([r] + rs, rest)
  {
  }

  lemma {:induction false} RecordsRoundTrip(rs: seq<Record>, widths: seq<nat>, rest: seq<Byte>)
    requires RecordsFit(rs, widths)
    ensures GetRecords(PutRecords(rs, widths) + rest, |rs|, widths) == Read(rs, rest)
  {
    if rs == [] {
      assert PutRecords(rs, widths) + rest == rest;
    } else {
      var r, tail := rs[0], rs[1..];
      assert rs == [r] + tail;
      PutRecordsCons(rs, r, tail, widths, rest);
      RecordRoundTrip(r, widths, PutRecords(tail, widths) + rest);
      GetRecordsCons(PutRecords(rs, widths) + rest, |rs|, widths, r, PutRecords(tail, widths) + rest);
      RecordsRoundTrip(tail, widths, rest);
    }
  }

  lemma JoinRecords(b: seq<Byte>, rs: seq<Record>, r: Record, tail: seq<Record>, widths: seq<nat>, rest: seq<Byte>)
    requires rs == [r] + tail && RecordFits(r, widths) && RecordsFit(tail, widths)
    requires b == PutRecord(r, widths) + (PutRecords(tail, widths) + rest)
    ensures RecordsFit(rs, widths) && b == PutRecords(rs, widths) + rest
  {
    PutRecordsCons(rs, r, tail, widths, rest);
  }

  lemma SplitRecords(b: seq<Byte>, count: nat, widths: seq<nat>) returns (r: Record, mid: seq<Byte>)
    requires count > 0 && GetRecords(b, count, widths).Read?
    ensures GetRecord(b, widths) == Read(r, mid)
    ensures GetRecords(mid, count - 1, widths).Read?
  {
    r, mid := GetRecord(b, widths).value, GetRecord(b, widths).rest;
  }

  lemma RecordsCanonicalStep(b: seq<Byte>, count: nat, widths: seq<nat>, r: Record, mid: seq<Byte>,
                             tail: seq<Record>, rest: seq<Byte>) returns (rs: seq<Record>)
    requires count > 0 && GetRecord(b, widths) == Read(r, mid)
    requires GetRecords(mid, count - 1, widths) == Read(tail, rest)
    requires RecordsFit(tail, widths) && mid == PutRecords(tail, widths) + rest
    ensures GetRecords(b, count, widths) == Read(rs, rest) && |rs| == |tail| + 1
    ensures RecordsFit(rs, widths) && b == PutRecords(rs, widths) + rest
  {
    rs := [r] + tail;
    RecordCanonical(b, widths, r, mid);
    JoinRecords(b, rs, r, tail, widths, rest);
  }

  lemma NoRecords(b: seq<Byte>, widths: seq<nat>) returns (rs: seq<Record>, rest: seq<Byte>)
    ensures GetRecords(b, 0, widths) == Read(rs, rest) && rs == []
    ensures RecordsFit(rs, widths) && b == PutRecords(rs, widths) + rest
  {
    rs, rest := [], b;
    assert b == [] + rest;
  }

  lemma {:induction false} SomeRecordsCanonical(b: seq<Byte>, count: nat, widths: seq<nat>)
    returns (rs: seq<Record>, rest: seq<Byte>)
    requires count > 0 && GetRecords(b, count, widths).Read?
    ensures GetRecords(b, count, widths) == Read(rs, rest)
    ensures |rs| == count && RecordsFit(rs, widths) && b == PutRecords(rs, widths) + rest
    decreases count
  {
    var r, mid := SplitRecords(b, count, widths);
    var tail;
    if count > 1 {
      tail, rest := SomeRecordsCanonical(mid, count - 1, widths);
    } else {
      tail, rest := NoRecords(mid, widths);
    }
    rs := RecordsCanonicalStep(b, count, widths, r, mid, tail, rest);
  }

  lemma RecordsCanonical(b: seq<Byte>, count: nat, widths: seq<nat>) returns (rs: seq<Record>, rest: seq<Byte>)
    requires GetRecords(b, count, widths).Read?
    ensures GetRecords(b, count, widths) == Read(rs, rest)
    ensures |rs| == count && RecordsFit(rs, widths) && b == PutRecords(rs, widths) + rest
  {
    if count > 0 {
      rs, rest := SomeRecordsCanonical(b, count, widths);
    } else {
      rs, rest := NoRecords(b, widths);
    }
  }

  // ----- Teltonika Codec 8 data: codec, count, records, count -----

  function TotalElements(groups: seq<seq<Io>>): nat {
    if groups == [] then 0 else |groups[0]| + TotalElements(groups[1..])
  }

  /** A record whose last header field states the number of its IO elements. */
  predicate TotalStated(r: Record) {
    |r.header| == |TELTONIKA_WIDTHS| && r.header[9] == TotalElements(r.groups)
  }

  predicate TotalsStated(rs: seq<Record>) {
    forall i :: 0 <= i < |rs| ==> TotalStated(rs[i])
  }

  ghost predicate Codec8Fits(rs: seq<Record>) {
    |rs| < 256 && RecordsFit(rs, TELTONIKA_WIDTHS) && TotalsStated(rs)
  }

  ghost function PutCodec8(rs: seq<Record>): seq<Byte>
    requires RecordsFit(rs, TELTONIKA_WIDTHS)
  {
    PutFields([1, 1], [CODEC8, |rs|]) + PutRecords(rs, TELTONIKA_WIDTHS) + Put(|rs|, 1)
  }

  /** Accepts a buffer only if the codec, both record counts and every IO total agree
      and nothing is left over. */
  function GetCodec8(b: seq<Byte>): Option<seq<Record>> {
    match GetFields(b, [1, 1])
    case Short => None
    case Read(start, rest) =>
      if |start| != 2 || start[0] != CODEC8 then None
      else
        match GetRecords(rest, start[1], TELTONIKA_WIDTHS)
        case Short => None
        case Read(rs, rest') =>
          if TotalsStated(rs) && GetField(rest', 1) == Read(start[1], []) then Some(rs) else None
  }

  lemma Codec8Decodes(rs: seq<Record>)
    requires Codec8Fits(rs)
    ensures GetCodec8(PutCodec8(rs)) == Some(rs)
  {
    var start, body, footer := PutFields([1, 1], [CODEC8, |rs|]), PutRecords(rs, TELTONIKA_WIDTHS), Put(|rs|, 1);
    assert Pow256(1) == 256;
    Associates(start, body, footer);
    FieldsRoundTrip([1, 1], [CODEC8, |rs|], body + footer);
    RecordsRoundTrip(rs, TELTONIKA_WIDTHS, footer);
    FieldRoundTrip(|rs|, 1, []);
    assert footer + [] == footer;
  }

  lemma Codec8Canonical(b: seq<Byte>, rs: seq<Record>)
    requires GetCodec8(b) == Some(rs)
    ensures Codec8Fits(rs) && b == PutCodec8(rs)
  {
    var start := GetFields(b, [1, 1]);
    FieldsCanonical(b, [1, 1], start.value, start.rest);
    assert start.value == [CODEC8, start.value[1]];
    var body, rest := RecordsCanonical(start.rest, start.value[1], TELTONIKA_WIDTHS);
    FieldCanonical(rest, 1, |rs|, []);
    assert Pow256(1) == 256;
    assert rest == Put(|rs|, 1);
    Associates(PutFields([1, 1], start.value), PutRecords(rs, TELTONIKA_WIDTHS), rest);
  }

  /** A buffer decodes to `rs` exactly when it is the one encoding of `rs`. */
  lemma Codec8Bijective(b: seq<Byte>, rs: seq<Record>)
    ensures GetCodec8(b) == Some(rs) <==> Codec8Fits(rs) && b == PutCodec8(rs)
  {
    if GetCodec8(b) == Some(rs) {
      Codec8Canonical(b, rs);
    }
    if Codec8Fits(rs) {
      Codec8Decodes(rs);
    }
  }

  // ----- Ruptela command 1: identity, command, records left, count, records -----

  datatype RuptelaPayload = RuptelaPayload(imei: nat, recordsLeft: nat, records: seq<Record>)

  const RUPTELA_PREFIX: seq<nat> := [8, 1, 1, 1]
  const COMMAND_RECORDS: nat := 1

  ghost predicate RuptelaFits(p: RuptelaPayload) {
    && p.imei < Pow256(8) && p.recordsLeft < 256
    && |p.records| < 256 && RecordsFit(p.records, RUPTELA_WIDTHS)
  }

  ghost function PutRuptela(p: RuptelaPayload): seq<Byte>
    requires RecordsFit(p.records, RUPTELA_WIDTHS)
  {
    PutFields(RUPTELA_PREFIX, [p.imei, COMMAND_RECORDS, p.recordsLeft, |p.records|])
    + PutRecords(p.records, RUPTELA_WIDTHS)
  }

  function GetRuptela(b: seq<Byte>): Option<RuptelaPayload> {
    match GetFields(b, RUPTELA_PREFIX)
    case Short => None
    case Read(start, rest) =>
      if |start| != 4 || start[1] != COMMAND_RECORDS then None
      else
        match GetRecords(rest, start[3], RUPTELA_WIDTHS)
        case Short => None
        case Read(rs, rest') => if rest' == [] then Some(RuptelaPayload(start[0], start[2], rs)) else None
  }

  lemma PrefixFits(values: seq<nat>)
    requires |values| == 4
    ensures FieldsFit(RUPTELA_PREFIX, values)
            <==> values[0] < Pow256(8) && values[1] < 256 && values[2] < 256 && values[3] < 256
  {
    assert Pow256(1) == 256;
    FieldsFitEverywhere(RUPTELA_PREFIX, values);
  }

  lemma RuptelaDecodes(p: RuptelaPayload)
    requires RuptelaFits(p)
    ensures GetRuptela(PutRuptela(p)) == Some(p)
  {
    var values := [p.imei, COMMAND_RECORDS, p.recordsLeft, |p.records|];
    var body := PutRecords(p.records, RUPTELA_WIDTHS);
    PrefixFits(values);
    FieldsRoundTrip(RUPTELA_PREFIX, values, body);
    RecordsRoundTrip(p.records, RUPTELA_WIDTHS, []);
    assert body + [] == body;
  }

  lemma RuptelaCanonical(b: seq<Byte>, p: RuptelaPayload)
    requires GetRuptela(b) == Some(p)
    ensures RuptelaFits(p) && b == PutRuptela(p)
  {
    var start := GetFields(b, RUPTELA_PREFIX);
    FieldsCanonical(b, RUPTELA_PREFIX, start.value, start.rest);
    PrefixFits(start.value);
    var body, rest := RecordsCanonical(start.rest, start.value[3], RUPTELA_WIDTHS);
    assert start.value == [p.imei, COMMAND_RECORDS, p.recordsLeft, |p.records|];
    assert PutRecords(p.records, RUPTELA_WIDTHS) + [] == PutRecords(p.records, RUPTELA_WIDTHS);
  }

  /** A buffer decodes to `p` exactly when it is the one encoding of `p`. */
  lemma RuptelaBijective(b: seq<Byte>, p: RuptelaPayload)
    ensures GetRuptela(b) == Some(p) <==> RuptelaFits(p) && b == PutRuptela(p)
  {
    if GetRuptela(b) == Some(p) {
      RuptelaCanonical(b, p);
    }
    if RuptelaFits(p) {
      RuptelaDecodes(p);
    }
  }
}
