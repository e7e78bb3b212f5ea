/** From samples to readings: everything a simulated device sends, cut out of the byte
    stream and decoded again. */
module Delivery {
  import opened Options
  import opened Word16
  import opened Records
  import opened Samples
  import opened Framing
  import opened Streams
  import opened Sessions
  import Imei
  import Ruptela
  import Teltonika

  /** A sample and the clock value it is sent with. */
  datatype Report = Report(time: int, sample: Sample)

  predicate AllEncodable(reports: seq<Report>) {
    forall i :: 0 <= i < |reports| ==> Encodable(reports[i].sample.lat) && Encodable(reports[i].sample.lon)
  }

  /** The packet decodes to one record whose reading is the report's. */
  ghost predicate PacketCarries(packet: seq<Byte>, report: Report) {
    exists r: Record :: && GetCodec8(packet) == Some([r]) && |r.header| == 10 && |r.groups| == 4
                        && Teltonika.Codec8Reading(r) == Expected(Unsigned(report.time, 8), report.sample)
  }

  /** The payload decodes to this printed identity and one record with the report's reading. */
  ghost predicate PayloadCarries(payload: seq<Byte>, printed: string, report: Report) {
    exists p: RuptelaPayload :: && GetRuptela(payload) == Some(p)
                                && Imei.Padded(p.imei, Imei.DIGITS_PRINTED) == printed
                                && |p.records| == 1 && |p.records[0].header| == 11 && |p.records[0].groups| == 4
                                && Ruptela.CommandReading(p.records[0])
                                   == Expected(Unsigned(report.time, 4), report.sample)
  }

  function TeltonikaPackets(reports: seq<Report>): (ps: seq<seq<Byte>>)
    ensures |ps| == |reports|
    ensures forall i :: 0 <= i < |ps| ==> ps[i] == Teltonika.Codec8Layout(reports[i].time, reports[i].sample)
  {
    seq(|reports|, i requires 0 <= i < |reports| => Teltonika.Codec8Layout(reports[i].time, reports[i].sample))
  }

  lemma PacketsFit(reports: seq<Report>)
    ensures AllFit(PACKET, TeltonikaPackets(reports))
  {
    PowerValues();
    forall i | 0 <= i < |reports| ensures Fits(PACKET, TeltonikaPackets(reports)[i]) {
      Teltonika.LayoutDecodes(reports[i].time, reports[i].sample);
    }
  }

  lemma PacketDecodes(report: Report)
    requires Encodable(report.sample.lat) && Encodable(report.sample.lon)
    ensures PacketCarries(Teltonika.Codec8Layout(report.time, report.sample), report)
  {
    var r := Teltonika.Codec8RoundTrip(report.time, report.sample);
  }

  /** A whole Teltonika session, heard in any chunks, ends with the sender's identity and
      one packet per report, each of which decodes to that report's reading. */
  lemma {:induction false} TeltonikaDelivered(imei: seq<Byte>, reports: seq<Report>, chunks: seq<seq<Byte>>)
    requires |imei| < 0x1_0000 && AllEncodable(reports)
    requires Joined(chunks) == SentBytes(imei, TeltonikaPackets(reports))
    ensures var heard := HearAll(chunks);
            && heard.identity == Some(imei) && heard.stream.pending == [] && !heard.stream.broken
            && |heard.stream.frames| == |reports|
            && forall i :: 0 <= i < |reports| ==> PacketCarries(heard.stream.frames[i], reports[i])
  {
    PowerValues();
    PacketsFit(reports);
    var k, t := SessionDelivery(imei, TeltonikaPackets(reports), chunks);
    forall i | 0 <= i < |reports|
      ensures PacketCarries(TeltonikaPackets(reports)[i], reports[i])
    {
      PacketDecodes(reports[i]);
    }
  }

  /** What a receiver prints for the identity it was sent. */
  function PrintedIdentity(imei: string): string {
    Imei.Padded(Imei.Scan(imei), Imei.DIGITS_PRINTED)
  }

  function RuptelaPayloads(imei: string, reports: seq<Report>): (ps: seq<seq<Byte>>)
    ensures |ps| == |reports|
    ensures forall i :: 0 <= i < |ps| ==> ps[i] == Ruptela.PayloadLayout(imei, reports[i].time, reports[i].sample)
  {
    seq(|reports|, i requires 0 <= i < |reports| => Ruptela.PayloadLayout(imei, reports[i].time, reports[i].sample))
  }

  lemma PayloadsFit(imei: string, reports: seq<Report>)
    ensures AllFit(COMMAND, RuptelaPayloads(imei, reports))
  {
    PowerValues();
    forall i | 0 <= i < |reports| ensures Fits(COMMAND, RuptelaPayloads(imei, reports)[i]) {
      Ruptela.LayoutDecodes(imei, reports[i].time, reports[i].sample);
    }
  }

  lemma PayloadDecodes(imei: string, report: Report)
    requires Encodable(report.sample.lat) && Encodable(report.sample.lon)
    ensures PayloadCarries(Ruptela.PayloadLayout(imei, report.time, report.sample), PrintedIdentity(imei), report)
  {
    var p := Ruptela.RuptelaRoundTrip(imei, report.time, report.sample);
  }

  /** All frames of a Ruptela device, heard in any chunks, decode in order to the reports'
      readings and to one printed identity, which is the device's exactly when that survives. */
  lemma {:induction false} RuptelaDelivered(imei: string, reports: seq<Report>, chunks: seq<seq<Byte>>)
    requires AllEncodable(reports)
    requires Joined(chunks) == StreamOf(COMMAND, RuptelaPayloads(imei, reports))
    ensures var heard := FeedAll(COMMAND, chunks);
            && heard.pending == [] && !heard.broken && |heard.frames| == |reports|
            && forall i :: 0 <= i < |reports| ==> PayloadCarries(heard.frames[i], PrintedIdentity(imei), reports[i])
    ensures PrintedIdentity(imei) == imei <==> Imei.Survives(imei)
  {
    var ps := RuptelaPayloads(imei, reports);
    PayloadsCut(imei, reports, chunks);
    Imei.IdentityRoundTrip(imei);
    forall i | 0 <= i < |reports| ensures PayloadCarries(ps[i], PrintedIdentity(imei), reports[i]) {
      PayloadDecodes(imei, reports[i]);
    }
  }

  lemma PayloadsCut(imei: string, reports: seq<Report>, chunks: seq<seq<Byte>>)
    requires Joined(chunks) == StreamOf(COMMAND, RuptelaPayloads(imei, reports))
    ensures FeedAll(COMMAND, chunks) == Received(RuptelaPayloads(imei, reports), [], false)
  {
    PayloadsFit(imei, reports);
    WholeDelivery(COMMAND, RuptelaPayloads(imei, reports), chunks);
  }
}
