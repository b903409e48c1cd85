/** From the exporters to the delivered records: what comes out of any interleaving of listeners
    and workers is the effect of the packets of each sensor, taken in order; and what they mean,
    where they are understood. */
module Streams {
  import opened Bytes
  import opened Dissector
  import E = Exporter
  import opened RoundTrip
  import U = Understanding
  import opened Workers

  /** A packet as sent, and the bytes that happen to follow it in the receive buffer. */
  datatype Sent = Sent(packet: E.Packet, beyond: bytes)

  /** The state of the packet's observation id, if the sensor knows it. */
  function StateFor(s: Sensor, p: E.Packet): Option<St> {
    match ObservationIdOf(s, p.domain)
    case None => None
    case Some(obs) => Some(St(obs, NO_STATS))
  }

  /** Every packet is for an observation id that the sensor knows, and fits the state that the
      packets before it leave. */
  ghost predicate FitsStream(known: set<nat>, s: Sensor, stream: seq<Sent>)
    decreases |stream|, 0
  {
    stream == [] ||
    (var front, p := stream[..|stream| - 1], stream[|stream| - 1].packet;
     FitsStream(known, s, front) && FitsNext(known, EffectOfStream(known, s, front).0, p))
  }

  ghost predicate FitsNext(known: set<nat>, s: Sensor, p: E.Packet) {
    StateFor(s, p).Some? && E.FitsPacket(known, StateFor(s, p).value, p)
  }

  /** What the packets do to the sensor, one after another, and the records that come out. */
  ghost function EffectOfStream(known: set<nat>, s: Sensor, stream: seq<Sent>): (Sensor, seq<Record>)
    requires FitsStream(known, s, stream)
    decreases |stream|, 1
  {
    if stream == [] then (s, [])
    else
      var (t, records) := EffectOfStream(known, s, stream[..|stream| - 1]);
      var p := stream[|stream| - 1].packet;
      var (st, more) := E.EffectOfSets(known, StateFor(t, p).value, p.ipfix, p.sets, p.sequence % 0x1_0000);
      (WithObservationId(t, p.domain, st.obs), records + more)
  }

  /** Every packet is understood as well, in the state that the packets before it mean. */
  ghost predicate MeantStream(known: set<nat>, s: Sensor, stream: seq<Sent>)
    decreases |stream|, 0
  {
    stream == [] ||
    (var front, p := stream[..|stream| - 1], stream[|stream| - 1].packet;
     MeantStream(known, s, front) && MeantNext(known, MeaningOfStream(known, s, front).0, p))
  }

  ghost predicate MeantNext(known: set<nat>, s: Sensor, p: E.Packet) {
    && FitsNext(known, s, p)
    && E.MeantSets(known, StateFor(s, p).value, p.ipfix, p.sets, p.sequence % 0x1_0000)
  }

  /** What the exporters meant to tell about the sensor, and the records they sent. */
  ghost function MeaningOfStream(known: set<nat>, s: Sensor, stream: seq<Sent>): (Sensor, seq<Record>)
    requires MeantStream(known, s, stream)
    decreases |stream|, 1
  {
    if stream == [] then (s, [])
    else
      var (t, records) := MeaningOfStream(known, s, stream[..|stream| - 1]);
      var p := stream[|stream| - 1].packet;
      var (st, more) := E.MeaningOfSets(known, StateFor(t, p).value, p.ipfix, p.sets, p.sequence % 0x1_0000);
      (WithObservationId(t, p.domain, st.obs), records + more)
  }

  /** A stream that is understood has the effect it was meant to have. */
  lemma {:induction false} StreamUnderstood(known: set<nat>, s: Sensor, stream: seq<Sent>)
    requires MeantStream(known, s, stream)
    ensures FitsStream(known, s, stream)
    ensures EffectOfStream(known, s, stream) == MeaningOfStream(known, s, stream)
    decreases |stream|
  {
    hide FitsNext, E.EffectOfSets, E.MeaningOfSets, E.MeantSets, WithObservationId;
    if stream != [] {
      var front, p := stream[..|stream| - 1], stream[|stream| - 1].packet;
      StreamUnderstood(known, s, front);
      var t := MeaningOfStream(known, s, front).0;
      FitsNextHasState(known, t, p);
      U.SetsUnderstood(known, StateFor(t, p).value, p.ipfix, p.sets, p.sequence % 0x1_0000);
    }
  }

  /** The packets of sensor `sensor` as a listener receives them. */
  ghost function Received(known: set<nat>, sensor: nat, s: Sensor, stream: seq<Sent>): (packets: seq<Packet>)
    requires FitsStream(known, s, stream)
    ensures |packets| == |stream|
  {
    if stream == [] then []
    else
      var front, last := stream[..|stream| - 1], stream[|stream| - 1];
      Received(known, sensor, s, front) + [ReceivedNext(known, sensor, EffectOfStream(known, s, front).0, last)]
  }

  ghost function ReceivedNext(known: set<nat>, sensor: nat, s: Sensor, sent: Sent): Packet
    requires FitsNext(known, s, sent.packet)
  {
    var wire := E.EncodePacket(known, StateFor(s, sent.packet).value, sent.packet);
    Packet(sensor, wire + sent.beyond, |wire|)
  }

  lemma NextRead(known: set<nat>, sensor: nat, s: Sensor, sent: Sent)
    requires FitsNext(known, s, sent.packet)
    ensures var p := sent.packet;
            var (st, more) := E.EffectOfSets(known, StateFor(s, p).value, p.ipfix, p.sets, p.sequence % 0x1_0000);
            Process(known, s, ReceivedNext(known, sensor, s, sent))
              == Some((WithObservationId(s, p.domain, st.obs), more))
  {
    hide E.FitsPacket, E.EncodePacket, E.EffectOfSets, Dissect, Version, Domain, WithObservationId;
    PacketRead(known, StateFor(s, sent.packet).value, sent.packet, sent.beyond);
  }

  /** Dissecting the packets one after another gives their effect. */
  lemma {:induction false} StreamRead(known: set<nat>, sensor: nat, s: Sensor, stream: seq<Sent>)
    requires FitsStream(known, s, stream)
    ensures Fold(known, s, Received(known, sensor, s, stream)) == Some(EffectOfStream(known, s, stream))
  {
    hide Process, FitsNext, ReceivedNext, WithObservationId, E.EffectOfSets;
    if stream != [] {
      var front, last := stream[..|stream| - 1], stream[|stream| - 1];
      StreamRead(known, sensor, s, front);
      var q := Received(known, sensor, s, front);
      var t := EffectOfStream(known, s, front).0;
      NextRead(known, sensor, t, last);
      FitsNextHasState(known, t, last.packet);
      FoldMore(known, s, q, ReceivedNext(known, sensor, t, last));
    }
  }

  lemma FitsNextHasState(known: set<nat>, s: Sensor, p: E.Packet)
    requires FitsNext(known, s, p)
    ensures StateFor(s, p).Some?
    ensures E.FitSets(known, StateFor(s, p).value, p.ipfix, p.sets, p.sequence % 0x1_0000)
  {
  }

  /** The first packets received are those of the first packets sent. */
  lemma {:induction false} ReceivedPrefix(known: set<nat>, sensor: nat, s: Sensor, stream: seq<Sent>, n: nat)
    requires FitsStream(known, s, stream) && n <= |stream|
    ensures FitsStream(known, s, stream[..n])
    ensures Received(known, sensor, s, stream)[..n] == Received(known, sensor, s, stream[..n])
  {
    hide FitsNext, ReceivedNext;
    if n == |stream| {
      assert stream[..n] == stream;
    } else {
      var front := stream[..|stream| - 1];
      ReceivedPrefix(known, sensor, s, front, n);
      assert front[..n] == stream[..n];
    }
  }

  /** At any moment of any interleaving, if what was pushed for a sensor is the packets of a
      stream that fits, its tables and delivered records are the effect of the first packets of
      the stream, as many as were processed. */
  lemma StreamArrives(c: Setup, ys: seq<System>, steps: seq<Step>, k: nat, s: nat, stream: seq<Sent>)
    requires IsRun(c, ys, steps) && k <= |steps| && s < |c.initial| && Shape(c, ys[k])
    requires FitsStream(c.known, c.initial[s], stream)
    requires Of(ys[k].pushed, s) == Received(c.known, s, c.initial[s], stream)
    ensures var n := |Of(ys[k].processed[c.worker[s]], s)|;
            && n <= |stream| && FitsStream(c.known, c.initial[s], stream[..n])
            && (ys[k].sensors[s], ys[k].delivered[s]) == EffectOfStream(c.known, c.initial[s], stream[..n])
  {
    hide Fold, FitsStream, EffectOfStream, Received, Played, Start, Of;
    SensorSeesSequence(c, ys, steps, k, s);
    var done := Of(ys[k].processed[c.worker[s]], s);
    assert Of(ys[k].pushed, s)[..|done|] == done;
    ReceivedPrefix(c.known, s, c.initial[s], stream, |done|);
    StreamRead(c.known, s, c.initial[s], stream[..|done|]);
  }

  /** And once its worker has caught up, that of the whole stream. */
  lemma WholeStreamArrives(c: Setup, ys: seq<System>, steps: seq<Step>, k: nat, s: nat, stream: seq<Sent>)
    requires IsRun(c, ys, steps) && k <= |steps| && s < |c.initial| && Shape(c, ys[k])
    requires FitsStream(c.known, c.initial[s], stream)
    requires Of(ys[k].pushed, s) == Received(c.known, s, c.initial[s], stream)
    requires ys[k].queues[c.worker[s]] == [] && !ys[k].workers[c.worker[s]].Busy?
    ensures (ys[k].sensors[s], ys[k].delivered[s]) == EffectOfStream(c.known, c.initial[s], stream)
  {
    hide Fold, FitsStream, EffectOfStream, Received, Played, Start, Of;
    CaughtUp(c, ys, steps, k, s);
    StreamRead(c.known, s, c.initial[s], stream);
  }

  /** For a stream that is understood it is what the exporters meant. */
  lemma MeantStreamArrives(c: Setup, ys: seq<System>, steps: seq<Step>, k: nat, s: nat, stream: seq<Sent>)
    requires IsRun(c, ys, steps) && k <= |steps| && s < |c.initial| && Shape(c, ys[k])
    requires MeantStream(c.known, c.initial[s], stream) && FitsStream(c.known, c.initial[s], stream)
    requires Of(ys[k].pushed, s) == Received(c.known, s, c.initial[s], stream)
    requires ys[k].queues[c.worker[s]] == [] && !ys[k].workers[c.worker[s]].Busy?
    ensures (ys[k].sensors[s], ys[k].delivered[s]) == MeaningOfStream(c.known, c.initial[s], stream)
  {
    hide *;
    StreamUnderstood(c.known, c.initial[s], stream);
    WholeStreamArrives(c, ys, steps, k, s, stream);
  }
}
