/** From the exporter's own templates and values to what is delivered and stored, without the
    collector's tables in between (src/rb_sensor.c:759-796, src/collect.c:891-1341). */
module Delivery {
  import opened Bytes
  import opened Dissector
  import opened Exporter
  import opened OptionTables
  import opened RoundTrip
  import opened Understanding
  import opened Wire
  import W = Workers

  /** The fields of a template in the order sent; `known` are the ids with a printable element. */
  function AsSent(known: set<nat>, fields: seq<WireField>): (r: seq<Field>)
    ensures |r| == |fields|
  {
    seq(|fields|, (i: nat) requires i < |fields| => Field(fields[i].id, fields[i].len, fields[i].id in known))
  }

  /** The values that an exporter tells in a record, under the ids of their fields and in the order
      sent, as far as something can be printed for them. */
  function Told(known: set<nat>, fields: seq<WireField>, values: seq<Value>): seq<(nat, bytes)>
    requires |values| == |fields|
  {
    if fields == [] then []
    else
      var n := |fields| - 1;
      Told(known, fields[..n], values[..n]) + if fields[n].id in known then [(fields[n].id, values[n].data)] else []
  }

  /** A definition that the collector stores as it was sent, with at least one field. */
  predicate Usable(ipfix: bool, d: Definition) {
    FitsDefinition(ipfix, d) && Plain(d) && d.fields != [] && 0x100 <= d.id
  }

  // ---------------------------------------------------------------- on the wire

  function EncodedTemplate(ipfix: bool, d: Definition): bytes
    requires FitsDefinition(ipfix, d) && 4 + |EncodeDefinition(ipfix, d)| < 0x1_0000
  {
    Put16(if ipfix then 2 else 0) + Put16(4 + |EncodeDefinition(ipfix, d)|) + EncodeDefinition(ipfix, d)
  }

  /** Records in the order of the definition's own fields, and padding. */
  ghost function DataBody(known: set<nat>, ipfix: bool, d: Definition, records: seq<seq<Value>>, padding: bytes): bytes
    requires forall r | r in records :: FitsRecord(AsSent(known, d.fields), ipfix, r)
  {
    EncodeRecords(AsSent(known, d.fields), ipfix, records) + padding
  }

  ghost function EncodedData(known: set<nat>, ipfix: bool, d: Definition, records: seq<seq<Value>>, padding: bytes)
    : bytes
    requires d.id < 0x1_0000 && forall r | r in records :: FitsRecord(AsSent(known, d.fields), ipfix, r)
    requires 4 + |DataBody(known, ipfix, d, records, padding)| < 0x1_0000
  {
    var body := DataBody(known, ipfix, d, records, padding);
    Put16(d.id) + Put16(4 + |body|) + body
  }

  /** The packet header `p` around the bytes of its sets. */
  ghost predicate HeaderFits(p: Packet, sets: bytes) {
    && p.uptime < 0x1_0000_0000 && p.time < 0x1_0000_0000 && p.sequence < 0x1_0000_0000 && p.domain < 0x1_0000_0000
    && if p.ipfix then 16 + |sets| < 0x1_0000 else |p.sets| <= p.count < 0x1_0000
  }

  ghost function Framed(p: Packet, sets: bytes): bytes
    requires HeaderFits(p, sets)
  {
    EncodeHeader(p, |sets|) + sets
  }

  // ---------------------------------------------------------------- one set

  lemma StoredAsSent(known: set<nat>, d: Definition)
    requires Plain(d)
    ensures StoredTemplate(known, Masked(Pairs(d.fields)), false) == Template(AsSent(known, d.fields), false)
  {
    hide Masked;
    MaskedExactly(d.fields);
    PairsAt(d.fields);
    var stored := StoredTemplate(known, Pairs(d.fields), false).fields;
    assert forall i | 0 <= i < |stored| :: stored[i] == AsSent(known, d.fields)[i];
  }

  lemma {:induction false} PairsAt(fields: seq<WireField>)
    ensures forall i | 0 <= i < |fields| :: Pairs(fields)[i] == (fields[i].id, fields[i].len)
  {
    if fields != [] {
      PairsAt(fields[1..]);
      assert forall i | 0 < i < |fields| :: Pairs(fields)[i] == Pairs(fields[1..])[i - 1];
    }
  }

  /** A state with the definition stored as it was sent, and counted. */
  function WithTemplate(known: set<nat>, st: St, d: Definition): St {
    St(st.obs.(templates := st.obs.templates[d.id := Template(AsSent(known, d.fields), false)]),
       st.stats.(goodTemplates := st.stats.goodTemplates + 1))
  }

  lemma TemplateSetOf(known: set<nat>, st: St, ipfix: bool, d: Definition, sequence: nat)
    requires Usable(ipfix, d) && 4 + |EncodeDefinition(ipfix, d)| < 0x1_0000
    ensures var s := Templates([d], []);
            && Fits(st.obs, ipfix, s)
            && EncodeBody(st.obs, ipfix, s) == EncodeDefinition(ipfix, d)
            && EncodeSet(st.obs, ipfix, s) == EncodedTemplate(ipfix, d)
            && Effect(known, st, ipfix, s, sequence) == (WithTemplate(known, st, d), [])
  {
    hide Put16, EncodeDefinition, Acceptable, FitsDefinition, Masked, Pairs, StoredTemplate;
    StoredAsSent(known, d);
    assert [d][1..] == [];
    assert EncodeDefinitions(ipfix, [d]) == EncodeDefinition(ipfix, d) + EncodeDefinitions(ipfix, []);
    assert KeptLayouts([]) == [];
    var l := Layout(d.id, Masked(Pairs(d.fields)));
    assert KeptLayouts([d]) == [l];
    DefineFirst(known, st, l);
  }

  lemma DefineFirst(known: set<nat>, st: St, l: Layout)
    ensures Define(known, st, [l])
              == St(Save(known, st.obs, l.id, l.fields, false), st.stats.(goodTemplates := st.stats.goodTemplates + 1))
  {
    hide Save;
    assert [l][1..] == [];
    var st1 := St(Save(known, st.obs, l.id, l.fields, false), st.stats.(goodTemplates := st.stats.goodTemplates + 1));
    assert Define(known, st1, []) == st1;
  }

  /** The records are delivered in order, numbered from `sequence` on. */
  ghost predicate Delivers(known: set<nat>, fields: seq<WireField>, records: seq<seq<Value>>, sequence: nat,
      out: seq<Record>)
    requires forall r | r in records :: |r| == |fields|
  {
    && |out| == |records|
    && forall i | 0 <= i < |records| ::
         out[i] == Record((sequence + i) % 0x1_0000, Told(known, fields, records[i]))
  }

  lemma {:induction false} PrintedSnoc(fields: seq<Field>, values: seq<Value>)
    requires |values| == |fields| > 0
    ensures var n := |fields| - 1;
            Printed(fields, values)
            == Printed(fields[..n], values[..n]) + if fields[n].printed then [(fields[n].id, values[n].data)] else []
  {
    var n := |fields| - 1;
    if n > 0 {
      PrintedSnoc(fields[1..], values[1..]);
      assert fields[1..][..n - 1] == fields[..n][1..] && values[1..][..n - 1] == values[..n][1..];
    }
  }

  lemma {:induction false} PrintedIsTold(known: set<nat>, fields: seq<WireField>, values: seq<Value>)
    requires |values| == |fields|
    ensures Printed(AsSent(known, fields), values) == Told(known, fields, values)
  {
    if fields != [] {
      var n := |fields| - 1;
      PrintedSnoc(AsSent(known, fields), values);
      PrintedIsTold(known, fields[..n], values[..n]);
      assert AsSent(known, fields)[..n] == AsSent(known, fields[..n]);
    }
  }

  lemma {:induction false} ReceivedAt(fields: seq<Field>, records: seq<seq<Value>>, sequence: nat, i: nat)
    requires (forall r | r in records :: |r| == |fields|) && i < |records|
    ensures |Received(fields, records, sequence)| == |records|
    ensures Received(fields, records, sequence)[i] == Record((sequence + i) % 0x1_0000, Printed(fields, records[i]))
  {
    hide Printed;
    ReceivedLength(fields, records, sequence);
    if i > 0 { ReceivedAt(fields, records[1..], sequence + 1, i - 1); }
  }

  lemma ReceivedDelivers(known: set<nat>, fields: seq<WireField>, records: seq<seq<Value>>, sequence: nat)
    requires forall r | r in records :: |r| == |fields|
    ensures Delivers(known, fields, records, sequence, Received(AsSent(known, fields), records, sequence))
  {
    hide Printed, Told, Received;
    var f := AsSent(known, fields);
    ReceivedLength(f, records, sequence);
    forall i | 0 <= i < |records|
      ensures Received(f, records, sequence)[i] == Record((sequence + i) % 0x1_0000, Told(known, fields, records[i]))
    {
      ReceivedAt(f, records, sequence, i);
      PrintedIsTold(known, fields, records[i]);
    }
  }

  /** Records of the definition's own fields that can be told from the padding. */
  ghost predicate FitsOwn(known: set<nat>, ipfix: bool, d: Definition, records: seq<seq<Value>>, padding: bytes) {
    && (forall r | r in records :: |r| == |d.fields| && FitsRecord(AsSent(known, d.fields), ipfix, r))
    && Delimited(AsSent(known, d.fields), ipfix, records, padding)
    && 4 + |DataBody(known, ipfix, d, records, padding)| < 0x1_0000
  }

  lemma DataSetOf(known: set<nat>, st: St, ipfix: bool, d: Definition, records: seq<seq<Value>>, padding: bytes,
      sequence: nat)
    requires Usable(ipfix, d) && FitsOwn(known, ipfix, d, records, padding)
    requires d.id in st.obs.templates && st.obs.templates[d.id] == Template(AsSent(known, d.fields), false)
    ensures var s := Data(d.id, Flows(records, padding));
            && Fits(st.obs, ipfix, s)
            && EncodeBody(st.obs, ipfix, s) == DataBody(known, ipfix, d, records, padding)
            && EncodeSet(st.obs, ipfix, s) == EncodedData(known, ipfix, d, records, padding)
            && Effect(known, st, ipfix, s, sequence).0.obs == st.obs
            && Delivers(known, d.fields, records, sequence, Effect(known, st, ipfix, s, sequence).1)
  {
    hide Put16, EncodeRecord, EncodeRecords, Delimited, AsSent, Received, FitsValue, Delivers, Plain;
    ReceivedDelivers(known, d.fields, records, sequence);
  }

  // ---------------------------------------------------------------- packets

  lemma OneSet(known: set<nat>, st: St, ipfix: bool, s: WireSet, sequence: nat)
    requires Fits(st.obs, ipfix, s) && 4 + |EncodeBody(st.obs, ipfix, s)| < 0x1_0000
    ensures FitSets(known, st, ipfix, [s], sequence)
    ensures EncodeSets(known, st, ipfix, [s], sequence) == EncodeSet(st.obs, ipfix, s)
    ensures EffectOfSets(known, st, ipfix, [s], sequence) == Effect(known, st, ipfix, s, sequence)
  {
    hide Fits, EncodeBody, EncodeSet, Effect;
    var (st1, records) := Effect(known, st, ipfix, s, sequence);
    assert [s][1..] == [];
    assert FitSets(known, st1, ipfix, [], sequence);
    assert EffectOfSets(known, st1, ipfix, [], sequence) == (st1, []);
    assert EncodeSets(known, st1, ipfix, [], sequence) == [];
    assert records + [] == records;
  }

  lemma TwoSets(known: set<nat>, st: St, ipfix: bool, s: WireSet, t: WireSet, sequence: nat)
    requires Fits(st.obs, ipfix, s) && 4 + |EncodeBody(st.obs, ipfix, s)| < 0x1_0000
    requires var st1 := Effect(known, st, ipfix, s, sequence).0;
             Fits(st1.obs, ipfix, t) && 4 + |EncodeBody(st1.obs, ipfix, t)| < 0x1_0000
    ensures var (st1, records) := Effect(known, st, ipfix, s, sequence);
            var (st2, more) := Effect(known, st1, ipfix, t, sequence);
            && FitSets(known, st, ipfix, [s, t], sequence)
            && EncodeSets(known, st, ipfix, [s, t], sequence)
                 == EncodeSet(st.obs, ipfix, s) + EncodeSet(st1.obs, ipfix, t)
            && EffectOfSets(known, st, ipfix, [s, t], sequence) == (st2, records + more)
  {
    hide Fits, EncodeBody, EncodeSet, Effect;
    var st1 := Effect(known, st, ipfix, s, sequence).0;
    OneSet(known, st1, ipfix, t, sequence);
    assert [s, t][1..] == [t];
  }

  /** What dissecting the packet makes of a state. */
  lemma Dissected(known: set<nat>, st: St, p: Packet, sets: bytes, beyond: bytes)
    requires FitSets(known, st, p.ipfix, p.sets, p.sequence % 0x1_0000) && HeaderFits(p, sets)
    requires EncodeSets(known, st, p.ipfix, p.sets, p.sequence % 0x1_0000) == sets
    ensures var wire := Framed(p, sets);
            && Dissect(known, st, wire + beyond, |wire|)
                 == Some(EffectOfSets(known, st, p.ipfix, p.sets, p.sequence % 0x1_0000))
            && Version(wire + beyond) == (if p.ipfix then 10 else 9) && Domain(wire + beyond) == p.domain
  {
    hide FitSets, EncodeSets, EffectOfSets, Dissect, EncodeHeader, Version, Domain;
    PacketRead(known, st, p, beyond);
  }

  /** A template set and, after it in the same packet, data in the order of the template's own
      fields: each record delivers what the exporter told in it, and the template is stored as it
      was sent. */
  lemma TemplateThenData(known: set<nat>, st: St, p: Packet, d: Definition, records: seq<seq<Value>>, padding: bytes,
      beyond: bytes)
    requires p.sets == [Templates([d], []), Data(d.id, Flows(records, padding))]
    requires Usable(p.ipfix, d) && 4 + |EncodeDefinition(p.ipfix, d)| < 0x1_0000
    requires FitsOwn(known, p.ipfix, d, records, padding)
    requires HeaderFits(p, EncodedTemplate(p.ipfix, d) + EncodedData(known, p.ipfix, d, records, padding))
    ensures var wire := Framed(p, EncodedTemplate(p.ipfix, d) + EncodedData(known, p.ipfix, d, records, padding));
            var r := Dissect(known, st, wire + beyond, |wire|);
            && r.Some? && r.value.0.obs == WithTemplate(known, st, d).obs
            && Delivers(known, d.fields, records, p.sequence % 0x1_0000, r.value.1)
  {
    hide Fits, EncodeBody, EncodeSet, Effect, EncodedTemplate, EncodedData, EncodeDefinition, DataBody, Plain,
      FitsDefinition, AsSent,
      Delivers, Dissect, Framed, HeaderFits, FitSets, EncodeSets, EffectOfSets, FitsOwn;
    var n := p.sequence % 0x1_0000;
    UsableId(p.ipfix, d);
    TemplateSetOf(known, st, p.ipfix, d, n);
    FitsOwnLength(known, p.ipfix, d, records, padding);
    DataSetOf(known, WithTemplate(known, st, d), p.ipfix, d, records, padding, n);
    TwoSets(known, st, p.ipfix, p.sets[0], p.sets[1], n);
    var more := Effect(known, WithTemplate(known, st, d), p.ipfix, p.sets[1], n).1;
    assert [] + more == more;
    assert p.sets == [p.sets[0], p.sets[1]];
    Dissected(known, st, p, EncodedTemplate(p.ipfix, d) + EncodedData(known, p.ipfix, d, records, padding), beyond);
  }

  lemma UsableId(ipfix: bool, d: Definition)
    requires Usable(ipfix, d)
    ensures FitsDefinition(ipfix, d) && d.id < 0x1_0000
  {
  }

  lemma FitsOwnLength(known: set<nat>, ipfix: bool, d: Definition, records: seq<seq<Value>>, padding: bytes)
    requires FitsOwn(known, ipfix, d, records, padding)
    ensures forall r | r in records :: |r| == |d.fields| && FitsRecord(AsSent(known, d.fields), ipfix, r)
    ensures 4 + |DataBody(known, ipfix, d, records, padding)| < 0x1_0000
  {
  }

  // ---------------------------------------------------------------- one packet after another

  /** The packet around one template set, as a listener receives it from sensor `sensor`. */
  ghost function TemplatePacket(sensor: nat, p: Packet, d: Definition, beyond: bytes): W.Packet
    requires FitsDefinition(p.ipfix, d) && 4 + |EncodeDefinition(p.ipfix, d)| < 0x1_0000
    requires HeaderFits(p, EncodedTemplate(p.ipfix, d))
  {
    var wire := Framed(p, EncodedTemplate(p.ipfix, d));
    W.Packet(sensor, wire + beyond, |wire|)
  }

  ghost function DataPacket(known: set<nat>, sensor: nat, p: Packet, d: Definition, records: seq<seq<Value>>,
      padding: bytes, beyond: bytes): W.Packet
    requires d.id < 0x1_0000 && FitsOwn(known, p.ipfix, d, records, padding)
    requires HeaderFits(p, EncodedData(known, p.ipfix, d, records, padding))
  {
    var wire := Framed(p, EncodedData(known, p.ipfix, d, records, padding));
    W.Packet(sensor, wire + beyond, |wire|)
  }

  lemma TemplateTaught(known: set<nat>, s: W.Sensor, sensor: nat, p: Packet, d: Definition, beyond: bytes)
    requires p.sets == [Templates([d], [])]
    requires Usable(p.ipfix, d) && 4 + |EncodeDefinition(p.ipfix, d)| < 0x1_0000
    requires HeaderFits(p, EncodedTemplate(p.ipfix, d)) && W.ObservationIdOf(s, p.domain).Some?
    ensures var r := W.Process(known, s, TemplatePacket(sensor, p, d, beyond));
            && r.Some? && r.value.1 == [] && r.value.0.ids.Keys == s.ids.Keys
            && W.ObservationIdOf(r.value.0, p.domain).Some?
            && var templates := W.ObservationIdOf(r.value.0, p.domain).value.templates;
            && d.id in templates && templates[d.id] == Template(AsSent(known, d.fields), false)
  {
    hide Fits, EncodeBody, EncodeSet, Effect, EncodedTemplate, EncodeDefinition, Plain, FitsDefinition, AsSent,
      Dissect, Framed,
      HeaderFits, FitSets, EncodeSets, EffectOfSets, Version, Domain, W.Process;
    var st := St(W.ObservationIdOf(s, p.domain).value, W.NO_STATS);
    var n := p.sequence % 0x1_0000;
    TemplateSetOf(known, st, p.ipfix, d, n);
    OneSet(known, st, p.ipfix, p.sets[0], n);
    Dissected(known, st, p, EncodedTemplate(p.ipfix, d), beyond);
    W.ProcessChanges(known, s, TemplatePacket(sensor, p, d, beyond));
  }

  lemma DataDelivered(known: set<nat>, s: W.Sensor, sensor: nat, p: Packet, d: Definition, records: seq<seq<Value>>,
      padding: bytes, beyond: bytes)
    requires p.sets == [Data(d.id, Flows(records, padding))]
    requires Usable(p.ipfix, d) && d.id < 0x1_0000 && FitsOwn(known, p.ipfix, d, records, padding)
    requires HeaderFits(p, EncodedData(known, p.ipfix, d, records, padding))
    requires W.ObservationIdOf(s, p.domain).Some?
    requires var templates := W.ObservationIdOf(s, p.domain).value.templates;
             d.id in templates && templates[d.id] == Template(AsSent(known, d.fields), false)
    ensures var r := W.Process(known, s, DataPacket(known, sensor, p, d, records, padding, beyond));
            && r.Some? && (forall q | q in records :: |q| == |d.fields|)
            && Delivers(known, d.fields, records, p.sequence % 0x1_0000, r.value.1)
  {
    hide Fits, EncodeBody, EncodeSet, Effect, EncodedData, DataBody, Plain, FitsDefinition, AsSent, Delivers,
      Dissect, Framed,
      HeaderFits, FitSets, EncodeSets, EffectOfSets, FitsOwn, Version, Domain, W.Process;
    var st := St(W.ObservationIdOf(s, p.domain).value, W.NO_STATS);
    var n := p.sequence % 0x1_0000;
    FitsOwnLength(known, p.ipfix, d, records, padding);
    DataSetOf(known, st, p.ipfix, d, records, padding, n);
    OneSet(known, st, p.ipfix, p.sets[0], n);
    Dissected(known, st, p, EncodedData(known, p.ipfix, d, records, padding), beyond);
    W.ProcessChanges(known, s, DataPacket(known, sensor, p, d, records, padding, beyond));
  }

  /** What a packet taught is still there for a later one: data whose template came in a packet
      before is delivered as its exporter told it, with any packets for other observation ids in
      between. */
  lemma LaterDataDelivered(known: set<nat>, s: W.Sensor, sensor: nat, p: Packet, d: Definition, beyond: bytes,
      between: seq<W.Packet>, q: Packet, records: seq<seq<Value>>, padding: bytes, after: bytes)
    requires p.sets == [Templates([d], [])] && q.sets == [Data(d.id, Flows(records, padding))]
    requires p.domain == q.domain && W.ObservationIdOf(s, p.domain).Some?
    requires Usable(p.ipfix, d) && Usable(q.ipfix, d) && d.id < 0x1_0000
    requires 4 + |EncodeDefinition(p.ipfix, d)| < 0x1_0000 && FitsOwn(known, q.ipfix, d, records, padding)
    requires HeaderFits(p, EncodedTemplate(p.ipfix, d))
    requires HeaderFits(q, EncodedData(known, q.ipfix, d, records, padding))
    requires forall o | o in between :: W.Elsewhere(s, o, p.domain)
    requires W.Fold(known, s, [TemplatePacket(sensor, p, d, beyond)] + between).Some?
    ensures var before := [TemplatePacket(sensor, p, d, beyond)] + between;
            var r := W.Fold(known, s, before + [DataPacket(known, sensor, q, d, records, padding, after)]);
            && r.Some? && (forall v | v in records :: |v| == |d.fields|)
            && exists more :: r.value.1 == W.Fold(known, s, before).value.1 + more
                              && Delivers(known, d.fields, records, q.sequence % 0x1_0000, more)
  {
    hide Plain, FitsDefinition, AsSent, Delivers, HeaderFits, FitsOwn, W.Elsewhere, W.Fold, W.Process,
      W.ObservationIdOf,
      EncodedTemplate, EncodedData, EncodeDefinition, DataBody, TemplatePacket, DataPacket;
    var first, last := TemplatePacket(sensor, p, d, beyond), DataPacket(known, sensor, q, d, records, padding, after);
    TemplateTaught(known, s, sensor, p, d, beyond);
    var s1 := W.Process(known, s, first).value.0;
    W.FoldFirst(known, s, first, between);
    W.ElsewhereOf(s, s1, between, p.domain);
    W.TablesStay(known, s1, between, p.domain);
    var s2 := W.Fold(known, s, [first] + between).value.0;
    DataDelivered(known, s2, sensor, q, d, records, padding, after);
    W.FoldMore(known, s, [first] + between, last);
  }

  // ---------------------------------------------------------------- option templates

  /** An option template that the collector stores as it was sent, with at least one field. */
  predicate UsableOption(ipfix: bool, d: OptionDefinition) {
    && FitsOptionDefinition(ipfix, d) && 0 < |d.fields| <= MAX_OPTION_FIELDS && 0x100 <= d.id
    && forall f | f in d.fields :: f.pen.None?
  }

  function EncodedOptionTemplate(ipfix: bool, d: OptionDefinition): bytes
    requires FitsOptionDefinition(ipfix, d) && 4 + |EncodeOptionDefinition(ipfix, d)| < 0x1_0000
  {
    var body := EncodeOptionDefinition(ipfix, d);
    Put16(if ipfix then 3 else 1) + Put16(4 + |body|) + body
  }

  /** Option records of the template's own fields, none of variable length, and padding that cannot
      be taken for a name. */
  ghost predicate FitsOwnOptions(ipfix: bool, d: OptionDefinition, records: seq<seq<Value>>, padding: bytes) {
    var fields := AsSent({}, d.fields);
    && (forall r | r in records :: |r| == |fields| && FitsRecord(fields, ipfix, r))
    && !HasVariable(fields, ipfix) && PaddingUnseen(fields, ipfix, records, padding)
    && 4 + |EncodeRecords(fields, ipfix, records)| + |padding| < 0x1_0000
  }

  ghost function EncodedOptions(ipfix: bool, d: OptionDefinition, records: seq<seq<Value>>, padding: bytes): bytes
    requires d.id < 0x1_0000 && FitsOwnOptions(ipfix, d, records, padding)
  {
    var body := EncodeRecords(AsSent({}, d.fields), ipfix, records) + padding;
    Put16(d.id) + Put16(4 + |body|) + body
  }

  function WithOptionTemplate(obs: Obs, d: OptionDefinition): Obs {
    obs.(templates := obs.templates[d.id := Template(AsSent({}, d.fields), true)])
  }

  lemma StoredOptionAsSent(known: set<nat>, d: OptionDefinition)
    requires |d.fields| <= MAX_OPTION_FIELDS && forall f | f in d.fields :: f.pen.None?
    ensures KeptOptionLayouts([d]) == [Layout(d.id, Pairs(d.fields))]
    ensures StoredTemplate(known, Pairs(d.fields), true) == Template(AsSent({}, d.fields), true)
  {
    hide Specifiers;
    SpecifiersExactly(d.fields);
    PairsAt(d.fields);
    var stored := StoredTemplate(known, Pairs(d.fields), true).fields;
    assert forall i | 0 <= i < |stored| :: stored[i] == AsSent({}, d.fields)[i];
  }

  lemma OptionTemplateSet(known: set<nat>, st: St, ipfix: bool, d: OptionDefinition, sequence: nat)
    requires UsableOption(ipfix, d) && 4 + |EncodeOptionDefinition(ipfix, d)| < 0x1_0000
    ensures var s := OptionTemplates([d], []);
            && Fits(st.obs, ipfix, s)
            && EncodeBody(st.obs, ipfix, s) == EncodeOptionDefinition(ipfix, d)
            && EncodeSet(st.obs, ipfix, s) == EncodedOptionTemplate(ipfix, d)
            && Effect(known, st, ipfix, s, sequence) == (st.(obs := WithOptionTemplate(st.obs, d)), [])
  {
    hide Put16, EncodeOptionDefinition, FitsOptionDefinition, Pairs, StoredTemplate, KeptOptionLayouts, AsSent;
    StoredOptionAsSent(known, d);
    assert [d][1..] == [];
    assert EncodeOptionDefinitions(ipfix, [d])
        == EncodeOptionDefinition(ipfix, d) + EncodeOptionDefinitions(ipfix, []);
    DefineOne(known, st.obs, Layout(d.id, Pairs(d.fields)));
  }

  /** The tables hold what the records name, entered in order. */
  ghost predicate Enters(fields: seq<WireField>, records: seq<seq<Value>>, before: Obs, after: Obs)
    requires forall r | r in records :: |r| == |fields|
  {
    var own := AsSent({}, fields);
    && after.templates == before.templates
    && after.applications
         == Entered(before.applications, NamedPairs(own, records, APPLICATION_ID, APPLICATION_NAME))
    && after.selectors == Entered(before.selectors, NamedPairs(own, records, SELECTOR_ID, SELECTOR_NAME))
    && after.interfaces == Entered(before.interfaces, Interfaces(own, records))
  }

  lemma OptionSetOf(known: set<nat>, st: St, ipfix: bool, d: OptionDefinition, records: seq<seq<Value>>,
      padding: bytes, sequence: nat)
    requires UsableOption(ipfix, d) && FitsOwnOptions(ipfix, d, records, padding)
    requires d.id in st.obs.templates && st.obs.templates[d.id] == Template(AsSent({}, d.fields), true)
    ensures var s := Data(d.id, Options(records, padding));
            && Fits(st.obs, ipfix, s) && 4 + |EncodeBody(st.obs, ipfix, s)| < 0x1_0000
            && EncodeSet(st.obs, ipfix, s) == EncodedOptions(ipfix, d, records, padding)
            && Effect(known, st, ipfix, s, sequence).1 == []
            && Enters(d.fields, records, st.obs, Effect(known, st, ipfix, s, sequence).0.obs)
  {
    hide Put16, EncodeRecord, EncodeRecords, PaddingUnseen, AsSent, LearnAll, FitsValue, NamedPairs, Interfaces,
      Entered,
      HasVariable;
    TablesAreEntered(AsSent({}, d.fields), st.obs, records);
  }

  /** An option template set and, after it in the same packet, option data in the order of its own
      fields: the template is stored as it was sent, and the tables get what the records name. */
  lemma OptionTemplateThenData(known: set<nat>, st: St, p: Packet, d: OptionDefinition, records: seq<seq<Value>>,
      padding: bytes, beyond: bytes)
    requires p.sets == [OptionTemplates([d], []), Data(d.id, Options(records, padding))]
    requires UsableOption(p.ipfix, d) && 4 + |EncodeOptionDefinition(p.ipfix, d)| < 0x1_0000
    requires FitsOwnOptions(p.ipfix, d, records, padding)
    requires HeaderFits(p, EncodedOptionTemplate(p.ipfix, d) + EncodedOptions(p.ipfix, d, records, padding))
    ensures var wire := Framed(p, EncodedOptionTemplate(p.ipfix, d) + EncodedOptions(p.ipfix, d, records, padding));
            var r := Dissect(known, st, wire + beyond, |wire|);
            && r.Some? && r.value.1 == [] && (forall v | v in records :: |v| == |d.fields|)
            && Enters(d.fields, records, WithOptionTemplate(st.obs, d), r.value.0.obs)
  {
    hide Fits, EncodeBody, EncodeSet, Effect, EncodedOptionTemplate, EncodedOptions, EncodeOptionDefinition, Enters,
      Dissect, Framed, HeaderFits, FitSets, EncodeSets, EffectOfSets, FitsOwnOptions, UsableOption, AsSent;
    var n := p.sequence % 0x1_0000;
    UsableOptionId(p.ipfix, d);
    OwnOptionsLength(p.ipfix, d, records, padding);
    OptionTemplateSet(known, st, p.ipfix, d, n);
    var st1 := st.(obs := WithOptionTemplate(st.obs, d));
    OptionSetOf(known, st1, p.ipfix, d, records, padding, n);
    TwoSets(known, st, p.ipfix, p.sets[0], p.sets[1], n);
    Dissected(known, st, p, EncodedOptionTemplate(p.ipfix, d) + EncodedOptions(p.ipfix, d, records, padding), beyond);
  }

  lemma UsableOptionId(ipfix: bool, d: OptionDefinition)
    requires UsableOption(ipfix, d)
    ensures FitsOptionDefinition(ipfix, d) && d.id < 0x1_0000
  {
  }

  lemma OwnOptionsLength(ipfix: bool, d: OptionDefinition, records: seq<seq<Value>>, padding: bytes)
    requires FitsOwnOptions(ipfix, d, records, padding)
    ensures forall r | r in records :: |r| == |d.fields|
  {
  }
}
