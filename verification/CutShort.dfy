/** Packets, sets and templates that end too early (src/collect.c:891-1005, 1524-1587 and
    1589-1661): what came before counts, and the rest leaves no trace but a counter. */
module CutShort {
  import opened Bytes
  import opened Dissector
  import opened Exporter
  import opened RoundTrip
  import opened Wire

  // ---------------------------------------------------------------- templates

  lemma {:induction false} FieldsCut(m: bytes, base: nat, size: nat, ipfix: bool, displ: nat, fields: seq<WireField>,
      part: bytes)
    requires forall f | f in fields :: FitsField(ipfix, f)
    requires part <= EncodeFields(ipfix, fields) && |part| < |EncodeFields(ipfix, fields)|
    requires Holds(m, base + displ, part) && displ + |part| == size
    ensures TemplateFields(m, base, size, ipfix, displ, |fields|) == BadFields
    decreases |fields|
  {
    hide Holds, EncodeField, U16, At;
    var f := fields[0];
    assert FitsField(ipfix, f);
    var first, more := EncodeField(ipfix, f), EncodeFields(ipfix, fields[1..]);
    FieldLength(ipfix, f);
    if |part| >= |first| {
      var rest := part[|first|..];
      assert part == first + rest;
      HoldsParts(m, base + displ, first, rest);
      FieldRead(m, base + displ, ipfix, f);
      assert rest <= more;
      FieldsCut(m, base, size, ipfix, displ + |first|, fields[1..], rest);
    } else if |part| >= 4 {
      FieldStarts(m, base + displ, ipfix, f, part);
    }
  }

  lemma FieldLength(ipfix: bool, f: WireField)
    requires FitsField(ipfix, f)
    ensures |EncodeField(ipfix, f)| == if f.pen.Some? then 8 else 4
  {
  }

  /** The first byte tells how long a field specifier is. */
  lemma FieldStarts(m: bytes, i: nat, ipfix: bool, f: WireField, part: bytes)
    requires FitsField(ipfix, f) && part <= EncodeField(ipfix, f) && part != [] && Holds(m, i, part)
    ensures ipfix ==> (At(m, i) >= 0x80 <==> f.pen.Some?)
  {
    HoldsAt(m, i, part, 0);
    assert part[0] == EncodeField(ipfix, f)[0];
  }

  /** A template that its set does not hold to the end is rejected. */
  lemma TemplateCut(m: bytes, base: nat, ipfix: bool, d: Definition, part: bytes)
    requires FitsDefinition(ipfix, d) && part <= EncodeDefinition(ipfix, d)
    requires 4 <= |part| < |EncodeDefinition(ipfix, d)| && Holds(m, base, part)
    ensures FlowTemplate(m, base, |part|, ipfix) == BadTemplate
  {
    hide EncodeFields, FitsField, TemplateFields;
    var head := Put16(d.id) + Put16(|d.fields|);
    var rest := part[4..];
    assert EncodeDefinition(ipfix, d) == head + EncodeFields(ipfix, d.fields);
    assert part == head + rest;
    HoldsParts(m, base, head, rest);
    HoldsParts(m, base, Put16(d.id), Put16(|d.fields|));
    Holds16(m, base + 2, |d.fields|);
    FieldsCut(m, base, |part|, ipfix, 4, d.fields, rest);
  }

  /** Of a template set that is cut short within a template, the templates before that one are
      stored, and one bad template is counted. */
  lemma {:induction false} DefinitionsCut(known: set<nat>, st: St, m: bytes, base: nat, size: nat, ipfix: bool,
      displ: nat, ds: seq<Definition>, d: Definition, part: bytes)
    requires forall e | e in ds :: FitsDefinition(ipfix, e) && Acceptable(e)
    requires FitsDefinition(ipfix, d) && part <= EncodeDefinition(ipfix, d)
    requires 4 <= |part| < |EncodeDefinition(ipfix, d)|
    requires Holds(m, base + displ, EncodeDefinitions(ipfix, ds) + part)
    requires displ + |EncodeDefinitions(ipfix, ds)| + |part| == size
    ensures var st1 := Define(known, st, KeptLayouts(ds));
            TemplateLoop(known, st, m, base, size, ipfix, displ)
            == st1.(stats := st1.stats.(badTemplates := st1.stats.badTemplates + 1))
    decreases |ds|
  {
    hide Holds, EncodeDefinition, FlowTemplate, FitsDefinition, Save, Acceptable;
    if ds == [] {
      assert EncodeDefinitions(ipfix, ds) + part == part;
      TemplateCut(m, base + displ, ipfix, d, part);
    } else {
      var more := EncodeDefinitions(ipfix, ds[1..]) + part;
      var e := ds[0];
      assert FitsDefinition(ipfix, e) && Acceptable(e);
      var n := |EncodeDefinition(ipfix, e)|;
      assert EncodeDefinitions(ipfix, ds) + part == EncodeDefinition(ipfix, e) + more;
      HoldsParts(m, base + displ, EncodeDefinition(ipfix, e), more);
      DefinitionRead(m, base + displ, size - displ, ipfix, e);
      DefinitionLength(ipfix, e);
      var st1 := FlowTemplateStep(known, st, m, base + displ, size - displ, ipfix).0;
      DefinitionsCut(known, st1, m, base, size, ipfix, displ + n, ds[1..], d, part);
    }
  }

  /** An option template that its set does not hold as far as its first four fields is dropped. */
  lemma OptionTemplateCut(known: set<nat>, st: St, m: bytes, base: nat, ipfix: bool, d: OptionDefinition, part: bytes)
    requires FitsOptionDefinition(ipfix, d) && part <= EncodeOptionDefinition(ipfix, d) && Holds(m, base, part)
    requires |part| < 6 + 4 * if |d.fields| > 4 then 4 else |d.fields|
    ensures OptionTemplate(known, st, m, base, |part|, ipfix) == st
  {
    hide EncodeFields, FitsField, Save, OptionFields, OptionHeader;
    if |part| >= 6 {
      var head := OptionHeader(ipfix, d.id, |d.fields|, d.scopes);
      HeaderLength(ipfix, d);
      var rest := part[6..];
      assert part == head + rest;
      OptionHeaderRead(m, base, ipfix, d.id, |d.fields|, d.scopes, rest);
    }
  }

  lemma HeaderLength(ipfix: bool, d: OptionDefinition)
    requires d.id < 0x1_0000 && d.scopes <= |d.fields| < 0x4000
    ensures |OptionHeader(ipfix, d.id, |d.fields|, d.scopes)| == 6
  {
  }

  // ---------------------------------------------------------------- packets

  /** The walk over a packet goes through sets that fit, and on from where they end. */
  lemma {:induction false} SetsThen(known: set<nat>, st: St, m: bytes, size: nat, received: nat, displ: nat, left: nat,
      ipfix: bool, sets: seq<WireSet>, sequence: nat)
    requires FitSets(known, st, ipfix, sets, sequence) && |sets| <= left
    requires Holds(m, displ, EncodeSets(known, st, ipfix, sets, sequence))
    requires displ + |EncodeSets(known, st, ipfix, sets, sequence)| <= size <= received
    ensures var (st1, records) := EffectOfSets(known, st, ipfix, sets, sequence);
            var next := displ + |EncodeSets(known, st, ipfix, sets, sequence)|;
            Sets(known, st, m, size, received, displ, left, ipfix, sequence)
            == match Sets(known, st1, m, size, received, next, left - |sets|, ipfix, sequence)
               case None => None
               case Some((st2, more)) => Some((st2, records + more))
    decreases |sets|
  {
    hide Holds, EncodeBody, EncodeSet, Fits, Effect, DissectSet;
    if sets == [] {
      var r := Sets(known, st, m, size, received, displ, left, ipfix, sequence);
      if r.Some? { assert [] + r.value.1 == r.value.1; }
    } else {
      EncodedSet(known, st, ipfix, sets, sequence);
      var first := EncodeSet(st.obs, ipfix, sets[0]);
      var (st1, records) := Effect(known, st, ipfix, sets[0], sequence);
      var rest := EncodeSets(known, st1, ipfix, sets[1..], sequence);
      HoldsParts(m, displ, first, rest);
      SetRead(known, st, m, size, displ, ipfix, sets[0], sequence);
      SetsThen(known, st1, m, size, received, displ + |first|, left - 1, ipfix, sets[1..], sequence);
      var (st2, more) := EffectOfSets(known, st1, ipfix, sets[1..], sequence);
      var r := Sets(known, st2, m, size, received, displ + |first| + |rest|, left - |sets|, ipfix, sequence);
      if r.Some? { assert records + (more + r.value.1) == (records + more) + r.value.1; }
    }
  }

  /** The start of a set that is longer than what is left of the packet. */
  predicate IsCut(tail: bytes) {
    |tail| < 4 || U16(tail, 2) > |tail|
  }

  lemma CutEndsWalk(known: set<nat>, st: St, m: bytes, size: nat, displ: nat, left: nat, ipfix: bool, sequence: nat,
      tail: bytes)
    requires IsCut(tail) && Holds(m, displ, tail) && displ + |tail| == size
    ensures Sets(known, st, m, size, size, displ, left, ipfix, sequence) == Some((st, []))
  {
    hide DissectSet;
    if left > 0 && displ < size {
      CutSetSkipped(known, st, m, size, displ, ipfix, sequence, tail);
      var none: seq<Record> := [];
      assert none + [] == none;
      assert Sets(known, st, m, size, size, size + 1, left - 1, ipfix, sequence) == Some((st, []));
    }
  }

  /** A set that the packet cannot hold leaves tables and counters alone, and ends the walk. */
  lemma CutSetSkipped(known: set<nat>, st: St, m: bytes, size: nat, displ: nat, ipfix: bool, sequence: nat, tail: bytes)
    requires IsCut(tail) && Holds(m, displ, tail) && displ + |tail| == size
    ensures DissectSet(known, st, m, size, displ, ipfix, sequence) == Some((st, [], size + 1))
  {
    hide TemplateSet, DataSet;
    if |tail| >= 4 {
      HoldsAt(m, displ, tail, 2);
      HoldsAt(m, displ, tail, 3);
    }
  }

  /** A packet that ends within a set, `missing` bytes too early, has the effect of the sets
      before that one, and no other: tables, counters and records are those of the sets that came
      whole. */
  lemma PacketCut(known: set<nat>, st: St, p: Packet, tail: bytes, missing: nat, beyond: bytes)
    requires FitSets(known, st, p.ipfix, p.sets, p.sequence % 0x1_0000) && IsCut(tail)
    requires p.uptime < 0x1_0000_0000 && p.time < 0x1_0000_0000 && p.sequence < 0x1_0000_0000
               && p.domain < 0x1_0000_0000
    requires var n := |EncodeSets(known, st, p.ipfix, p.sets, p.sequence % 0x1_0000)| + |tail| + missing;
             if p.ipfix then 16 + n < 0x1_0000 else |p.sets| <= p.count < 0x1_0000
    ensures var sets := EncodeSets(known, st, p.ipfix, p.sets, p.sequence % 0x1_0000);
            var wire := EncodeHeader(p, |sets| + |tail| + missing) + sets + tail;
            Dissect(known, st, wire + beyond, |wire|)
            == Some(EffectOfSets(known, st, p.ipfix, p.sets, p.sequence % 0x1_0000))
  {
    hide EncodeSets, EffectOfSets, FitSets, Sets, At, U16, U32, Put16, Put32, Holds, IsCut;
    var sequence := p.sequence % 0x1_0000;
    var sets := EncodeSets(known, st, p.ipfix, p.sets, sequence);
    var n := |sets| + |tail| + missing;
    var header := EncodeHeader(p, n);
    var wire := header + sets + tail;
    var m := wire + beyond;
    HoldsPrefix(wire, beyond);
    HoldsParts(m, 0, header + sets, tail);
    HoldsParts(m, 0, header, sets);
    HeaderRead(m, p, n);
    SetsLength(known, st, p.ipfix, p.sets, sequence);
    var left := U16(m, 2);
    SetsThen(known, st, m, |wire|, |wire|, |header|, left, p.ipfix, p.sets, sequence);
    var (st1, records) := EffectOfSets(known, st, p.ipfix, p.sets, sequence);
    CutEndsWalk(known, st1, m, |wire|, |header| + |sets|, left - |p.sets|, p.ipfix, sequence, tail);
    assert records + [] == records;
  }
}
