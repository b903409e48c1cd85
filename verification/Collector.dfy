/** The collector's dissecting routines in the source's own form (src/collect.c, src/rb_sensor.c,
    src/dynamic-sensors/src/observation_id/mod.rs): loops that move a displacement through the
    packet, fill field arrays in place and change the observation id's tables and the worker's
    counters. Each is proved to compute its function in `Dissector`. */
module Collector {
  import opened Bytes
  import opened Wire
  import opened Dissector

  /** The tables of one observation id; inserting replaces what was stored under the id. */
  class ObservationId {
    var templates: map<nat, Template>
    var applications: map<nat, bytes>
    var selectors: map<nat, bytes>
    var interfaces: map<nat, (bytes, bytes)>

    ghost function Tables(): Obs
      reads this
    {
      Obs(templates, applications, selectors, interfaces)
    }

    constructor ()
      ensures Tables() == Obs(map[], map[], map[], map[])
    {
      templates, applications, selectors, interfaces := map[], map[], map[], map[];
    }

    /** save_template: copies the fields one by one, looking up how each is printed. */
    method SaveTemplate(known: set<nat>, id: nat, fields: seq<(nat, nat)>, isOption: bool)
      modifies this
      ensures Tables() == Save(known, old(Tables()), id, fields, isOption)
    {
      var copy := new Field[|fields|](i requires 0 <= i < |fields| => Field(fields[i].0, fields[i].1, false));
      if !isOption {
        for i := 0 to |fields|
          modifies copy
          invariant forall j | 0 <= j < |fields| ::
                      copy[j] == Field(fields[j].0, fields[j].1, j < i && fields[j].0 in known)
        {
          copy[i] := copy[i].(printed := fields[i].0 in known);
        }
      }
      ghost var goal := StoredTemplate(known, fields, isOption);
      assert |copy[..]| == |goal.fields| && forall i | 0 <= i < |fields| :: copy[..][i] == goal.fields[i];
      assert copy[..] == goal.fields;
      assert Template(copy[..], isOption) == goal;
      templates := templates[id := Template(copy[..], isOption)];
    }
  }

  /** A worker's counters. */
  class Worker {
    var stats: Stats

    constructor ()
      ensures stats == Stats(0, 0, 0, 0)
    {
      stats := Stats(0, 0, 0, 0);
    }
  }

  ghost function Now(worker: Worker, obs: ObservationId): St
    reads worker, obs
  {
    St(obs.Tables(), worker.stats)
  }

  // ---------------------------------------------------------------- templates

  function Prepend(p: seq<(nat, nat)>, l: FieldList): FieldList {
    match l
    case BadFields => BadFields
    case FieldList(fields, displ) => FieldList(p + fields, displ)
  }

  /** The field loop of dissect_flow_template, which also adds up the fixed lengths. */
  method ReadTemplateFields(m: bytes, base: nat, size: nat, ipfix: bool, count: nat)
    returns (bad: bool, fields: array<(nat, nat)>, displ: nat, accumulated: nat)
    ensures fresh(fields)
    ensures TemplateFields(m, base, size, ipfix, 4, count) == if bad then BadFields else FieldList(fields[..], displ)
    ensures !bad ==> accumulated == FixedBytes(fields[..])
  {
    hide U16;
    bad, displ, accumulated := false, 4, 0;
    fields := new (nat, nat)[count];
    ghost var goal := TemplateFields(m, base, size, ipfix, 4, count);
    PrependNothing(goal);
    var i := 0;
    while i < count
      invariant 0 <= i <= count == fields.Length
      invariant accumulated == FixedBytes(fields[..i])
      invariant Prepend(fields[..i], TemplateFields(m, base, size, ipfix, displ, count - i)) == goal
    {
      var enterprise := ipfix && At(m, base + displ) >= 0x80;
      var len := if enterprise then 8 else 4;
      if displ + len > size {
        return true, fields, displ, accumulated;
      }
      ghost var before := fields[..i];
      fields[i] := (U16(m, base + displ) % 0x8000, U16(m, base + displ + 2));
      if fields[i].1 != VARIABLE_LENGTH {
        accumulated := accumulated + fields[i].1;
      }
      assert fields[..i + 1] == before + [fields[i]];
      FixedBytesAppend(before, fields[i]);
      PrependMore(before, fields[i], TemplateFields(m, base, size, ipfix, displ + len, count - i - 1));
      displ := displ + len;
      i := i + 1;
    }
    assert fields[..count] == fields[..] && fields[..] + [] == fields[..];
  }

  lemma PrependNothing(l: FieldList)
    ensures Prepend([], l) == l
  {
    if l.FieldList? { assert [] + l.fields == l.fields; }
  }

  lemma PrependMore(p: seq<(nat, nat)>, f: (nat, nat), l: FieldList)
    ensures Prepend(p, Prepend([f], l)) == Prepend(p + [f], l)
  {
    if l.FieldList? { assert p + ([f] + l.fields) == p + [f] + l.fields; }
  }

  /** dissect_flow_template. */
  method DissectFlowTemplate(known: set<nat>, worker: Worker, obs: ObservationId, m: bytes, base: nat, size: nat,
      ipfix: bool)
    returns (used: nat)
    modifies worker, obs
    ensures (Now(worker, obs), used) == FlowTemplateStep(known, old(Now(worker, obs)), m, base, size, ipfix)
  {
    hide U16, TemplateFields, FixedBytes, Save;
    var count := U16(m, base + 2);
    if count <= MAX_FIELDS {
      var bad, fields, displ, accumulated := ReadTemplateFields(m, base, size, ipfix, count);
      if !bad && accumulated <= MAX_TEMPLATE_BYTES {
        worker.stats := worker.stats.(goodTemplates := worker.stats.goodTemplates + 1);
        obs.SaveTemplate(known, U16(m, base), fields[..], false);
        return if displ <= size && size - displ < 4 then size else displ;
      }
    }
    worker.stats := worker.stats.(badTemplates := worker.stats.badTemplates + 1);
    return size;
  }

  lemma {:induction false} FixedBytesAppend(fields: seq<(nat, nat)>, f: (nat, nat))
    ensures FixedBytes(fields + [f]) == FixedBytes(fields) + (if f.1 != VARIABLE_LENGTH then f.1 else 0)
  {
    if fields == [] {
      assert [] + [f] == [f];
    } else {
      assert (fields + [f])[1..] == fields[1..] + [f];
      FixedBytesAppend(fields[1..], f);
    }
  }

  /** dissect_option_template. */
  method DissectOptionTemplate(known: set<nat>, worker: Worker, obs: ObservationId, m: bytes, base: nat, size: nat,
      ipfix: bool)
    modifies obs
    ensures Now(worker, obs) == OptionTemplate(known, old(Now(worker, obs)), m, base, size, ipfix)
  {
    hide U16, Save, OptionFieldCount;
    if size < 6 {
      return;
    }
    var count := OptionFieldCount(m, base, ipfix);
    if count > MAX_OPTION_FIELDS {
      count := MAX_OPTION_FIELDS;
    }
    if size < 6 + 4 * count {
      return;
    }
    var fields := ReadOptionFields(m, base + 6, count);
    obs.SaveTemplate(known, U16(m, base), fields[..], true);
  }

  method ReadOptionFields(m: bytes, start: nat, count: nat) returns (fields: array<(nat, nat)>)
    ensures fresh(fields) && fields[..] == OptionFields(m, start, count)
  {
    hide U16;
    fields := new (nat, nat)[count];
    var cursor := start;
    for i := 0 to count
      invariant cursor == start + 4 * i
      invariant fields[..i] + OptionFields(m, cursor, count - i) == OptionFields(m, start, count)
    {
      ghost var before := fields[..i];
      fields[i] := (U16(m, cursor), U16(m, cursor + 2));
      assert fields[..i + 1] == before + [fields[i]];
      assert before + ([fields[i]] + OptionFields(m, cursor + 4, count - i - 1))
             == fields[..i + 1] + OptionFields(m, cursor + 4, count - i - 1);
      cursor := cursor + 4;
    }
    assert fields[..count] + [] == fields[..];
  }

  /** dissectNetFlowV9V10TemplateSet. */
  method DissectTemplateSet(known: set<nat>, worker: Worker, obs: ObservationId, m: bytes, base: nat, size: nat,
      ipfix: bool)
    modifies worker, obs
    ensures Now(worker, obs) == TemplateSet(known, old(Now(worker, obs)), m, base, size, ipfix)
  {
    hide FlowTemplateStep, OptionTemplate, At;
    var kind := At(m, base + 1);
    if ipfix && kind == 2 {
      kind := 0;
    }
    if kind != 0 {
      DissectOptionTemplate(known, worker, obs, m, base + 4, SizeMinus(size, 4), ipfix);
    } else {
      var displ := 4;
      while displ < size
        invariant TemplateLoop(known, Now(worker, obs), m, base, size, ipfix, displ)
                  == TemplateLoop(known, old(Now(worker, obs)), m, base, size, ipfix, 4)
        decreases size - displ
      {
        var used := DissectFlowTemplate(known, worker, obs, m, base + displ, size - displ, ipfix);
        displ := displ + used;
      }
    }
  }

  // ---------------------------------------------------------------- what loops have collected so far

  function ValuesBefore(p: seq<(nat, bytes)>, r: (seq<(nat, bytes)>, nat)): (seq<(nat, bytes)>, nat) {
    (p + r.0, r.1)
  }

  function RecordsBefore(p: seq<Record>, r: Option<seq<Record>>): Option<seq<Record>> {
    if r.None? then None else Some(p + r.value)
  }

  function ResultBefore(p: seq<Record>, r: Option<(St, seq<Record>)>): Option<(St, seq<Record>)> {
    if r.None? then None else Some((r.value.0, p + r.value.1))
  }

  lemma NothingBefore(v: (seq<(nat, bytes)>, nat), r: Option<seq<Record>>, s: Option<(St, seq<Record>)>)
    ensures ValuesBefore([], v) == v && RecordsBefore([], r) == r && ResultBefore([], s) == s
  {
    assert [] + v.0 == v.0;
    if r.Some? { assert [] + r.value == r.value; }
    if s.Some? { assert [] + s.value.1 == s.value.1; }
  }

  lemma MoreBefore(p: seq<Record>, q: seq<Record>, r: Option<seq<Record>>, s: Option<(St, seq<Record>)>)
    ensures RecordsBefore(p, RecordsBefore(q, r)) == RecordsBefore(p + q, r)
    ensures ResultBefore(p, ResultBefore(q, s)) == ResultBefore(p + q, s)
  {
    if r.Some? { assert p + (q + r.value) == p + q + r.value; }
    if s.Some? { assert p + (q + s.value.1) == p + q + s.value.1; }
  }

  // ---------------------------------------------------------------- flow data

  /** The inner loop of dissectNetFlowV9V10FlowSetWithTemplate: the fields of one record. */
  method DissectRecord(m: bytes, fields: seq<Field>, pos: nat, end: nat, ipfix: bool)
      returns (values: seq<(nat, bytes)>, next: nat)
    ensures (values, next) == RecordFields(m, fields, 0, pos, end, ipfix)
  {
    values, next := [], pos;
    var k := 0;
    NothingBefore(RecordFields(m, fields, 0, pos, end, ipfix), None, None);
    while k < |fields| && next < end
      invariant k <= |fields|
      invariant ValuesBefore(values, RecordFields(m, fields, k, next, end, ipfix))
                  == RecordFields(m, fields, 0, pos, end, ipfix)
    {
      var (skip, len) := FieldSpan(m, fields[k], next, ipfix);
      ghost var rest := RecordFields(m, fields, k + 1, next + skip + len, end, ipfix);
      if fields[k].printed {
        var value := (fields[k].id, Slice(m, next + skip, len));
        assert values + ([value] + rest.0) == values + [value] + rest.0;
        values := values + [value];
      } else {
        assert [] + rest.0 == rest.0;
      }
      next := next + skip + len;
      k := k + 1;
    }
    assert values + [] == values;
  }

  /** dissectNetFlowV9V10FlowSetWithTemplate. `frozen` stands for the loop that never ends. */
  method DissectFlowSet(worker: Worker, m: bytes, fields: seq<Field>, base: nat, size: nat, ipfix: bool,
      flowSequence: nat)
    returns (records: seq<Record>, frozen: bool)
    modifies worker
    ensures (if frozen then None else Some(records)) == Records(m, fields, base + 4, base + size, ipfix, flowSequence)
    ensures !frozen ==> worker.stats == old(worker.stats).(flows := old(worker.stats.flows) + |records|)
  {
    records, frozen := [], false;
    var displ: nat, end: nat, sequence: nat := base + 4, base + size, flowSequence;
    NothingBefore(([], 0), Records(m, fields, displ, end, ipfix, sequence), None);
    while displ + 4 <= end
      invariant worker.stats == old(worker.stats).(flows := old(worker.stats.flows) + |records|)
      invariant RecordsBefore(records, Records(m, fields, displ, end, ipfix, sequence))
                == Records(m, fields, base + 4, end, ipfix, flowSequence)
      decreases end - displ
    {
      var values, next := DissectRecord(m, fields, displ, end, ipfix);
      if next == displ {
        return records, true;
      }
      var record := Record(sequence % 0x1_0000, values);
      MoreBefore(records, [record], Records(m, fields, next, end, ipfix, sequence + 1), None);
      records := records + [record];
      worker.stats := worker.stats.(flows := worker.stats.flows + 1);
      displ, sequence := next, sequence + 1;
    }
    assert records + [] == records;
  }

  // ---------------------------------------------------------------- option data

  /** dissect_nf9_option_flow. */
  method DissectOptionFlow(obs: ObservationId, m: bytes, t: Template, base: nat, size: nat) returns (cursor: nat)
    modifies obs
    ensures var r := OptionValues(m, t, base, size, 0, 0, NOTHING);
            obs.Tables() == Learn(old(obs.Tables()), r.0) && cursor == r.1
  {
    var found, k := NOTHING, 0;
    cursor := 0;
    while k < |t.fields|
      invariant k <= |t.fields| && cursor <= size
      invariant OptionValues(m, t, base, size, k, cursor, found) == OptionValues(m, t, base, size, 0, 0, NOTHING)
    {
      var len := t.fields[k].len;
      if cursor + len > size {
        cursor := size;  // the last padding
        break;
      }
      found := Find(found, t.fields[k].id, Slice(m, base + cursor, len));
      cursor := cursor + len;
      k := k + 1;
    }
    if found.app != [] {
      obs.applications := obs.applications[found.appId := found.app];
    }
    if found.selector != [] {
      obs.selectors := obs.selectors[found.selectorId := found.selector];
    }
    if found.ifName != [] || found.ifDescription != [] {
      obs.interfaces := obs.interfaces[found.ifId := (found.ifName, found.ifDescription)];
    }
  }

  /** dissect_option_flow_set. */
  method DissectOptionFlowSet(obs: ObservationId, m: bytes, t: Template, base: nat, size: nat) returns (frozen: bool)
    modifies obs
    ensures OptionRecords(m, t, old(obs.Tables()), base, size, 0) == if frozen then None else Some(obs.Tables())
  {
    var cursor := 0;
    while cursor < size
      invariant OptionRecords(m, t, obs.Tables(), base, size, cursor)
                  == OptionRecords(m, t, old(obs.Tables()), base, size, 0)
      decreases size - cursor
    {
      var used := DissectOptionFlow(obs, m, t, base + cursor, size - cursor);
      if used == 0 {
        return true;
      }
      cursor := cursor + used;
    }
    return false;
  }

  // ---------------------------------------------------------------- sets and messages

  /** dissectNetFlowV9V10Flow. */
  method DissectFlow(worker: Worker, obs: ObservationId, m: bytes, base: nat, size: nat, ipfix: bool, flowSequence: nat)
    returns (records: seq<Record>, frozen: bool)
    modifies worker, obs
    ensures (if frozen then None else Some((Now(worker, obs), records)))
            == DataSet(old(Now(worker, obs)), m, base, size, ipfix, flowSequence)
  {
    records, frozen := [], false;
    var id := U16(m, base);
    if id !in obs.templates || obs.templates[id].fields == [] {
      worker.stats := worker.stats.(unknownTemplate := worker.stats.unknownTemplate + 1);
    } else if obs.templates[id].isOption {
      var len := if size < SizeMinus(size, 4) then size else SizeMinus(size, 4);
      frozen := DissectOptionFlowSet(obs, m, obs.templates[id], base + 4, len);
    } else {
      records, frozen := DissectFlowSet(worker, m, obs.templates[id].fields, base, size, ipfix, flowSequence);
    }
  }

  /** dissectNetFlowV9V10Set. */
  method DissectOneSet(known: set<nat>, worker: Worker, obs: ObservationId, m: bytes, size: nat, displ: nat,
      ipfix: bool, flowSequence: nat)
    returns (records: seq<Record>, next: nat, frozen: bool)
    modifies worker, obs
    ensures (if frozen then None else Some((Now(worker, obs), records, next)))
            == DissectSet(known, old(Now(worker, obs)), m, size, displ, ipfix, flowSequence)
  {
    records, next, frozen := [], size + 1, false;
    if size < displ + 4 {
      return;
    }
    var len := U16(m, displ + 2);
    if size < displ + len {
      return;
    }
    if At(m, displ) == 0 || (!ipfix && U16(m, displ) == 1) {
      DissectTemplateSet(known, worker, obs, m, displ, len, ipfix);
    } else {
      records, frozen := DissectFlow(worker, obs, m, displ, len, ipfix, flowSequence);
    }
    next := displ + len;
  }

  /** dissectNetflowV9V10, for a packet of `received` bytes. */
  method DissectMessage(known: set<nat>, worker: Worker, obs: ObservationId, m: bytes, received: nat)
    returns (records: seq<Record>, frozen: bool)
    modifies worker, obs
    ensures (if frozen then None else Some((Now(worker, obs), records)))
              == Dissect(known, old(Now(worker, obs)), m, received)
  {
    var ipfix := U16(m, 0) == 10;
    var entries := U16(m, 2);
    var displ: nat := if ipfix then 16 else 20;
    var sequence: nat := (if ipfix then U32(m, 8) else U32(m, 12)) % 0x1_0000;
    var size := if ipfix && entries < received then entries else received;
    records, frozen := [], false;
    ghost var goal := Dissect(known, Now(worker, obs), m, received);
    NothingBefore(([], 0), None, goal);
    var i := 0;
    while displ < received && i < entries
      invariant i <= entries
      invariant goal
                == ResultBefore(
                     records, Sets(known, Now(worker, obs), m, size, received, displ, entries - i, ipfix, sequence))
      decreases entries - i
    {
      var more, next, stuck := DissectOneSet(known, worker, obs, m, size, displ, ipfix, sequence);
      if stuck {
        return records, true;
      }
      MoreBefore(records, more, None,
                 Sets(known, Now(worker, obs), m, size, received, next, entries - i - 1, ipfix, sequence));
      records := records + more;
      displ, i := next, i + 1;
    }
    assert records + [] == records;
  }
}
