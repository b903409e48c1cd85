/** NetFlow v9 and IPFIX packets (src/collect.c): what each dissecting function computes, as
    functions of the storage, the offset and size it is given, and the state it may change.
    The methods of `Collector` are proved against these functions. */
module Dissector {
  import opened Bytes
  import opened Wire

  const VARIABLE_LENGTH: nat := 0xffff
  const MAX_FIELDS: nat := 128
  const MAX_TEMPLATE_BYTES: nat := 1500
  const MAX_OPTION_FIELDS: nat := 4

  // Field identifiers that option data is searched for.
  const APPLICATION_ID: nat := 95
  const APPLICATION_NAME: nat := 96
  const SELECTOR_ID: nat := 302
  const SELECTOR_NAME: nat := 335
  const INPUT_SNMP: nat := 10
  const IF_NAME: nat := 82
  const IF_DESCRIPTION: nat := 83

  /** One field of a stored template; `printed` when some export element has this id. */
  datatype Field = Field(id: nat, len: nat, printed: bool)

  datatype Template = Template(fields: seq<Field>, isOption: bool)

  /** The tables of an observation id that packets may change. */
  datatype Obs = Obs(templates: map<nat, Template>, applications: map<nat, bytes>,
                     selectors: map<nat, bytes>, interfaces: map<nat, (bytes, bytes)>)

  /** The counters of a worker that the dissector moves. */
  datatype Stats = Stats(goodTemplates: nat, badTemplates: nat, unknownTemplate: nat, flows: nat)

  datatype St = St(obs: Obs, stats: Stats)

  /** A flow record: its 16-bit sequence number and the field slices handed to the printer. */
  datatype Record = Record(sequence: nat, fields: seq<(nat, bytes)>)

  // ---------------------------------------------------------------- flow templates

  datatype FieldList = BadFields | FieldList(fields: seq<(nat, nat)>, displ: nat)

  datatype TemplateParse = BadTemplate | GoodTemplate(id: nat, fields: seq<(nat, nat)>, used: nat)

  /** The `k` field specifiers from `displ` on, as (id, length); IPFIX specifiers with the
      enterprise bit take four bytes more. */
  function TemplateFields(m: bytes, base: nat, size: nat, ipfix: bool, displ: nat, k: nat): FieldList
    decreases k
  {
    if k == 0 then FieldList([], displ)
    else
      var len := if ipfix && At(m, base + displ) >= 0x80 then 8 else 4;
      if displ + len > size then BadFields
      else
        match TemplateFields(m, base, size, ipfix, displ + len, k - 1)
        case BadFields => BadFields
        case FieldList(rest, end) =>
          FieldList([(U16(m, base + displ) % 0x8000, U16(m, base + displ + 2))] + rest, end)
  }

  /** The lengths of the fixed-length fields, added up. */
  function FixedBytes(fields: seq<(nat, nat)>): nat {
    if fields == [] then 0
    else (if fields[0].1 != VARIABLE_LENGTH then fields[0].1 else 0) + FixedBytes(fields[1..])
  }

  /** dissect_flow_template, up to storing the template; up to three bytes that follow the
      last field are padding. */
  function FlowTemplate(m: bytes, base: nat, size: nat, ipfix: bool): TemplateParse {
    var count := U16(m, base + 2);
    if count > MAX_FIELDS then BadTemplate
    else
      match TemplateFields(m, base, size, ipfix, 4, count)
      case BadFields => BadTemplate
      case FieldList(fields, displ) =>
        if FixedBytes(fields) > MAX_TEMPLATE_BYTES then BadTemplate
        else GoodTemplate(U16(m, base), fields, if displ <= size && size - displ < 4 then size else displ)
  }

  /** save_template: the copy kept for data sets knows which fields can be printed. */
  function StoredTemplate(known: set<nat>, fields: seq<(nat, nat)>, isOption: bool): Template {
    Template(
      seq(|fields|, (i: nat) requires i < |fields| =>
            Field(fields[i].0, fields[i].1, !isOption && fields[i].0 in known)),
      isOption)
  }

  function Save(known: set<nat>, obs: Obs, id: nat, fields: seq<(nat, nat)>, isOption: bool): Obs {
    obs.(templates := obs.templates[id := StoredTemplate(known, fields, isOption)])
  }

  /** One round of the template-set loop: the new state and the bytes consumed. */
  function FlowTemplateStep(known: set<nat>, st: St, m: bytes, base: nat, size: nat, ipfix: bool): (r: (St, nat))
    ensures size > 0 ==> r.1 > 0
  {
    match FlowTemplate(m, base, size, ipfix)
    case BadTemplate => (st.(stats := st.stats.(badTemplates := st.stats.badTemplates + 1)), size)
    case GoodTemplate(id, fields, used) =>
      TemplateFieldsAdvance(m, base, size, ipfix, 4, U16(m, base + 2));
      (St(Save(known, st.obs, id, fields, false), st.stats.(goodTemplates := st.stats.goodTemplates + 1)), used)
  }

  lemma {:induction false} TemplateFieldsAdvance(m: bytes, base: nat, size: nat, ipfix: bool, displ: nat, k: nat)
    ensures var r := TemplateFields(m, base, size, ipfix, displ, k);
            r.FieldList? ==> |r.fields| == k && displ + 4 * k <= r.displ && (k > 0 ==> r.displ <= size)
    decreases k
  {
    if k > 0 {
      var len := if ipfix && At(m, base + displ) >= 0x80 then 8 else 4;
      TemplateFieldsAdvance(m, base, size, ipfix, displ + len, k - 1);
    }
  }

  /** All the flow templates of a set: every round consumes something, on every input. */
  function TemplateLoop(known: set<nat>, st: St, m: bytes, base: nat, size: nat, ipfix: bool, displ: nat): St
    decreases size - displ
  {
    if displ >= size then st
    else
      var (st1, used) := FlowTemplateStep(known, st, m, base + displ, size - displ, ipfix);
      TemplateLoop(known, st1, m, base, size, ipfix, displ + used)
  }

  // ---------------------------------------------------------------- option templates

  /** The (id, length) pairs of `k` option-template fields from offset `i` on. */
  function OptionFields(m: bytes, i: nat, k: nat): (r: seq<(nat, nat)>)
    ensures |r| == k
    decreases k
  {
    if k == 0 then [] else [(U16(m, i), U16(m, i + 2))] + OptionFields(m, i + 4, k - 1)
  }

  /** The field count in the header: v9 gives the sizes in bytes of the scope and option
      parts, IPFIX the total count. */
  function OptionFieldCount(m: bytes, base: nat, ipfix: bool): nat {
    if ipfix then U16(m, base + 2) else U16(m, base + 2) / 4 + U16(m, base + 4) / 4
  }

  /** dissect_option_template: only the first four fields are kept; a template that does not
      fit is dropped. */
  function OptionTemplate(known: set<nat>, st: St, m: bytes, base: nat, size: nat, ipfix: bool): St {
    if size < 6 then st
    else
      var total := OptionFieldCount(m, base, ipfix);
      var count := if total > MAX_OPTION_FIELDS then MAX_OPTION_FIELDS else total;
      if size < 6 + 4 * count then st
      else st.(obs := Save(known, st.obs, U16(m, base), OptionFields(m, base + 6, count), true))
  }

  /** `a - b` in the source's 64-bit size_t. */
  function SizeMinus(a: nat, b: nat): nat
    requires b <= 0x1_0000_0000_0000_0000
  {
    if b <= a then a - b else 0x1_0000_0000_0000_0000 + a - b
  }

  /** dissectNetFlowV9V10TemplateSet. */
  function TemplateSet(known: set<nat>, st: St, m: bytes, base: nat, size: nat, ipfix: bool): St {
    var kind := if ipfix && At(m, base + 1) == 2 then 0 else At(m, base + 1);
    if kind != 0 then
      OptionTemplate(known, st, m, base + 4, SizeMinus(size, 4), ipfix)
    else
      TemplateLoop(known, st, m, base, size, ipfix, 4)
  }

  // ---------------------------------------------------------------- flow data

  /** Where the value of a field at `pos` starts and how long it is; variable-length fields
      carry a length of one byte, or 255 and two bytes. */
  function FieldSpan(m: bytes, f: Field, pos: nat, ipfix: bool): (nat, nat) {
    if ipfix && f.len == VARIABLE_LENGTH then
      if At(m, pos) < 255 then (1, At(m, pos)) else (3, U16(m, pos + 1))
    else (0, f.len)
  }

  /** The fields of one record from field `k` and offset `pos` on, and the offset reached. */
  function RecordFields(m: bytes, fields: seq<Field>, k: nat, pos: nat, end: nat, ipfix: bool)
    : (r: (seq<(nat, bytes)>, nat))
    requires k <= |fields|
    ensures r.1 >= pos
    decreases |fields| - k
  {
    if k == |fields| || pos >= end then ([], pos)
    else
      var (skip, len) := FieldSpan(m, fields[k], pos, ipfix);
      var rest := RecordFields(m, fields, k + 1, pos + skip + len, end, ipfix);
      ((if fields[k].printed then [(fields[k].id, Slice(m, pos + skip, len))] else []) + rest.0, rest.1)
  }

  /** The records of a data set. None when the loop never ends: a round that consumes nothing
      repeats for ever. Fewer than four bytes at the end are padding. */
  function Records(m: bytes, fields: seq<Field>, pos: nat, end: nat, ipfix: bool, sequence: nat): Option<seq<Record>>
    decreases end - pos
  {
    if end < pos + 4 then Some([])
    else
      var (values, next) := RecordFields(m, fields, 0, pos, end, ipfix);
      if next == pos then None
      else
        match Records(m, fields, next, end, ipfix, sequence + 1)
        case None => None
        case Some(rest) => Some([Record(sequence % 0x1_0000, values)] + rest)
  }

  // ---------------------------------------------------------------- option data

  /** What one option record names so far: the last value seen for each interesting field. */
  datatype Found = Found(appId: nat, app: bytes, selectorId: nat, selector: bytes, ifId: nat, ifName: bytes,
      ifDescription: bytes)

  const NOTHING: Found := Found(0, [], 0, [], 0, [], [])

  function Find(f: Found, id: nat, value: bytes): Found {
    if id == APPLICATION_ID then f.(appId := Net2Number(value))
    else if id == APPLICATION_NAME then f.(app := value)
    else if id == SELECTOR_ID then f.(selectorId := Net2Number(value))
    else if id == SELECTOR_NAME then f.(selector := value)
    else if id == INPUT_SNMP then f.(ifId := Net2Number(value))
    else if id == IF_NAME then f.(ifName := value)
    else if id == IF_DESCRIPTION then f.(ifDescription := value)
    else f
  }

  /** The option fields from field `k` and offset `cursor` on; a field that does not fit means
      that only padding is left. */
  function OptionValues(m: bytes, t: Template, base: nat, size: nat, k: nat, cursor: nat, found: Found)
    : (r: (Found, nat))
    requires k <= |t.fields| && cursor <= size
    ensures cursor <= r.1 <= size
    decreases |t.fields| - k
  {
    if k == |t.fields| then (found, cursor)
    else if cursor + t.fields[k].len > size then (found, size)
    else
      OptionValues(m, t, base, size, k + 1, cursor + t.fields[k].len,
                   Find(found, t.fields[k].id, Slice(m, base + cursor, t.fields[k].len)))
  }

  /** Entering what an option record named into the tables. */
  function Learn(obs: Obs, f: Found): Obs {
    var o1 := if f.app != [] then obs.(applications := obs.applications[f.appId := f.app]) else obs;
    var o2 := if f.selector != [] then o1.(selectors := o1.selectors[f.selectorId := f.selector]) else o1;
    if f.ifName != [] || f.ifDescription != [] then
      o2.(interfaces := o2.interfaces[f.ifId := (f.ifName, f.ifDescription)])
    else o2
  }

  /** dissect_option_flow_set; None when a round consumes nothing and the loop never ends. */
  function OptionRecords(m: bytes, t: Template, obs: Obs, base: nat, size: nat, cursor: nat): Option<Obs>
    decreases size - cursor
  {
    if cursor >= size then Some(obs)
    else
      var (found, used) := OptionValues(m, t, base + cursor, size - cursor, 0, 0, NOTHING);
      if used == 0 then None
      else OptionRecords(m, t, Learn(obs, found), base, size, cursor + used)
  }

  // ---------------------------------------------------------------- sets and messages

  /** dissectNetFlowV9V10Flow, for the data set at `base` of `size` bytes. */
  function DataSet(st: St, m: bytes, base: nat, size: nat, ipfix: bool, sequence: nat): Option<(St, seq<Record>)> {
    var id := U16(m, base);
    if id !in st.obs.templates || st.obs.templates[id].fields == [] then
      Some((st.(stats := st.stats.(unknownTemplate := st.stats.unknownTemplate + 1)), []))
    else if st.obs.templates[id].isOption then
      var left := if size < SizeMinus(size, 4) then size else SizeMinus(size, 4);
      match OptionRecords(m, st.obs.templates[id], st.obs, base + 4, left, 0)
      case None => None
      case Some(obs) => Some((st.(obs := obs), []))
    else
      match Records(m, st.obs.templates[id].fields, base + 4, base + size, ipfix, sequence)
      case None => None
      case Some(records) => Some((st.(stats := st.stats.(flows := st.stats.flows + |records|)), records))
  }

  /** dissectNetFlowV9V10Set for the set at `displ`: new state, records, and next offset. A
      set that the packet cannot hold ends the walk beyond the packet. */
  function DissectSet(known: set<nat>, st: St, m: bytes, size: nat, displ: nat, ipfix: bool, sequence: nat)
    : Option<(St, seq<Record>, nat)>
  {
    if size < displ + 4 then Some((st, [], size + 1))
    else
      var len := U16(m, displ + 2);
      if size < displ + len then Some((st, [], size + 1))
      else if At(m, displ) == 0 || (!ipfix && U16(m, displ) == 1) then
        Some((TemplateSet(known, st, m, displ, len, ipfix), [], displ + len))
      else
        match DataSet(st, m, displ, len, ipfix, sequence)
        case None => None
        case Some((st1, records)) => Some((st1, records, displ + len))
  }

  /** The set loop of dissectNetflowV9V10, with `left` iterations to go. */
  function Sets(known: set<nat>, st: St, m: bytes, size: nat, received: nat, displ: nat, left: nat, ipfix: bool,
      sequence: nat): Option<(St, seq<Record>)>
    decreases left
  {
    if left == 0 || displ >= received then Some((st, []))
    else
      match DissectSet(known, st, m, size, displ, ipfix, sequence)
      case None => None
      case Some((st1, records, next)) =>
        match Sets(known, st1, m, size, received, next, left - 1, ipfix, sequence)
        case None => None
        case Some((st2, more)) => Some((st2, records + more))
  }

  function Version(m: bytes): nat { U16(m, 0) }

  /** The observation domain (IPFIX) or source id (v9) that a packet is for. */
  function Domain(m: bytes): nat {
    if Version(m) == 10 then U32(m, 12) else U32(m, 16)
  }

  /** dissectNetflowV9V10 for a packet of `received` bytes, once its observation id is known.
      The 32-bit sequence number of the header is cut to 16 bits on the way down. */
  function Dissect(known: set<nat>, st: St, m: bytes, received: nat): Option<(St, seq<Record>)> {
    if Version(m) == 10 then
      var size := if received < U16(m, 2) then received else U16(m, 2);
      Sets(known, st, m, size, received, 16, U16(m, 2), true, U32(m, 8) % 0x1_0000)
    else
      Sets(known, st, m, received, received, 20, U16(m, 2), false, U32(m, 12) % 0x1_0000)
  }
}
