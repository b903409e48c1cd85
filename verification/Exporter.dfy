/** The sending side: NetFlow v9 (sections 5.1 to 5.3, 6.1 and 6.2 of RFC 3954) and IPFIX
    (sections 3.1 to 3.4 and 7 of RFC 7011) packets as data, how they are put on the wire, what
    they mean, and what a collector makes of them. */
module Exporter {
  import opened Bytes
  import opened Wire
  import opened Dissector

  /** A field specifier; `pen` is the private enterprise number of an IPFIX field. */
  datatype WireField = WireField(id: nat, len: nat, pen: Option<nat>)

  datatype Definition = Definition(id: nat, fields: seq<WireField>)

  /** The first `scopes` of the fields of an option template are its scope. */
  datatype OptionDefinition = OptionDefinition(id: nat, scopes: nat, fields: seq<WireField>)

  /** A field's value; `long` picks the three-byte length for a variable-length field. */
  datatype Value = Value(data: bytes, long: bool)

  datatype Body =
    | Flows(records: seq<seq<Value>>, padding: bytes)
    | Options(records: seq<seq<Value>>, padding: bytes)
    | Unreadable(content: bytes)  // a data set whose template the collector does not have

  datatype WireSet =
    | Templates(definitions: seq<Definition>, padding: bytes)
    | OptionTemplates(options: seq<OptionDefinition>, padding: bytes)
    | Data(id: nat, body: Body)

  /** `count` is the v9 header's count of records; `uptime` and `time` are its clock fields. */
  datatype Packet = Packet(ipfix: bool, count: nat, uptime: nat, time: nat, sequence: nat, domain: nat,
      sets: seq<WireSet>)

  // ---------------------------------------------------------------- templates

  /** A template to be stored: field ids and lengths. The collector knows fields by id alone. */
  datatype Layout = Layout(id: nat, fields: seq<(nat, nat)>)

  function Pairs(fields: seq<WireField>): (r: seq<(nat, nat)>)
    ensures |r| == |fields|
  {
    if fields == [] then [] else [(fields[0].id, fields[0].len)] + Pairs(fields[1..])
  }

  function SentLayouts(definitions: seq<Definition>): seq<Layout> {
    if definitions == [] then []
    else [Layout(definitions[0].id, Pairs(definitions[0].fields))] + SentLayouts(definitions[1..])
  }

  function SentOptionLayouts(options: seq<OptionDefinition>): seq<Layout> {
    if options == [] then []
    else [Layout(options[0].id, Pairs(options[0].fields))] + SentOptionLayouts(options[1..])
  }

  /** The collector's limits on a flow template. */
  predicate Acceptable(d: Definition) {
    |d.fields| <= MAX_FIELDS && FixedBytes(Pairs(d.fields)) <= MAX_TEMPLATE_BYTES
  }

  function Masked(fields: seq<(nat, nat)>): (r: seq<(nat, nat)>)
    ensures |r| == |fields|
  {
    if fields == [] then [] else [(fields[0].0 % 0x8000, fields[0].1)] + Masked(fields[1..])
  }

  /** What is stored of the templates of a set: those ahead of the first that is beyond the
      limits, with 15 bits of each field id in both versions. */
  function KeptLayouts(definitions: seq<Definition>): seq<Layout> {
    if definitions == [] || !Acceptable(definitions[0]) then []
    else [Layout(definitions[0].id, Masked(Pairs(definitions[0].fields)))] + KeptLayouts(definitions[1..])
  }

  /** The 16-bit numbers of a field specifier, by twos: an enterprise field takes two pairs. */
  function Specifier(f: WireField): (r: seq<(nat, nat)>)
    ensures r != []
  {
    match f.pen
    case None => [(f.id, f.len)]
    case Some(pen) => [(f.id + 0x8000, f.len), (pen / 0x1_0000, pen % 0x1_0000)]
  }

  function Specifiers(fields: seq<WireField>): (r: seq<(nat, nat)>)
    ensures |r| >= |fields|
  {
    if fields == [] then [] else Specifier(fields[0]) + Specifiers(fields[1..])
  }

  /** What is stored of the option templates of a set: the first, as many pairs of numbers as it
      has fields, but no more than four. */
  function KeptOptionLayouts(options: seq<OptionDefinition>): seq<Layout> {
    if options == [] then []
    else
      var n := |options[0].fields|;
      [Layout(options[0].id, Specifiers(options[0].fields)[..if n > MAX_OPTION_FIELDS then MAX_OPTION_FIELDS else n])]
  }

  /** Each template replaces the one stored under its id. */
  function Define(known: set<nat>, st: St, layouts: seq<Layout>): St
    decreases |layouts|
  {
    if layouts == [] then st
    else
      var obs := Save(known, st.obs, layouts[0].id, layouts[0].fields, false);
      Define(known, St(obs, st.stats.(goodTemplates := st.stats.goodTemplates + 1)), layouts[1..])
  }

  function DefineOptions(known: set<nat>, obs: Obs, layouts: seq<Layout>): Obs
    decreases |layouts|
  {
    if layouts == [] then obs
    else DefineOptions(known, Save(known, obs, layouts[0].id, layouts[0].fields, true), layouts[1..])
  }

  // ---------------------------------------------------------------- records

  /** The values of a record that can be printed, in wire order, under their field ids. */
  function Printed(fields: seq<Field>, values: seq<Value>): seq<(nat, bytes)>
    requires |values| == |fields|
  {
    if fields == [] then []
    else (if fields[0].printed then [(fields[0].id, values[0].data)] else []) + Printed(fields[1..], values[1..])
  }

  function Received(fields: seq<Field>, records: seq<seq<Value>>, sequence: nat): seq<Record>
    requires forall r | r in records :: |r| == |fields|
  {
    if records == [] then []
    else [Record(sequence % 0x1_0000, Printed(fields, records[0]))] + Received(fields, records[1..], sequence + 1)
  }

  /** What the option values of one record name. */
  function FindAll(fields: seq<Field>, values: seq<Value>, found: Found): Found
    requires |values| == |fields|
  {
    if fields == [] then found
    else FindAll(fields[1..], values[1..], Find(found, fields[0].id, values[0].data))
  }

  /** Option records enter the tables in order, so that the last one for an id wins. */
  function LearnAll(fields: seq<Field>, obs: Obs, records: seq<seq<Value>>): Obs
    requires forall r | r in records :: |r| == |fields|
    decreases |records|
  {
    if records == [] then obs
    else LearnAll(fields, Learn(obs, FindAll(fields, records[0], NOTHING)), records[1..])
  }

  predicate IsVariable(f: Field, ipfix: bool) {
    ipfix && f.len == VARIABLE_LENGTH
  }

  /** How many fields stand ahead of the first one of variable length. */
  function Ahead(fields: seq<Field>, ipfix: bool): (n: nat)
    ensures n <= |fields|
  {
    if fields == [] || IsVariable(fields[0], ipfix) then 0 else 1 + Ahead(fields[1..], ipfix)
  }

  predicate HasVariable(fields: seq<Field>, ipfix: bool) {
    Ahead(fields, ipfix) < |fields|
  }

  /** The fields and values of option records that the collector sees: with a field of variable
      length in the template, those ahead of it in the first record. */
  function SeenFields(fields: seq<Field>, ipfix: bool, records: seq<seq<Value>>): seq<Field> {
    if HasVariable(fields, ipfix) && records != [] then fields[..Ahead(fields, ipfix)] else fields
  }

  function SeenRecords(fields: seq<Field>, ipfix: bool, records: seq<seq<Value>>): (seen: seq<seq<Value>>)
    requires forall r | r in records :: |r| == |fields|
    ensures forall r | r in seen :: |r| == |SeenFields(fields, ipfix, records)|
  {
    if HasVariable(fields, ipfix) && records != [] then [records[0][..Ahead(fields, ipfix)]] else records
  }

  /** The fields whose values name something. */
  const NAMING: set<nat> := {APPLICATION_NAME, SELECTOR_NAME, IF_NAME, IF_DESCRIPTION}

  function RecordBytes(fields: seq<Field>): nat {
    if fields == [] then 0 else fields[0].len + RecordBytes(fields[1..])
  }

  /** The naming fields that reading `padding` bytes as an option record fills in. */
  function NamedByPadding(fields: seq<Field>, padding: nat, named: set<nat>): set<nat> {
    if fields == [] || fields[0].len > padding then named
    else
      NamedByPadding(fields[1..], padding - fields[0].len,
                     if fields[0].id !in NAMING then named
                     else if fields[0].len > 0 then named + {fields[0].id} else named - {fields[0].id})
  }

  // ---------------------------------------------------------------- what can be sent

  /** `s` can be sent to a collector in state `obs`: lengths and ids fit their fields, data
      follows the collector's template, and the end of a data set is taken for what it is. */
  ghost predicate Fits(obs: Obs, ipfix: bool, s: WireSet) {
    match s
    case Templates(ds, padding) =>
      |padding| < 4 && (ds == [] ==> padding == []) && forall d | d in ds :: FitsDefinition(ipfix, d)
    case OptionTemplates(ds, padding) =>
      (ds == [] ==> padding == []) && forall d | d in ds :: FitsOptionDefinition(ipfix, d)
    case Data(id, body) =>
      && 0x100 <= id < 0x1_0000
      && var readable := id in obs.templates && obs.templates[id].fields != [];
      match body
      case Unreadable(_) => !readable
      case Flows(records, padding) =>
        && readable && !obs.templates[id].isOption
        && (forall r | r in records :: FitsRecord(obs.templates[id].fields, ipfix, r))
        && Delimited(obs.templates[id].fields, ipfix, records, padding)
      case Options(records, padding) =>
        && readable && obs.templates[id].isOption
        && (forall r | r in records :: FitsRecord(obs.templates[id].fields, ipfix, r))
        && PaddingUnseen(obs.templates[id].fields, ipfix, records, padding)
  }

  predicate FitsField(ipfix: bool, f: WireField) {
    && f.id < (if ipfix then 0x8000 else 0x1_0000) && f.len < 0x1_0000
    && (f.pen.Some? ==> ipfix && f.pen.value < 0x1_0000_0000)
  }

  predicate FitsDefinition(ipfix: bool, d: Definition) {
    d.id < 0x1_0000 && |d.fields| < 0x1_0000 && forall f | f in d.fields :: FitsField(ipfix, f)
  }

  predicate FitsOptionDefinition(ipfix: bool, d: OptionDefinition) {
    d.id < 0x1_0000 && d.scopes <= |d.fields| < 0x4000 && forall f | f in d.fields :: FitsField(ipfix, f)
  }

  predicate FitsValue(f: Field, ipfix: bool, v: Value) {
    if IsVariable(f, ipfix) then |v.data| < if v.long then 0x1_0000 else 255 else |v.data| == f.len
  }

  /** A record: values of the template's lengths, and at least one byte in all. */
  ghost predicate FitsRecord(fields: seq<Field>, ipfix: bool, r: seq<Value>) {
    && |r| == |fields|
    && (forall i | 0 <= i < |r| :: FitsValue(fields[i], ipfix, r[i]))
    && EncodeRecord(fields, ipfix, r) != []
  }

  predicate AllEmpty(fields: seq<Field>) {
    forall f | f in fields :: f.len == 0
  }

  /** No printed field comes after the last byte of a record. */
  predicate TailSilent(fields: seq<Field>) {
    forall i | 0 <= i < |fields| && AllEmpty(fields[i..]) :: !fields[i].printed
  }

  /** Flow records can be told from the padding after them: it is shorter than four bytes, the
      last record, with it, is not, and nothing is printed at the very end of the set. */
  ghost predicate Delimited(fields: seq<Field>, ipfix: bool, records: seq<seq<Value>>, padding: bytes)
    requires forall r | r in records :: FitsRecord(fields, ipfix, r)
  {
    && |padding| < 4
    && (records == [] ||
        (var last := records[|records| - 1];
         assert FitsRecord(fields, ipfix, last);
         |EncodeRecord(fields, ipfix, last)| + |padding| >= 4 && (padding != [] || TailSilent(fields))))
  }

  /** Padding after option records is not there or not reached, or is shorter than a record and
      than any naming field. */
  predicate PaddingUnseen(fields: seq<Field>, ipfix: bool, records: seq<seq<Value>>, padding: bytes) {
    || padding == [] || (HasVariable(fields, ipfix) && records != [])
    || (|padding| < RecordBytes(fields) && NamedByPadding(fields, |padding|, {}) == {})
  }

  // ---------------------------------------------------------------- meaning and effect

  /** What a set means: the state of a collector that takes all of it as it was sent, and the
      flow records it delivers. */
  function Meaning(known: set<nat>, st: St, ipfix: bool, s: WireSet, sequence: nat): (St, seq<Record>)
    requires Fits(st.obs, ipfix, s)
  {
    match s
    case Templates(ds, _) => (Define(known, st, SentLayouts(ds)), [])
    case OptionTemplates(ds, _) => (st.(obs := DefineOptions(known, st.obs, SentOptionLayouts(ds))), [])
    case Data(id, body) =>
      match body
      case Unreadable(_) => (st.(stats := st.stats.(unknownTemplate := st.stats.unknownTemplate + 1)), [])
      case Flows(records, _) =>
        (st.(stats := st.stats.(flows := st.stats.flows + |records|)),
         Received(st.obs.templates[id].fields, records, sequence))
      case Options(records, _) => (st.(obs := LearnAll(st.obs.templates[id].fields, st.obs, records)), [])
  }

  /** What this collector makes of it. It differs where parts of a set are not seen. */
  function Effect(known: set<nat>, st: St, ipfix: bool, s: WireSet, sequence: nat): (St, seq<Record>)
    requires Fits(st.obs, ipfix, s)
  {
    match s
    case Templates(ds, _) => (DefineKept(known, st, ds), [])
    case OptionTemplates(ds, _) => (st.(obs := DefineOptions(known, st.obs, KeptOptionLayouts(ds))), [])
    case Data(id, body) =>
      if body.Options? then
        var fields := st.obs.templates[id].fields;
        (st.(obs := LearnAll(SeenFields(fields, ipfix, body.records), st.obs,
                             SeenRecords(fields, ipfix, body.records))), [])
      else Meaning(known, st, ipfix, s, sequence)
  }

  /** A template beyond the limits is counted, and the rest of its set is skipped. */
  function DefineKept(known: set<nat>, st: St, ds: seq<Definition>): St {
    var st1 := Define(known, st, KeptLayouts(ds));
    if |KeptLayouts(ds)| < |ds| then st1.(stats := st1.stats.(badTemplates := st1.stats.badTemplates + 1)) else st1
  }

  /** The sets whose effect is their meaning. */
  predicate Understood(obs: Obs, ipfix: bool, s: WireSet) {
    match s
    case Templates(ds, _) => forall d | d in ds :: Acceptable(d) && forall f | f in d.fields :: f.id < 0x8000
    case OptionTemplates(ds, _) =>
      |ds| <= 1 && forall d | d in ds :: |d.fields| <= MAX_OPTION_FIELDS && forall f | f in d.fields :: f.pen.None?
    case Data(id, body) =>
      body.Options? && id in obs.templates ==> body.records == [] || !HasVariable(obs.templates[id].fields, ipfix)
  }

  // ---------------------------------------------------------------- on the wire

  function EncodeField(ipfix: bool, f: WireField): bytes
    requires FitsField(ipfix, f)
  {
    Put16(if f.pen.Some? then f.id + 0x8000 else f.id) + Put16(f.len) + (if f.pen.Some? then Put32(f.pen.value) else [])
  }

  function EncodeFields(ipfix: bool, fields: seq<WireField>): bytes
    requires forall f | f in fields :: FitsField(ipfix, f)
  {
    if fields == [] then [] else EncodeField(ipfix, fields[0]) + EncodeFields(ipfix, fields[1..])
  }

  function EncodeDefinition(ipfix: bool, d: Definition): bytes
    requires FitsDefinition(ipfix, d)
  {
    Put16(d.id) + Put16(|d.fields|) + EncodeFields(ipfix, d.fields)
  }

  function EncodeDefinitions(ipfix: bool, ds: seq<Definition>): bytes
    requires forall d | d in ds :: FitsDefinition(ipfix, d)
  {
    if ds == [] then [] else EncodeDefinition(ipfix, ds[0]) + EncodeDefinitions(ipfix, ds[1..])
  }

  /** The header of an option template: IPFIX counts fields, v9 their bytes. */
  function OptionHeader(ipfix: bool, id: nat, n: nat, scopes: nat): bytes
    requires id < 0x1_0000 && scopes <= n < 0x4000
  {
    Put16(id) + (if ipfix then Put16(n) + Put16(scopes) else Put16(4 * scopes) + Put16(4 * (n - scopes)))
  }

  function EncodeOptionDefinition(ipfix: bool, d: OptionDefinition): bytes
    requires FitsOptionDefinition(ipfix, d)
  {
    OptionHeader(ipfix, d.id, |d.fields|, d.scopes) + EncodeFields(ipfix, d.fields)
  }

  function EncodeOptionDefinitions(ipfix: bool, ds: seq<OptionDefinition>): bytes
    requires forall d | d in ds :: FitsOptionDefinition(ipfix, d)
  {
    if ds == [] then [] else EncodeOptionDefinition(ipfix, ds[0]) + EncodeOptionDefinitions(ipfix, ds[1..])
  }

  function EncodeValue(f: Field, ipfix: bool, v: Value): bytes
    requires FitsValue(f, ipfix, v)
  {
    if IsVariable(f, ipfix) then (if v.long then [255] + Put16(|v.data|) else [|v.data|]) + v.data else v.data
  }

  function EncodeRecord(fields: seq<Field>, ipfix: bool, r: seq<Value>): bytes
    requires |r| == |fields| && forall i | 0 <= i < |r| :: FitsValue(fields[i], ipfix, r[i])
  {
    if fields == [] then [] else EncodeValue(fields[0], ipfix, r[0]) + EncodeRecord(fields[1..], ipfix, r[1..])
  }

  ghost function EncodeRecords(fields: seq<Field>, ipfix: bool, records: seq<seq<Value>>): bytes
    requires forall r | r in records :: FitsRecord(fields, ipfix, r)
  {
    if records == [] then []
    else
      assert FitsRecord(fields, ipfix, records[0]);
      EncodeRecord(fields, ipfix, records[0]) + EncodeRecords(fields, ipfix, records[1..])
  }

  ghost function EncodeBody(obs: Obs, ipfix: bool, s: WireSet): bytes
    requires Fits(obs, ipfix, s)
  {
    match s
    case Templates(ds, padding) => EncodeDefinitions(ipfix, ds) + padding
    case OptionTemplates(ds, padding) => EncodeOptionDefinitions(ipfix, ds) + padding
    case Data(id, body) =>
      match body
      case Unreadable(content) => content
      case Flows(records, padding) => EncodeRecords(obs.templates[id].fields, ipfix, records) + padding
      case Options(records, padding) => EncodeRecords(obs.templates[id].fields, ipfix, records) + padding
  }

  function SetId(ipfix: bool, s: WireSet): nat {
    match s
    case Templates(_, _) => if ipfix then 2 else 0
    case OptionTemplates(_, _) => if ipfix then 3 else 1
    case Data(id, _) => id
  }

  ghost function EncodeSet(obs: Obs, ipfix: bool, s: WireSet): bytes
    requires Fits(obs, ipfix, s) && 4 + |EncodeBody(obs, ipfix, s)| < 0x1_0000
  {
    Put16(SetId(ipfix, s)) + Put16(4 + |EncodeBody(obs, ipfix, s)|) + EncodeBody(obs, ipfix, s)
  }

  /** Every set fits the state that the sets before it leave, and the 16-bit length field. */
  ghost predicate FitSets(known: set<nat>, st: St, ipfix: bool, sets: seq<WireSet>, sequence: nat)
    decreases |sets|
  {
    sets == [] ||
    (&& Fits(st.obs, ipfix, sets[0])
     && 4 + |EncodeBody(st.obs, ipfix, sets[0])| < 0x1_0000
     && FitSets(known, Effect(known, st, ipfix, sets[0], sequence).0, ipfix, sets[1..], sequence))
  }

  ghost function EncodeSets(known: set<nat>, st: St, ipfix: bool, sets: seq<WireSet>, sequence: nat): bytes
    requires FitSets(known, st, ipfix, sets, sequence)
    decreases |sets|
  {
    if sets == [] then []
    else
      var st1 := Effect(known, st, ipfix, sets[0], sequence).0;
      EncodeSet(st.obs, ipfix, sets[0]) + EncodeSets(known, st1, ipfix, sets[1..], sequence)
  }

  /** What a collector makes of the sets of a packet, one after another. */
  function EffectOfSets(known: set<nat>, st: St, ipfix: bool, sets: seq<WireSet>, sequence: nat): (St, seq<Record>)
    requires FitSets(known, st, ipfix, sets, sequence)
    decreases |sets|
  {
    if sets == [] then (st, [])
    else
      var (st1, records) := Effect(known, st, ipfix, sets[0], sequence);
      var (st2, more) := EffectOfSets(known, st1, ipfix, sets[1..], sequence);
      (st2, records + more)
  }

  /** Every set fits and is understood in the state that the sets before it mean. */
  ghost predicate MeantSets(known: set<nat>, st: St, ipfix: bool, sets: seq<WireSet>, sequence: nat)
    decreases |sets|
  {
    sets == [] ||
    (&& Fits(st.obs, ipfix, sets[0]) && Understood(st.obs, ipfix, sets[0])
     && 4 + |EncodeBody(st.obs, ipfix, sets[0])| < 0x1_0000
     && MeantSets(known, Meaning(known, st, ipfix, sets[0], sequence).0, ipfix, sets[1..], sequence))
  }

  function MeaningOfSets(known: set<nat>, st: St, ipfix: bool, sets: seq<WireSet>, sequence: nat): (St, seq<Record>)
    requires MeantSets(known, st, ipfix, sets, sequence)
    decreases |sets|
  {
    if sets == [] then (st, [])
    else
      var (st1, records) := Meaning(known, st, ipfix, sets[0], sequence);
      var (st2, more) := MeaningOfSets(known, st1, ipfix, sets[1..], sequence);
      (st2, records + more)
  }

  ghost predicate FitsPacket(known: set<nat>, st: St, p: Packet) {
    && FitSets(known, st, p.ipfix, p.sets, p.sequence % 0x1_0000)
    && p.uptime < 0x1_0000_0000 && p.time < 0x1_0000_0000 && p.sequence < 0x1_0000_0000 && p.domain < 0x1_0000_0000
    && var size := |EncodeSets(known, st, p.ipfix, p.sets, p.sequence % 0x1_0000)|;
    if p.ipfix then 16 + size < 0x1_0000 else |p.sets| <= p.count < 0x1_0000
  }

  ghost function EncodeHeader(p: Packet, size: nat): bytes
    requires p.uptime < 0x1_0000_0000 && p.time < 0x1_0000_0000 && p.sequence < 0x1_0000_0000
               && p.domain < 0x1_0000_0000
    requires if p.ipfix then 16 + size < 0x1_0000 else p.count < 0x1_0000
  {
    if p.ipfix then Put16(10) + Put16(16 + size) + Put32(p.time) + Put32(p.sequence) + Put32(p.domain)
    else Put16(9) + Put16(p.count) + Put32(p.uptime) + Put32(p.time) + Put32(p.sequence) + Put32(p.domain)
  }

  ghost function EncodePacket(known: set<nat>, st: St, p: Packet): bytes
    requires FitsPacket(known, st, p)
  {
    var sets := EncodeSets(known, st, p.ipfix, p.sets, p.sequence % 0x1_0000);
    EncodeHeader(p, |sets|) + sets
  }
}
