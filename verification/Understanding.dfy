/** When what the collector makes of a packet is what the exporter meant (src/collect.c:840-1005,
    1018-1098 and 1343-1436), with inputs where it is not. */
module Understanding {
  import opened Bytes
  import opened Dissector
  import opened Exporter
  import opened RoundTrip
  import opened Wire

  // ---------------------------------------------------------------- flow templates

  lemma {:induction false} MaskedExactly(fields: seq<WireField>)
    ensures Masked(Pairs(fields)) == Pairs(fields) <==> forall f | f in fields :: f.id < 0x8000
  {
    if fields != [] {
      MaskedExactly(fields[1..]);
      MaskedMore(fields);
      var rest := fields[1..];
      assert Pairs(fields) == [(fields[0].id, fields[0].len)] + Pairs(rest);
      SameFirst((fields[0].id % 0x8000, fields[0].len), (fields[0].id, fields[0].len), Masked(Pairs(rest)),
                Pairs(rest));
      assert fields == [fields[0]] + rest;
    }
  }

  lemma SameFirst<T>(a: T, b: T, s: seq<T>, t: seq<T>)
    ensures [a] + s == [b] + t <==> a == b && s == t
  {
    if [a] + s == [b] + t {
      assert a == ([a] + s)[0] == ([b] + t)[0] == b;
      assert s == ([a] + s)[1..] == ([b] + t)[1..] == t;
    }
  }

  /** A definition that is stored as it was sent. */
  predicate Plain(d: Definition) {
    Acceptable(d) && forall f | f in d.fields :: f.id < 0x8000
  }

  lemma AllPlain(ds: seq<Definition>)
    requires ds != []
    ensures (forall d | d in ds :: Plain(d)) <==> Plain(ds[0]) && forall d | d in ds[1..] :: Plain(d)
  {
    assert ds == [ds[0]] + ds[1..];
  }

  /** All templates of a set are kept as sent exactly when each is within the limits and no field
      type uses the sixteenth bit. */
  lemma {:induction false} LayoutsExactly(ds: seq<Definition>)
    ensures KeptLayouts(ds) == SentLayouts(ds) <==> forall d | d in ds :: Plain(d)
  {
    hide Acceptable, Pairs, Masked;
    if ds != [] {
      LayoutsExactly(ds[1..]);
      MaskedExactly(ds[0].fields);
      AllPlain(ds);
      if Acceptable(ds[0]) {
        SameFirst(Layout(ds[0].id, Masked(Pairs(ds[0].fields))), Layout(ds[0].id, Pairs(ds[0].fields)),
                  KeptLayouts(ds[1..]), SentLayouts(ds[1..]));
      }
    }
  }

  lemma {:induction false} SentLength(ds: seq<Definition>)
    ensures |SentLayouts(ds)| == |ds| >= |KeptLayouts(ds)|
    ensures forall i | 0 <= i < |ds| :: SentLayouts(ds)[i].id == ds[i].id
    ensures forall i | 0 <= i < |KeptLayouts(ds)| :: KeptLayouts(ds)[i].id == ds[i].id
  {
    if ds != [] { SentLength(ds[1..]); }
  }

  predicate Distinct(layouts: seq<Layout>) {
    forall i, j | 0 <= i < j < |layouts| :: layouts[i].id != layouts[j].id
  }

  /** Only the ids defined change. */
  lemma {:induction false} DefinedFrame(known: set<nat>, st: St, layouts: seq<Layout>, id: nat)
    requires forall l | l in layouts :: l.id != id
    ensures var after := Define(known, st, layouts).obs.templates;
            (id in after <==> id in st.obs.templates) && (id in after ==> after[id] == st.obs.templates[id])
    decreases |layouts|
  {
    hide StoredTemplate;
    if layouts != [] {
      var obs := Save(known, st.obs, layouts[0].id, layouts[0].fields, false);
      DefinedFrame(known, St(obs, st.stats.(goodTemplates := st.stats.goodTemplates + 1)), layouts[1..], id);
    }
  }

  lemma {:induction false} DefinedUnder(known: set<nat>, st: St, layouts: seq<Layout>, i: nat)
    requires Distinct(layouts) && i < |layouts|
    ensures var after := Define(known, st, layouts).obs.templates;
            layouts[i].id in after && after[layouts[i].id] == StoredTemplate(known, layouts[i].fields, false)
    decreases |layouts|
  {
    hide StoredTemplate;
    var obs := Save(known, st.obs, layouts[0].id, layouts[0].fields, false);
    var st1 := St(obs, st.stats.(goodTemplates := st.stats.goodTemplates + 1));
    var rest := layouts[1..];
    if i == 0 {
      DefinedFrame(known, st1, rest, layouts[0].id);
    } else {
      assert forall a, b | 0 <= a < b < |rest| :: rest[a].id == layouts[a + 1].id && rest[b].id == layouts[b + 1].id;
      DefinedUnder(known, st1, rest, i - 1);
    }
  }

  lemma {:induction false} DefinedStats(known: set<nat>, st: St, layouts: seq<Layout>)
    ensures Define(known, st, layouts).stats
              == st.stats.(goodTemplates := st.stats.goodTemplates + |layouts|)
    decreases |layouts|
  {
    if layouts != [] {
      var obs := Save(known, st.obs, layouts[0].id, layouts[0].fields, false);
      DefinedStats(known, St(obs, st.stats.(goodTemplates := st.stats.goodTemplates + 1)), layouts[1..]);
    }
  }

  lemma StoredIsInjective(known: set<nat>, a: seq<(nat, nat)>, b: seq<(nat, nat)>, isOption: bool)
    requires StoredTemplate(known, a, isOption) == StoredTemplate(known, b, isOption)
    ensures a == b
  {
    var s, t := StoredTemplate(known, a, isOption).fields, StoredTemplate(known, b, isOption).fields;
    assert |a| == |s| == |t| == |b|;
    forall i | 0 <= i < |a| ensures a[i] == b[i] {
      assert s[i].id == a[i].0 && s[i].len == a[i].1 && t[i].id == b[i].0 && t[i].len == b[i].1;
    }
  }

  /** Different layouts under the same distinct ids leave different templates. */
  lemma SameDefined(known: set<nat>, st: St, a: seq<Layout>, b: seq<Layout>)
    requires Distinct(a) && |a| == |b| && forall i | 0 <= i < |a| :: a[i].id == b[i].id
    ensures Define(known, st, a) == Define(known, st, b) <==> a == b
  {
    hide Define, StoredTemplate;
    if Define(known, st, a) == Define(known, st, b) {
      forall i | 0 <= i < |a| ensures a[i] == b[i] {
        DefinedUnder(known, st, a, i);
        DefinedUnder(known, st, b, i);
        StoredIsInjective(known, a[i].fields, b[i].fields, false);
      }
    }
  }

  /** A template set has the effect it was meant to have exactly when it is understood: every
      template within the limits, every field type below 0x8000, in v9 as in IPFIX. */
  lemma TemplatesExactly(known: set<nat>, st: St, ipfix: bool, ds: seq<Definition>, padding: bytes, sequence: nat)
    requires Fits(st.obs, ipfix, Templates(ds, padding))
    requires forall i, j | 0 <= i < j < |ds| :: ds[i].id != ds[j].id
    ensures var s := Templates(ds, padding);
            Effect(known, st, ipfix, s, sequence) == Meaning(known, st, ipfix, s, sequence)
            <==> Understood(st.obs, ipfix, s)
  {
    hide Acceptable, Define, KeptLayouts, SentLayouts, Fits, FitsDefinition;
    var kept, sent := KeptLayouts(ds), SentLayouts(ds);
    LayoutsExactly(ds);
    SentLength(ds);
    DefinedStats(known, st, kept);
    DefinedStats(known, st, sent);
    assert Understood(st.obs, ipfix, Templates(ds, padding)) <==> forall d | d in ds :: Plain(d);
    if |kept| == |ds| {
      SameDefined(known, st, kept, sent);
    }
  }

  /** Fields of variable length do not count against the limit on a template's bytes. */
  lemma VariableFieldsAreFree(front: seq<WireField>, f: WireField)
    ensures FixedBytes(Pairs(front + [f]))
            == FixedBytes(Pairs(front)) + if f.len == 0xffff then 0 else f.len
    decreases |front|
  {
    var fields := front + [f];
    if front == [] {
      assert fields[1..] == [];
      assert Pairs(fields)[1..] == [];
    } else {
      assert fields[1..] == front[1..] + [f];
      VariableFieldsAreFree(front[1..], f);
      assert Pairs(fields)[1..] == Pairs(fields[1..]) && Pairs(front)[1..] == Pairs(front[1..]);
    }
  }

  /** For instance 1500 bytes and a name of any length are within the limits, and a byte more is
      not. */
  lemma LimitsForInstance()
    ensures Acceptable(Definition(256, [WireField(8, 1500, None), WireField(82, 0xffff, None)]))
    ensures !Acceptable(Definition(256, [WireField(8, 1501, None), WireField(82, 0xffff, None)]))
  {
    var name := WireField(82, 0xffff, None);
    forall n: nat ensures FixedBytes(Pairs([WireField(8, n, None)])) == if n == 0xffff then 0 else n {
      VariableFieldsAreFree([], WireField(8, n, None));
      assert [] + [WireField(8, n, None)] == [WireField(8, n, None)];
    }
    VariableFieldsAreFree([WireField(8, 1500, None)], name);
    VariableFieldsAreFree([WireField(8, 1501, None)], name);
    assert [WireField(8, 1500, None)] + [name] == [WireField(8, 1500, None), name];
    assert [WireField(8, 1501, None)] + [name] == [WireField(8, 1501, None), name];
  }

  // ---------------------------------------------------------------- option templates

  lemma {:induction false} SpecifiersExactly(fields: seq<WireField>)
    ensures Specifiers(fields)[..|fields|] == Pairs(fields) <==> forall f | f in fields :: f.pen.None?
  {
    if fields != [] {
      var f, rest := fields[0], fields[1..];
      SpecifiersExactly(rest);
      assert Pairs(fields) == [(f.id, f.len)] + Pairs(rest);
      assert fields == [f] + rest;
      match f.pen
      case None =>
        assert Specifiers(fields)[..|fields|] == [(f.id, f.len)] + Specifiers(rest)[..|rest|];
        SameFirst((f.id, f.len), (f.id, f.len), Specifiers(rest)[..|rest|], Pairs(rest));
      case Some(_) =>
        assert Specifiers(fields)[..|fields|][0] == (f.id + 0x8000, f.len);
        assert Pairs(fields)[0] == (f.id, f.len);
    }
  }

  lemma {:induction false} OptionDefinedFrame(known: set<nat>, obs: Obs, layouts: seq<Layout>, id: nat)
    ensures var after := DefineOptions(known, obs, layouts).templates;
            id in after <==> id in obs.templates || exists i :: 0 <= i < |layouts| && layouts[i].id == id
    decreases |layouts|
  {
    hide StoredTemplate;
    if layouts != [] {
      var obs1 := Save(known, obs, layouts[0].id, layouts[0].fields, true);
      var rest := layouts[1..];
      OptionDefinedFrame(known, obs1, rest, id);
      if i :| 0 <= i < |layouts| && layouts[i].id == id && i > 0 {
        assert rest[i - 1].id == id;
      }
    }
  }

  /** All option templates of a set get stored exactly when there is no more than one. */
  lemma AllStoredExactly(known: set<nat>, st: St, ipfix: bool, ds: seq<OptionDefinition>, padding: bytes, sequence: nat)
    requires Fits(st.obs, ipfix, OptionTemplates(ds, padding))
    requires forall i | 0 <= i < |ds| :: ds[i].id !in st.obs.templates
    requires forall i | 0 < i < |ds| :: ds[i].id != ds[0].id
    ensures var after := Effect(known, st, ipfix, OptionTemplates(ds, padding), sequence).0.obs.templates;
            (forall i | 0 <= i < |ds| :: ds[i].id in after) <==> |ds| <= 1
  {
    hide StoredTemplate, Fits;
    var s := OptionTemplates(ds, padding);
    var kept := KeptOptionLayouts(ds);
    forall i | 0 <= i < |ds| ensures ds[i].id in Effect(known, st, ipfix, s, sequence).0.obs.templates <==> i == 0 {
      OptionDefinedFrame(known, st.obs, kept, ds[i].id);
      assert kept[0].id == ds[0].id;
    }
    if |ds| > 1 { assert ds[1].id !in Effect(known, st, ipfix, s, sequence).0.obs.templates; }
  }

  lemma {:induction false} SentOptionLength(ds: seq<OptionDefinition>)
    ensures |SentOptionLayouts(ds)| == |ds|
    ensures forall i | 0 <= i < |ds| :: SentOptionLayouts(ds)[i] == Layout(ds[i].id, Pairs(ds[i].fields))
  {
    if ds != [] { SentOptionLength(ds[1..]); }
  }

  lemma DefineOne(known: set<nat>, obs: Obs, l: Layout)
    ensures DefineOptions(known, obs, [l]) == Save(known, obs, l.id, l.fields, true)
  {
    hide Save;
    var obs1 := Save(known, obs, l.id, l.fields, true);
    assert [l][1..] == [];
    assert DefineOptions(known, obs1, []) == obs1;
  }

  lemma OneOptionTemplate(known: set<nat>, obs: Obs, a: Layout, b: Layout)
    requires a.id == b.id
    ensures DefineOptions(known, obs, [a]) == DefineOptions(known, obs, [b]) <==> a == b
  {
    hide StoredTemplate;
    var s, t := DefineOptions(known, obs, [a]), DefineOptions(known, obs, [b]);
    DefineOne(known, obs, a);
    DefineOne(known, obs, b);
    if s == t {
      assert s.templates[a.id] == t.templates[a.id];
      StoredIsInjective(known, a.fields, b.fields, true);
    }
  }

  lemma OptionLayoutExactly(d: OptionDefinition)
    ensures KeptOptionLayouts([d]) == SentOptionLayouts([d])
            <==> |d.fields| <= MAX_OPTION_FIELDS && forall f | f in d.fields :: f.pen.None?
    ensures |KeptOptionLayouts([d])| == |SentOptionLayouts([d])| == 1
    ensures KeptOptionLayouts([d])[0].id == SentOptionLayouts([d])[0].id
  {
    hide Specifiers, Pairs;
    SpecifiersExactly(d.fields);
    var kept := KeptOptionLayouts([d])[0].fields;
    SentOptionLength([d]);
    assert |d.fields| > MAX_OPTION_FIELDS ==> |kept| != |Pairs(d.fields)|;
    SameFirst(KeptOptionLayouts([d])[0], SentOptionLayouts([d])[0], [], []);
  }

  lemma OptionTemplatesAt(known: set<nat>, st: St, ipfix: bool, ds: seq<OptionDefinition>, padding: bytes,
      sequence: nat)
    requires Fits(st.obs, ipfix, OptionTemplates(ds, padding))
    requires forall i | 0 < i < |ds| :: ds[i].id != ds[0].id
    ensures var s := OptionTemplates(ds, padding);
            && (Understood(st.obs, ipfix, s)
                ==> Effect(known, st, ipfix, s, sequence) == Meaning(known, st, ipfix, s, sequence))
            && (!Understood(st.obs, ipfix, s) && st.obs == EMPTY
                ==> Effect(known, st, ipfix, s, sequence) != Meaning(known, st, ipfix, s, sequence))
  {
    hide KeptOptionLayouts, SentOptionLayouts, DefineOptions, Fits;
    if |ds| == 1 {
      var kept, sent := KeptOptionLayouts([ds[0]]), SentOptionLayouts([ds[0]]);
      assert ds == [ds[0]];
      OptionLayoutExactly(ds[0]);
      OneOptionTemplate(known, st.obs, kept[0], sent[0]);
      assert kept == [kept[0]] && sent == [sent[0]];
    } else if |ds| > 1 {
      if st.obs == EMPTY { AllStoredExactly(known, st, ipfix, ds, padding, sequence); }
      SentOptionLength(ds);
      forall i | 0 <= i < |ds| ensures ds[i].id in DefineOptions(known, st.obs, SentOptionLayouts(ds)).templates {
        OptionDefinedFrame(known, st.obs, SentOptionLayouts(ds), ds[i].id);
        assert SentOptionLayouts(ds)[i].id == ds[i].id;
      }
    } else {
      NoOptionLayouts();
    }
  }

  /** An option template set has the effect it was meant to have, whatever the collector's state,
      exactly when it holds no more than one template, of no more than four fields, none of them
      enterprise-specific. */
  lemma OptionTemplatesExactly(known: set<nat>, ipfix: bool, ds: seq<OptionDefinition>, padding: bytes, sequence: nat)
    requires Fits(EMPTY, ipfix, OptionTemplates(ds, padding))
    requires forall i | 0 < i < |ds| :: ds[i].id != ds[0].id
    ensures var s := OptionTemplates(ds, padding);
            (forall st :: Effect(known, st, ipfix, s, sequence) == Meaning(known, st, ipfix, s, sequence))
            <==> Understood(EMPTY, ipfix, s)
  {
    hide Effect, Meaning;
    var s := OptionTemplates(ds, padding);
    if Understood(EMPTY, ipfix, s) {
      forall st ensures Effect(known, st, ipfix, s, sequence) == Meaning(known, st, ipfix, s, sequence) {
        OptionTemplatesAt(known, st, ipfix, ds, padding, sequence);
      }
    } else {
      var st := St(EMPTY, Stats(0, 0, 0, 0));
      OptionTemplatesAt(known, st, ipfix, ds, padding, sequence);
      assert Effect(known, st, ipfix, s, sequence) != Meaning(known, st, ipfix, s, sequence);
    }
  }

  lemma NoOptionLayouts()
    ensures KeptOptionLayouts([]) == SentOptionLayouts([]) == []
  {
  }

  // ---------------------------------------------------------------- option records

  predicate NamesNothing(fields: seq<Field>) {
    NamedByPadding(fields, RecordBytes(fields), {}) == {}
  }

  /** All that the records name enters the tables, and nothing else. */
  ghost predicate EntersAll(fields: seq<Field>, ipfix: bool, obs: Obs, records: seq<seq<Value>>)
    requires forall r | r in records :: |r| == |fields|
  {
    LearnAll(SeenFields(fields, ipfix, records), obs, SeenRecords(fields, ipfix, records))
    == LearnAll(fields, obs, records)
  }

  /** Values as long as the template says. */
  predicate AsLong(fields: seq<Field>, values: seq<Value>) {
    |values| == |fields| && forall i | 0 <= i < |fields| :: fields[i].len == 0 ==> values[i].data == []
  }

  /** A record names no more than its lengths allow. */
  lemma {:induction false} NamesWithin(fields: seq<Field>, values: seq<Value>, found: Found, named: set<nat>)
    requires AsLong(fields, values) && Named(found) <= named
    ensures Named(FindAll(fields, values, found)) <= NamedByPadding(fields, RecordBytes(fields), named)
  {
    hide Named, Find;
    if fields != [] {
      var f, v := fields[0], values[0].data;
      FindNames(found, f.id, v);
      NamesWithin(fields[1..], values[1..], Find(found, f.id, v),
                  if f.id !in NAMING then named else if f.len > 0 then named + {f.id} else named - {f.id});
    }
  }

  lemma {:induction false} NoneEntered(fields: seq<Field>, obs: Obs, records: seq<seq<Value>>)
    requires (forall r | r in records :: |r| == |fields| && AsLong(fields, r)) && NamesNothing(fields)
    ensures LearnAll(fields, obs, records) == obs
    decreases |records|
  {
    hide Learn, FindAll, Named, AsLong, NamedByPadding, LearnAll;
    if records == [] {
      NoneLearned(fields, obs);
    } else {
      assert AsLong(fields, records[0]);
      NothingMade();
      NamesWithin(fields, records[0], NOTHING, {});
      NothingNamed(obs, FindAll(fields, records[0], NOTHING));
      NoneEntered(fields, obs, records[1..]);
      OneLearned(fields, obs, records);
    }
  }

  /** A record of one byte over and over. */
  function Filled(fields: seq<Field>, ipfix: bool, b: byte): (r: seq<Value>)
    ensures |r| == |fields|
  {
    seq(|fields|, (i: nat) requires i < |fields| =>
          Value(if IsVariable(fields[i], ipfix) then [b] else seq<byte>(fields[i].len, _ => b), false))
  }

  lemma FilledFits(fields: seq<Field>, ipfix: bool, b: byte)
    requires HasVariable(fields, ipfix)
    ensures FitsRecord(fields, ipfix, Filled(fields, ipfix, b))
  {
    var r := Filled(fields, ipfix, b);
    forall i | 0 <= i < |r| ensures FitsValue(fields[i], ipfix, r[i]) {
    }
    RecordLength(fields, ipfix, r);
    VariableIsLong(fields, ipfix);
  }

  lemma {:induction false} VariableIsLong(fields: seq<Field>, ipfix: bool)
    requires HasVariable(fields, ipfix)
    ensures fields != [] && IsVariable(fields[Ahead(fields, ipfix)], ipfix) && !AllEmpty(fields)
  {
    if !IsVariable(fields[0], ipfix) {
      VariableIsLong(fields[1..], ipfix);
      assert fields[1..][Ahead(fields[1..], ipfix)] == fields[Ahead(fields, ipfix)];
    }
    assert fields[Ahead(fields, ipfix)] in fields;
  }

  /** Every name consists of one byte over and over. */
  predicate MadeOf(f: Found, b: byte) {
    && (forall i | 0 <= i < |f.app| :: f.app[i] == b) && (forall i | 0 <= i < |f.selector| :: f.selector[i] == b)
    && (forall i | 0 <= i < |f.ifName| :: f.ifName[i] == b)
    && (forall i | 0 <= i < |f.ifDescription| :: f.ifDescription[i] == b)
  }

  /** The values are non-empty exactly where the lengths are, and consist of one byte. */
  predicate FilledWith(fields: seq<Field>, values: seq<Value>, b: byte) {
    && |values| == |fields|
    && forall i | 0 <= i < |fields| ::
         && (fields[i].len == 0 <==> values[i].data == [])
         && forall k | 0 <= k < |values[i].data| :: values[i].data[k] == b
  }

  lemma FindMade(f: Found, id: nat, v: bytes, b: byte)
    requires MadeOf(f, b) && forall k | 0 <= k < |v| :: v[k] == b
    ensures MadeOf(Find(f, id, v), b)
  {
  }

  /** Such a record names exactly what its lengths allow. */
  lemma {:induction false} FilledNames(fields: seq<Field>, values: seq<Value>, found: Found, b: byte)
    requires FilledWith(fields, values, b) && MadeOf(found, b)
    ensures MadeOf(FindAll(fields, values, found), b)
    ensures Named(FindAll(fields, values, found)) == NamedByPadding(fields, RecordBytes(fields), Named(found))
  {
    hide Named, Find, MadeOf;
    if fields != [] {
      var f, v := fields[0], values[0].data;
      assert f.len == 0 <==> v == [];
      FindNames(found, f.id, v);
      FindMade(found, f.id, v, b);
      FilledNames(fields[1..], values[1..], Find(found, f.id, v), b);
    }
  }

  /** Names of ones cannot have come from names of zeros. */
  lemma OnesAreNew(obs: Obs, zeros: Found, ones: Found)
    requires MadeOf(zeros, 0) && MadeOf(ones, 1) && Named(ones) != {}
    ensures Learn(obs, ones) != Learn(EMPTY, zeros)
  {
    var after, seen := Learn(obs, ones), Learn(EMPTY, zeros);
    if ones.app != [] {
      assert after.applications[ones.appId] == ones.app && ones.app[0] == 1;
      assert ones.appId in seen.applications ==> seen.applications[ones.appId] == zeros.app && zeros.app[0] == 0;
    } else if ones.selector != [] {
      assert after.selectors[ones.selectorId] == ones.selector && ones.selector[0] == 1;
      assert ones.selectorId in seen.selectors
        ==> seen.selectors[ones.selectorId] == zeros.selector && zeros.selector[0] == 0;
    } else {
      assert after.interfaces[ones.ifId] == (ones.ifName, ones.ifDescription);
      assert ones.ifId in seen.interfaces
        ==> seen.interfaces[ones.ifId] == (zeros.ifName, zeros.ifDescription);
      if ones.ifName != [] { assert ones.ifName[0] == 1; } else { assert ones.ifDescription[0] == 1; }
    }
  }

  /** With a field of variable length, two records of which the second is lost, or one of which
      only the front is seen. */
  lemma LostRecords(fields: seq<Field>, ipfix: bool) returns (records: seq<seq<Value>>)
    requires HasVariable(fields, ipfix)
    requires !NamesNothing(fields) || !NamesNothing(fields[..Ahead(fields, ipfix)])
    ensures forall r | r in records :: |r| == |fields| && FitsRecord(fields, ipfix, r)
    ensures !EntersAll(fields, ipfix, EMPTY, records)
  {
    hide Learn, LearnAll, FindAll, Named, NamedByPadding, RecordBytes, MadeOf, FilledWith, Filled, EncodeRecord;
    var n := Ahead(fields, ipfix);
    var a, b := Filled(fields, ipfix, 0), Filled(fields, ipfix, 1);
    FilledFits(fields, ipfix, 0);
    FilledFits(fields, ipfix, 1);
    FilledIsFilled(fields, ipfix, 0, |fields|);
    FilledIsFilled(fields, ipfix, 1, |fields|);
    FilledIsFilled(fields, ipfix, 0, n);
    NothingMade();
    assert fields[..|fields|] == fields && a[..|fields|] == a && b[..|fields|] == b;
    FilledNames(fields, a, NOTHING, 0);
    FilledNames(fields, b, NOTHING, 1);
    FilledNames(fields[..n], a[..n], NOTHING, 0);
    var whole, ones, front := FindAll(fields, a, NOTHING), FindAll(fields, b, NOTHING),
      FindAll(fields[..n], a[..n], NOTHING);
    LearnOne(fields[..n], EMPTY, a[..n]);
    if NamesNothing(fields) {
      records := [a];
      LearnOne(fields, EMPTY, a);
      NothingNamed(EMPTY, whole);
      SomethingNamed(front);
    } else {
      records := [a, b];
      OneLearned(fields, EMPTY, records);
      assert records[1..] == [b];
      LearnOne(fields, Learn(EMPTY, whole), b);
      OnesAreNew(Learn(EMPTY, whole), front, ones);
    }
  }

  lemma NothingMade()
    ensures MadeOf(NOTHING, 0) && MadeOf(NOTHING, 1) && Named(NOTHING) == {}
  {
  }

  lemma LearnOne(fields: seq<Field>, obs: Obs, r: seq<Value>)
    requires |r| == |fields|
    ensures LearnAll(fields, obs, [r]) == Learn(obs, FindAll(fields, r, NOTHING))
  {
    hide Learn, FindAll;
    assert [r][1..] == [];
  }

  lemma FilledIsFilled(fields: seq<Field>, ipfix: bool, b: byte, n: nat)
    requires n <= |fields|
    ensures FilledWith(fields[..n], Filled(fields, ipfix, b)[..n], b)
  {
  }

  lemma FittingIsLong(fields: seq<Field>, ipfix: bool, r: seq<Value>, n: nat)
    requires FitsRecord(fields, ipfix, r) && n <= |fields|
    ensures AsLong(fields[..n], r[..n])
  {
    hide EncodeRecord;
    forall i | 0 <= i < n && fields[i].len == 0 ensures r[i].data == [] {
      assert FitsValue(fields[i], ipfix, r[i]);
    }
  }

  /** Option data under a template enters the tables as it was meant to, whatever the records and
      the tables, exactly when no field has a variable length, or nothing is named anyway. */
  lemma OptionsExactly(fields: seq<Field>, ipfix: bool)
    ensures (forall obs, records | (forall r | r in records :: FitsRecord(fields, ipfix, r)) ::
               EntersAll(fields, ipfix, obs, records))
            <==> !HasVariable(fields, ipfix)
                 || (NamesNothing(fields) && NamesNothing(fields[..Ahead(fields, ipfix)]))
  {
    hide Learn, LearnAll, FindAll, NamedByPadding, RecordBytes, EncodeRecord, FitsValue, AsLong, NamesNothing;
    var n := Ahead(fields, ipfix);
    if !HasVariable(fields, ipfix) {
    } else if NamesNothing(fields) && NamesNothing(fields[..n]) {
      forall obs, records | (forall r | r in records :: FitsRecord(fields, ipfix, r))
        ensures EntersAll(fields, ipfix, obs, records)
      {
        forall r | r in records ensures |r| == |fields| && AsLong(fields, r) && AsLong(fields[..n], r[..n]) {
          assert FitsRecord(fields, ipfix, r);
          FittingIsLong(fields, ipfix, r, n);
          FittingIsLong(fields, ipfix, r, |fields|);
          assert fields[..|fields|] == fields && r[..|fields|] == r;
        }
        NoneEntered(fields, obs, records);
        if records != [] { NoneEntered(fields[..n], obs, [records[0][..n]]); }
      }
    } else {
      var records := LostRecords(fields, ipfix);
      assert !EntersAll(fields, ipfix, EMPTY, records);
    }
  }

  // ---------------------------------------------------------------- packets

  /** The effect of a set that is understood is its meaning. */
  lemma SetUnderstood(known: set<nat>, st: St, ipfix: bool, s: WireSet, sequence: nat)
    requires Fits(st.obs, ipfix, s) && Understood(st.obs, ipfix, s)
    ensures Effect(known, st, ipfix, s, sequence) == Meaning(known, st, ipfix, s, sequence)
  {
    hide Define, DefineOptions, KeptLayouts, SentLayouts, KeptOptionLayouts, SentOptionLayouts, Acceptable, LearnAll,
      Received, Ahead, FitsRecord, FitsDefinition, FitsOptionDefinition, Delimited, PaddingUnseen;
    match s
    case Templates(ds, _) =>
      LayoutsExactly(ds);
      SentLength(ds);
    case OptionTemplates(ds, _) =>
      if ds == [] {
        NoOptionLayouts();
      } else {
        assert ds == [ds[0]];
        OptionLayoutExactly(ds[0]);
      }
    case Data(_, _) =>
  }

  lemma {:induction false} SetsUnderstood(known: set<nat>, st: St, ipfix: bool, sets: seq<WireSet>, sequence: nat)
    requires MeantSets(known, st, ipfix, sets, sequence)
    ensures FitSets(known, st, ipfix, sets, sequence)
    ensures EffectOfSets(known, st, ipfix, sets, sequence) == MeaningOfSets(known, st, ipfix, sets, sequence)
    decreases |sets|
  {
    hide Fits, Understood, Effect, Meaning, EncodeBody;
    if sets != [] {
      SetUnderstood(known, st, ipfix, sets[0], sequence);
      SetsUnderstood(known, Meaning(known, st, ipfix, sets[0], sequence).0, ipfix, sets[1..], sequence);
    }
  }

  /** Dissecting a packet of sets that are understood yields what the exporter meant. */
  lemma PacketUnderstood(known: set<nat>, st: St, p: Packet, beyond: bytes)
    requires FitsPacket(known, st, p) && MeantSets(known, st, p.ipfix, p.sets, p.sequence % 0x1_0000)
    ensures var wire := EncodePacket(known, st, p);
            Dissect(known, st, wire + beyond, |wire|)
            == Some(MeaningOfSets(known, st, p.ipfix, p.sets, p.sequence % 0x1_0000))
  {
    hide Dissect, EncodePacket, EffectOfSets, MeaningOfSets, FitsPacket, FitSets, MeantSets;
    FitsPacketFitsSets(known, st, p);
    PacketRead(known, st, p, beyond);
    SetsUnderstood(known, st, p.ipfix, p.sets, p.sequence % 0x1_0000);
  }

  lemma FitsPacketFitsSets(known: set<nat>, st: St, p: Packet)
    requires FitsPacket(known, st, p)
    ensures FitSets(known, st, p.ipfix, p.sets, p.sequence % 0x1_0000)
  {
  }

  /** The other set ids below 256: zero is taken for templates, in IPFIX too, and all that are not
      for templates are taken for option templates. */
  lemma ReservedIds(known: set<nat>, st: St, m: bytes, size: nat, displ: nat, ipfix: bool, id: nat,
      ds: seq<OptionDefinition>, sequence: nat)
    requires 0 < id < 0x100 && !(ipfix && id == 2) && forall d | d in ds :: FitsOptionDefinition(ipfix, d)
    requires var n := 4 + |EncodeOptionDefinitions(ipfix, ds)|; n < 0x1_0000 && displ + n <= size
    requires var body := EncodeOptionDefinitions(ipfix, ds); Holds(m, displ, Put16(id) + Put16(4 + |body|) + body)
    ensures DissectSet(known, st, m, size, displ, ipfix, sequence)
            == Some((st.(obs := DefineOptions(known, st.obs, KeptOptionLayouts(ds))), [],
                     displ + 4 + |EncodeOptionDefinitions(ipfix, ds)|))
  {
    hide Holds, EncodeOptionDefinitions, FitsOptionDefinition, OptionTemplate, TemplateLoop, DefineOptions,
      KeptOptionLayouts;
    var body := EncodeOptionDefinitions(ipfix, ds);
    SetHeader(m, displ, id, body);
    assert body + [] == body;
    OptionTemplatesRead(known, st, m, displ + 4, |body|, ipfix, ds, []);
  }

  lemma ZeroIsTemplates(known: set<nat>, st: St, m: bytes, size: nat, displ: nat, ipfix: bool, ds: seq<Definition>,
      sequence: nat)
    requires forall d | d in ds :: FitsDefinition(ipfix, d)
    requires var n := 4 + |EncodeDefinitions(ipfix, ds)|; n < 0x1_0000 && displ + n <= size
    requires var body := EncodeDefinitions(ipfix, ds); Holds(m, displ, Put16(0) + Put16(4 + |body|) + body)
    ensures DissectSet(known, st, m, size, displ, ipfix, sequence)
            == Some((DefineKept(known, st, ds), [], displ + 4 + |EncodeDefinitions(ipfix, ds)|))
  {
    hide Holds, EncodeDefinitions, FitsDefinition, OptionTemplate, TemplateLoop, DefineKept;
    var body := EncodeDefinitions(ipfix, ds);
    SetHeader(m, displ, 0, body);
    assert body + [] == body;
    DefinitionsRead(known, st, m, displ, 4 + |body|, ipfix, 4, ds, []);
  }

  // ---------------------------------------------------------------- inputs that are not understood

  /** A v9 template of one field of type 45003 is stored with type 12235, a URL to the printer. */
  lemma TypeLosesABit()
    ensures FlowTemplate([1, 0, 0, 1, 0xaf, 0xcb, 0, 4], 0, 8, false) == GoodTemplate(256, [(12235, 4)], 8)
  {
    var m: bytes := [1, 0, 0, 1, 0xaf, 0xcb, 0, 4];
    assert U16(m, 0) == 256 && U16(m, 2) == 1 && U16(m, 4) == 45003 && U16(m, 6) == 4;
    assert TemplateFields(m, 0, 8, false, 8, 0) == FieldList([], 8);
    assert TemplateFields(m, 0, 8, false, 4, 1) == FieldList([(12235, 4)], 8);
    assert FixedBytes([(12235, 4)]) == 4;
  }

  /** Of two IPFIX options templates in a set the second is not stored. */
  lemma SecondIsLost(known: set<nat>, st: St)
    ensures var m := [1, 0, 0, 1, 0, 1, 0, 95, 0, 4, 1, 1, 0, 1, 0, 1, 0, 96, 0, 4];
            OptionTemplate(known, st, m, 0, |m|, true) == st.(obs := Save(known, st.obs, 256, [(95, 4)], true))
  {
    hide Save;
    var m: bytes := [1, 0, 0, 1, 0, 1, 0, 95, 0, 4, 1, 1, 0, 1, 0, 1, 0, 96, 0, 4];
    assert U16(m, 0) == 256 && U16(m, 2) == 1 && U16(m, 6) == 95 && U16(m, 8) == 4;
    assert OptionFields(m, 10, 0) == [];
    assert OptionFields(m, 6, 1) == [(95, 4)];
  }

  /** An IPFIX options template of the fields 5, four bytes of enterprise 9, and 96 is stored as two
      fields that were not sent. */
  lemma EnterpriseIsAField(known: set<nat>, st: St)
    ensures var m := [1, 0, 0, 2, 0, 1, 0x80, 5, 0, 4, 0, 0, 0, 9, 0, 96, 0, 16];
            OptionTemplate(known, st, m, 0, |m|, true)
            == st.(obs := Save(known, st.obs, 256, [(0x8005, 4), (0, 9)], true))
  {
    hide Save;
    var m: bytes := [1, 0, 0, 2, 0, 1, 0x80, 5, 0, 4, 0, 0, 0, 9, 0, 96, 0, 16];
    assert U16(m, 0) == 256 && U16(m, 2) == 2;
    TwoFields(m);
  }

  lemma TwoFields(m: bytes)
    requires |m| == 18 && m[6..14] == [0x80, 5, 0, 4, 0, 0, 0, 9]
    ensures OptionFields(m, 6, 2) == [(0x8005, 4), (0, 9)]
  {
    forall i | 6 <= i < 14 ensures At(m, i) == m[6..14][i - 6] {
    }
    assert OptionFields(m, 14, 0) == [];
    assert OptionFields(m, 10, 1) == [(0, 9)];
  }

  /** An application name of variable length does not get into the table. */
  lemma NameIsLost(obs: Obs)
    ensures var fields := [Field(APPLICATION_ID, 4, false), Field(APPLICATION_NAME, VARIABLE_LENGTH, false)];
            var m := [0, 0, 0, 1, 4, 104, 116, 116, 112];
            var r := [Value([0, 0, 0, 1], false), Value([104, 116, 116, 112], false)];
            && FitsRecord(fields, true, r) && EncodeRecord(fields, true, r) == m
            && LearnAll(fields, obs, [r]) == obs.(applications := obs.applications[1 := [104, 116, 116, 112]])
            && OptionRecords(m, Template(fields, true), obs, 0, 9, 0) == Some(obs)
  {
    var fields := [Field(APPLICATION_ID, 4, false), Field(APPLICATION_NAME, VARIABLE_LENGTH, false)];
    var r := [Value([0, 0, 0, 1], false), Value([104, 116, 116, 112], false)];
    NameIsSent(fields, r);
    NameIsMeant(fields, r, obs);
    NameIsSkipped(fields, obs);
  }

  lemma NameIsSent(fields: seq<Field>, r: seq<Value>)
    requires fields == [Field(APPLICATION_ID, 4, false), Field(APPLICATION_NAME, VARIABLE_LENGTH, false)]
    requires r == [Value([0, 0, 0, 1], false), Value([104, 116, 116, 112], false)]
    ensures FitsRecord(fields, true, r) && EncodeRecord(fields, true, r) == [0, 0, 0, 1, 4, 104, 116, 116, 112]
  {
    assert EncodeValue(fields[0], true, r[0]) == [0, 0, 0, 1];
    assert EncodeValue(fields[1], true, r[1]) == [4, 104, 116, 116, 112];
    assert fields[1..] == [fields[1]] && r[1..] == [r[1]];
    assert EncodeRecord(fields[1..], true, r[1..]) == [4, 104, 116, 116, 112];
  }

  lemma NameIsMeant(fields: seq<Field>, r: seq<Value>, obs: Obs)
    requires fields == [Field(APPLICATION_ID, 4, false), Field(APPLICATION_NAME, VARIABLE_LENGTH, false)]
    requires r == [Value([0, 0, 0, 1], false), Value([104, 116, 116, 112], false)]
    ensures LearnAll(fields, obs, [r]) == obs.(applications := obs.applications[1 := [104, 116, 116, 112]])
  {
    assert Net2Number(r[0].data) == 1;
    var f1 := Find(NOTHING, APPLICATION_ID, r[0].data);
    assert fields[1..] == [fields[1]] && r[1..] == [r[1]];
    assert FindAll(fields[1..], r[1..], f1) == Find(f1, APPLICATION_NAME, r[1].data);
    assert FindAll(fields, r, NOTHING) == Find(f1, APPLICATION_NAME, r[1].data);
    LearnOne(fields, obs, r);
  }

  lemma NameIsSkipped(fields: seq<Field>, obs: Obs)
    requires fields == [Field(APPLICATION_ID, 4, false), Field(APPLICATION_NAME, VARIABLE_LENGTH, false)]
    ensures OptionRecords([0, 0, 0, 1, 4, 104, 116, 116, 112], Template(fields, true), obs, 0, 9, 0) == Some(obs)
  {
    var m: bytes := [0, 0, 0, 1, 4, 104, 116, 116, 112];
    var t := Template(fields, true);
    var f1 := Find(NOTHING, APPLICATION_ID, Slice(m, 0, 4));
    assert OptionValues(m, t, 0, 9, 1, 4, f1) == (f1, 9);
    assert OptionValues(m, t, 0, 9, 0, 0, NOTHING) == (f1, 9);
    assert Learn(obs, f1) == obs;
  }

  /** A record of six one-byte fields under the template cut to four of them is read as two, and
      enters an application 9 with a name that is none. */
  lemma SixFieldsReadTwice(obs: Obs)
    ensures var fields := [Field(APPLICATION_ID, 1, false), Field(APPLICATION_NAME, 1, false), Field(1, 1, false),
                           Field(2, 1, false)];
            OptionRecords([7, 65, 0, 0, 9, 66], Template(fields, true), obs, 0, 6, 0)
            == Some(obs.(applications := obs.applications[7 := [65]][9 := [66]]))
  {
    hide Net2Number;
    var m: bytes := [7, 65, 0, 0, 9, 66];
    var t := Template([Field(APPLICATION_ID, 1, false), Field(APPLICATION_NAME, 1, false), Field(1, 1, false),
                       Field(2, 1, false)], true);
    var a := Found(7, [65], 0, [], 0, [], []);
    var b := Found(9, [66], 0, [], 0, [], []);
    FourRead(m, t, 0, 6, 7, 65);
    FourRead(m, t, 4, 2, 9, 66);
    TwoRounds(m, t, obs, a, b);
  }

  /** Two of the fields of the cut template, and the other two where there is room. */
  lemma FourRead(m: bytes, t: Template, base: nat, size: nat, id: byte, name: byte)
    requires t.fields == [Field(APPLICATION_ID, 1, false), Field(APPLICATION_NAME, 1, false), Field(1, 1, false),
                          Field(2, 1, false)]
    requires At(m, base) == id && At(m, base + 1) == name && (size == 2 || size >= 4)
    ensures OptionValues(m, t, base, size, 0, 0, NOTHING)
              == (Found(id, [name], 0, [], 0, [], []), if size == 2 then 2 else 4)
  {
    assert Slice(m, base, 1) == [id] && Slice(m, base + 1, 1) == [name];
    assert Net2Number([id]) == id;
    var f1 := Find(NOTHING, APPLICATION_ID, [id]);
    var f2 := Find(f1, APPLICATION_NAME, [name]);
    assert f2 == Found(id, [name], 0, [], 0, [], []);
    if size > 2 {
      assert OptionValues(m, t, base, size, 4, 4, f2) == (f2, 4);
      assert OptionValues(m, t, base, size, 3, 3, f2) == (f2, 4);
      assert OptionValues(m, t, base, size, 2, 2, f2) == (f2, 4);
    } else {
      assert OptionValues(m, t, base, size, 2, 2, f2) == (f2, 2);
    }
    assert OptionValues(m, t, base, size, 1, 1, f1) == OptionValues(m, t, base, size, 2, 2, f2);
  }

  lemma TwoRounds(m: bytes, t: Template, obs: Obs, a: Found, b: Found)
    requires a == Found(7, [65], 0, [], 0, [], []) && b == Found(9, [66], 0, [], 0, [], [])
    requires OptionValues(m, t, 0, 6, 0, 0, NOTHING) == (a, 4)
    requires OptionValues(m, t, 4, 2, 0, 0, NOTHING) == (b, 2)
    ensures OptionRecords(m, t, obs, 0, 6, 0)
              == Some(obs.(applications := obs.applications[7 := [65]][9 := [66]]))
  {
    hide OptionValues, OptionRecords;
    OptionRecordsGoOn(m, t, obs, 0, 6, 0);
    OptionRecordsGoOn(m, t, Learn(obs, a), 0, 6, 4);
    OptionRecordsEnd(m, t, Learn(Learn(obs, a), b), 0, 6);
  }
}
