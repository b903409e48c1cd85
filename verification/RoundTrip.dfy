/** Decoding an encoded packet: what the dissector reads from it is exactly its effect. */
module RoundTrip {
  import opened Bytes
  import opened Wire
  import opened Dissector
  import opened Exporter

  // ---------------------------------------------------------------- templates

  lemma FieldRead(m: bytes, i: nat, ipfix: bool, f: WireField)
    requires FitsField(ipfix, f) && Holds(m, i, EncodeField(ipfix, f))
    ensures U16(m, i) % 0x8000 == f.id % 0x8000 && U16(m, i + 2) == f.len
    ensures ipfix ==> (At(m, i) >= 0x80 <==> f.pen.Some?)
    ensures |EncodeField(ipfix, f)| == if f.pen.Some? then 8 else 4
  {
    hide U16, At, Holds, Put32;
    var id := if f.pen.Some? then f.id + 0x8000 else f.id;
    var tail := if f.pen.Some? then Put32(f.pen.value) else [];
    HoldsParts(m, i, Put16(id) + Put16(f.len), tail);
    HoldsParts(m, i, Put16(id), Put16(f.len));
    Holds16(m, i, id);
    Holds16(m, i + 2, f.len);
    HoldsAt(m, i, Put16(id), 0);
    HighBit(f.id);
  }

  /** The sixteenth bit of a field type that leaves it free. */
  lemma HighBit(id: nat)
    ensures (id + 0x8000) % 0x8000 == id % 0x8000
    ensures id < 0x8000 ==> (id + 0x8000) / 0x100 >= 0x80 && id / 0x100 < 0x80
  {
  }

  lemma {:induction false} FieldsRead(m: bytes, base: nat, size: nat, ipfix: bool, displ: nat, fields: seq<WireField>)
    requires forall f | f in fields :: FitsField(ipfix, f)
    requires Holds(m, base + displ, EncodeFields(ipfix, fields)) && displ + |EncodeFields(ipfix, fields)| <= size
    ensures TemplateFields(m, base, size, ipfix, displ, |fields|)
              == FieldList(Masked(Pairs(fields)), displ + |EncodeFields(ipfix, fields)|)
    decreases |fields|
  {
    hide Holds, EncodeField, U16, At;
    if fields != [] {
      var f := fields[0];
      assert FitsField(ipfix, f);
      HoldsParts(m, base + displ, EncodeField(ipfix, f), EncodeFields(ipfix, fields[1..]));
      FieldRead(m, base + displ, ipfix, f);
      FieldsRead(m, base, size, ipfix, displ + |EncodeField(ipfix, f)|, fields[1..]);
      MaskedMore(fields);
    }
  }

  lemma MaskedMore(fields: seq<WireField>)
    requires fields != []
    ensures Masked(Pairs(fields)) == [(fields[0].id % 0x8000, fields[0].len)] + Masked(Pairs(fields[1..]))
  {
    assert Pairs(fields)[1..] == Pairs(fields[1..]);
  }

  lemma {:induction false} MaskedBytes(fields: seq<(nat, nat)>)
    ensures FixedBytes(Masked(fields)) == FixedBytes(fields)
  {
    if fields != [] { MaskedBytes(fields[1..]); }
  }

  lemma DefinitionRead(m: bytes, base: nat, size: nat, ipfix: bool, d: Definition)
    requires FitsDefinition(ipfix, d)
    requires Holds(m, base, EncodeDefinition(ipfix, d)) && |EncodeDefinition(ipfix, d)| <= size
    ensures var n := |EncodeDefinition(ipfix, d)|;
            FlowTemplate(m, base, size, ipfix)
            == if Acceptable(d) then GoodTemplate(d.id, Masked(Pairs(d.fields)), if size - n < 4 then size else n)
               else BadTemplate
  {
    HoldsParts(m, base, Put16(d.id) + Put16(|d.fields|), EncodeFields(ipfix, d.fields));
    HoldsParts(m, base, Put16(d.id), Put16(|d.fields|));
    Holds16(m, base, d.id);
    Holds16(m, base + 2, |d.fields|);
    FieldsRead(m, base, size, ipfix, 4, d.fields);
    MaskedBytes(Pairs(d.fields));
  }

  lemma DefinitionLength(ipfix: bool, d: Definition)
    requires FitsDefinition(ipfix, d)
    ensures |EncodeDefinition(ipfix, d)| >= 4
  {
  }

  /** A template set stores its templates in order, up to the first one beyond the limits; the
      last one takes the padding. */
  lemma {:induction false} DefinitionsRead(known: set<nat>, st: St, m: bytes, base: nat, size: nat, ipfix: bool,
      displ: nat, ds: seq<Definition>, padding: bytes)
    requires (forall d | d in ds :: FitsDefinition(ipfix, d)) && |padding| < 4 && (ds == [] ==> padding == [])
    requires Holds(m, base + displ, EncodeDefinitions(ipfix, ds) + padding)
    requires displ + |EncodeDefinitions(ipfix, ds)| + |padding| == size
    ensures TemplateLoop(known, st, m, base, size, ipfix, displ) == DefineKept(known, st, ds)
    decreases |ds|
  {
    hide Holds, EncodeDefinition, FlowTemplate, FitsDefinition, Save, Acceptable;
    if ds != [] {
      var d, more := ds[0], EncodeDefinitions(ipfix, ds[1..]);
      var n := |EncodeDefinition(ipfix, d)|;
      assert EncodeDefinitions(ipfix, ds) + padding == EncodeDefinition(ipfix, d) + (more + padding);
      HoldsParts(m, base + displ, EncodeDefinition(ipfix, d), more + padding);
      DefinitionRead(m, base + displ, size - displ, ipfix, d);
      var st1 := FlowTemplateStep(known, st, m, base + displ, size - displ, ipfix).0;
      DefinitionLength(ipfix, d);
      if Acceptable(d) {
        assert DefineKept(known, st, ds) == DefineKept(known, st1, ds[1..]);
        if ds[1..] == [] {
          assert more == [];
          assert size - displ - n < 4;
        } else {
          DefinitionLength(ipfix, ds[1]);
          assert more == EncodeDefinition(ipfix, ds[1]) + EncodeDefinitions(ipfix, ds[2..]);
          DefinitionsRead(known, st1, m, base, size, ipfix, displ + n, ds[1..], padding);
        }
      }
    }
  }

  // ---------------------------------------------------------------- option templates

  function EncodePairs(fields: seq<(nat, nat)>): bytes
    requires forall f | f in fields :: f.0 < 0x1_0000 && f.1 < 0x1_0000
  {
    if fields == [] then [] else Put16(fields[0].0) + Put16(fields[0].1) + EncodePairs(fields[1..])
  }

  lemma {:induction false} PairsRead(m: bytes, i: nat, fields: seq<(nat, nat)>, k: nat)
    requires (forall f | f in fields :: f.0 < 0x1_0000 && f.1 < 0x1_0000) && k <= |fields|
    requires Holds(m, i, EncodePairs(fields))
    ensures OptionFields(m, i, k) == fields[..k]
    decreases k
  {
    if k > 0 {
      var f := fields[0];
      HoldsParts(m, i, Put16(f.0) + Put16(f.1), EncodePairs(fields[1..]));
      HoldsParts(m, i, Put16(f.0), Put16(f.1));
      Holds16(m, i, f.0);
      Holds16(m, i + 2, f.1);
      PairsRead(m, i + 4, fields[1..], k - 1);
      assert fields[..k] == [f] + fields[1..][..k - 1];
    }
  }

  predicate Words(pairs: seq<(nat, nat)>) {
    forall p | p in pairs :: p.0 < 0x1_0000 && p.1 < 0x1_0000
  }

  lemma {:induction false} PairsConcat(a: seq<(nat, nat)>, b: seq<(nat, nat)>)
    requires Words(a) && Words(b)
    ensures Words(a + b) && EncodePairs(a + b) == EncodePairs(a) + EncodePairs(b)
  {
    hide Put16;
    if a == [] {
      assert a + b == b;
    } else {
      assert forall p | p in a[1..] :: p in a;
      PairsConcat(a[1..], b);
      assert (a + b)[1..] == a[1..] + b;
    }
  }

  lemma SpecifierEncoded(ipfix: bool, f: WireField)
    requires FitsField(ipfix, f)
    ensures Words(Specifier(f)) && EncodeField(ipfix, f) == EncodePairs(Specifier(f)) && |EncodeField(ipfix, f)| >= 4
  {
    hide Put16;
    var first := (if f.pen.Some? then f.id + 0x8000 else f.id, f.len);
    if f.pen.Some? {
      var second := (f.pen.value / 0x1_0000, f.pen.value % 0x1_0000);
      OnePair(first);
      OnePair(second);
      assert Specifier(f) == [first] + [second];
      PairsConcat([first], [second]);
    } else {
      OnePair(first);
    }
  }

  lemma OnePair(p: (nat, nat))
    requires p.0 < 0x1_0000 && p.1 < 0x1_0000
    ensures Words([p]) && EncodePairs([p]) == Put16(p.0) + Put16(p.1)
  {
    hide Put16;
    assert [p][1..] == [];
  }

  /** Field specifiers on the wire are their numbers by twos. */
  lemma {:induction false} SpecifiersEncoded(ipfix: bool, fields: seq<WireField>)
    requires forall f | f in fields :: FitsField(ipfix, f)
    ensures Words(Specifiers(fields)) && EncodeFields(ipfix, fields) == EncodePairs(Specifiers(fields))
    ensures |EncodeFields(ipfix, fields)| >= 4 * |fields|
  {
    hide EncodeField, Specifier, FitsField;
    if fields != [] {
      assert FitsField(ipfix, fields[0]);
      SpecifierEncoded(ipfix, fields[0]);
      SpecifiersEncoded(ipfix, fields[1..]);
      PairsConcat(Specifier(fields[0]), Specifiers(fields[1..]));
    }
  }

  lemma OptionHeaderRead(m: bytes, base: nat, ipfix: bool, id: nat, n: nat, scopes: nat, rest: bytes)
    requires id < 0x1_0000 && scopes <= n < 0x4000
    requires Holds(m, base, OptionHeader(ipfix, id, n, scopes) + rest)
    ensures U16(m, base) == id && OptionFieldCount(m, base, ipfix) == n
    ensures |OptionHeader(ipfix, id, n, scopes)| == 6 && Holds(m, base + 6, rest)
  {
    hide Holds, U16, At;
    HoldsParts(m, base, OptionHeader(ipfix, id, n, scopes), rest);
    var a, b := if ipfix then n else 4 * scopes, if ipfix then scopes else 4 * (n - scopes);
    assert OptionHeader(ipfix, id, n, scopes) == Put16(id) + (Put16(a) + Put16(b));
    HoldsParts(m, base, Put16(id), Put16(a) + Put16(b));
    HoldsParts(m, base + 2, Put16(a), Put16(b));
    Holds16(m, base, id);
    Holds16(m, base + 2, a);
    Holds16(m, base + 4, b);
  }

  lemma OptionDefinitionsBody(ipfix: bool, ds: seq<OptionDefinition>, padding: bytes)
    requires ds != [] && forall d | d in ds :: FitsOptionDefinition(ipfix, d)
    requires FitsOptionDefinition(ipfix, ds[0])
    ensures var d := ds[0];
            EncodeOptionDefinitions(ipfix, ds) + padding
            == OptionHeader(ipfix, d.id, |d.fields|, d.scopes)
               + (EncodeFields(ipfix, d.fields) + (EncodeOptionDefinitions(ipfix, ds[1..]) + padding))
  {
    hide OptionHeader, EncodeFields, FitsField;
  }

  /** An option template set stores its first template, cut to four pairs of numbers. */
  lemma OptionTemplatesRead(known: set<nat>, st: St, m: bytes, base: nat, size: nat, ipfix: bool,
      ds: seq<OptionDefinition>, padding: bytes)
    requires (ds == [] ==> padding == []) && forall d | d in ds :: FitsOptionDefinition(ipfix, d)
    requires Holds(m, base, EncodeOptionDefinitions(ipfix, ds) + padding)
    requires size == |EncodeOptionDefinitions(ipfix, ds) + padding|
    ensures OptionTemplate(known, st, m, base, size, ipfix)
              == st.(obs := DefineOptions(known, st.obs, KeptOptionLayouts(ds)))
  {
    hide Holds, U16, At, Save, EncodeFields, OptionHeader, OptionFields, EncodePairs, Specifiers;
    if ds != [] {
      var d := ds[0];
      assert FitsOptionDefinition(ipfix, d);
      var more := EncodeOptionDefinitions(ipfix, ds[1..]) + padding;
      OptionDefinitionsBody(ipfix, ds, padding);
      OptionHeaderRead(m, base, ipfix, d.id, |d.fields|, d.scopes, EncodeFields(ipfix, d.fields) + more);
      HoldsParts(m, base + 6, EncodeFields(ipfix, d.fields), more);
      SpecifiersEncoded(ipfix, d.fields);
      var count := if |d.fields| > MAX_OPTION_FIELDS then MAX_OPTION_FIELDS else |d.fields|;
      PairsRead(m, base + 6, Specifiers(d.fields), count);
    }
  }

  // ---------------------------------------------------------------- flow records

  lemma ValueRead(m: bytes, pos: nat, f: Field, ipfix: bool, v: Value)
    requires FitsValue(f, ipfix, v) && Holds(m, pos, EncodeValue(f, ipfix, v))
    ensures var (skip, len) := FieldSpan(m, f, pos, ipfix);
            skip + len == |EncodeValue(f, ipfix, v)| && Slice(m, pos + skip, len) == v.data
  {
    if IsVariable(f, ipfix) {
      if v.long {
        HoldsParts(m, pos, [255] + Put16(|v.data|), v.data);
        HoldsParts(m, pos, [255], Put16(|v.data|));
        HoldsAt(m, pos, [255], 0);
        Holds16(m, pos + 1, |v.data|);
        HoldsSlice(m, pos + 3, v.data);
      } else {
        HoldsParts(m, pos, [|v.data|], v.data);
        HoldsAt(m, pos, [|v.data|], 0);
        HoldsSlice(m, pos + 1, v.data);
      }
    } else {
      HoldsSlice(m, pos, v.data);
    }
  }

  lemma ValueLength(f: Field, ipfix: bool, v: Value)
    requires FitsValue(f, ipfix, v)
    ensures EncodeValue(f, ipfix, v) == [] <==> f.len == 0
  {
  }

  /** A record takes no bytes exactly when all its fields are of length zero. */
  lemma {:induction false} RecordLength(fields: seq<Field>, ipfix: bool, r: seq<Value>)
    requires |r| == |fields| && forall i | 0 <= i < |r| :: FitsValue(fields[i], ipfix, r[i])
    ensures EncodeRecord(fields, ipfix, r) == [] <==> AllEmpty(fields)
  {
    hide EncodeValue, FitsValue;
    if fields != [] {
      ValueLength(fields[0], ipfix, r[0]);
      RecordLength(fields[1..], ipfix, r[1..]);
      assert AllEmpty(fields) <==> fields[0].len == 0 && AllEmpty(fields[1..]) by {
        assert fields == [fields[0]] + fields[1..];
      }
    }
  }

  /** What is printed of a record that ends the storage it is read from: not the empty fields
      after its last byte. */
  function PrintedAhead(fields: seq<Field>, values: seq<Value>): seq<(nat, bytes)>
    requires |values| == |fields|
  {
    if fields == [] || AllEmpty(fields) then []
    else (if fields[0].printed then [(fields[0].id, values[0].data)] else []) + PrintedAhead(fields[1..], values[1..])
  }

  lemma {:induction false} NothingPrinted(fields: seq<Field>, values: seq<Value>)
    requires |values| == |fields|
    ensures Printed(fields, values) == [] <==> forall i | 0 <= i < |fields| :: !fields[i].printed
  {
    if fields != [] {
      NothingPrinted(fields[1..], values[1..]);
      assert forall i | 0 < i < |fields| :: fields[i] == fields[1..][i - 1];
    }
  }

  lemma AllEmptyTail(fields: seq<Field>, i: nat)
    requires i <= |fields| && AllEmpty(fields)
    ensures AllEmpty(fields[i..])
  {
  }

  lemma TailSilentRest(fields: seq<Field>)
    requires fields != [] && !AllEmpty(fields)
    ensures TailSilent(fields) <==> TailSilent(fields[1..])
  {
    var rest := fields[1..];
    assert fields[0..] == fields;
    forall i | 0 <= i < |rest| ensures rest[i..] == fields[i + 1..] && rest[i] == fields[i + 1] {
    }
    if TailSilent(rest) {
      forall i | 0 <= i < |fields| && AllEmpty(fields[i..]) ensures !fields[i].printed {
        assert i > 0;
        assert rest[i - 1..] == fields[i..];
        assert !rest[i - 1].printed;
      }
    }
  }

  lemma EmptySilent(fields: seq<Field>)
    requires AllEmpty(fields)
    ensures TailSilent(fields) <==> forall i | 0 <= i < |fields| :: !fields[i].printed
  {
    forall i | 0 <= i < |fields| ensures AllEmpty(fields[i..]) { AllEmptyTail(fields, i); }
  }

  lemma {:induction false} PrintedAheadExactly(fields: seq<Field>, values: seq<Value>)
    requires |values| == |fields|
    ensures PrintedAhead(fields, values) == Printed(fields, values) <==> TailSilent(fields)
  {
    hide AllEmpty, TailSilent;
    if AllEmpty(fields) {
      EmptySilent(fields);
      NothingPrinted(fields, values);
    } else if fields == [] {
      NoFieldsEmpty();
    } else {
      PrintedAheadExactly(fields[1..], values[1..]);
      TailSilentRest(fields);
      var first := if fields[0].printed then [(fields[0].id, values[0].data)] else [];
      SameFront(first, PrintedAhead(fields[1..], values[1..]), Printed(fields[1..], values[1..]));
    }
  }

  lemma NoFieldsEmpty()
    ensures AllEmpty([])
  {
  }

  lemma SameFront<T>(front: seq<T>, s: seq<T>, t: seq<T>)
    ensures front + s == front + t <==> s == t
  {
    if front + s == front + t {
      assert s == (front + s)[|front|..] == (front + t)[|front|..] == t;
    }
  }

  lemma PrintedFirst(fields: seq<Field>, values: seq<Value>)
    requires |values| == |fields|
    ensures fields == [] || AllEmpty(fields) ==> PrintedAhead(fields, values) == []
    ensures fields == [] ==> Printed(fields, values) == []
    ensures fields != [] ==>
              var first := if fields[0].printed then [(fields[0].id, values[0].data)] else [];
              && Printed(fields, values) == first + Printed(fields[1..], values[1..])
              && (!AllEmpty(fields) ==> PrintedAhead(fields, values) == first + PrintedAhead(fields[1..], values[1..]))
  {
    hide AllEmpty;
  }

  lemma {:induction false} RecordRead(m: bytes, fields: seq<Field>, k: nat, pos: nat, end: nat, ipfix: bool,
      r: seq<Value>)
    requires k <= |fields| && |r| == |fields| - k
    requires forall i | 0 <= i < |r| :: FitsValue(fields[k..][i], ipfix, r[i])
    requires Holds(m, pos, EncodeRecord(fields[k..], ipfix, r)) && pos + |EncodeRecord(fields[k..], ipfix, r)| <= end
    ensures var next := pos + |EncodeRecord(fields[k..], ipfix, r)|;
            RecordFields(m, fields, k, pos, end, ipfix)
            == (if next < end then Printed(fields[k..], r) else PrintedAhead(fields[k..], r), next)
    decreases |r|
  {
    hide Holds, EncodeValue, FieldSpan, Slice, FitsValue, AllEmpty, Printed, PrintedAhead;
    RecordLength(fields[k..], ipfix, r);
    PrintedFirst(fields[k..], r);
    if k < |fields| {
      var rest := fields[k..];
      assert rest[0] == fields[k] && rest[1..] == fields[k + 1..];
      var v := EncodeValue(rest[0], ipfix, r[0]);
      HoldsParts(m, pos, v, EncodeRecord(rest[1..], ipfix, r[1..]));
      ValueRead(m, pos, rest[0], ipfix, r[0]);
      if pos < end {
        RecordRead(m, fields, k + 1, pos + |v|, end, ipfix, r[1..]);
      }
    }
  }

  lemma OneMoreRecord(m: bytes, fields: seq<Field>, pos: nat, end: nat, ipfix: bool, sequence: nat)
    requires pos + 4 <= end && RecordFields(m, fields, 0, pos, end, ipfix).1 != pos
    ensures var (values, next) := RecordFields(m, fields, 0, pos, end, ipfix);
            var rest := Records(m, fields, next, end, ipfix, sequence + 1);
            Records(m, fields, pos, end, ipfix, sequence)
            == match rest case None => None case Some(more) => Some([Record(sequence % 0x1_0000, values)] + more)
  {
    hide RecordFields;
  }

  lemma PaddingNoRecord(m: bytes, fields: seq<Field>, pos: nat, end: nat, ipfix: bool, sequence: nat)
    ensures Records(m, fields, pos, end, ipfix, sequence) == Some([]) <==> end < pos + 4
  {
    hide RecordFields;
  }

  lemma SameRecords(r: Record, s: Record, rest: seq<Record>, more: seq<Record>)
    ensures [r] + rest == [s] + more <==> r == s && rest == more
  {
    if [r] + rest == [s] + more {
      assert r == ([r] + rest)[0] && s == ([s] + more)[0];
      assert rest == ([r] + rest)[1..] && more == ([s] + more)[1..];
    }
  }

  lemma DelimitedRest(fields: seq<Field>, ipfix: bool, records: seq<seq<Value>>, padding: bytes)
    requires forall r | r in records :: FitsRecord(fields, ipfix, r)
    requires |records| > 1
    ensures Delimited(fields, ipfix, records, padding) == Delimited(fields, ipfix, records[1..], padding)
    ensures EncodeRecords(fields, ipfix, records[1..]) != []
    ensures Delimited(fields, ipfix, records, padding) ==> |EncodeRecords(fields, ipfix, records[1..])| + |padding| >= 4
    decreases |records|
  {
    hide EncodeRecord, TailSilent;
    var rest := records[1..];
    assert rest[|rest| - 1] == records[|records| - 1];
    assert FitsRecord(fields, ipfix, rest[0]);
    if |rest| > 1 {
      DelimitedRest(fields, ipfix, rest, padding);
    } else {
      assert rest[1..] == [];
    }
  }

  /** Records of any lengths, one after another and then padding, come out as they were sent
      exactly when they can be told from the padding. */
  lemma {:induction false} RecordsExactly(m: bytes, fields: seq<Field>, pos: nat, end: nat, ipfix: bool,
      sequence: nat, records: seq<seq<Value>>, padding: bytes)
    requires forall r | r in records :: FitsRecord(fields, ipfix, r)
    requires Holds(m, pos, EncodeRecords(fields, ipfix, records) + padding)
    requires pos + |EncodeRecords(fields, ipfix, records)| + |padding| == end
    ensures Records(m, fields, pos, end, ipfix, sequence) == Some(Received(fields, records, sequence))
            <==> Delimited(fields, ipfix, records, padding)
    decreases |records|
  {
    hide Holds, RecordFields, EncodeRecord, Printed, PrintedAhead, TailSilent, Records;
    if records == [] {
      PaddingNoRecord(m, fields, pos, end, ipfix, sequence);
    } else {
      var r := records[0];
      assert FitsRecord(fields, ipfix, r);
      var first, more := EncodeRecord(fields, ipfix, r), EncodeRecords(fields, ipfix, records[1..]);
      assert EncodeRecords(fields, ipfix, records) + padding == first + (more + padding);
      HoldsParts(m, pos, first, more + padding);
      assert fields[0..] == fields;
      RecordRead(m, fields, 0, pos, end, ipfix, r);
      PrintedAheadExactly(fields, r);
      var next := pos + |first|;
      var values := if next < end then Printed(fields, r) else PrintedAhead(fields, r);
      RecordsExactly(m, fields, pos + |first|, end, ipfix, sequence + 1, records[1..], padding);
      if |records| > 1 { DelimitedRest(fields, ipfix, records, padding); } else { assert records[1..] == []; }
      PaddingNoRecord(m, fields, pos, end, ipfix, sequence);
      PaddingNoRecord(m, fields, pos + |first|, end, ipfix, sequence + 1);
      if pos + 4 <= end {
        OneMoreRecord(m, fields, pos, end, ipfix, sequence);
        var after := Records(m, fields, next, end, ipfix, sequence + 1);
        if after.Some? {
          SameRecords(Record(sequence % 0x1_0000, values), Record(sequence % 0x1_0000, Printed(fields, r)), after.value,
                      Received(fields, records[1..], sequence + 1));
        }
      }
    }
  }

  // ---------------------------------------------------------------- option records

  lemma FoundNothing(fields: seq<Field>, values: seq<Value>, found: Found)
    requires fields == [] && values == []
    ensures FindAll(fields, values, found) == found
  {
  }

  lemma FoundFirst(fields: seq<Field>, values: seq<Value>, found: Found)
    requires |values| == |fields| > 0
    ensures FindAll(fields, values, found)
              == FindAll(fields[1..], values[1..], Find(found, fields[0].id, values[0].data))
  {
    hide Find;
  }

  lemma FixedValue(f: Field, ipfix: bool, v: Value)
    requires FitsValue(f, ipfix, v) && !IsVariable(f, ipfix)
    ensures EncodeValue(f, ipfix, v) == v.data && |v.data| == f.len
  {
  }

  /** The fields ahead of the first one of variable length are read; that one never fits. */
  lemma {:induction false} OptionRead(m: bytes, t: Template, ipfix: bool, base: nat, size: nat, k: nat, cursor: nat,
      found: Found, r: seq<Value>)
    requires k <= |t.fields| && |r| == |t.fields| - k && cursor <= size < VARIABLE_LENGTH
    requires forall i | 0 <= i < |r| :: FitsValue(t.fields[k..][i], ipfix, r[i])
    requires Holds(m, base + cursor, EncodeRecord(t.fields[k..], ipfix, r))
    requires cursor + |EncodeRecord(t.fields[k..], ipfix, r)| <= size
    ensures var rest := t.fields[k..];
            var n := Ahead(rest, ipfix);
            OptionValues(m, t, base, size, k, cursor, found)
            == (FindAll(rest[..n], r[..n], found),
                if n < |rest| then size else cursor + |EncodeRecord(rest, ipfix, r)|)
    decreases |r|
  {
    hide Find, Holds, Slice, FindAll, FitsValue, EncodeValue;
    var rest := t.fields[k..];
    var n := Ahead(rest, ipfix);
    if n == 0 { FoundNothing(rest[..n], r[..n], found); }
    if k < |t.fields| {
      assert rest[0] == t.fields[k] && rest[1..] == t.fields[k + 1..];
      if !IsVariable(rest[0], ipfix) {
        FixedValue(rest[0], ipfix, r[0]);
        HoldsParts(m, base + cursor, r[0].data, EncodeRecord(rest[1..], ipfix, r[1..]));
        HoldsSlice(m, base + cursor, r[0].data);
        FoundFirst(rest[..n], r[..n], found);
        OptionRead(m, t, ipfix, base, size, k + 1, cursor + |r[0].data|, Find(found, rest[0].id, r[0].data), r[1..]);
        assert rest[..n][1..] == rest[1..][..n - 1] && r[..n][1..] == r[1..][..n - 1];
      }
    }
  }

  /** The naming fields that carry a name so far. */
  function Named(f: Found): set<nat> {
    (if f.app != [] then {APPLICATION_NAME} else {}) + (if f.selector != [] then {SELECTOR_NAME} else {})
    + (if f.ifName != [] then {IF_NAME} else {}) + (if f.ifDescription != [] then {IF_DESCRIPTION} else {})
  }

  lemma FindNames(f: Found, id: nat, value: bytes)
    ensures Named(Find(f, id, value)) ==
      if id !in NAMING then Named(f) else if |value| > 0 then Named(f) + {id} else Named(f) - {id}
  {
  }

  /** Reading bytes that are too few for a record names exactly what `NamedByPadding` says. */
  lemma {:induction false} PaddingNames(m: bytes, t: Template, base: nat, size: nat, k: nat, cursor: nat, found: Found)
    requires k <= |t.fields| && cursor <= size && size - cursor < RecordBytes(t.fields[k..])
    ensures var r := OptionValues(m, t, base, size, k, cursor, found);
            && r.1 == size
            && Named(r.0) == NamedByPadding(t.fields[k..], size - cursor, Named(found))
    decreases |t.fields| - k
  {
    var rest := t.fields[k..];
    assert rest[0] == t.fields[k] && rest[1..] == t.fields[k + 1..];
    if cursor + rest[0].len <= size {
      var value := Slice(m, base + cursor, rest[0].len);
      FindNames(found, rest[0].id, value);
      PaddingNames(m, t, base, size, k + 1, cursor + rest[0].len, Find(found, rest[0].id, value));
    }
  }

  lemma NothingNamed(obs: Obs, f: Found)
    ensures Named(f) == {} ==> Learn(obs, f) == obs
  {
    if Named(f) == {} {
      assert APPLICATION_NAME !in Named(f) && SELECTOR_NAME !in Named(f) && IF_NAME !in Named(f)
        && IF_DESCRIPTION !in Named(f);
    }
  }

  /** One round of the option loop: with a field of variable length it is the last one. */
  lemma OptionRound(m: bytes, t: Template, ipfix: bool, obs: Obs, base: nat, size: nat, cursor: nat, r: seq<Value>)
    requires size < VARIABLE_LENGTH && FitsRecord(t.fields, ipfix, r)
    requires Holds(m, base + cursor, EncodeRecord(t.fields, ipfix, r))
    requires cursor + |EncodeRecord(t.fields, ipfix, r)| <= size
    ensures var n := Ahead(t.fields, ipfix);
            var obs1 := Learn(obs, FindAll(t.fields[..n], r[..n], NOTHING));
            OptionRecords(m, t, obs, base, size, cursor)
            == if n < |t.fields| then Some(obs1)
               else OptionRecords(m, t, obs1, base, size, cursor + |EncodeRecord(t.fields, ipfix, r)|)
  {
    hide Holds, At, OptionValues, OptionRecords, Learn, FindAll, EncodeRecord, FitsValue;
    var n := Ahead(t.fields, ipfix);
    assert t.fields[0..] == t.fields;
    OptionRead(m, t, ipfix, base + cursor, size - cursor, 0, 0, NOTHING, r);
    OptionRecordsGoOn(m, t, obs, base, size, cursor);
    OptionRecordsEnd(m, t, Learn(obs, FindAll(t.fields[..n], r[..n], NOTHING)), base, size);
  }

  /** What is seen of the first option record, and of those after it. */
  lemma SeenFirst(fields: seq<Field>, ipfix: bool, obs: Obs, records: seq<seq<Value>>)
    requires records != [] && forall r | r in records :: |r| == |fields|
    ensures var n := Ahead(fields, ipfix);
            var obs1 := Learn(obs, FindAll(fields[..n], records[0][..n], NOTHING));
            LearnAll(SeenFields(fields, ipfix, records), obs, SeenRecords(fields, ipfix, records))
            == if n < |fields| then obs1
               else LearnAll(SeenFields(fields, ipfix, records[1..]), obs1, SeenRecords(fields, ipfix, records[1..]))
  {
    hide Learn, FindAll, LearnAll;
    var n, r := Ahead(fields, ipfix), records[0];
    if n < |fields| {
      OneLearned(fields[..n], obs, [r[..n]]);
      assert [r[..n]][1..] == [];
      NoneLearned(fields[..n], Learn(obs, FindAll(fields[..n], r[..n], NOTHING)));
    } else {
      assert fields[..n] == fields && r[..n] == r;
      OneLearned(fields, obs, records);
    }
  }

  /** The tables after an option data set: what is seen of its records entered in order, the
      padding unseen. */
  lemma {:induction false} OptionsRead(m: bytes, t: Template, ipfix: bool, obs: Obs, base: nat, size: nat, cursor: nat,
      records: seq<seq<Value>>, padding: bytes)
    requires size < VARIABLE_LENGTH
    requires forall r | r in records :: FitsRecord(t.fields, ipfix, r)
    requires PaddingUnseen(t.fields, ipfix, records, padding)
    requires Holds(m, base + cursor, EncodeRecords(t.fields, ipfix, records) + padding)
    requires cursor + |EncodeRecords(t.fields, ipfix, records)| + |padding| == size
    ensures OptionRecords(m, t, obs, base, size, cursor)
              == Some(LearnAll(SeenFields(t.fields, ipfix, records), obs, SeenRecords(t.fields, ipfix, records)))
    decreases |records|
  {
    hide Holds, At, OptionValues, OptionRecords, Learn, LearnAll, FindAll, EncodeRecord, FitsValue, RecordBytes,
      NamedByPadding, SeenFields, SeenRecords;
    if records == [] {
      SeenNone(t.fields, ipfix, obs);
      if padding == [] {
        OptionRecordsEnd(m, t, obs, base, size);
      } else {
        PaddingRead(m, t, obs, base, size, cursor);
      }
    } else {
      var r := records[0];
      var n := Ahead(t.fields, ipfix);
      assert FitsRecord(t.fields, ipfix, r);
      var first, more := EncodeRecord(t.fields, ipfix, r), EncodeRecords(t.fields, ipfix, records[1..]);
      assert EncodeRecords(t.fields, ipfix, records) + padding == first + (more + padding);
      HoldsParts(m, base + cursor, first, more + padding);
      OptionRound(m, t, ipfix, obs, base, size, cursor, r);
      SeenFirst(t.fields, ipfix, obs, records);
      if n == |t.fields| {
        var obs1 := Learn(obs, FindAll(t.fields[..n], r[..n], NOTHING));
        OptionsRead(m, t, ipfix, obs1, base, size, cursor + |first|, records[1..], padding);
      }
    }
  }

  lemma SeenNone(fields: seq<Field>, ipfix: bool, obs: Obs)
    ensures LearnAll(SeenFields(fields, ipfix, []), obs, SeenRecords(fields, ipfix, [])) == obs
  {
  }

  lemma OptionRecordsEnd(m: bytes, t: Template, obs: Obs, base: nat, size: nat)
    ensures OptionRecords(m, t, obs, base, size, size) == Some(obs)
  {
  }

  lemma OptionRecordsGoOn(m: bytes, t: Template, obs: Obs, base: nat, size: nat, cursor: nat)
    requires cursor < size
    ensures var (found, used) := OptionValues(m, t, base + cursor, size - cursor, 0, 0, NOTHING);
            OptionRecords(m, t, obs, base, size, cursor)
            == if used == 0 then None else OptionRecords(m, t, Learn(obs, found), base, size, cursor + used)
  {
    hide OptionValues, Learn;
  }

  lemma OneLearned(fields: seq<Field>, obs: Obs, records: seq<seq<Value>>)
    requires records != [] && forall r | r in records :: |r| == |fields|
    ensures LearnAll(fields, obs, records)
              == LearnAll(fields, Learn(obs, FindAll(fields, records[0], NOTHING)), records[1..])
  {
    hide Learn, FindAll;
  }

  lemma NoneLearned(fields: seq<Field>, obs: Obs)
    ensures LearnAll(fields, obs, []) == obs
  {
  }

  /** Padding too short for a record, and for any naming field, adds nothing. */
  lemma PaddingRead(m: bytes, t: Template, obs: Obs, base: nat, size: nat, cursor: nat)
    requires cursor <= size && size - cursor < RecordBytes(t.fields)
    requires NamedByPadding(t.fields, size - cursor, {}) == {}
    ensures OptionRecords(m, t, obs, base, size, cursor) == Some(obs)
  {
    hide OptionValues, Learn, NamedByPadding;
    if cursor < size {
      assert t.fields[0..] == t.fields;
      PaddingNames(m, t, base + cursor, size - cursor, 0, 0, NOTHING);
      NothingNamed(obs, OptionValues(m, t, base + cursor, size - cursor, 0, 0, NOTHING).0);
      OptionRecordsGoOn(m, t, obs, base, size, cursor);
    }
  }

  // ---------------------------------------------------------------- sets

  lemma TemplateSetRead(known: set<nat>, st: St, m: bytes, base: nat, ipfix: bool, s: WireSet, sequence: nat)
    requires !s.Data? && Fits(st.obs, ipfix, s) && 4 + |EncodeBody(st.obs, ipfix, s)| < 0x1_0000
    requires Holds(m, base, EncodeSet(st.obs, ipfix, s))
    ensures TemplateSet(known, st, m, base, |EncodeSet(st.obs, ipfix, s)|, ipfix)
              == Effect(known, st, ipfix, s, sequence).0
    ensures Effect(known, st, ipfix, s, sequence).1 == []
  {
    hide Holds, EncodeDefinitions, EncodeOptionDefinitions, FitsDefinition, FitsOptionDefinition, DefineKept,
      DefineOptions, TemplateLoop, OptionTemplate;
    var body := EncodeBody(st.obs, ipfix, s);
    SetHeader(m, base, SetId(ipfix, s), body);
    if s.Templates? {
      DefinitionsRead(known, st, m, base, 4 + |body|, ipfix, 4, s.definitions, s.padding);
    } else {
      OptionTemplatesRead(known, st, m, base + 4, |body|, ipfix, s.options, s.padding);
    }
  }

  lemma SetHeader(m: bytes, base: nat, id: nat, body: bytes)
    requires id < 0x1_0000 && 4 + |body| < 0x1_0000
    requires Holds(m, base, Put16(id) + Put16(4 + |body|) + body)
    ensures U16(m, base) == id && U16(m, base + 2) == 4 + |body| && Holds(m, base + 4, body)
    ensures At(m, base) == id / 0x100 && At(m, base + 1) == id % 0x100
  {
    HoldsParts(m, base, Put16(id) + Put16(4 + |body|), body);
    HoldsParts(m, base, Put16(id), Put16(4 + |body|));
    Holds16(m, base, id);
    Holds16(m, base + 2, 4 + |body|);
    HoldsAt(m, base, Put16(id), 0);
    HoldsAt(m, base, Put16(id), 1);
  }

  lemma DataSetRead(known: set<nat>, st: St, m: bytes, base: nat, ipfix: bool, s: WireSet, sequence: nat)
    requires s.Data? && Fits(st.obs, ipfix, s) && 4 + |EncodeBody(st.obs, ipfix, s)| < 0x1_0000
    requires Holds(m, base, EncodeSet(st.obs, ipfix, s))
    ensures DataSet(st, m, base, |EncodeSet(st.obs, ipfix, s)|, ipfix, sequence)
              == Some(Effect(known, st, ipfix, s, sequence))
  {
    hide Holds, EncodeRecords, Records, OptionRecords, Received, LearnAll, EncodeRecord, FitsValue, SeenFields,
      SeenRecords, Delimited, PaddingUnseen;
    var body := EncodeBody(st.obs, ipfix, s);
    SetHeader(m, base, s.id, body);
    match s.body
    case Unreadable(_) =>
    case Flows(records, padding) =>
      var fields := st.obs.templates[s.id].fields;
      RecordsExactly(m, fields, base + 4, base + 4 + |body|, ipfix, sequence, records, padding);
      ReceivedLength(fields, records, sequence);
    case Options(records, padding) =>
      OptionsRead(m, st.obs.templates[s.id], ipfix, st.obs, base + 4, |body|, 0, records, padding);
  }

  lemma {:induction false} ReceivedLength(fields: seq<Field>, records: seq<seq<Value>>, sequence: nat)
    requires forall r | r in records :: |r| == |fields|
    ensures |Received(fields, records, sequence)| == |records|
  {
    if records != [] { ReceivedLength(fields, records[1..], sequence + 1); }
  }

  lemma SetIds(obs: Obs, ipfix: bool, s: WireSet)
    requires Fits(obs, ipfix, s)
    ensures SetId(ipfix, s) < 0x1_0000
    ensures s.Data? <==> SetId(ipfix, s) / 0x100 != 0
  {
  }

  lemma SetRead(known: set<nat>, st: St, m: bytes, size: nat, displ: nat, ipfix: bool, s: WireSet, sequence: nat)
    requires Fits(st.obs, ipfix, s) && 4 + |EncodeBody(st.obs, ipfix, s)| < 0x1_0000
    requires Holds(m, displ, EncodeSet(st.obs, ipfix, s)) && displ + |EncodeSet(st.obs, ipfix, s)| <= size
    ensures var (st1, records) := Effect(known, st, ipfix, s, sequence);
            DissectSet(known, st, m, size, displ, ipfix, sequence)
            == Some((st1, records, displ + |EncodeSet(st.obs, ipfix, s)|))
  {
    hide Holds, EncodeBody, Fits, Effect, DataSet, TemplateSet;
    SetIds(st.obs, ipfix, s);
    SetHeader(m, displ, SetId(ipfix, s), EncodeBody(st.obs, ipfix, s));
    if s.Data? {
      DataSetRead(known, st, m, displ, ipfix, s, sequence);
    } else {
      TemplateSetRead(known, st, m, displ, ipfix, s, sequence);
    }
  }

  lemma {:induction false} SetsRead(known: set<nat>, st: St, m: bytes, size: nat, displ: nat, left: nat, ipfix: bool,
      sets: seq<WireSet>, sequence: nat)
    requires FitSets(known, st, ipfix, sets, sequence) && |sets| <= left
    requires Holds(m, displ, EncodeSets(known, st, ipfix, sets, sequence))
    requires displ + |EncodeSets(known, st, ipfix, sets, sequence)| == size
    ensures Sets(known, st, m, size, size, displ, left, ipfix, sequence)
              == Some(EffectOfSets(known, st, ipfix, sets, sequence))
    decreases |sets|
  {
    hide Holds, EncodeBody, EncodeSet, Fits, Effect, DissectSet;
    if sets != [] { EncodedSet(known, st, ipfix, sets, sequence); }
    if sets != [] {
      var first := EncodeSet(st.obs, ipfix, sets[0]);
      var st1 := Effect(known, st, ipfix, sets[0], sequence).0;
      HoldsParts(m, displ, first, EncodeSets(known, st1, ipfix, sets[1..], sequence));
      SetRead(known, st, m, size, displ, ipfix, sets[0], sequence);
      SetsRead(known, st1, m, size, displ + |first|, left - 1, ipfix, sets[1..], sequence);
    }
  }

  lemma EncodedSet(known: set<nat>, st: St, ipfix: bool, sets: seq<WireSet>, sequence: nat)
    requires FitSets(known, st, ipfix, sets, sequence) && sets != []
    ensures |EncodeSet(st.obs, ipfix, sets[0])| >= 4
  {
  }

  lemma {:induction false} SetsLength(known: set<nat>, st: St, ipfix: bool, sets: seq<WireSet>, sequence: nat)
    requires FitSets(known, st, ipfix, sets, sequence)
    ensures 4 * |sets| <= |EncodeSets(known, st, ipfix, sets, sequence)|
    decreases |sets|
  {
    if sets != [] { SetsLength(known, Effect(known, st, ipfix, sets[0], sequence).0, ipfix, sets[1..], sequence); }
  }

  lemma HeaderRead(m: bytes, p: Packet, size: nat)
    requires p.uptime < 0x1_0000_0000 && p.time < 0x1_0000_0000 && p.sequence < 0x1_0000_0000
               && p.domain < 0x1_0000_0000
    requires if p.ipfix then 16 + size < 0x1_0000 else p.count < 0x1_0000
    requires Holds(m, 0, EncodeHeader(p, size))
    ensures Version(m) == (if p.ipfix then 10 else 9) && Domain(m) == p.domain
    ensures if p.ipfix then U16(m, 2) == 16 + size && U32(m, 8) == p.sequence
            else U16(m, 2) == p.count && U32(m, 12) == p.sequence
  {
    if p.ipfix {
      HoldsParts(m, 0, Put16(10) + Put16(16 + size) + Put32(p.time) + Put32(p.sequence), Put32(p.domain));
      HoldsParts(m, 0, Put16(10) + Put16(16 + size) + Put32(p.time), Put32(p.sequence));
      HoldsParts(m, 0, Put16(10) + Put16(16 + size), Put32(p.time));
      HoldsParts(m, 0, Put16(10), Put16(16 + size));
      Holds16(m, 0, 10);
      Holds16(m, 2, 16 + size);
      Holds32(m, 8, p.sequence);
      Holds32(m, 12, p.domain);
    } else {
      HoldsParts(m, 0, Put16(9) + Put16(p.count) + Put32(p.uptime) + Put32(p.time) + Put32(p.sequence),
                 Put32(p.domain));
      HoldsParts(m, 0, Put16(9) + Put16(p.count) + Put32(p.uptime) + Put32(p.time), Put32(p.sequence));
      HoldsParts(m, 0, Put16(9) + Put16(p.count) + Put32(p.uptime), Put32(p.time));
      HoldsParts(m, 0, Put16(9) + Put16(p.count), Put32(p.uptime));
      HoldsParts(m, 0, Put16(9), Put16(p.count));
      Holds16(m, 0, 9);
      Holds16(m, 2, p.count);
      Holds32(m, 12, p.sequence);
      Holds32(m, 16, p.domain);
    }
  }

  lemma HoldsPrefix(s: bytes, beyond: bytes)
    ensures Holds(s + beyond, 0, s)
  {
    assert (s + beyond)[0..0 + |s|] == s;
  }

  /** Dissecting a packet that fits the collector's state yields exactly its effect, whatever
      bytes follow it in the receive buffer: the flow records of all its data sets in wire order,
      each read under the template last stored for its id before it, in this packet or an earlier
      one, and every template and option entry that is seen stored. */
  lemma PacketRead(known: set<nat>, st: St, p: Packet, beyond: bytes)
    requires FitsPacket(known, st, p)
    ensures var wire := EncodePacket(known, st, p);
            && Dissect(known, st, wire + beyond, |wire|)
                 == Some(EffectOfSets(known, st, p.ipfix, p.sets, p.sequence % 0x1_0000))
            && Version(wire + beyond) == (if p.ipfix then 10 else 9) && Domain(wire + beyond) == p.domain
  {
    hide EncodeSets, EffectOfSets, FitSets, Sets, At, U16, U32, Put16, Put32, Holds;
    var sets := EncodeSets(known, st, p.ipfix, p.sets, p.sequence % 0x1_0000);
    var header := EncodeHeader(p, |sets|);
    var wire := EncodePacket(known, st, p);
    var m := wire + beyond;
    HoldsPrefix(wire, beyond);
    HoldsParts(m, 0, header, sets);
    HeaderRead(m, p, |sets|);
    SetsLength(known, st, p.ipfix, p.sets, p.sequence % 0x1_0000);
    SetsRead(known, st, m, |wire|, |header|, U16(m, 2), p.ipfix, p.sets, p.sequence % 0x1_0000);
  }

  // ---------------------------------------------------------------- why the conditions

  /** How many records come out of `size` bytes of data under records of `len` bytes. */
  function Delivered(size: nat, len: nat): nat
    requires len > 0
  {
    if size < 4 then 0 else 1 + (if size >= len then Delivered(size - len, len) else 0)
  }

  ghost predicate FixedFields(fields: seq<Field>, ipfix: bool) {
    forall i | 0 <= i < |fields| :: !IsVariable(fields[i], ipfix)
  }

  lemma {:induction false} FixedRecordSpan(m: bytes, fields: seq<Field>, k: nat, pos: nat, end: nat, ipfix: bool)
    requires FixedFields(fields, ipfix) && k <= |fields|
    ensures var next := RecordFields(m, fields, k, pos, end, ipfix).1;
            if pos + RecordBytes(fields[k..]) <= end then next == pos + RecordBytes(fields[k..]) else next >= end
    decreases |fields| - k
  {
    if k < |fields| {
      var rest := fields[k..];
      assert rest[0] == fields[k] && rest[1..] == fields[k + 1..];
      if pos < end {
        FixedRecordSpan(m, fields, k + 1, pos + fields[k].len, end, ipfix);
      }
    }
  }

  /** Fixed-length templates: the number of records delivered depends on the lengths alone. */
  lemma {:induction false} RecordsDelivered(m: bytes, fields: seq<Field>, pos: nat, end: nat, ipfix: bool,
      sequence: nat)
    requires FixedFields(fields, ipfix) && RecordBytes(fields) > 0 && pos <= end
    ensures var r := Records(m, fields, pos, end, ipfix, sequence);
            r.Some? && |r.value| == Delivered(end - pos, RecordBytes(fields))
    decreases end - pos
  {
    if pos + 4 <= end {
      assert fields[0..] == fields;
      FixedRecordSpan(m, fields, 0, pos, end, ipfix);
      var next := RecordFields(m, fields, 0, pos, end, ipfix).1;
      if next <= end {
        RecordsDelivered(m, fields, next, end, ipfix, sequence + 1);
      }
    }
  }

  /** `n` records of `len` bytes and `padding` bytes more come out as `n` records exactly when
      the padding is shorter than four bytes and the last record, with it, is not. */
  lemma {:induction false} DeliveredExactly(n: nat, len: nat, padding: nat)
    requires len > 0
    ensures Delivered(n * len + padding, len) >= n <==> n == 0 || len + padding >= 4
    ensures Delivered(n * len + padding, len) <= n <==> padding < 4
  {
    if n > 0 {
      assert n * len + padding - len == (n - 1) * len + padding;
      assert n * len >= len by { assert (n - 1) * len >= 0; }
      DeliveredExactly(n - 1, len, padding);
    }
  }

  /** Padding shorter than a record is entered like one. */
  lemma PaddingEntered(m: bytes, t: Template, obs: Obs, base: nat, padding: nat)
    requires 0 < padding < RecordBytes(t.fields)
    ensures var found := OptionValues(m, t, base, padding, 0, 0, NOTHING).0;
            && OptionRecords(m, t, obs, base, padding, 0) == Some(Learn(obs, found))
            && Named(found) == NamedByPadding(t.fields, padding, {})
  {
    assert t.fields[0..] == t.fields;
    PaddingNames(m, t, base, padding, 0, 0, NOTHING);
  }

  const EMPTY: Obs := Obs(map[], map[], map[], map[])

  lemma SomethingNamed(f: Found)
    requires Named(f) != {}
    ensures Learn(EMPTY, f) != EMPTY
  {
    var learnt := Learn(EMPTY, f);
    if f.app != [] {
      assert f.appId in learnt.applications;
    } else if f.selector != [] {
      assert f.selectorId in learnt.selectors;
    } else {
      assert f.ifId in learnt.interfaces;
    }
  }

  /** Padding shorter than a record leaves the tables alone, whatever they hold, exactly when it
      fills in no naming field. */
  lemma PaddingLearned(m: bytes, t: Template, base: nat, padding: nat)
    requires 0 < padding < RecordBytes(t.fields)
    ensures (forall obs :: OptionRecords(m, t, obs, base, padding, 0) == Some(obs))
            <==> NamedByPadding(t.fields, padding, {}) == {}
  {
    hide OptionRecords, OptionValues, Learn, NamedByPadding, Named;
    var found := OptionValues(m, t, base, padding, 0, 0, NOTHING).0;
    if NamedByPadding(t.fields, padding, {}) == {} {
      forall obs ensures OptionRecords(m, t, obs, base, padding, 0) == Some(obs) {
        PaddingEntered(m, t, obs, base, padding);
        NothingNamed(obs, found);
      }
    } else {
      PaddingEntered(m, t, EMPTY, base, padding);
      SomethingNamed(found);
      assert OptionRecords(m, t, EMPTY, base, padding, 0) != Some(EMPTY);
    }
  }

  /** For instance: with a one-byte name ahead of a four-byte id, three zero bytes of padding
      enter an application 0 with a name of one zero byte. */
  lemma PaddingTakenForName(obs: Obs)
    ensures var t := Template([Field(APPLICATION_NAME, 1, false), Field(APPLICATION_ID, 4, false)], true);
            && NamedByPadding(t.fields, 3, {}) == {APPLICATION_NAME}
            && OptionRecords([0, 0, 0], t, obs, 0, 3, 0) == Some(obs.(applications := obs.applications[0 := [0]]))
  {
    var t := Template([Field(APPLICATION_NAME, 1, false), Field(APPLICATION_ID, 4, false)], true);
    var m := [0, 0, 0];
    assert t.fields[1..][0] == t.fields[1];
    var f1 := Find(NOTHING, APPLICATION_NAME, Slice(m, 0, 1));
    assert Slice(m, 0, 1) == [0];
    assert OptionValues(m, t, 0, 3, 1, 1, f1) == (f1, 3);
    assert OptionValues(m, t, 0, 3, 0, 0, NOTHING) == (f1, 3);
  }
}
