/** What option data does to the name tables, said without the decoder's own terms
    (src/collect.c:1343-1436). */
module OptionTables {
  import opened Bytes
  import opened Dissector
  import opened Exporter
  import opened RoundTrip
  import opened Wire

  /** The value of the last field with the given id, or nothing. */
  function LastValue(fields: seq<Field>, values: seq<Value>, id: nat): bytes
    requires |values| == |fields|
  {
    var n := |fields|;
    if n == 0 then []
    else if fields[n - 1].id == id then values[n - 1].data
    else LastValue(fields[..n - 1], values[..n - 1], id)
  }

  /** The number a field stands for: big-endian, for the sizes that are read as numbers. */
  function NumberOf(value: bytes): nat {
    if |value| in {1, 2, 4, 6, 8} then BigEndian(value) else 0
  }

  /** A table after entering pairs in order, so that the last one for a key stays. */
  function Entered<V>(table: map<nat, V>, pairs: seq<(nat, V)>): map<nat, V> {
    if pairs == [] then table
    else
      var last := pairs[|pairs| - 1];
      Entered(table, pairs[..|pairs| - 1])[last.0 := last.1]
  }

  /** The (id, name) pairs of the records that have a name. */
  function NamedPairs(fields: seq<Field>, records: seq<seq<Value>>, id: nat, name: nat): seq<(nat, bytes)>
    requires forall r | r in records :: |r| == |fields|
  {
    if records == [] then []
    else
      var r := records[|records| - 1];
      var named := LastValue(fields, r, name);
      NamedPairs(fields, records[..|records| - 1], id, name)
      + if named == [] then [] else [(NumberOf(LastValue(fields, r, id)), named)]
  }

  /** The interfaces named by the records: a name, a description, or both. */
  function Interfaces(fields: seq<Field>, records: seq<seq<Value>>): seq<(nat, (bytes, bytes))>
    requires forall r | r in records :: |r| == |fields|
  {
    if records == [] then []
    else
      var r := records[|records| - 1];
      var name, description := LastValue(fields, r, IF_NAME), LastValue(fields, r, IF_DESCRIPTION);
      Interfaces(fields, records[..|records| - 1])
      + if name == [] && description == [] then []
        else [(NumberOf(LastValue(fields, r, INPUT_SNMP)), (name, description))]
  }

  /** What the values of one record fill in. */
  function FoundIn(fields: seq<Field>, values: seq<Value>): Found
    requires |values| == |fields|
  {
    Found(NumberOf(LastValue(fields, values, APPLICATION_ID)), LastValue(fields, values, APPLICATION_NAME),
          NumberOf(LastValue(fields, values, SELECTOR_ID)), LastValue(fields, values, SELECTOR_NAME),
          NumberOf(LastValue(fields, values, INPUT_SNMP)), LastValue(fields, values, IF_NAME),
          LastValue(fields, values, IF_DESCRIPTION))
  }

  lemma {:induction false} FindAllSnoc(fields: seq<Field>, values: seq<Value>, found: Found)
    requires |values| == |fields| > 0
    ensures var n := |fields| - 1;
            FindAll(fields, values, found)
            == Find(FindAll(fields[..n], values[..n], found), fields[n].id, values[n].data)
  {
    hide Find;
    var n := |fields| - 1;
    if n == 0 {
      assert fields[1..] == [] && fields[..0] == [];
    } else {
      FindAllSnoc(fields[1..], values[1..], Find(found, fields[0].id, values[0].data));
      assert fields[1..][..n - 1] == fields[..n][1..] && values[1..][..n - 1] == values[..n][1..];
    }
  }

  lemma FindLast(fields: seq<Field>, values: seq<Value>)
    requires |values| == |fields| > 0
    ensures var n := |fields| - 1;
            FoundIn(fields, values) == Find(FoundIn(fields[..n], values[..n]), fields[n].id, values[n].data)
  {
    hide NumberOf;
    var v := values[|fields| - 1].data;
    NumberOfIsNet2Number(v);
  }

  lemma NumberOfIsNet2Number(value: bytes)
    ensures NumberOf(value) == Net2Number(value)
  {
    Net2NumberBigEndian(value);
  }

  lemma {:induction false} FindAllIsLast(fields: seq<Field>, values: seq<Value>)
    requires |values| == |fields|
    ensures FindAll(fields, values, NOTHING) == FoundIn(fields, values)
  {
    hide Find;
    if fields != [] {
      var n := |fields| - 1;
      FindAllSnoc(fields, values, NOTHING);
      FindAllIsLast(fields[..n], values[..n]);
      FindLast(fields, values);
    }
  }

  lemma {:induction false} LearnAllSnoc(fields: seq<Field>, obs: Obs, records: seq<seq<Value>>)
    requires (forall r | r in records :: |r| == |fields|) && records != []
    ensures var n := |records| - 1;
            LearnAll(fields, obs, records) == Learn(LearnAll(fields, obs, records[..n]), FoundIn(fields, records[n]))
    decreases |records|
  {
    hide Learn, FindAll, FoundIn;
    var n := |records| - 1;
    FindAllIsLast(fields, records[0]);
    if n == 0 {
      assert records[1..] == [] && records[..0] == [];
    } else {
      LearnAllSnoc(fields, Learn(obs, FoundIn(fields, records[0])), records[1..]);
      assert records[1..][..n - 1] == records[..n][1..];
    }
  }

  /** The tables after option records: the pairs of an id and a name, and the interfaces, entered
      in order; templates stay. */
  lemma {:induction false} TablesAreEntered(fields: seq<Field>, obs: Obs, records: seq<seq<Value>>)
    requires forall r | r in records :: |r| == |fields|
    ensures var after := LearnAll(fields, obs, records);
            && after.templates == obs.templates
            && after.applications
                 == Entered(obs.applications, NamedPairs(fields, records, APPLICATION_ID, APPLICATION_NAME))
            && after.selectors == Entered(obs.selectors, NamedPairs(fields, records, SELECTOR_ID, SELECTOR_NAME))
            && after.interfaces == Entered(obs.interfaces, Interfaces(fields, records))
    decreases |records|
  {
    hide LearnAll, Learn, FoundIn, NamedPairs, Interfaces, Entered, LastValue;
    if records == [] {
      NoneLearned(fields, obs);
      NothingEntered(fields, obs, records);
    } else {
      var front, r := records[..|records| - 1], records[|records| - 1];
      LearnAllSnoc(fields, obs, records);
      TablesAreEntered(fields, obs, front);
      LearnParts(LearnAll(fields, obs, front), fields, r);
      OnePairMore(obs.applications, fields, records, APPLICATION_ID, APPLICATION_NAME);
      OnePairMore(obs.selectors, fields, records, SELECTOR_ID, SELECTOR_NAME);
      OneInterfaceMore(obs.interfaces, fields, records);
    }
  }

  lemma NothingEntered(fields: seq<Field>, obs: Obs, records: seq<seq<Value>>)
    requires records == []
    ensures Entered(obs.applications, NamedPairs(fields, records, APPLICATION_ID, APPLICATION_NAME)) == obs.applications
    ensures Entered(obs.selectors, NamedPairs(fields, records, SELECTOR_ID, SELECTOR_NAME)) == obs.selectors
    ensures Entered(obs.interfaces, Interfaces(fields, records)) == obs.interfaces
  {
  }

  /** A table with the pair of one record, if it has a name. */
  function WithPair(table: map<nat, bytes>, fields: seq<Field>, r: seq<Value>, id: nat, name: nat): map<nat, bytes>
    requires |r| == |fields|
  {
    var named := LastValue(fields, r, name);
    if named == [] then table else table[NumberOf(LastValue(fields, r, id)) := named]
  }

  function WithInterface(table: map<nat, (bytes, bytes)>, fields: seq<Field>, r: seq<Value>): map<nat, (bytes, bytes)>
    requires |r| == |fields|
  {
    var name, description := LastValue(fields, r, IF_NAME), LastValue(fields, r, IF_DESCRIPTION);
    if name == [] && description == [] then table
    else table[NumberOf(LastValue(fields, r, INPUT_SNMP)) := (name, description)]
  }

  lemma LearnParts(obs: Obs, fields: seq<Field>, r: seq<Value>)
    requires |r| == |fields|
    ensures var after := Learn(obs, FoundIn(fields, r));
            && after.templates == obs.templates
            && after.applications == WithPair(obs.applications, fields, r, APPLICATION_ID, APPLICATION_NAME)
            && after.selectors == WithPair(obs.selectors, fields, r, SELECTOR_ID, SELECTOR_NAME)
            && after.interfaces == WithInterface(obs.interfaces, fields, r)
  {
    hide LastValue, NumberOf, Learn;
    LearnTables(obs, FoundIn(fields, r));
  }

  lemma LearnTables(obs: Obs, f: Found)
    ensures var after := Learn(obs, f);
            && after.templates == obs.templates
            && after.applications == (if f.app == [] then obs.applications else obs.applications[f.appId := f.app])
            && after.selectors == (if f.selector == [] then obs.selectors
                                   else obs.selectors[f.selectorId := f.selector])
            && after.interfaces == (if f.ifName == [] && f.ifDescription == [] then obs.interfaces
                                    else obs.interfaces[f.ifId := (f.ifName, f.ifDescription)])
  {
    hide Learn;
    LearnApplication(obs, f);
    LearnSelector(obs, f);
    LearnInterface(obs, f);
  }

  lemma LearnApplication(obs: Obs, f: Found)
    ensures Learn(obs, f).templates == obs.templates
    ensures Learn(obs, f).applications == if f.app == [] then obs.applications else obs.applications[f.appId := f.app]
  {
  }

  lemma LearnSelector(obs: Obs, f: Found)
    ensures Learn(obs, f).selectors
            == if f.selector == [] then obs.selectors else obs.selectors[f.selectorId := f.selector]
  {
  }

  lemma LearnInterface(obs: Obs, f: Found)
    ensures Learn(obs, f).interfaces
            == if f.ifName == [] && f.ifDescription == [] then obs.interfaces
               else obs.interfaces[f.ifId := (f.ifName, f.ifDescription)]
  {
  }

  lemma OnePairMore(table: map<nat, bytes>, fields: seq<Field>, records: seq<seq<Value>>, id: nat, name: nat)
    requires (forall r | r in records :: |r| == |fields|) && records != []
    ensures var front, r := records[..|records| - 1], records[|records| - 1];
            Entered(table, NamedPairs(fields, records, id, name))
              == WithPair(Entered(table, NamedPairs(fields, front, id, name)), fields, r, id, name)
  {
    hide Entered, LastValue, NumberOf;
    var front, r := records[..|records| - 1], records[|records| - 1];
    EnteredMore(table, NamedPairs(fields, front, id, name),
                (NumberOf(LastValue(fields, r, id)), LastValue(fields, r, name)));
  }

  lemma OneInterfaceMore(table: map<nat, (bytes, bytes)>, fields: seq<Field>, records: seq<seq<Value>>)
    requires (forall r | r in records :: |r| == |fields|) && records != []
    ensures var front, r := records[..|records| - 1], records[|records| - 1];
            Entered(table, Interfaces(fields, records))
              == WithInterface(Entered(table, Interfaces(fields, front)), fields, r)
  {
    hide Entered, LastValue, NumberOf;
    var front, r := records[..|records| - 1], records[|records| - 1];
    EnteredMore(table, Interfaces(fields, front),
                (NumberOf(LastValue(fields, r, INPUT_SNMP)),
                 (LastValue(fields, r, IF_NAME), LastValue(fields, r, IF_DESCRIPTION))));
  }

  lemma EnteredMore<V>(table: map<nat, V>, pairs: seq<(nat, V)>, last: (nat, V))
    ensures Entered(table, pairs + [last]) == Entered(table, pairs)[last.0 := last.1]
    ensures pairs + [] == pairs
  {
    assert (pairs + [last])[..|pairs|] == pairs;
  }

  /** So for the bytes on the wire: an option data set enters the pairs of its records, as far as
      they are seen. */
  lemma OptionSetEnters(m: bytes, t: Template, ipfix: bool, obs: Obs, base: nat, size: nat,
      records: seq<seq<Value>>, padding: bytes)
    requires size < VARIABLE_LENGTH
    requires (forall r | r in records :: FitsRecord(t.fields, ipfix, r))
             && PaddingUnseen(t.fields, ipfix, records, padding)
    requires Holds(m, base, EncodeRecords(t.fields, ipfix, records) + padding)
    requires |EncodeRecords(t.fields, ipfix, records)| + |padding| == size
    ensures var after := OptionRecords(m, t, obs, base, size, 0);
            var fields, seen := SeenFields(t.fields, ipfix, records), SeenRecords(t.fields, ipfix, records);
            && after.Some? && after.value.templates == obs.templates
            && after.value.applications
                 == Entered(obs.applications, NamedPairs(fields, seen, APPLICATION_ID, APPLICATION_NAME))
            && after.value.selectors == Entered(obs.selectors, NamedPairs(fields, seen, SELECTOR_ID, SELECTOR_NAME))
            && after.value.interfaces == Entered(obs.interfaces, Interfaces(fields, seen))
  {
    hide OptionRecords, LearnAll, NamedPairs, Interfaces, Entered, NamedByPadding, Holds, PaddingUnseen, SeenFields,
      SeenRecords, EncodeRecord;
    OptionsRead(m, t, ipfix, obs, base, size, 0, records, padding);
    TablesAreEntered(SeenFields(t.fields, ipfix, records), obs, SeenRecords(t.fields, ipfix, records));
  }
}
