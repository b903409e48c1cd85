/** When the dissector's loops end (src/collect.c:1145-1338, 1426-1433). The source guards
    against templates without fields; the loops also never end for templates whose fields
    are all empty, and for no others. */
module DissectorProgress {
  import opened Bytes
  import opened Wire
  import opened Dissector

  ghost predicate AllEmpty(fields: seq<Field>) {
    forall i | 0 <= i < |fields| :: fields[i].len == 0
  }

  lemma {:induction false} RecordStalls(m: bytes, fields: seq<Field>, k: nat, pos: nat, end: nat, ipfix: bool)
    requires k <= |fields| && pos < end
    ensures RecordFields(m, fields, k, pos, end, ipfix).1 == pos <==> forall i | k <= i < |fields| :: fields[i].len == 0
    decreases |fields| - k
  {
    if k < |fields| {
      var (skip, len) := FieldSpan(m, fields[k], pos, ipfix);
      if skip + len == 0 {
        RecordStalls(m, fields, k + 1, pos, end, ipfix);
      } else {
        assert fields[k].len != 0;
      }
    }
  }

  /** The data-set loop runs for ever exactly when the template's fields are all empty and
      the set has room for one round. */
  lemma {:induction false} RecordsFreeze(m: bytes, fields: seq<Field>, pos: nat, end: nat, ipfix: bool, sequence: nat)
    ensures Records(m, fields, pos, end, ipfix, sequence).None? <==> AllEmpty(fields) && pos + 4 <= end
    decreases end - pos
  {
    if pos + 4 <= end {
      RecordStalls(m, fields, 0, pos, end, ipfix);
      var next := RecordFields(m, fields, 0, pos, end, ipfix).1;
      if next > pos {
        RecordsFreeze(m, fields, next, end, ipfix, sequence + 1);
      }
    }
  }

  lemma {:induction false} OptionStalls(m: bytes, t: Template, base: nat, size: nat, k: nat, cursor: nat, found: Found)
    requires k <= |t.fields| && cursor < size
    ensures OptionValues(m, t, base, size, k, cursor, found).1 == cursor
            <==> forall i | k <= i < |t.fields| :: t.fields[i].len == 0
    decreases |t.fields| - k
  {
    if k < |t.fields| && cursor + t.fields[k].len <= size {
      var f := Find(found, t.fields[k].id, Slice(m, base + cursor, t.fields[k].len));
      if t.fields[k].len == 0 {
        OptionStalls(m, t, base, size, k + 1, cursor, f);
      }
    }
  }

  /** The option-data loop runs for ever exactly when the fields are all empty and the set is not. */
  lemma {:induction false} OptionsFreeze(m: bytes, t: Template, obs: Obs, base: nat, size: nat, cursor: nat)
    ensures OptionRecords(m, t, obs, base, size, cursor).None? <==> AllEmpty(t.fields) && cursor < size
    decreases size - cursor
  {
    if cursor < size {
      OptionStalls(m, t, base + cursor, size - cursor, 0, 0, NOTHING);
      var (found, used) := OptionValues(m, t, base + cursor, size - cursor, 0, 0, NOTHING);
      if used > 0 {
        OptionsFreeze(m, t, Learn(obs, found), base, size, cursor + used);
      }
    }
  }

  /** A data set freezes its worker exactly when it is long enough for one round under a
      stored template that has fields, all of them empty. */
  lemma DataSetFreezes(st: St, m: bytes, base: nat, size: nat, ipfix: bool, sequence: nat)
    ensures DataSet(st, m, base, size, ipfix, sequence).None? <==>
      var id := U16(m, base);
      && id in st.obs.templates && st.obs.templates[id].fields != [] && AllEmpty(st.obs.templates[id].fields)
      && (if st.obs.templates[id].isOption then size > 0 && size != 4 else size >= 8)
  {
    var id := U16(m, base);
    if id in st.obs.templates {
      var t := st.obs.templates[id];
      RecordsFreeze(m, t.fields, base + 4, base + size, ipfix, sequence);
      OptionsFreeze(m, t, st.obs, base + 4, if size < SizeMinus(size, 4) then size else SizeMinus(size, 4), 0);
    }
  }

  // ---------------------------------------------------------------- whole packets

  /** The set at `displ` never ends: the packet holds it, and it is a data set, long enough for
      one round, under a stored template that has fields, all of them empty. */
  ghost predicate Endless(st: St, m: bytes, size: nat, displ: nat, ipfix: bool) {
    var id, len := U16(m, displ), U16(m, displ + 2);
    && displ + 4 <= size && displ + len <= size
    && At(m, displ) != 0 && (ipfix || id != 1)
    && id in st.obs.templates && st.obs.templates[id].fields != [] && AllEmpty(st.obs.templates[id].fields)
    && (if st.obs.templates[id].isOption then len > 0 && len != 4 else len >= 8)
  }

  lemma SetFreezes(known: set<nat>, st: St, m: bytes, size: nat, displ: nat, ipfix: bool, sequence: nat)
    ensures DissectSet(known, st, m, size, displ, ipfix, sequence).None? <==> Endless(st, m, size, displ, ipfix)
  {
    hide DataSet;
    DataSetFreezes(st, m, displ, U16(m, displ + 2), ipfix, sequence);
  }

  /** The walk gets to its `n`-th set from here, in the state that the sets before it left, and
      that set is the first one that never ends. */
  ghost predicate FreezesAt(
    known: set<nat>, st: St, m: bytes, size: nat, received: nat, displ: nat, ipfix: bool, sequence: nat, n: nat)
    decreases n
  {
    && displ < received
    && if n == 0 then Endless(st, m, size, displ, ipfix)
       else
         match DissectSet(known, st, m, size, displ, ipfix, sequence)
         case None => false
         case Some((st1, _, next)) => FreezesAt(known, st1, m, size, received, next, ipfix, sequence, n - 1)
  }

  /** The walk over a packet ends, zero-length sets included, unless it gets to such a set. */
  lemma {:induction false} WalkFreezes(
    known: set<nat>, st: St, m: bytes, size: nat, received: nat, displ: nat, left: nat, ipfix: bool, sequence: nat)
    returns (n: nat)
    requires Sets(known, st, m, size, received, displ, left, ipfix, sequence).None?
    ensures n < left && FreezesAt(known, st, m, size, received, displ, ipfix, sequence, n)
    decreases left
  {
    hide DissectSet, Endless;
    SetFreezes(known, st, m, size, displ, ipfix, sequence);
    var r := DissectSet(known, st, m, size, displ, ipfix, sequence);
    if r.None? {
      n := 0;
    } else {
      n := WalkFreezes(known, r.value.0, m, size, received, r.value.2, left - 1, ipfix, sequence);
      n := n + 1;
    }
  }

  lemma {:induction false} FreezeStopsWalk(
    known: set<nat>, st: St, m: bytes, size: nat, received: nat, displ: nat, left: nat, ipfix: bool, sequence: nat,
      n: nat)
    requires n < left && FreezesAt(known, st, m, size, received, displ, ipfix, sequence, n)
    ensures Sets(known, st, m, size, received, displ, left, ipfix, sequence).None?
    decreases left
  {
    hide DissectSet, Endless;
    SetFreezes(known, st, m, size, displ, ipfix, sequence);
    var r := DissectSet(known, st, m, size, displ, ipfix, sequence);
    if n > 0 {
      FreezeStopsWalk(known, r.value.0, m, size, received, r.value.2, left - 1, ipfix, sequence, n - 1);
    }
  }

  /** How a packet's sets are walked. */
  datatype Walk = Walk(size: nat, start: nat, sets: nat, ipfix: bool, sequence: nat)

  function WalkOf(m: bytes, received: nat): Walk {
    if Version(m) == 10 then
      Walk(if received < U16(m, 2) then received else U16(m, 2), 16, U16(m, 2), true, U32(m, 8) % 0x1_0000)
    else
      Walk(received, 20, U16(m, 2), false, U32(m, 12) % 0x1_0000)
  }

  /** Exactly which packets freeze their worker: those that lead the walk to a set that never
      ends, before the header's count of sets is used up. */
  lemma PacketFreezes(known: set<nat>, st: St, m: bytes, received: nat)
    ensures var w := WalkOf(m, received);
            Dissect(known, st, m, received).None?
            <==> exists n: nat ::
                   n < w.sets && FreezesAt(known, st, m, w.size, received, w.start, w.ipfix, w.sequence, n)
  {
    hide FreezesAt, Sets;
    var w := WalkOf(m, received);
    if Dissect(known, st, m, received).None? {
      var n := WalkFreezes(known, st, m, w.size, received, w.start, w.sets, w.ipfix, w.sequence);
    }
    if n: nat :| n < w.sets && FreezesAt(known, st, m, w.size, received, w.start, w.ipfix, w.sequence, n) {
      FreezeStopsWalk(known, st, m, w.size, received, w.start, w.sets, w.ipfix, w.sequence, n);
    }
  }

  // ---------------------------------------------------------------- keeping clear of it

  /** No stored template has fields that are all empty. */
  ghost predicate Harmless(obs: Obs) {
    forall id | id in obs.templates :: obs.templates[id].fields == [] || !AllEmpty(obs.templates[id].fields)
  }

  ghost predicate HarmlessFields(fields: seq<(nat, nat)>) {
    fields == [] || exists i :: 0 <= i < |fields| && fields[i].1 != 0
  }

  /** None of the templates of a flow template set has fields that are all empty. */
  ghost predicate HarmlessTemplates(m: bytes, base: nat, size: nat, ipfix: bool, displ: nat)
    decreases size - displ
  {
    displ < size ==>
      match FlowTemplate(m, base + displ, size - displ, ipfix)
      case BadTemplate => true
      case GoodTemplate(_, fields, used) =>
        HarmlessFields(fields) && (used > 0 ==> HarmlessTemplates(m, base, size, ipfix, displ + used))
  }

  /** Nor has the template of an option template set, cut to the fields that are kept. */
  ghost predicate HarmlessOptions(m: bytes, base: nat, ipfix: bool) {
    var total := OptionFieldCount(m, base, ipfix);
    HarmlessFields(OptionFields(m, base + 6, if total > MAX_OPTION_FIELDS then MAX_OPTION_FIELDS else total))
  }

  ghost predicate HarmlessSet(m: bytes, displ: nat, ipfix: bool) {
    At(m, displ) == 0 || (!ipfix && U16(m, displ) == 1) ==>
      if (if ipfix && At(m, displ + 1) == 2 then 0 else At(m, displ + 1)) != 0 then HarmlessOptions(m, displ + 4, ipfix)
      else HarmlessTemplates(m, displ, U16(m, displ + 2), ipfix, 4)
  }

  /** No template that arrives with the packet has fields that are all empty. */
  ghost predicate HarmlessSets(m: bytes, size: nat, received: nat, displ: nat, left: nat, ipfix: bool)
    decreases left
  {
    left > 0 && displ < received && displ + 4 <= size && displ + U16(m, displ + 2) <= size ==>
      && HarmlessSet(m, displ, ipfix)
      && HarmlessSets(m, size, received, displ + U16(m, displ + 2), left - 1, ipfix)
  }

  lemma SaveKeepsHarmless(known: set<nat>, obs: Obs, id: nat, fields: seq<(nat, nat)>, isOption: bool)
    requires Harmless(obs) && HarmlessFields(fields)
    ensures Harmless(Save(known, obs, id, fields, isOption))
  {
    var stored := StoredTemplate(known, fields, isOption).fields;
    if fields != [] {
      var i :| 0 <= i < |fields| && fields[i].1 != 0;
      assert stored[i].len != 0;
    }
  }

  lemma {:induction false} TemplatesKeepHarmless(
    known: set<nat>, st: St, m: bytes, base: nat, size: nat, ipfix: bool, displ: nat)
    requires Harmless(st.obs) && HarmlessTemplates(m, base, size, ipfix, displ)
    ensures Harmless(TemplateLoop(known, st, m, base, size, ipfix, displ).obs)
    decreases size - displ
  {
    hide FlowTemplate, Harmless, HarmlessFields, Save;
    if displ < size {
      var (st1, used) := FlowTemplateStep(known, st, m, base + displ, size - displ, ipfix);
      match FlowTemplate(m, base + displ, size - displ, ipfix)
      case BadTemplate =>
      case GoodTemplate(id, fields, _) =>
        SaveKeepsHarmless(known, st.obs, id, fields, false);
        TemplatesKeepHarmless(known, st1, m, base, size, ipfix, displ + used);
    }
  }

  lemma SetKeepsHarmless(known: set<nat>, st: St, m: bytes, size: nat, displ: nat, ipfix: bool, sequence: nat)
    requires Harmless(st.obs)
    requires displ + 4 <= size && displ + U16(m, displ + 2) <= size ==> HarmlessSet(m, displ, ipfix)
    ensures var r := DissectSet(known, st, m, size, displ, ipfix, sequence);
            r.Some? && Harmless(r.value.0.obs)
  {
    hide TemplateLoop, HarmlessTemplates, HarmlessFields, OptionFields, OptionFieldCount, OptionRecords, Records,
      Save, Learn;
    SetFreezes(known, st, m, size, displ, ipfix, sequence);
    if displ + 4 <= size && displ + U16(m, displ + 2) <= size {
      if At(m, displ) == 0 || (!ipfix && U16(m, displ) == 1) {
        var total := OptionFieldCount(m, displ + 4, ipfix);
        var fields := OptionFields(m, displ + 10, if total > MAX_OPTION_FIELDS then MAX_OPTION_FIELDS else total);
        if (if ipfix && At(m, displ + 1) == 2 then 0 else At(m, displ + 1)) != 0 {
          SaveKeepsHarmless(known, st.obs, U16(m, displ + 4), fields, true);
        } else {
          TemplatesKeepHarmless(known, st, m, displ, U16(m, displ + 2), ipfix, 4);
        }
      } else {
        DataKeepsTemplates(st, m, displ, U16(m, displ + 2), ipfix, sequence);
      }
    }
  }

  lemma DataKeepsTemplates(st: St, m: bytes, base: nat, size: nat, ipfix: bool, sequence: nat)
    ensures var r := DataSet(st, m, base, size, ipfix, sequence);
            r.Some? ==> r.value.0.obs.templates == st.obs.templates
  {
    hide Records;
    var id := U16(m, base);
    if id in st.obs.templates {
      var left := if size < SizeMinus(size, 4) then size else SizeMinus(size, 4);
      OptionsKeepTemplates(m, st.obs.templates[id], st.obs, base + 4, left, 0);
    }
  }

  lemma {:induction false} OptionsKeepTemplates(m: bytes, t: Template, obs: Obs, base: nat, size: nat, cursor: nat)
    ensures var r := OptionRecords(m, t, obs, base, size, cursor);
            r.Some? ==> r.value.templates == obs.templates
    decreases size - cursor
  {
    if cursor < size {
      var (found, used) := OptionValues(m, t, base + cursor, size - cursor, 0, 0, NOTHING);
      if used > 0 { OptionsKeepTemplates(m, t, Learn(obs, found), base, size, cursor + used); }
    }
  }

  lemma {:induction false} WalkKeepsHarmless(
    known: set<nat>, st: St, m: bytes, size: nat, received: nat, displ: nat, left: nat, ipfix: bool, sequence: nat)
    requires Harmless(st.obs) && HarmlessSets(m, size, received, displ, left, ipfix)
    ensures var r := Sets(known, st, m, size, received, displ, left, ipfix, sequence);
            r.Some? && Harmless(r.value.0.obs)
    decreases left
  {
    hide Harmless, HarmlessSet, TemplateSet, DataSet;
    if left > 0 && displ < received {
      SetKeepsHarmless(known, st, m, size, displ, ipfix, sequence);
      var r := DissectSet(known, st, m, size, displ, ipfix, sequence);
      WalkKeepsHarmless(known, r.value.0, m, size, received, r.value.2, left - 1, ipfix, sequence);
    }
  }

  /** As long as no template, stored or arriving, has fields that are all empty, every packet is
      finished, and none is stored. */
  lemma HarmlessPacketEnds(known: set<nat>, st: St, m: bytes, received: nat)
    requires Harmless(st.obs)
    requires var w := WalkOf(m, received); HarmlessSets(m, w.size, received, w.start, w.sets, w.ipfix)
    ensures var r := Dissect(known, st, m, received);
            r.Some? && Harmless(r.value.0.obs)
  {
    hide Sets, Harmless, HarmlessSets;
    var w := WalkOf(m, received);
    WalkKeepsHarmless(known, st, m, w.size, received, w.start, w.sets, w.ipfix, w.sequence);
  }

  // ---------------------------------------------------------------- for instance

  /** A NetFlow v9 packet of 40 bytes: a template 256 of one field of length 0, and a data set
      under it. */
  const FREEZING: bytes := [
    0, 9, 0, 2, 0, 0, 0, 0, 0, 0, 0, 0, 0, 0, 0, 0, 0, 0, 0, 0,
    0, 0, 0, 12, 1, 0, 0, 1, 0, 1, 0, 0,
    1, 0, 0, 8, 0, 0, 0, 0]

  lemma FreezingBytes()
    ensures var m := FREEZING;
            && U16(m, 0) == 9 && U16(m, 2) == 2 && U32(m, 12) == 0
            && At(m, 20) == 0 && At(m, 21) == 0 && U16(m, 22) == 12
            && U16(m, 24) == 256 && U16(m, 26) == 1 && U16(m, 28) == 1 && U16(m, 30) == 0
            && At(m, 32) == 1 && U16(m, 32) == 256 && U16(m, 34) == 8
  {
    hide At;
    FreezingHeader();
    FreezingSequence();
    FreezingFirstSet();
    FreezingSecondSet();
  }

  lemma FreezingHeader()
    ensures var m := FREEZING;
            At(m, 0) == 0 && At(m, 1) == 9 && At(m, 2) == 0 && At(m, 3) == 2
  {
  }

  lemma FreezingSequence()
    ensures var m := FREEZING;
            At(m, 12) == 0 && At(m, 13) == 0 && At(m, 14) == 0 && At(m, 15) == 0
  {
  }

  lemma FreezingFirstSet()
    ensures var m := FREEZING;
            && At(m, 20) == 0 && At(m, 21) == 0 && At(m, 22) == 0 && At(m, 23) == 12
            && At(m, 24) == 1 && At(m, 25) == 0 && At(m, 26) == 0 && At(m, 27) == 1
            && At(m, 28) == 0 && At(m, 29) == 1 && At(m, 30) == 0 && At(m, 31) == 0
  {
  }

  lemma FreezingSecondSet()
    ensures var m := FREEZING;
            At(m, 32) == 1 && At(m, 33) == 0 && At(m, 34) == 0 && At(m, 35) == 8
  {
  }

  lemma FreezingTemplate(known: set<nat>, st: St)
    ensures TemplateSet(known, st, FREEZING, 20, 12, false)
            == St(Save(known, st.obs, 256, [(1, 0)], false), st.stats.(goodTemplates := st.stats.goodTemplates + 1))
  {
    hide At, U16, U32, Save;
    FreezingBytes();
    var m := FREEZING;
    assert TemplateFields(m, 24, 8, false, 8, 0) == FieldList([], 8);
    assert TemplateFields(m, 24, 8, false, 4, 1) == FieldList([(1, 0)], 8);
    assert FixedBytes([(1, 0)]) == 0 by { assert [(1, 0)][1..] == []; }
    assert FlowTemplate(m, 24, 8, false) == GoodTemplate(256, [(1, 0)], 8);
    var (st1, used) := FlowTemplateStep(known, st, m, 24, 8, false);
    assert TemplateLoop(known, st1, m, 20, 12, false, 12) == st1;
  }

  /** It freezes the worker of any collector, whatever its templates. */
  lemma FreezingFreezes(known: set<nat>, st: St)
    ensures Dissect(known, st, FREEZING, 40).None?
  {
    hide At, U16, U32, TemplateSet, DataSet, Sets;
    FreezingBytes();
    FreezingTemplate(known, st);
    var st1 := TemplateSet(known, st, FREEZING, 20, 12, false);
    assert StoredTemplate(known, [(1, 0)], false).fields[0].len == 0;
    assert Endless(st1, FREEZING, 40, 32, false);
    assert DissectSet(known, st, FREEZING, 40, 20, false, 0) == Some((st1, [], 32));
    assert FreezesAt(known, st1, FREEZING, 40, 40, 32, false, 0, 0);
    FreezeStopsWalk(known, st, FREEZING, 40, 40, 20, 2, false, 0, 1);
  }
}
