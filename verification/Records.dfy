/** Printing a flow record's fields into the line buffer (src/export.c,
    printNetflowRecordWithTemplate). */
module Records {
  import opened Bytes
  import opened Escaper
  import opened Printbuf

  const COMMA: byte := 44
  const COLON: byte := 58
  const OPEN_BRACE: byte := 123
  const CLOSE_BRACE: byte := 125

  // ---------------------------------------------------------------- templates and fields

  /** What an export function appends for a field's bytes, and the flow cache it leaves; it
      returns the length of what it appended. */
  type Export<!C> = (bytes, C) -> (bytes, C)

  /** A template element: its JSON name, whether its value is quoted, its export function if
      any, and the elements derived from the same field. */
  datatype Element<!C> = Element(name: bytes, quote: bool, export_fn: Option<Export<C>>, children: seq<Element<C>>)

  /** A field that has a value. */
  datatype Field = Field(name: bytes, quote: bool, text: bytes)

  function OwnText<C>(e: Element<C>, field: bytes, cache: C): (bytes, C) {
    match e.export_fn
    case None => ([], cache)
    case Some(f) => f(field, cache)
  }

  /** The fields an element and those derived from it give, in pre-order, without the empty
      ones; and the flow cache they leave. */
  function Fields<C>(e: Element<C>, field: bytes, cache: C): (seq<Field>, C)
    decreases e, |e.children| + 1
  {
    var (text, after) := OwnText(e, field, cache);
    var (more, last) := ChildFields(e, 0, field, after);
    ((if text == [] then [] else [Field(e.name, e.quote, text)]) + more, last)
  }

  function ChildFields<C>(e: Element<C>, i: nat, field: bytes, cache: C): (seq<Field>, C)
    requires i <= |e.children|
    decreases e, |e.children| - i
  {
    if i == |e.children| then ([], cache)
    else
      var (first, after) := Fields(e.children[i], field, cache);
      var (more, last) := ChildFields(e, i + 1, field, after);
      (first + more, last)
  }

  // ---------------------------------------------------------------- in one list

  /** An element and all those derived from it, each ahead of its own. */
  function Nodes<C>(e: Element<C>): seq<Element<C>>
    decreases e, |e.children| + 1
  {
    [e] + ChildNodes(e, 0)
  }

  function ChildNodes<C>(e: Element<C>, i: nat): seq<Element<C>>
    requires i <= |e.children|
    decreases e, |e.children| - i
  {
    if i == |e.children| then [] else Nodes(e.children[i]) + ChildNodes(e, i + 1)
  }

  /** The elements, each to be printed for the same bytes. */
  function Jobs<C>(elements: seq<Element<C>>, field: bytes): seq<(Element<C>, bytes)> {
    if elements == [] then [] else [(elements[0], field)] + Jobs(elements[1..], field)
  }

  /** Elements printed one after another: each export function gets its bytes and the flow cache
      that the one before it left, and what it appends, if anything, is the element's value. */
  function OneByOne<C>(jobs: seq<(Element<C>, bytes)>, cache: C): (seq<Field>, C) {
    if jobs == [] then ([], cache)
    else
      var (e, field) := jobs[|jobs| - 1];
      var (fields, before) := OneByOne(jobs[..|jobs| - 1], cache);
      match e.export_fn
      case None => (fields, before)
      case Some(f) =>
        var (text, after) := f(field, before);
        (if text == [] then fields else fields + [Field(e.name, e.quote, text)], after)
  }

  lemma {:induction false} OneByOneConcat<C>(a: seq<(Element<C>, bytes)>, b: seq<(Element<C>, bytes)>, cache: C)
    ensures var (fields, between) := OneByOne(a, cache);
            var (more, after) := OneByOne(b, between);
            OneByOne(a + b, cache) == (fields + more, after)
    decreases |b|
  {
    if b == [] {
      assert a + b == a;
      assert OneByOne(a, cache).0 + [] == OneByOne(a, cache).0;
    } else {
      OneByOneConcat(a, b[..|b| - 1], cache);
      var all := a + b;
      assert all[..|all| - 1] == a + b[..|b| - 1] && all[|all| - 1] == b[|b| - 1];
      var (fields, between) := OneByOne(a, cache);
      var (more, before) := OneByOne(b[..|b| - 1], between);
      var (e, field) := b[|b| - 1];
      if e.export_fn.Some? {
        var f := Field(e.name, e.quote, e.export_fn.value(field, before).0);
        assert (fields + more) + [f] == fields + (more + [f]);
      }
    }
  }

  lemma {:induction false} JobsConcat<C>(a: seq<Element<C>>, b: seq<Element<C>>, field: bytes)
    ensures Jobs(a + b, field) == Jobs(a, field) + Jobs(b, field)
    decreases |a|
  {
    if a == [] {
      assert a + b == b;
    } else {
      assert (a + b)[1..] == a[1..] + b;
      JobsConcat(a[1..], b, field);
    }
  }

  lemma OneJob<C>(e: Element<C>, field: bytes, cache: C)
    ensures var (text, after) := OwnText(e, field, cache);
            OneByOne(Jobs([e], field), cache) == (if text == [] then [] else [Field(e.name, e.quote, text)], after)
  {
    assert [e][1..] == [];
    assert Jobs([e][1..], field) == [];
    var jobs := [(e, field)];
    assert Jobs([e], field) == jobs && jobs[..0] == [];
    assert OneByOne(jobs[..0], cache) == ([], cache);
    var text := OwnText(e, field, cache).0;
    assert [] + [Field(e.name, e.quote, text)] == [Field(e.name, e.quote, text)];
  }

  /** The fields of a tree of elements are those of its elements in pre-order, printed one after
      another for the same bytes. */
  lemma {:induction false} FieldsInOrder<C>(e: Element<C>, field: bytes, cache: C)
    ensures Fields(e, field, cache) == OneByOne(Jobs(Nodes(e), field), cache)
    decreases e, |e.children| + 1
  {
    hide OneByOne, Jobs, OwnText;
    var (text, after) := OwnText(e, field, cache);
    OneJob(e, field, cache);
    ChildFieldsInOrder(e, 0, field, after);
    JobsConcat([e], ChildNodes(e, 0), field);
    OneByOneConcat(Jobs([e], field), Jobs(ChildNodes(e, 0), field), cache);
  }

  lemma {:induction false} ChildFieldsInOrder<C>(e: Element<C>, i: nat, field: bytes, cache: C)
    requires i <= |e.children|
    ensures ChildFields(e, i, field, cache) == OneByOne(Jobs(ChildNodes(e, i), field), cache)
    decreases e, |e.children| - i
  {
    hide Fields, Nodes;
    if i < |e.children| {
      hide OneByOne, Jobs;
      var after := Fields(e.children[i], field, cache).1;
      FieldsInOrder(e.children[i], field, cache);
      ChildFieldsInOrder(e, i + 1, field, after);
      JobsConcat(Nodes(e.children[i]), ChildNodes(e, i + 1), field);
      OneByOneConcat(Jobs(Nodes(e.children[i]), field), Jobs(ChildNodes(e, i + 1), field), cache);
    }
  }

  // ---------------------------------------------------------------- rendering

  function Header(name: bytes): bytes {
    [QUOTE] + name + [QUOTE, COLON]
  }

  function Quoted(quote: bool, text: bytes): bytes {
    if quote then [QUOTE] + text + [QUOTE] else text
  }

  function FieldText(f: Field): bytes {
    Header(f.name) + Quoted(f.quote, f.text)
  }

  /** As a C string the line is just an open brace. */
  predicate JustOpened(line: bytes) {
    line != [] && line[0] == OPEN_BRACE && (|line| == 1 || line[1] == 0)
  }

  function Separator(line: bytes): bytes {
    if JustOpened(line) then [] else [COMMA]
  }

  /** The line with each field added, a comma before it unless the line has just been opened. */
  function Joined(line: bytes, fields: seq<Field>): bytes
    decreases |fields|
  {
    if fields == [] then line
    else Joined(line + Separator(line) + FieldText(fields[0]), fields[1..])
  }

  lemma {:induction false} JoinedConcat(line: bytes, a: seq<Field>, b: seq<Field>)
    ensures Joined(line, a + b) == Joined(Joined(line, a), b)
    decreases |a|
  {
    hide Separator, FieldText;
    if a == [] {
      assert a + b == b;
    } else {
      assert (a + b)[1..] == a[1..] + b;
      JoinedConcat(line + Separator(line) + FieldText(a[0]), a[1..], b);
    }
  }

  // ---------------------------------------------------------------- the printer

  /** The line with all that comes before a field's value. */
  function Opened(line: bytes, name: bytes, quote: bool): bytes {
    var started := if JustOpened(line) then line else line + [COMMA];
    var headed := started + [QUOTE] + name + [QUOTE, COLON];
    if quote then headed + [QUOTE] else headed
  }

  /** How the capacity moves when that is appended piece by piece. */
  function OpenedRoom(r: Room, first: bool, name: bytes, quote: bool): Room {
    var started := if first then r else Appended(r, 1);
    var headed := Appended(Appended(Appended(started, 1), |name|), 2);
    if quote then Appended(headed, 1) else headed
  }

  /** The same for a whole field whose export function appends its text in one piece. */
  function FieldRoom(r: Room, first: bool, f: Field): Room {
    var filled := Appended(OpenedRoom(r, first, f.name, f.quote), |f.text|);
    if f.quote then Appended(filled, 1) else filled
  }

  method PrintHeader(p: Printbuf, name: bytes, quote: bool)
    requires p.Valid() && p.Terminated()
    modifies p, p.buf
    ensures p.RoomNow() == OpenedRoom(old(p.RoomNow()), JustOpened(old(p.Contents())), name, quote)
    ensures p.Valid() && p.Terminated() && p.SameOrMoved() && Lengthened(old(p.RoomNow()), p.RoomNow())
    ensures p.Contents() == Opened(old(p.Contents()), name, quote)
  {
    hide Appended, Grows, JustOpened, Lengthened, Stretched;
    ghost var r0 := p.RoomNow();
    if !JustOpened(p.buf[..p.bpos]) { p.MemAppendFast([COMMA]); } else { NotLengthened(r0); }
    ghost var r1 := p.RoomNow();
    p.MemAppendFast([QUOTE]);
    ghost var r2 := p.RoomNow();
    LengthenedTwice(r0, r1, r2);
    p.MemAppendFast(name);
    ghost var r3 := p.RoomNow();
    LengthenedTwice(r0, r2, r3);
    p.MemAppendFast([QUOTE, COLON]);
    ghost var r4 := p.RoomNow();
    LengthenedTwice(r0, r3, r4);
    if quote {
      p.MemAppendFast([QUOTE]);
      LengthenedTwice(r0, r4, p.RoomNow());
    }
  }

  /** Appends a field's header and value, and takes them back if the value is empty. */
  method PrintOwn<C>(p: Printbuf, e: Element<C>, field: bytes, cache: C) returns (valueRet: nat, after: C)
    requires p.Valid() && p.Terminated()
    modifies p, p.buf
    ensures p.Valid() && p.Terminated() && p.SameOrMoved() && Stretched(old(p.RoomNow()), p.RoomNow())
    ensures var (text, last) := OwnText(e, field, cache);
            && after == last
            && p.Contents() == Joined(old(p.Contents()), if text == [] then [] else [Field(e.name, e.quote, text)])
            && (text != [] ==>
                  && Lengthened(old(p.RoomNow()), p.RoomNow())
                  && p.RoomNow() == FieldRoom(old(p.RoomNow()), JustOpened(old(p.Contents())),
                                               Field(e.name, e.quote, text)))
            && valueRet == if text == [] then 0 else |Quoted(e.quote, text)|
  {
    hide JustOpened, Opened, OpenedRoom, Quoted, Joined, Appended, Grows, Lengthened, Stretched;
    ghost var line, r0 := p.Contents(), p.RoomNow();
    ghost var text := OwnText(e, field, cache).0;
    OneJoined(line, Field(e.name, e.quote, text));
    NothingJoined(line);
    var start := p.bpos;
    PrintHeader(p, e.name, e.quote);
    ghost var r1 := p.RoomNow();
    valueRet := 0;
    after := cache;
    if e.export_fn.Some? {
      var (value, last) := e.export_fn.value(field, cache);
      p.MemAppendFast(value);
      valueRet := |value|;
      after := last;
      LengthenedTwice(r0, r1, p.RoomNow());
    }
    ghost var r2 := p.RoomNow();
    if valueRet > 0 {
      if e.quote {
        valueRet := valueRet + 2;
        p.MemAppendFast([QUOTE]);
        LengthenedTwice(r0, r2, p.RoomNow());
      } else {
        LengthenedIsStretched(r0, r2);
      }
    } else {
      LengthenedThenCut(r0, r2);
      p.Truncate(start);
      OpenedExtends(line, e.name, e.quote);
    }
  }

  lemma OpenedExtends(line: bytes, name: bytes, quote: bool)
    ensures |line| <= |Opened(line, name, quote)|
    ensures Opened(line, name, quote)[..|line|] == line
  {
    hide JustOpened;
    var started := if JustOpened(line) then line else line + [COMMA];
    assert started[..|line|] == line;
    assert (started + [QUOTE] + name + [QUOTE, COLON])[..|line|] == started[..|line|];
  }

  lemma NothingJoined(line: bytes)
    ensures Joined(line, []) == line
  {
  }

  lemma OneJoined(line: bytes, f: Field)
    ensures var start := Opened(line, f.name, f.quote) + f.text;
            Joined(line, [f]) == if f.quote then start + [QUOTE] else start
    ensures |Quoted(f.quote, f.text)| == |f.text| + if f.quote then 2 else 0
  {
    hide JustOpened;
    assert [f][1..] == [];
    var started := if JustOpened(line) then line else line + [COMMA];
    assert started == line + Separator(line);
    assert Joined(line, [f]) == started + FieldText(f);
    assert started + FieldText(f) == started + [QUOTE] + f.name + [QUOTE, COLON] + Quoted(f.quote, f.text);
  }

  /** printNetflowRecordWithTemplate: the line gets the element's non-empty fields in
      pre-order, and empty ones leave no trace. */
  method PrintRecord<C>(p: Printbuf, e: Element<C>, field: bytes, cache: C) returns (valueRet: nat, after: C)
    requires p.Valid() && p.Terminated()
    modifies p, p.buf
    ensures p.Valid() && p.Terminated() && p.SameOrMoved() && Stretched(old(p.RoomNow()), p.RoomNow())
    ensures p.Contents() == Joined(old(p.Contents()), Fields(e, field, cache).0)
    ensures after == Fields(e, field, cache).1
    ensures var own := OwnField(e, field, cache);
            e.children == [] && own != [] ==>
              && Lengthened(old(p.RoomNow()), p.RoomNow())
              && p.RoomNow() == FieldRoom(old(p.RoomNow()), JustOpened(old(p.Contents())), own[0])
    ensures var text := OwnText(e, field, cache).0; valueRet == if text == [] then 0 else |Quoted(e.quote, text)|
    decreases e
  {
    hide Fields, ChildFields, Joined, JustOpened, FieldRoom, Quoted, Lengthened, Stretched;
    ghost var line, r0 := p.Contents(), p.RoomNow();
    ghost var own := OwnField(e, field, cache);
    valueRet, after := PrintOwn(p, e, field, cache);
    ghost var done: seq<Field> := [];
    FieldsBegin(e, field, cache, own);
    for i := 0 to |e.children|
      invariant p.Valid() && p.Terminated() && p.SameOrMoved() && Stretched(r0, p.RoomNow())
      invariant p.Contents() == Joined(line, own + done)
      invariant Fields(e, field, cache)
                  == (own + done + ChildFields(e, i, field, after).0, ChildFields(e, i, field, after).1)
      invariant i == 0 && own != [] ==>
                  Lengthened(r0, p.RoomNow()) && p.RoomNow() == FieldRoom(r0, JustOpened(line), own[0])
    {
      ghost var first, before, r1 := Fields(e.children[i], field, after).0, after, p.RoomNow();
      var _, next := PrintRecord(p, e.children[i], field, after);
      after := next;
      StretchedTwice(r0, r1, p.RoomNow());
      JoinedConcat(line, own + done, first);
      FieldsGoOn(e, i, field, before, own, done);
      done := done + first;
    }
    FieldsEnd(e, field, after, own + done);
  }

  ghost function OwnField<C>(e: Element<C>, field: bytes, cache: C): seq<Field> {
    var text := OwnText(e, field, cache).0;
    if text == [] then [] else [Field(e.name, e.quote, text)]
  }

  lemma FieldsBegin<C>(e: Element<C>, field: bytes, cache: C, own: seq<Field>)
    requires own == OwnField(e, field, cache)
    ensures var after := OwnText(e, field, cache).1;
            Fields(e, field, cache) == (own + [] + ChildFields(e, 0, field, after).0, ChildFields(e, 0, field, after).1)
    ensures own + [] == own
  {
    hide ChildFields;
    assert own + [] == own;
  }

  lemma FieldsGoOn<C>(e: Element<C>, i: nat, field: bytes, cache: C, own: seq<Field>, done: seq<Field>)
    requires i < |e.children|
    ensures var (first, after) := Fields(e.children[i], field, cache);
            && own + done + ChildFields(e, i, field, cache).0
                 == own + (done + first) + ChildFields(e, i + 1, field, after).0
            && ChildFields(e, i, field, cache).1 == ChildFields(e, i + 1, field, after).1
            && own + done + first == own + (done + first)
  {
    hide Fields;
    var (first, after) := Fields(e.children[i], field, cache);
    assert own + done + (first + ChildFields(e, i + 1, field, after).0)
      == own + (done + first) + ChildFields(e, i + 1, field, after).0;
  }

  lemma FieldsEnd<C>(e: Element<C>, field: bytes, cache: C, done: seq<Field>)
    ensures (done + ChildFields(e, |e.children|, field, cache).0, ChildFields(e, |e.children|, field, cache).1)
              == (done, cache)
  {
    assert done + [] == done;
  }

  // ---------------------------------------------------------------- what the line looks like

  /** Fields separated by commas. */
  function Commas(fields: seq<Field>): bytes {
    if fields == [] then []
    else if |fields| == 1 then FieldText(fields[0])
    else FieldText(fields[0]) + [COMMA] + Commas(fields[1..])
  }

  /** A line that has more than its brace gets a comma before every field. */
  lemma {:induction false} JoinedMore(line: bytes, fields: seq<Field>)
    requires !JustOpened(line)
    ensures Joined(line, fields) == if fields == [] then line else line + [COMMA] + Commas(fields)
    decreases |fields|
  {
    hide FieldText;
    if fields != [] {
      var next := line + Separator(line) + FieldText(fields[0]);
      assert next[0] == if line == [] then COMMA else line[0];
      assert |line| > 0 ==> next[1] == if |line| == 1 then COMMA else line[1];
      JoinedMore(next, fields[1..]);
    }
  }

  /** The line is looked at as a C string: behind a brace and a zero byte a field gets no comma
      either. */
  lemma JoinedPastZero(rest: bytes, f: Field)
    ensures Joined([OPEN_BRACE, 0] + rest, [f]) == [OPEN_BRACE, 0] + rest + FieldText(f)
  {
    hide FieldText;
    var line := [OPEN_BRACE, 0] + rest;
    assert line[0] == OPEN_BRACE && line[1] == 0 && [f][1..] == [];
    assert line + [] + FieldText(f) == line + FieldText(f);
  }

  /** A line that is just opened gets the fields with commas between them. */
  lemma JoinedFirst(fields: seq<Field>)
    ensures Joined([OPEN_BRACE], fields) == [OPEN_BRACE] + Commas(fields)
  {
    if fields != [] {
      var line := [OPEN_BRACE];
      var next := line + Separator(line) + FieldText(fields[0]);
      assert next == line + FieldText(fields[0]);
      assert next[1] == QUOTE;
      JoinedMore(next, fields[1..]);
      assert |fields| == 1 ==> fields[1..] == [];
    }
  }
}
