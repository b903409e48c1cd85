/** Reading lines as JSON objects (sections 4, 6 and 7 of RFC 8259), and why every line the
    field printer writes is one. */
module Json {
  import opened Bytes
  import opened Escaper
  import opened Numbers
  import opened Printbuf
  import opened Records

  // ---------------------------------------------------------------- the reader

  datatype Value = Text(s: bytes) | Number(n: int)

  /** A string body up to its closing quote: what it stands for, and the rest. */
  function ReadBody(t: bytes): Option<(bytes, bytes)> {
    match BodyLength(t)
    case None => None
    case Some(n) =>
      if n < |t| && NoControls(t[..n]) && Unescape(t[..n]).Some? then Some((Unescape(t[..n]).value, t[n + 1..]))
      else None
  }

  function ReadString(t: bytes): Option<(bytes, bytes)> {
    if t == [] || t[0] != QUOTE then None else ReadBody(t[1..])
  }

  /** The bytes an integer can be made of. */
  predicate InNumber(b: byte) {
    b == MINUS || IsDigit(b)
  }

  function NumberRun(t: bytes): (n: nat)
    ensures n <= |t|
  {
    if t == [] || !InNumber(t[0]) then 0 else 1 + NumberRun(t[1..])
  }

  function ReadNumber(t: bytes): Option<(int, bytes)> {
    var n := NumberRun(t);
    if IsInteger(t[..n]) then Some((ReadInteger(t[..n]), t[n..])) else None
  }

  function ReadValue(t: bytes): Option<(Value, bytes)> {
    if t != [] && t[0] == QUOTE then
      match ReadString(t)
      case None => None
      case Some((s, rest)) => Some((Text(s), rest))
    else
      match ReadNumber(t)
      case None => None
      case Some((n, rest)) => Some((Number(n), rest))
  }

  function ReadMember(t: bytes): Option<((bytes, Value), bytes)> {
    match ReadString(t)
    case None => None
    case Some((name, rest)) =>
      if rest == [] || rest[0] != Records.COLON then None
      else
        match ReadValue(rest[1..])
        case None => None
        case Some((v, end)) => Some(((name, v), end))
  }

  /** One or more members with commas between them, and the closing brace at the very end. */
  function ReadMembers(t: bytes): Option<seq<(bytes, Value)>>
    decreases |t|
  {
    match ReadMember(t)
    case None => None
    case Some((m, rest)) =>
      if rest == [CLOSE_BRACE] then Some([m])
      else if rest != [] && rest[0] == COMMA && |rest| <= |t| then
        match ReadMembers(rest[1..])
        case None => None
        case Some(more) => Some([m] + more)
      else None
  }

  function ReadObject(t: bytes): Option<seq<(bytes, Value)>> {
    if t == [] || t[0] != OPEN_BRACE then None
    else if t[1..] == [CLOSE_BRACE] then Some([])
    else ReadMembers(t[1..])
  }

  // ---------------------------------------------------------------- well-formed values

  /** A string body that stands for something. */
  predicate GoodBody(t: bytes) {
    NoControls(t) && Unescape(t).Some?
  }

  /** A field whose name and quoted text are escaped, and whose bare text is an integer. */
  predicate WellFormed(f: Field) {
    GoodBody(f.name) && if f.quote then GoodBody(f.text) else IsInteger(f.text)
  }

  ghost predicate AllWellFormed(fields: seq<Field>) {
    forall i | 0 <= i < |fields| :: WellFormed(fields[i])
  }

  function Meaning(f: Field): (bytes, Value)
    requires WellFormed(f)
  {
    (Unescape(f.name).value, if f.quote then Text(Unescape(f.text).value) else Number(ReadInteger(f.text)))
  }

  function Meanings(fields: seq<Field>): seq<(bytes, Value)>
    requires AllWellFormed(fields)
  {
    if fields == [] then [] else [Meaning(fields[0])] + Meanings(fields[1..])
  }

  lemma {:induction false} MeaningsConcat(a: seq<Field>, b: seq<Field>)
    requires AllWellFormed(a) && AllWellFormed(b)
    ensures AllWellFormed(a + b) && Meanings(a + b) == Meanings(a) + Meanings(b)
    decreases |a|
  {
    hide WellFormed, Meaning;
    if a == [] {
      assert a + b == b;
    } else {
      assert (a + b)[1..] == a[1..] + b;
      MeaningsConcat(a[1..], b);
    }
  }

  /** Escaped text is a good body unless the input has a control character without a letter;
      printed numbers are integers. */
  lemma EscapedIsGood(s: bytes)
    ensures GoodBody(Escape(s)) <==> OnlyNamedControls(s)
  {
    EscapeReadsBack(s);
    ControlsPassThrough(s);
  }

  // ---------------------------------------------------------------- reading back what was printed

  lemma ReadsBody(t: bytes, rest: bytes)
    requires GoodBody(t)
    ensures ReadBody(t + [QUOTE] + rest) == Some((Unescape(t).value, rest))
  {
    hide Unescape, BodyLength, NoControls;
    BodyEndsAtQuote(t, rest);
    var u := t + [QUOTE] + rest;
    assert u[..|t|] == t && u[|t| + 1..] == rest;
  }

  lemma {:induction false} NumberRunStops(t: bytes, rest: bytes)
    requires (forall i | 0 <= i < |t| :: InNumber(t[i])) && (rest != [] ==> !InNumber(rest[0]))
    ensures NumberRun(t + rest) == |t|
  {
    if t == [] {
      assert t + rest == rest;
    } else {
      assert (t + rest)[1..] == t[1..] + rest;
      NumberRunStops(t[1..], rest);
    }
  }

  lemma ReadsNumber(t: bytes, rest: bytes)
    requires IsInteger(t) && (rest != [] ==> !InNumber(rest[0]))
    ensures ReadNumber(t + rest) == Some((ReadInteger(t), rest))
  {
    hide ReadInteger;
    var u := if t != [] && t[0] == MINUS then t[1..] else t;
    forall i | 0 <= i < |t| ensures InNumber(t[i]) {
      if u != t && i > 0 { assert t[i] == u[i - 1]; }
      if u == t { assert t[i] == u[i]; }
    }
    NumberRunStops(t, rest);
    assert (t + rest)[..|t|] == t && (t + rest)[|t|..] == rest;
  }

  lemma ReadsValue(f: Field, rest: bytes)
    requires WellFormed(f) && (rest != [] ==> !InNumber(rest[0]))
    ensures ReadValue(Quoted(f.quote, f.text) + rest) == Some((Meaning(f).1, rest))
  {
    hide ReadNumber, ReadBody, Unescape, NoControls, ReadInteger;
    var t := Quoted(f.quote, f.text) + rest;
    if f.quote {
      assert t[1..] == f.text + [QUOTE] + rest;
      ReadsBody(f.text, rest);
    } else {
      assert t[0] == f.text[0] && f.text[0] != QUOTE;
      ReadsNumber(f.text, rest);
    }
  }

  lemma ReadsMember(f: Field, rest: bytes)
    requires WellFormed(f) && (rest != [] ==> !InNumber(rest[0]))
    ensures ReadMember(FieldText(f) + rest) == Some((Meaning(f), rest))
  {
    hide ReadBody, ReadValue, Unescape, Quoted, GoodBody;
    var t := FieldText(f) + rest;
    var tail := Quoted(f.quote, f.text) + rest;
    assert t[1..] == f.name + [QUOTE] + ([Records.COLON] + tail);
    ReadsBody(f.name, [Records.COLON] + tail);
    assert ([Records.COLON] + tail)[1..] == tail;
    ReadsValue(f, rest);
  }

  lemma {:induction false} ReadsMembers(fields: seq<Field>)
    requires fields != [] && AllWellFormed(fields)
    ensures ReadMembers(Commas(fields) + [CLOSE_BRACE]) == Some(Meanings(fields))
    decreases |fields|
  {
    hide ReadMember, FieldText, Meaning, WellFormed;
    var t := Commas(fields) + [CLOSE_BRACE];
    if |fields| == 1 {
      ReadsMember(fields[0], [CLOSE_BRACE]);
      assert fields[1..] == [] && [Meaning(fields[0])] + [] == [Meaning(fields[0])];
    } else {
      var rest := [COMMA] + (Commas(fields[1..]) + [CLOSE_BRACE]);
      assert t == FieldText(fields[0]) + rest;
      ReadsMember(fields[0], rest);
      assert rest[1..] == Commas(fields[1..]) + [CLOSE_BRACE];
      ReadsMembers(fields[1..]);
    }
  }

  // ---------------------------------------------------------------- whole lines

  /** One call of the field printer: an element, and the bytes of the field. */
  datatype Call<!C> = Call(element: Element<C>, field: bytes)

  /** The fields a series of calls gives. */
  function AllFields<C>(calls: seq<Call<C>>, cache: C): seq<Field> {
    if calls == [] then []
    else
      var (first, after) := Fields(calls[0].element, calls[0].field, cache);
      first + AllFields(calls[1..], after)
  }

  /** All elements of all calls, in the order in which they are printed. */
  function AllJobs<C>(calls: seq<Call<C>>): seq<(Element<C>, bytes)> {
    if calls == [] then [] else Jobs(Nodes(calls[0].element), calls[0].field) + AllJobs(calls[1..])
  }

  /** The fields of a line are those of all elements of all calls, one after another, with one
      flow cache handed on throughout. */
  lemma {:induction false} AllFieldsInOrder<C>(calls: seq<Call<C>>, cache: C)
    ensures AllFields(calls, cache) == OneByOne(AllJobs(calls), cache).0
    decreases |calls|
  {
    hide Fields, Jobs, Nodes;
    if calls != [] {
      hide OneByOne;
      var after := Fields(calls[0].element, calls[0].field, cache).1;
      FieldsInOrder(calls[0].element, calls[0].field, cache);
      AllFieldsInOrder(calls[1..], after);
      OneByOneConcat(Jobs(Nodes(calls[0].element), calls[0].field), AllJobs(calls[1..]), cache);
    }
  }

  /** Opens a line, prints a series of fields, and closes it (src/collect.c). */
  method PrintLine<C>(p: Printbuf, calls: seq<Call<C>>, cache: C) returns (after: C)
    requires p.Valid() && p.Contents() == []
    modifies p, p.buf
    ensures p.Valid() && p.Terminated()
    ensures p.Contents() == [OPEN_BRACE] + Commas(AllFields(calls, cache)) + [CLOSE_BRACE]
  {
    hide Fields, AllFields, Commas, Joined, JustOpened, FieldRoom, OwnField, OwnText, Quoted, Stretched, Lengthened,
      Appended, Grows;
    after := cache;
    p.MemAppendFast([OPEN_BRACE]);
    ghost var done: seq<Field> := [];
    LineBegins(calls, cache);
    for i := 0 to |calls|
      invariant p.Valid() && p.Terminated() && (p.buf == old(p.buf) || fresh(p.buf))
      invariant p.Contents() == Joined([OPEN_BRACE], done)
      invariant done + AllFields(calls[i..], after) == AllFields(calls, cache)
    {
      ghost var first := Fields(calls[i].element, calls[i].field, after).0;
      JoinedConcat([OPEN_BRACE], done, first);
      LineGoesOn(calls, i, after, done);
      var _, next := PrintRecord(p, calls[i].element, calls[i].field, after);
      after := next;
      done := done + first;
    }
    LineEnds(calls[|calls|..], after, done);
    JoinedFirst(done);
    p.MemAppendFast([CLOSE_BRACE]);
  }

  lemma LineBegins<C>(calls: seq<Call<C>>, cache: C)
    ensures [] + AllFields(calls[0..], cache) == AllFields(calls, cache)
    ensures Joined([OPEN_BRACE], []) == [OPEN_BRACE]
  {
    assert calls[0..] == calls;
  }

  lemma LineGoesOn<C>(calls: seq<Call<C>>, i: nat, cache: C, done: seq<Field>)
    requires i < |calls|
    ensures var (first, next) := Fields(calls[i].element, calls[i].field, cache);
            done + AllFields(calls[i..], cache) == (done + first) + AllFields(calls[i + 1..], next)
  {
    hide Fields;
    assert calls[i..][1..] == calls[i + 1..];
  }

  lemma LineEnds<C>(calls: seq<Call<C>>, cache: C, done: seq<Field>)
    requires calls == []
    ensures done + AllFields(calls, cache) == done
  {
  }

  /** Every line whose fields are well formed is a JSON object of exactly those fields. */
  lemma LineIsObject<C>(calls: seq<Call<C>>, cache: C)
    requires AllWellFormed(AllFields(calls, cache))
    ensures ReadObject([OPEN_BRACE] + Commas(AllFields(calls, cache)) + [CLOSE_BRACE])
              == Some(Meanings(AllFields(calls, cache)))
  {
    ObjectReadsBack(AllFields(calls, cache));
  }

  lemma ObjectReadsBack(fields: seq<Field>)
    requires AllWellFormed(fields)
    ensures ReadObject([OPEN_BRACE] + Commas(fields) + [CLOSE_BRACE]) == Some(Meanings(fields))
  {
    hide ReadMembers, FieldText;
    var t := [OPEN_BRACE] + Commas(fields) + [CLOSE_BRACE];
    assert t[1..] == Commas(fields) + [CLOSE_BRACE];
    if fields != [] {
      ReadsMembers(fields);
      CommasBegin(fields);
    }
  }

  lemma CommasBegin(fields: seq<Field>)
    requires fields != []
    ensures Commas(fields) != [] && Commas(fields)[0] == QUOTE
  {
  }
}
