/** Splitting a long flow into one line per interval (src/export.c,
    rb_separate_long_time_flow). */
module Splitter {
  import opened Bits
  import opened Bytes
  import opened Escaper
  import opened Json
  import opened Numbers
  import opened Printbuf
  import opened Records
  import opened Wire

  const TWO_32: nat := 0x1_0000_0000

  // ---------------------------------------------------------------- the plan

  /** What the caller asks for, with the shares of the first interval as the floating point
      division gives them. */
  datatype Request = Request(
    first: nat, switched: nat, interval: nat, maxIntervals: nat, bytes: nat, pkts: nat, byteShare: nat, pktShare: nat)

  /** Full slices planned, in 32 bits; a plan beyond the limit becomes one less than the limit. */
  function Planned(q: Request): (n: nat)
    requires q.interval > 0
    ensures n < TWO_32
  {
    var n := q.switched / q.interval % TWO_32;
    if n > q.maxIntervals then (if q.maxIntervals == 0 then TWO_64 - 1 else q.maxIntervals - 1) % TWO_32 else n
  }

  /** A duration that is an exact multiple loses one second, so as not to leave an empty slice. */
  function Shortened(q: Request): (d: nat)
    requires q.interval > 0
    ensures d <= q.switched
  {
    if q.switched > 0 && q.switched % q.interval == 0 then q.switched - 1 else q.switched
  }

  /** Full slices that come out. */
  function Emitted(q: Request): nat
    requires q.interval > 0
  {
    Shortened(q) / q.interval
  }

  function PerSlice(total: nat, share: nat, n: nat): nat
    requires share <= total
  {
    if n > 0 then (total - share) / n else 0
  }

  /** The final slice's amount: the share, and what the planned slices leave over. */
  function FinalAmount(total: nat, share: nat, n: nat): nat
    requires share <= total
  {
    NothingOwed(total, share, n);
    share + (total - share - PerSlice(total, share, n) * n)
  }

  lemma NothingOwed(total: nat, share: nat, n: nat)
    requires share <= total
    ensures PerSlice(total, share, n) * n <= total - share
  {
  }

  /** The share of an interval that is the whole flow is everything, and that of an empty
      interval nothing. */
  predicate ShareOf(q: Request, total: nat, share: nat)
    requires q.interval > 0
  {
    && share <= total
    && (Shortened(q) < q.interval ==> share == total)
    && (Shortened(q) > 0 && Shortened(q) % q.interval == 0 ==> share == 0)
  }

  /** 64-bit quantities whose times do not wrap around. */
  predicate Valid(q: Request) {
    && q.interval > 0 && q.maxIntervals < TWO_64 && q.bytes < TWO_64 && q.pkts < TWO_64
    && q.first + q.switched + q.interval < TWO_64
    && ShareOf(q, q.bytes, q.byteShare) && ShareOf(q, q.pkts, q.pktShare)
  }

  // ---------------------------------------------------------------- accounting

  /** What slice `i` gets of a total, the final slice being the last one. */
  function SliceAmount(q: Request, total: nat, share: nat, i: nat): nat
    requires q.interval > 0 && share <= total
  {
    if i < Emitted(q) then PerSlice(total, share, Planned(q)) else FinalAmount(total, share, Planned(q))
  }

  /** What the first `k` slices get together. */
  function SlicesTotal(q: Request, total: nat, share: nat, k: nat): nat
    requires q.interval > 0 && share <= total
  {
    if k == 0 then 0 else SlicesTotal(q, total, share, k - 1) + SliceAmount(q, total, share, k - 1)
  }

  lemma {:induction false} FullSlicesTotal(q: Request, total: nat, share: nat, k: nat)
    requires q.interval > 0 && share <= total && k <= Emitted(q)
    ensures SlicesTotal(q, total, share, k) == k * PerSlice(total, share, Planned(q))
  {
    hide PerSlice, Planned, Emitted;
    if k > 0 {
      FullSlicesTotal(q, total, share, k - 1);
      assert k * PerSlice(total, share, Planned(q))
        == (k - 1) * PerSlice(total, share, Planned(q)) + PerSlice(total, share, Planned(q));
    }
  }

  /** All slices together get the total, plus one full slice for every slice emitted beyond
      the plan and minus one for every slice planned but not emitted. */
  lemma SplitTotal(q: Request, total: nat, share: nat)
    requires q.interval > 0 && share <= total
    ensures SlicesTotal(q, total, share, Emitted(q) + 1)
            == total + (Emitted(q) - Planned(q)) * PerSlice(total, share, Planned(q))
  {
    hide PerSlice, Planned, Emitted;
    FullSlicesTotal(q, total, share, Emitted(q));
    NothingOwed(total, share, Planned(q));
    var m, n := Emitted(q), Planned(q);
    Distribute(m, n, PerSlice(total, share, n));
  }

  lemma Distribute(m: int, n: int, per: int)
    ensures (m - n) * per == m * per - n * per
  {
  }

  /** How many are planned and emitted: the same number, unless the limit cut the plan or the
      duration is an exact multiple, for which one more is planned. */
  lemma PlannedAndEmitted(q: Request)
    requires q.interval > 0 && q.switched / q.interval < TWO_32
    ensures q.switched / q.interval <= q.maxIntervals ==>
              Planned(q) == q.switched / q.interval
                         == Emitted(q) + if q.switched > 0 && q.switched % q.interval == 0 then 1 else 0
    ensures q.switched / q.interval > q.maxIntervals > 0 ==>
              Planned(q) == q.maxIntervals - 1 && Emitted(q) >= q.maxIntervals
  {
    if q.switched > 0 && q.switched % q.interval == 0 { OneLess(q.switched, q.interval); }
  }

  lemma OneLess(d: nat, i: nat)
    requires i > 0 && d > 0 && d % i == 0
    ensures d / i > 0 && (d - 1) / i == d / i - 1
  {
    var k := d / i;
    assert d == i * k;
    assert k > 0;
    assert d - 1 == i * (k - 1) + (i - 1);
    Remainder(d - 1, i, k - 1, i - 1);
  }

  /** The total is conserved exactly when as many full slices come out as were planned or the
      full slices are empty. */
  lemma ConservedExactly(q: Request, total: nat, share: nat)
    requires q.interval > 0 && share <= total
    ensures SlicesTotal(q, total, share, Emitted(q) + 1) == total
            <==> Emitted(q) == Planned(q) || Planned(q) == 0 || total - share < Planned(q)
  {
    hide PerSlice, Planned, Emitted, SlicesTotal;
    SplitTotal(q, total, share);
    EmptySlices(total, share, Planned(q));
    ZeroProduct(Emitted(q) - Planned(q), PerSlice(total, share, Planned(q)));
  }

  lemma EmptySlices(total: nat, share: nat, n: nat)
    requires share <= total
    ensures PerSlice(total, share, n) == 0 <==> n == 0 || total - share < n
  {
  }

  lemma ZeroProduct(a: int, b: int)
    ensures a * b == 0 <==> a == 0 || b == 0
  {
  }

  /** So a flow within the limit is conserved unless it lasts an exact multiple of the interval,
      at least twice it, and has enough to share out. */
  lemma ConservedWithinLimit(q: Request, total: nat, share: nat)
    requires Valid(q) && ShareOf(q, total, share)
    requires q.switched / q.interval < TWO_32 && q.switched / q.interval <= q.maxIntervals
    ensures SlicesTotal(q, total, share, Emitted(q) + 1) == total
            <==> q.switched % q.interval != 0 || q.switched / q.interval < 2 || total - share < q.switched / q.interval
  {
    hide SlicesTotal, SliceAmount, PerSlice, Planned, Emitted, Shortened;
    PlannedAndEmitted(q);
    ConservedExactly(q, total, share);
    ShortFlow(q);
  }

  /** A flow within one interval is a single slice. */
  lemma ShortFlow(q: Request)
    requires q.interval > 0
    ensures Shortened(q) < q.interval <==> q.switched <= q.interval
    ensures q.switched > 0 && q.switched % q.interval == 0 ==>
              (q.switched <= q.interval <==> q.switched / q.interval < 2)
    ensures q.switched == 0 ==> q.switched % q.interval == 0 && q.switched / q.interval == 0
    ensures q.switched > 0 && q.switched % q.interval == 0 ==> q.switched / q.interval >= 1
  {
    var k := q.switched / q.interval;
    assert q.switched == q.interval * k + q.switched % q.interval;
    if q.switched % q.interval == 0 && k >= 2 { assert q.interval * k >= q.interval * 2; }
  }

  /** Two full minutes and 119 bytes, of which the division gives the first interval 58 or 59:
      30 bytes are lost. */
  lemma TwoMinutesLoseBytes(share: nat)
    requires share == 58 || share == 59
    ensures var q := Request(0, 120, 60, 60, 119, 0, share, 0);
            Valid(q) && SlicesTotal(q, q.bytes, q.byteShare, Emitted(q) + 1) == 89
  {
    var q := Request(0, 120, 60, 60, 119, 0, share, 0);
    assert Planned(q) == 2 && Shortened(q) == 119 && Emitted(q) == 1;
    SplitTotal(q, 119, share);
    assert PerSlice(119, share, 2) == 30;
  }

  /** Every full slice gets the same amount, as much as fits the planned number of times into what
      the first interval leaves; the final slice gets the rest. */
  lemma SlicesShare(q: Request, total: nat, share: nat, i: nat)
    requires q.interval > 0 && share <= total && i < Emitted(q)
    ensures var n, each := Planned(q), SliceAmount(q, total, share, i);
            && each == SliceAmount(q, total, share, 0)
            && (if n == 0 then each == 0 else n * each <= total - share < n * (each + 1))
            && SliceAmount(q, total, share, Emitted(q)) + n * each == total
  {
    hide Planned, Emitted;
    var n := Planned(q);
    NothingOwed(total, share, n);
    if n > 0 { Quotient(total - share, n); }
  }

  lemma Quotient(a: nat, n: nat)
    requires n > 0
    ensures n * (a / n) <= a < n * (a / n + 1)
  {
    assert a == n * (a / n) + a % n;
    assert n * (a / n + 1) == n * (a / n) + n;
  }

  /** A limit of zero wraps around: the plan becomes the largest number of 32 bits. */
  lemma NoLimit(q: Request)
    requires q.interval > 0 && q.maxIntervals == 0 && q.switched / q.interval % 0x1_0000_0000 > 0
    ensures Planned(q) == 0xffff_ffff
  {
  }

  // ---------------------------------------------------------------- timeline

  function SliceTime(q: Request, i: nat): nat {
    q.first + i * q.interval
  }

  /** The slices start one interval apart, within the flow, and the one after the final slice
      would start after its end. */
  lemma Timeline(q: Request, i: nat)
    requires q.interval > 0
    ensures SliceTime(q, i) <= q.first + Shortened(q) <==> i <= Emitted(q)
    ensures SliceTime(q, i) + q.interval > q.first + Shortened(q) <==> i >= Emitted(q)
  {
    hide Shortened;
    Multiples(Shortened(q), q.interval, i);
  }

  lemma Multiples(d: nat, k: nat, i: nat)
    requires k > 0
    ensures i * k <= d <==> i <= d / k
    ensures i * k + k > d <==> i >= d / k
  {
    var m := d / k;
    assert d == k * m + d % k;
    Increasing(i, m, k);
    Increasing(i + 1, m, k);
    Increasing(m + 1, i, k);
    Increasing(m, i, k);
    assert (i + 1) * k == i * k + k && (m + 1) * k == m * k + k;
  }

  // ---------------------------------------------------------------- the text of a slice

  const BYTES_NAME: bytes := [98, 121, 116, 101, 115]
  const PKTS_NAME: bytes := [112, 107, 116, 115]
  const TIMESTAMP_NAME: bytes := [116, 105, 109, 101, 115, 116, 97, 109, 112]

  /** An unquoted element printed by print_number, which prints its text in one piece. */
  function NumberElement(name: bytes): Element<()> {
    Element(name, false, Some((field: bytes, c: ()) => (Decimal(Signed(Net2Number(field))), c)), [])
  }

  function NumberField(name: bytes, value: nat): Field
    requires value < TWO_64
  {
    Field(name, false, Decimal(Signed(value)))
  }

  lemma PrintsNumber(name: bytes, value: nat)
    requires value < TWO_64
    ensures OwnField(NumberElement(name), Put64(value), ()) == [NumberField(name, value)]
    ensures Fields(NumberElement(name), Put64(value), ()).0 == [NumberField(name, value)]
  {
    Net2NumberInvertsPut64(value);
    var e := NumberElement(name);
    assert OwnText(e, Put64(value), ()) == (Decimal(Signed(value)), ());
    assert ChildFields(e, 0, Put64(value), ()) == ([], ());
    assert [NumberField(name, value)] + [] == [NumberField(name, value)];
  }

  /** Appends one number to a line. */
  method PrintNumber(p: Printbuf, name: bytes, value: nat)
    requires p.Valid() && p.Terminated() && value < TWO_64
    modifies p, p.buf
    ensures p.Valid() && p.Terminated() && p.SameOrMoved()
    ensures Lengthened(old(p.RoomNow()), p.RoomNow())
    ensures p.Contents() == Joined(old(p.Contents()), [NumberField(name, value)])
    ensures p.RoomNow() == FieldRoom(old(p.RoomNow()), JustOpened(old(p.Contents())), NumberField(name, value))
  {
    hide NumberElement, Fields, OwnField, Joined, FieldRoom, JustOpened, Lengthened, Stretched;
    PrintsNumber(name, value);
    NumberElementIsLeaf(name);
    var _, _ := PrintRecord(p, NumberElement(name), Put64(value), ());
  }

  lemma NumberElementIsLeaf(name: bytes)
    ensures NumberElement(name).children == []
  {
  }

  /** The part of a slice that the cached prefix holds. */
  function Useful(line: bytes, bytes_: nat, pkts: nat): bytes
    requires bytes_ < TWO_64 && pkts < TWO_64
  {
    Joined(Joined(line, [NumberField(BYTES_NAME, bytes_)]), [NumberField(PKTS_NAME, pkts)])
  }

  function Closed(useful: bytes, time: nat): bytes
    requires time < TWO_64
  {
    Joined(useful, [NumberField(TIMESTAMP_NAME, time)]) + [CLOSE_BRACE]
  }

  /** The amounts and the time of slice `i` all fit 64 bits. */
  lemma SliceFits(q: Request, i: nat)
    requires Valid(q) && i <= Emitted(q)
    ensures SliceAmount(q, q.bytes, q.byteShare, i) < TWO_64 && SliceAmount(q, q.pkts, q.pktShare, i) < TWO_64
    ensures SliceTime(q, i) < TWO_64
  {
    AmountFits(q.bytes, q.byteShare, Planned(q));
    AmountFits(q.pkts, q.pktShare, Planned(q));
    Timeline(q, i);
  }

  lemma AmountFits(total: nat, share: nat, n: nat)
    requires share <= total
    ensures PerSlice(total, share, n) <= total && FinalAmount(total, share, n) <= total
  {
    NothingOwed(total, share, n);
    if n > 0 { PerSliceSmall(total - share, n); }
  }

  lemma PerSliceSmall(rest: nat, n: nat)
    requires n > 0
    ensures rest / n <= rest
  {
    QuotientSmall(rest, n, rest / n, rest % n);
  }

  lemma QuotientSmall(rest: nat, n: nat, k: nat, r: nat)
    requires n > 0 && rest == n * k + r
    ensures k <= rest
  {
    Increasing(1, n, k);
  }

  /** The text of slice `i`, made from scratch. */
  function SliceText(q: Request, line: bytes, i: nat): bytes
    requires Valid(q) && i <= Emitted(q)
  {
    SliceFits(q, i);
    Closed(
      Useful(line, SliceAmount(q, q.bytes, q.byteShare, i), SliceAmount(q, q.pkts, q.pktShare, i)),
      SliceTime(q, i))
  }

  lemma {:induction false} PlainIsGood(name: bytes)
    requires Plain(name) && NoControls(name)
    ensures GoodBody(name) && Unescape(name) == Some(name)
  {
    assert name + [] == name;
    UnescapePlain(name, []);
  }

  lemma NumberFieldIsGood(name: bytes, value: nat)
    requires Plain(name) && NoControls(name) && value < TWO_64
    ensures WellFormed(NumberField(name, value))
    ensures Meaning(NumberField(name, value)) == (name, Number(Signed(value)))
  {
    hide Unescape, Decimal, IsInteger, ReadInteger;
    PlainIsGood(name);
    DecimalReadsBack(Signed(value));
  }

  /** The three fields slice `i` adds. */
  function SliceFields(q: Request, i: nat): seq<Field>
    requires Valid(q) && i <= Emitted(q)
  {
    SliceFits(q, i);
    [NumberField(BYTES_NAME, SliceAmount(q, q.bytes, q.byteShare, i)),
     NumberField(PKTS_NAME, SliceAmount(q, q.pkts, q.pktShare, i)),
     NumberField(TIMESTAMP_NAME, SliceTime(q, i))]
  }

  lemma SliceAddsFields(q: Request, fields: seq<Field>, i: nat)
    requires Valid(q) && i <= Emitted(q)
    ensures SliceText(q, Joined([OPEN_BRACE], fields), i)
              == [OPEN_BRACE] + Commas(fields + SliceFields(q, i)) + [CLOSE_BRACE]
  {
    hide Joined, Commas, NumberField, SliceAmount, SliceTime;
    SliceFits(q, i);
    var added := SliceFields(q, i);
    var line := Joined([OPEN_BRACE], fields);
    JoinedConcat(Joined(line, [added[0]]), [added[1]], [added[2]]);
    JoinedConcat(line, [added[0]], [added[1]] + [added[2]]);
    assert [added[0]] + ([added[1]] + [added[2]]) == added;
    JoinedConcat([OPEN_BRACE], fields, added);
    JoinedFirst(fields + added);
  }

  /** Every slice of a well-formed record is a JSON object: the record's own fields, and the
      slice's bytes, packets and time. */
  lemma SliceIsObject(q: Request, fields: seq<Field>, i: nat)
    requires Valid(q) && i <= Emitted(q) && AllWellFormed(fields)
    ensures SliceAmount(q, q.bytes, q.byteShare, i) < TWO_64 && SliceAmount(q, q.pkts, q.pktShare, i) < TWO_64
    ensures SliceTime(q, i) < TWO_64
    ensures ReadObject(SliceText(q, Joined([OPEN_BRACE], fields), i))
            == Some(Meanings(fields) + [(BYTES_NAME, Number(Signed(SliceAmount(q, q.bytes, q.byteShare, i)))),
                                        (PKTS_NAME, Number(Signed(SliceAmount(q, q.pkts, q.pktShare, i)))),
                                        (TIMESTAMP_NAME, Number(Signed(SliceTime(q, i))))])
  {
    hide SliceText, SliceAmount, SliceTime, NumberField, WellFormed, Meaning, Signed, Joined, ReadObject, Commas;
    SliceFits(q, i);
    SliceAddsFields(q, fields, i);
    NamesAreGood();
    NumberFieldIsGood(BYTES_NAME, SliceAmount(q, q.bytes, q.byteShare, i));
    NumberFieldIsGood(PKTS_NAME, SliceAmount(q, q.pkts, q.pktShare, i));
    NumberFieldIsGood(TIMESTAMP_NAME, SliceTime(q, i));
    var added := SliceFields(q, i);
    ObjectReadsBack(fields + added);
    MeaningsConcat(fields, added);
    ThreeMeanings(added);
  }

  lemma NamesAreGood()
    ensures Plain(BYTES_NAME) && Plain(PKTS_NAME) && Plain(TIMESTAMP_NAME)
    ensures NoControls(BYTES_NAME) && NoControls(PKTS_NAME) && NoControls(TIMESTAMP_NAME)
  {
  }

  lemma ThreeMeanings(fields: seq<Field>)
    requires |fields| == 3 && AllWellFormed(fields)
    ensures Meanings(fields) == [Meaning(fields[0]), Meaning(fields[1]), Meaning(fields[2])]
  {
    hide Meaning, WellFormed;
    var two := fields[1..];
    assert two[1..][1..] == [];
    assert Meanings(two[1..]) == [Meaning(fields[2])];
    assert Meanings(two) == [Meaning(fields[1])] + Meanings(two[1..]);
  }

  // ---------------------------------------------------------------- the cached prefix

  /** The capacity of the first clone when its prefix is cached. */
  function CachedRoom(line: bytes, bytes_: nat, pkts: nat): Room
    requires bytes_ < TWO_64 && pkts < TWO_64
  {
    var b, k := NumberField(BYTES_NAME, bytes_), NumberField(PKTS_NAME, pkts);
    FieldRoom(FieldRoom(Appended(NEW_ROOM, |line|), JustOpened(line), b), JustOpened(Joined(line, [b])), k)
  }

  /** Finishing the first clone moves it: the cached pointer is to freed storage. */
  ghost predicate CacheMoves(q: Request, line: bytes)
    requires Valid(q)
  {
    SliceFits(q, 0);
    var b, k := SliceAmount(q, q.bytes, q.byteShare, 0), SliceAmount(q, q.pkts, q.pktShare, 0);
    |Closed(Useful(line, b, k), q.first)| >= CachedRoom(line, b, k).size
  }

  lemma {:induction false} JoinedExtends(line: bytes, fields: seq<Field>)
    ensures |line| <= |Joined(line, fields)| && Joined(line, fields)[..|line|] == line
    decreases |fields|
  {
    hide FieldText, Separator;
    if fields != [] {
      var next := line + Separator(line) + FieldText(fields[0]);
      JoinedExtends(next, fields[1..]);
      assert Joined(line, fields)[..|line|] == next[..|line|];
    }
  }

  lemma ClosedExtends(useful: bytes, time: nat)
    requires time < TWO_64
    ensures |useful| <= |Closed(useful, time)| && Closed(useful, time)[..|useful|] == useful
  {
    hide Joined, NumberField;
    JoinedExtends(useful, [NumberField(TIMESTAMP_NAME, time)]);
  }

  /** A capacity that is one of the two smallest, by the length alone. */
  ghost predicate Tight(r: Room) {
    r.peak == r.len && r.len < 2 * FIRST_SIZE && r.size == if r.len < FIRST_SIZE then FIRST_SIZE else 2 * FIRST_SIZE
  }

  lemma AppendedTight(r: Room, n: nat)
    requires Tight(r) && r.len + n < 2 * FIRST_SIZE && (r.len < FIRST_SIZE ==> r.len + n + 9 <= 2 * FIRST_SIZE)
    ensures Tight(Appended(r, n)) && Appended(r, n).len == r.len + n
  {
  }

  /** From `r` to `s` the capacity stays, or at least doubles. */
  ghost predicate Doubled(r: Room, s: Room) {
    Proportionate(s) && Lengthened(r, s) && (s.size == r.size || s.size >= 2 * r.size)
  }

  lemma AppendedDoubles(r: Room, n: nat)
    requires Proportionate(r)
    ensures Doubled(r, Appended(r, n)) && Appended(r, n).len == r.len + n
  {
  }

  lemma DoubledTwice(r: Room, s: Room, t: Room)
    requires Doubled(r, s) && Doubled(s, t)
    ensures Doubled(r, t)
  {
  }

  /** What an unquoted field adds to a line. */
  function FieldBytes(first: bool, f: Field): nat {
    (if first then 0 else 1) + |f.name| + 3 + |f.text|
  }

  lemma FieldRoomDoubles(r: Room, first: bool, f: Field)
    requires Proportionate(r) && !f.quote
    ensures Doubled(r, FieldRoom(r, first, f)) && FieldRoom(r, first, f).len == r.len + FieldBytes(first, f)
  {
    hide Appended, Doubled, Proportionate;
    AppendedDoubles(r, 0);
    NoDoubling(r);
    var r1 := if first then r else Appended(r, 1);
    AppendedDoubles(r, 1);
    DoubledIsProportionate(r, r1);
    var r2 := Appended(r1, 1);
    AppendedDoubles(r1, 1);
    DoubledTwice(r, r1, r2);
    DoubledIsProportionate(r, r2);
    var r3 := Appended(r2, |f.name|);
    AppendedDoubles(r2, |f.name|);
    DoubledTwice(r, r2, r3);
    DoubledIsProportionate(r, r3);
    var r4 := Appended(r3, 2);
    AppendedDoubles(r3, 2);
    DoubledTwice(r, r3, r4);
    DoubledIsProportionate(r, r4);
    AppendedDoubles(r4, |f.text|);
    DoubledTwice(r, r4, Appended(r4, |f.text|));
  }

  lemma NoDoubling(r: Room)
    requires Proportionate(r)
    ensures Doubled(r, r)
  {
  }

  lemma DoubledIsProportionate(r: Room, s: Room)
    requires Doubled(r, s)
    ensures Proportionate(s)
  {
  }

  lemma FieldRoomTight(r: Room, first: bool, f: Field)
    requires Tight(r) && !f.quote && |f.name| <= 20 && |f.text| <= 20 && r.len + FieldBytes(first, f) < 2 * FIRST_SIZE
    ensures Tight(FieldRoom(r, first, f)) && FieldRoom(r, first, f).len == r.len + FieldBytes(first, f)
  {
    hide Appended, Tight;
    var r1 := if first then r else Appended(r, 1);
    if !first { AppendedTight(r, 1); }
    AppendedTight(r1, 1);
    AppendedTight(Appended(r1, 1), |f.name|);
    AppendedTight(Appended(Appended(r1, 1), |f.name|), 2);
    AppendedTight(OpenedRoom(r, first, f.name, f.quote), |f.text|);
  }

  lemma NumberFieldSize(name: bytes, value: nat)
    requires value < TWO_64
    ensures 1 <= |NumberField(name, value).text| <= 20 && NumberField(name, value).name == name
              && !NumberField(name, value).quote
  {
    NineteenDigits();
    DigitsLength(Abs(Signed(value)), 19);
  }

  lemma NumberJoined(line: bytes, name: bytes, value: nat)
    requires value < TWO_64
    ensures |Joined(line, [NumberField(name, value)])|
              == |line| + FieldBytes(JustOpened(line), NumberField(name, value))
  {
    var f := NumberField(name, value);
    assert [f][1..] == [];
    assert Joined(line, [f]) == line + Separator(line) + FieldText(f) by { hide JustOpened, Decimal; }
  }

  /** The lengths of the pieces of a full slice. */
  lemma SliceLengths(line: bytes, bytes_: nat, pkts: nat, time: nat)
    requires bytes_ < TWO_64 && pkts < TWO_64 && time < TWO_64
    ensures |line| + 17 <= |Useful(line, bytes_, pkts)| <= |line| + 57
    ensures |Closed(Useful(line, bytes_, pkts), time)| <= |Useful(line, bytes_, pkts)| + 34
  {
    hide Joined, NumberField, JustOpened;
    NumberFieldSize(BYTES_NAME, bytes_);
    NumberFieldSize(PKTS_NAME, pkts);
    NumberFieldSize(TIMESTAMP_NAME, time);
    NumberJoined(line, BYTES_NAME, bytes_);
    NumberJoined(Joined(line, [NumberField(BYTES_NAME, bytes_)]), PKTS_NAME, pkts);
    NumberJoined(Useful(line, bytes_, pkts), TIMESTAMP_NAME, time);
  }

  /** The capacity when the prefix is cached: one of the two smallest for a useful part below the
      second, and otherwise at least doubled past what the line needed. */
  lemma CachedCapacity(line: bytes, bytes_: nat, pkts: nat)
    requires bytes_ < TWO_64 && pkts < TWO_64
    ensures var u, size := |Useful(line, bytes_, pkts)|, CachedRoom(line, bytes_, pkts).size;
            if u < FIRST_SIZE then size == FIRST_SIZE
            else if u < 2 * FIRST_SIZE then size == 2 * FIRST_SIZE
            else size > u + 34
  {
    hide Joined, NumberField, JustOpened, FieldRoom, Appended, Tight, Doubled, Proportionate;
    var b, k := NumberField(BYTES_NAME, bytes_), NumberField(PKTS_NAME, pkts);
    NumberFieldSize(BYTES_NAME, bytes_);
    NumberFieldSize(PKTS_NAME, pkts);
    NumberJoined(line, BYTES_NAME, bytes_);
    NumberJoined(Joined(line, [b]), PKTS_NAME, pkts);
    var u := |Useful(line, bytes_, pkts)|;
    var r0 := Appended(NEW_ROOM, |line|);
    var r1 := FieldRoom(r0, JustOpened(line), b);
    NewIsTight();
    if u < 2 * FIRST_SIZE {
      AppendedTight(NEW_ROOM, |line|);
      FieldRoomTight(r0, JustOpened(line), b);
      FieldRoomTight(r1, JustOpened(Joined(line, [b])), k);
      TightSize(CachedRoom(line, bytes_, pkts));
    } else {
      AppendedDoubles(NEW_ROOM, |line|);
      DoubledIsProportionate(NEW_ROOM, r0);
      FieldRoomDoubles(r0, JustOpened(line), b);
      DoubledIsProportionate(r0, r1);
      FieldRoomDoubles(r1, JustOpened(Joined(line, [b])), k);
      DoubledTwice(r0, r1, CachedRoom(line, bytes_, pkts));
      LongLineDoubles(|line|, CachedRoom(line, bytes_, pkts));
    }
  }

  lemma NewIsTight()
    ensures Tight(NEW_ROOM) && Proportionate(NEW_ROOM)
  {
  }

  lemma TightSize(r: Room)
    requires Tight(r)
    ensures r.size == if r.len < FIRST_SIZE then FIRST_SIZE else 2 * FIRST_SIZE
  {
  }

  lemma LongLineDoubles(n: nat, s: Room)
    requires Doubled(Appended(NEW_ROOM, n), s) && 2 * FIRST_SIZE <= s.len && n + 17 <= s.len <= n + 57
    ensures s.size > s.len + 34
  {
  }

  /** When exactly that happens, by lengths alone: when the first slice's time takes the buffer
      across one of its two smallest capacities. */
  lemma CacheMovesExactly(q: Request, line: bytes)
    requires Valid(q) && Emitted(q) > 0
    ensures SliceAmount(q, q.bytes, q.byteShare, 0) < TWO_64 && SliceAmount(q, q.pkts, q.pktShare, 0) < TWO_64
    ensures var u := |Useful(line, SliceAmount(q, q.bytes, q.byteShare, 0), SliceAmount(q, q.pkts, q.pktShare, 0))|;
            var t := |SliceText(q, line, 0)|;
            CacheMoves(q, line) <==> u < FIRST_SIZE <= t || u < 2 * FIRST_SIZE <= t
  {
    hide Closed, Useful, CachedRoom, SliceAmount;
    SliceFits(q, 0);
    var b, k := SliceAmount(q, q.bytes, q.byteShare, 0), SliceAmount(q, q.pkts, q.pktShare, 0);
    CachedCapacity(line, b, k);
    SliceLengths(line, b, k, q.first);
    ClosedExtends(Useful(line, b, k), q.first);
    assert SliceTime(q, 0) == q.first;
  }

  /** With a useful part that fits a new buffer, exactly when the whole first slice does not. */
  lemma ShortLinesStay(q: Request, line: bytes)
    requires Valid(q) && Emitted(q) > 0
    requires SliceAmount(q, q.bytes, q.byteShare, 0) < TWO_64 && SliceAmount(q, q.pkts, q.pktShare, 0) < TWO_64
    requires |Useful(line, SliceAmount(q, q.bytes, q.byteShare, 0), SliceAmount(q, q.pkts, q.pktShare, 0))| < FIRST_SIZE
    ensures CacheMoves(q, line) <==> |SliceText(q, line, 0)| >= FIRST_SIZE
  {
    hide Useful, SliceText, SliceAmount, CacheMoves;
    CacheMovesExactly(q, line);
  }

  /** For instance any line of 2020 bytes, for a flow of two and a half minutes without traffic. */
  lemma LongLineIsFreed(line: bytes)
    requires |line| == 2020
    ensures var q := Request(0, 150, 60, 60, 0, 0, 0, 0);
            Valid(q) && Emitted(q) == 2 && CacheMoves(q, line)
  {
    var q := Request(0, 150, 60, 60, 0, 0, 0, 0);
    assert Planned(q) == 2 && Shortened(q) == 150 && Emitted(q) == 2;
    NoTraffic(q);
    hide Closed, Useful, CachedRoom, SliceAmount, CacheMoves, Planned, Shortened, Emitted;
    CacheMovesExactly(q, line);
    ZeroLengths(line);
    assert SliceTime(q, 0) == 0;
  }

  lemma NoTraffic(q: Request)
    requires q.interval > 0 && q.bytes == q.pkts == q.byteShare == q.pktShare == 0
    ensures SliceAmount(q, q.bytes, q.byteShare, 0) == SliceAmount(q, q.pkts, q.pktShare, 0) == 0
  {
    AmountFits(0, 0, Planned(q));
  }

  lemma ZeroLengths(line: bytes)
    ensures |line| + 17 <= |Useful(line, 0, 0)| <= |line| + 19
    ensures |Closed(Useful(line, 0, 0), 0)| >= |Useful(line, 0, 0)| + 14
  {
    hide Joined, JustOpened;
    assert |NumberField(BYTES_NAME, 0).text| == |NumberField(PKTS_NAME, 0).text|
      == |NumberField(TIMESTAMP_NAME, 0).text| == 1;
    NumberJoined(line, BYTES_NAME, 0);
    NumberJoined(Joined(line, [NumberField(BYTES_NAME, 0)]), PKTS_NAME, 0);
    NumberJoined(Useful(line, 0, 0), TIMESTAMP_NAME, 0);
  }

  // ---------------------------------------------------------------- the splitter

  /** Adds the time to a slice and closes it. */
  method Finish(node: Printbuf, time: nat)
    requires node.Valid() && node.Terminated() && time < TWO_64
    modifies node, node.buf
    ensures node.Valid() && node.Terminated() && node.SameOrMoved()
    ensures Lengthened(old(node.RoomNow()), node.RoomNow())
    ensures node.Contents() == Closed(old(node.Contents()), time)
  {
    hide Joined, FieldRoom, JustOpened, NumberField, Lengthened, Stretched, Appended, Grows;
    ghost var r0 := node.RoomNow();
    PrintNumber(node, TIMESTAMP_NAME, time);
    ghost var r1 := node.RoomNow();
    node.MemAppendFast([CLOSE_BRACE]);
    LengthenedTwice(r0, r1, node.RoomNow());
  }

  /** A new line with the shared part and the amounts of a full slice. */
  method FirstClone(p: Printbuf, bytes_: nat, pkts: nat) returns (node: Printbuf)
    requires p.Valid() && bytes_ < TWO_64 && pkts < TWO_64
    ensures fresh(node) && fresh(node.buf) && node.Valid() && node.Terminated()
    ensures node.Contents() == Useful(p.Contents(), bytes_, pkts)
    ensures node.RoomNow() == CachedRoom(p.Contents(), bytes_, pkts)
  {
    hide Joined, FieldRoom, JustOpened, NumberField, Lengthened, Stretched, Appended, Grows;
    node := new Printbuf();
    node.MemAppend(p.buf[..p.bpos]);
    assert node.Contents() == p.Contents();
    PrintNumber(node, BYTES_NAME, bytes_);
    PrintNumber(node, PKTS_NAME, pkts);
  }

  ghost predicate HasText(b: Printbuf, t: bytes)
    reads b, b.buf
  {
    b.Valid() && b.Contents() == t
  }

  /** The first full slice, and where its useful part is once it is finished. */
  method FirstSlice(p: Printbuf, bytes_: nat, pkts: nat, time: nat)
    returns (clone: Printbuf, lastSent: array<byte>, useful: nat)
    requires p.Valid() && bytes_ < TWO_64 && pkts < TWO_64 && time < TWO_64
    ensures fresh(clone) && fresh(clone.buf) && fresh(lastSent) && useful <= lastSent.Length
    ensures var prefix := Useful(p.Contents(), bytes_, pkts);
            && HasText(clone, Closed(prefix, time))
            && (clone.buf != lastSent <==> |Closed(prefix, time)| >= CachedRoom(p.Contents(), bytes_, pkts).size)
            && (clone.buf == lastSent ==> lastSent[..useful] == prefix)
  {
    hide Useful, Closed, CachedRoom, Lengthened;
    clone := FirstClone(p, bytes_, pkts);
    lastSent, useful := clone.buf, clone.bpos;
    ghost var r, prefix := clone.RoomNow(), clone.Contents();
    Finish(clone, time);
    LengthenedMoves(r, clone.RoomNow());
    ClosedExtends(prefix, time);
    if clone.buf == lastSent { assert lastSent[..useful] == clone.Contents()[..useful]; }
  }

  /** A full slice from the cached prefix. */
  method CachedSlice(lastSent: array<byte>, useful: nat, time: nat) returns (node: Printbuf)
    requires useful <= lastSent.Length && time < TWO_64
    ensures fresh(node) && fresh(node.buf) && HasText(node, Closed(lastSent[..useful], time))
  {
    hide Closed, Lengthened, Appended, Grows;
    node := new Printbuf();
    node.MemAppend(lastSent[..useful]);
    assert node.Contents() == lastSent[..useful];
    Finish(node, time);
  }

  /** The final slice, in the line that was passed in. */
  method FinalSlice(p: Printbuf, bytes_: nat, pkts: nat, time: nat)
    requires p.Valid() && p.Terminated() && bytes_ < TWO_64 && pkts < TWO_64 && time < TWO_64
    modifies p, p.buf
    ensures p.Valid() && p.Contents() == Closed(Useful(old(p.Contents()), bytes_, pkts), time)
  {
    hide Joined, FieldRoom, JustOpened, NumberField, Lengthened, Stretched;
    ghost var r0 := p.RoomNow();
    PrintNumber(p, BYTES_NAME, bytes_);
    ghost var r1 := p.RoomNow();
    PrintNumber(p, PKTS_NAME, pkts);
    LengthenedTwice(r0, r1, p.RoomNow());
    Finish(p, time);
  }

  /** The full slices planned, what each of them gets, and what the final slice gets. */
  method MakePlan(q: Request) returns (d: nat, perBytes: nat, perPkts: nat, finalBytes: nat, finalPkts: nat)
    requires Valid(q)
    ensures d == Shortened(q)
    ensures perBytes == PerSlice(q.bytes, q.byteShare, Planned(q))
              && perPkts == PerSlice(q.pkts, q.pktShare, Planned(q))
    ensures finalBytes == FinalAmount(q.bytes, q.byteShare, Planned(q))
              && finalPkts == FinalAmount(q.pkts, q.pktShare, Planned(q))
  {
    var n := q.switched / q.interval % TWO_32;
    if n > q.maxIntervals {
      n := (if q.maxIntervals == 0 then TWO_64 - 1 else q.maxIntervals - 1) % TWO_32;
    }
    d := q.switched;
    if d > 0 && d % q.interval == 0 { d := d - 1; }
    NothingOwed(q.bytes, q.byteShare, n);
    NothingOwed(q.pkts, q.pktShare, n);
    perPkts := if n > 0 then (q.pkts - q.pktShare) / n else 0;
    perBytes := if n > 0 then (q.bytes - q.byteShare) / n else 0;
    finalPkts := q.pktShare + (q.pkts - q.pktShare - perPkts * n);
    finalBytes := q.byteShare + (q.bytes - q.byteShare - perBytes * n);
  }

  lemma PlanFits(q: Request)
    requires Valid(q)
    ensures PerSlice(q.bytes, q.byteShare, Planned(q)) < TWO_64 && PerSlice(q.pkts, q.pktShare, Planned(q)) < TWO_64
  {
    hide PerSlice, FinalAmount;
    AmountFits(q.bytes, q.byteShare, Planned(q));
    AmountFits(q.pkts, q.pktShare, Planned(q));
  }

  /** The cached pointer and length give the useful part of a full slice, unless its storage
      has been freed. */
  ghost predicate CacheHolds(q: Request, line: bytes, bytes_: nat, pkts: nat, clone: Printbuf, lastSent: array<byte>,
      useful: nat)
    requires Valid(q) && bytes_ < TWO_64 && pkts < TWO_64
    reads clone, lastSent
  {
    && useful <= lastSent.Length
    && (clone.buf != lastSent <==> CacheMoves(q, line))
    && (clone.buf == lastSent ==> lastSent[..useful] == Useful(line, bytes_, pkts))
  }

  lemma ScratchSlice(q: Request, line: bytes, i: nat)
    requires Valid(q) && i <= Emitted(q)
    ensures var n := Planned(q);
            var b := if i < Emitted(q) then PerSlice(q.bytes, q.byteShare, n) else FinalAmount(q.bytes, q.byteShare, n);
            var k := if i < Emitted(q) then PerSlice(q.pkts, q.pktShare, n) else FinalAmount(q.pkts, q.pktShare, n);
            && b < TWO_64 && k < TWO_64 && SliceTime(q, i) < TWO_64
            && SliceText(q, line, i) == Closed(Useful(line, b, k), SliceTime(q, i))
  {
    hide Closed, Useful, PerSlice, FinalAmount;
    SliceFits(q, i);
  }

  lemma CacheMovesWhenFull(q: Request, line: bytes)
    requires Valid(q) && Emitted(q) > 0
    ensures var b, k := PerSlice(q.bytes, q.byteShare, Planned(q)), PerSlice(q.pkts, q.pktShare, Planned(q));
            && b < TWO_64 && k < TWO_64
            && (CacheMoves(q, line) <==> |Closed(Useful(line, b, k), q.first)| >= CachedRoom(line, b, k).size)
  {
    hide Closed, Useful, CachedRoom, PerSlice;
    SliceFits(q, 0);
  }

  lemma SliceTimeSteps(q: Request, i: nat)
    ensures SliceTime(q, i) + q.interval == SliceTime(q, i + 1) && SliceTime(q, 0) == q.first
  {
    assert (i + 1) * q.interval == i * q.interval + q.interval;
  }

  /** rb_separate_long_time_flow. The slices come newest first; exactly the final one, at the
      head, is in the line passed in; and each one, also when copied from the cached prefix, is
      the text made from scratch. The method stops with `freed` where the code would read the
      cached prefix after its storage was freed. */
  method SeparateLongTimeFlow(p: Printbuf, q: Request) returns (list: seq<Printbuf>, freed: bool)
    requires p.Valid() && p.Terminated() && Valid(q)
    modifies p, p.buf
    ensures freed <==> Emitted(q) >= 2 && CacheMoves(q, old(p.Contents()))
    ensures !freed ==> |list| == Emitted(q) + 1 && list[0] == p
    ensures !freed ==> forall j | 0 < j < |list| :: fresh(list[j])
    ensures !freed ==> forall j | 0 <= j < |list| :: HasText(list[j], SliceText(q, old(p.Contents()), Emitted(q) - j))
  {
    hide SliceText, Useful, Closed, CachedRoom, PerSlice, FinalAmount, Planned, Shortened, CacheMoves;
    ghost var line, m := p.Contents(), Emitted(q);
    var d, perBytes, perPkts, finalBytes, finalPkts := MakePlan(q);
    list, freed := [], false;
    var current := q.first;
    ghost var i := 0;
    SliceTimeSteps(q, 0);
    PlanFits(q);
    assert perBytes < TWO_64 && perPkts < TWO_64;
    var cached := false;
    var clone, lastSent, useful: nat := p, p.buf, 0;
    while current <= q.first + d
      invariant i <= m + 1 && current == SliceTime(q, i) && |list| == i && !freed
      invariant i <= m ==> p.Valid() && p.Terminated() && p.Contents() == line && p.buf == old(p.buf)
      invariant i == m + 1 ==> list[0] == p
      invariant forall j | 0 <= j < i :: (i <= m || j > 0) ==> fresh(list[j]) && fresh(list[j].buf)
      invariant forall j | 0 <= j < i :: HasText(list[j], SliceText(q, line, i - 1 - j))
      invariant i == 0 ==> !cached
      invariant i >= 2 && m >= 2 ==> !CacheMoves(q, line)
      invariant 0 < i <= m ==> cached && CacheHolds(q, line, perBytes, perPkts, clone, lastSent, useful)
      decreases m + 1 - i
    {
      Timeline(q, i);
      SliceFits(q, i);
      ScratchSlice(q, line, i);
      if current + q.interval > q.first + d {
        FinalSlice(p, finalBytes, finalPkts, current);
        list := [p] + list;
      } else if !cached {
        CacheMovesWhenFull(q, line);
        clone, lastSent, useful := FirstSlice(p, perBytes, perPkts, current);
        cached := true;
        list := [clone] + list;
      } else {
        if lastSent != clone.buf { return list, true; }
        var node := CachedSlice(lastSent, useful, current);
        list := [node] + list;
      }
      SliceTimeSteps(q, i);
      current, i := current + q.interval, i + 1;
    }
    Timeline(q, i);
  }
}
