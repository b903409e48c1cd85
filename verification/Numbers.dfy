/** Printing decimal numbers (src/export.c, _itoa10 and printbuf_memappend_fast_n10). */
module Numbers {
  import opened Bytes
  import opened Printbuf

  const MINUS: byte := 45

  /** The decimal digits of a natural number. */
  function Digits(n: nat): (d: bytes)
    ensures d != []
  {
    if n < 10 then [48 + n] else Digits(n / 10) + [48 + n % 10]
  }

  function Decimal(n: int): bytes {
    if n < 0 then [MINUS] + Digits(-n) else Digits(n)
  }

  // ---------------------------------------------------------------- reading numbers

  predicate IsDigit(b: byte) {
    48 <= b <= 57
  }

  predicate AllDigits(t: bytes) {
    forall i | 0 <= i < |t| :: IsDigit(t[i])
  }

  /** The number a string of digits stands for. */
  function ValueOf(t: bytes): nat
    requires AllDigits(t)
  {
    if t == [] then 0 else 10 * ValueOf(t[..|t| - 1]) + (t[|t| - 1] - 48)
  }

  /** An integer as in section 6 of RFC 8259: an optional minus, and digits without a leading
      zero unless that is the only one. */
  predicate IsInteger(t: bytes) {
    var u := if t != [] && t[0] == MINUS then t[1..] else t;
    u != [] && AllDigits(u) && (u[0] == 48 ==> |u| == 1)
  }

  function ReadInteger(t: bytes): int
    requires IsInteger(t)
  {
    if t[0] == MINUS then 0 - ValueOf(t[1..]) else ValueOf(t)
  }

  lemma {:induction false} DigitsReadBack(n: nat)
    ensures AllDigits(Digits(n)) && ValueOf(Digits(n)) == n
    ensures Digits(n)[0] == 48 ==> n == 0
    ensures n < 10 ==> |Digits(n)| == 1
  {
    if n >= 10 {
      DigitsReadBack(n / 10);
      assert Digits(n)[..|Digits(n)| - 1] == Digits(n / 10);
    } else {
      assert [48 + n][..0] == [];
    }
  }

  /** Decimal text is a JSON integer, and reads back as the number it was printed from. */
  lemma DecimalReadsBack(n: int)
    ensures IsInteger(Decimal(n)) && ReadInteger(Decimal(n)) == n
  {
    if n < 0 {
      DigitsReadBack(-n);
      assert Decimal(n)[1..] == Digits(-n);
    } else {
      DigitsReadBack(n);
      assert IsDigit(Digits(n)[0]);
    }
  }

  /** The text of 1203, in the order it is read, and of its opposite. */
  lemma DecimalInOrder()
    ensures Decimal(1203) == [49, 50, 48, 51] && Decimal(-1203) == [45, 49, 50, 48, 51]
  {
    assert Digits(120) == Digits(12) + [48];
  }

  // ---------------------------------------------------------------- how long it gets

  function Pow10(k: nat): nat {
    if k == 0 then 1 else 10 * Pow10(k - 1)
  }

  lemma {:induction false} DigitsLength(n: nat, k: nat)
    requires k > 0 && n < Pow10(k)
    ensures |Digits(n)| <= k
  {
    if n >= 10 {
      assert Pow10(1) == 10;
      DigitsLength(n / 10, k - 1);
    }
  }

  lemma NineteenDigits()
    ensures Pow10(19) == 10000000000000000000
  {
    assert Pow10(4) == 10000;
    assert Pow10(8) == 100000000;
    assert Pow10(12) == 1000000000000;
    assert Pow10(16) == 10000000000000000;
  }

  // ---------------------------------------------------------------- the printer

  const TWO_63: nat := 0x8000_0000_0000_0000
  const TWO_64: nat := 0x1_0000_0000_0000_0000

  function Abs(v: int): nat {
    if v < 0 then -v else v
  }

  /** Division by ten as C does it, toward zero. */
  function DivTen(v: int): int {
    if v < 0 then -((-v) / 10) else v / 10
  }

  /** The character at `i` of the table that reads the digits down to zero and up again. */
  function DigitChar(i: int): byte
    requires -10 < i < 10
  {
    48 + Abs(i)
  }

  lemma DigitStep(v: int)
    ensures var w := DivTen(v);
            && -10 < v - w * 10 < 10 && Abs(w) == Abs(v) / 10
            && (v >= 0 ==> w >= 0) && (v <= 0 ==> w <= 0)
            && (w == 0 ==> Digits(Abs(v)) == [DigitChar(v - w * 10)])
            && (w != 0 ==> Digits(Abs(v)) == Digits(Abs(w)) + [DigitChar(v - w * 10)])
  {
  }

  lemma Shift(front: bytes, b: byte, tail: bytes, whole: bytes)
    requires (front + [b]) + tail == whole
    ensures front + ([b] + tail) == whole
  {
    assert (front + [b]) + tail == front + ([b] + tail);
  }

  lemma AtMostNineteen(value: int)
    requires -1 * TWO_63 <= value < TWO_63
    ensures |Digits(Abs(value))| <= 19
  {
    NineteenDigits();
    DigitsLength(Abs(value), 19);
  }

  /** _itoa10: writes the digits from the end of the buffer towards its start, and returns
      where they begin. Every int64 fits in 21 bytes, the least one too. */
  method Itoa10(value: int, result: array<byte>) returns (start: nat)
    requires -1 * TWO_63 <= value < TWO_63
    requires result.Length >= 21
    modifies result
    ensures start < result.Length && result[start..result.Length - 1] == Decimal(value)
    ensures result[result.Length - 1] == 0
    ensures result[..result.Length - 21] == old(result[..result.Length - 21])
  {
    hide Digits, DivTen, DigitChar, Pow10;
    AtMostNineteen(value);
    var end := result.Length - 1;
    var ptr := end;
    result[ptr] := 0;
    var v, last, more := value, value, true;
    while more
      invariant 0 < ptr <= end && result[end] == 0
      invariant result[..end - 20] == old(result[..end - 20])
      invariant if more then Digits(Abs(v)) + result[ptr..end] == Digits(Abs(value))
                  else result[ptr..end] == Digits(Abs(value))
      invariant (last < 0 ==> value < 0) && (last > 0 ==> value > 0) && (last == 0 ==> value == 0)
      invariant (v < 0 ==> value < 0) && (v > 0 ==> value > 0) && (more && v == 0 ==> value == 0)
      decreases if more then Abs(v) + 1 else 0
    {
      DigitStep(v);
      last := v;
      v := DivTen(v);
      ptr := ptr - 1;
      ghost var tail := result[ptr + 1..end];
      result[ptr] := DigitChar(last - v * 10);
      assert result[ptr..end] == [result[ptr]] + tail;
      if v == 0 {
        more := false;
      } else {
        Shift(Digits(Abs(v)), result[ptr], tail, Digits(Abs(value)));
      }
    }
    if last < 0 {
      ptr := ptr - 1;
      ghost var tail := result[ptr + 1..end];
      result[ptr] := MINUS;
      assert result[ptr..end] == [MINUS] + tail;
    }
    start := ptr;
  }

  // ---------------------------------------------------------------- unsigned counters

  /** A uint64 passed where an int64 is expected. */
  function Signed(value: nat): int
    requires value < TWO_64
  {
    if value < TWO_63 then value else value - TWO_64
  }

  /** printbuf_memappend_fast_n10: prints the counter as a signed number. */
  method AppendN10(p: Printbuf, value: nat) returns (grown: nat)
    requires p.Valid() && value < TWO_64
    modifies p, p.buf
    ensures p.Valid() && p.Terminated() && p.Contents() == old(p.Contents()) + Decimal(Signed(value))
    ensures p.SameOrMoved() && Lengthened(old(p.RoomNow()), p.RoomNow())
    ensures grown == |Decimal(Signed(value))|
  {
    hide Decimal;
    var buf := new byte[64];
    var start := Itoa10(Signed(value), buf);
    grown := buf.Length - start - 1;
    p.MemAppendFast(buf[start..start + grown]);
  }

  /** The printed text reads back as the counter exactly when the counter is below 2^63, and as
      2^64 less otherwise. */
  lemma CounterReadsBack(value: nat)
    requires value < TWO_64
    ensures IsInteger(Decimal(Signed(value))) && (ReadInteger(Decimal(Signed(value))) == value <==> value < TWO_63)
    ensures value >= TWO_63 ==> ReadInteger(Decimal(Signed(value))) == value - 0x1_0000_0000_0000_0000
  {
    DecimalReadsBack(Signed(value));
  }
}
