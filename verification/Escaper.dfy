/** Escaping a string for JSON (src/util.c, append_escaped). Bytes that are not the start of a
    character the scanner accepts are written as %hh. */
module Escaper {
  import opened Bytes
  import opened Printbuf

  const QUOTE: byte := 34
  const PERCENT: byte := 37
  const BACKSLASH: byte := 92

  // ---------------------------------------------------------------- the scanner

  /** The first `n` bytes are all of the form 10xxxxxx. */
  predicate Continuations(s: bytes, n: nat) {
    n <= |s| && forall i | 0 <= i < n :: s[i] / 0x40 == 2
  }

  /** valid_utf8_char: the length of the character the string starts with, or None. */
  function CharLength(s: bytes): (n: Option<nat>)
    requires s != []
    ensures n.Some? ==> 1 <= n.value <= 4 && n.value <= |s|
  {
    var b := s[0];
    if b < 0x80 then Some(1)
    else if b == 0xc0 || b == 0xc1 then None
    else if b / 0x20 == 6 then (if Continuations(s[1..], 1) then Some(2) else None)
    else if b / 0x10 == 0xe then (if Continuations(s[1..], 2) then Some(3) else None)
    else if b / 8 == 0x1e then (if Continuations(s[1..], 3) then Some(4) else None)
    else None
  }

  /** The scanner accepts every character of the string. */
  predicate Accepted(s: bytes) {
    s == [] || (CharLength(s).Some? && Accepted(s[CharLength(s).value..]))
  }

  method CheckMultibyteCharacters(s: bytes, n: nat) returns (ok: bool)
    ensures ok == Continuations(s, n)
  {
    if |s| < n { return false; }
    for i := 0 to n
      invariant forall k | 0 <= k < i :: s[k] / 0x40 == 2
    {
      if s[i] / 0x40 != 2 { return false; }
    }
    return true;
  }

  method ValidUtf8Char(s: bytes) returns (n: int)
    requires s != []
    ensures n == match CharLength(s) case Some(k) => k case None => -1
  {
    var b := s[0];
    var ok;
    if b < 0x80 {
      return 1;
    } else if b == 0xc0 || b == 0xc1 {
      return -1;
    } else if b / 0x20 == 6 {
      ok := CheckMultibyteCharacters(s[1..], 1);
      return if ok then 2 else -1;
    } else if b / 0x10 == 0xe {
      ok := CheckMultibyteCharacters(s[1..], 2);
      return if ok then 3 else -1;
    } else if b / 8 == 0x1e {
      ok := CheckMultibyteCharacters(s[1..], 3);
      return if ok then 4 else -1;
    } else {
      return -1;
    }
  }

  /** A character is recognised by its own bytes alone. */
  lemma CharIsLocal(s: bytes, t: bytes)
    requires s != [] && CharLength(s).Some?
    ensures var k := CharLength(s).value; CharLength(s[..k] + t) == Some(k)
  {
    var k := CharLength(s).value;
    var u := s[..k] + t;
    assert u[1..k] == s[1..k];
    assert u[1..][..k - 1] == s[1..][..k - 1];
    assert forall i | 0 <= i < k - 1 :: u[1..][i] == s[1..][..k - 1][i];
  }

  // ---------------------------------------------------------------- escaping

  /** The letter that stands for a byte JSON escapes in two characters. */
  function Letter(b: byte): Option<byte> {
    if b == 34 || b == 92 || b == 47 then Some(b)
    else if b == 8 then Some(98)
    else if b == 12 then Some(102)
    else if b == 10 then Some(110)
    else if b == 13 then Some(114)
    else if b == 9 then Some(116)
    else None
  }

  /** What append_escaped writes for the first character, and how many bytes it consumes. */
  function Piece(s: bytes): (p: (bytes, nat))
    requires s != []
    ensures 1 <= p.1 <= |s|
  {
    match CharLength(s)
    case None => ([PERCENT] + Hex(s[0]), 1)
    case Some(k) =>
      if k == 1 && Letter(s[0]).Some? then ([BACKSLASH, Letter(s[0]).value], 1) else (s[..k], k)
  }

  function Escape(s: bytes): bytes {
    if s == [] then [] else Piece(s).0 + Escape(s[Piece(s).1..])
  }

  /** The eight bytes that are written as a backslash and a letter, wherever they stand, with
      their letters: " \\ / and b, t, n, f, r. All other bytes below 0x80 are copied. */
  lemma LettersWritten(b: byte, rest: bytes)
    requires b < 0x80
    ensures Escape([b] + rest)
            == (if b == 0x22 then [0x5c, 0x22]
                else if b == 0x5c then [0x5c, 0x5c]
                else if b == 0x2f then [0x5c, 0x2f]
                else if b == 8 then [0x5c, 0x62]
                else if b == 9 then [0x5c, 0x74]
                else if b == 10 then [0x5c, 0x6e]
                else if b == 12 then [0x5c, 0x66]
                else if b == 13 then [0x5c, 0x72]
                else [b]) + Escape(rest)
  {
    assert ([b] + rest)[1..] == rest && ([b] + rest)[..1] == [b];
  }

  /** A byte that does not start a character is written as a percent sign and its two digits. */
  lemma RejectedWritten(s: bytes)
    requires s != [] && CharLength(s).None?
    ensures Escape(s) == [0x25, HexDigit(s[0] / 16), HexDigit(s[0] % 16)] + Escape(s[1..])
  {
  }

  lemma EscapeStep(before: bytes, s: bytes)
    requires s != []
    ensures (before + Piece(s).0) + Escape(s[Piece(s).1..]) == before + Escape(s)
  {
    hide Piece;
  }

  lemma EscapeNothing(before: bytes, s: bytes)
    requires s == []
    ensures before + Escape(s) == before
  {
  }

  /** One round of append_escaped's loop: appends what the first character of `s` becomes. */
  method AppendChar(p: Printbuf, s: bytes) returns (used: nat)
    requires p.Valid() && s != []
    modifies p, p.buf
    ensures p.Valid() && p.Terminated() && p.Contents() == old(p.Contents()) + Piece(s).0
    ensures p.SameOrMoved() && Lengthened(old(p.RoomNow()), p.RoomNow())
    ensures used == Piece(s).1
  {
    hide CharLength, Letter, Hex, Appended, Grows, Lengthened, Stretched;
    ghost var r0 := p.RoomNow();
    var length := ValidUtf8Char(s);
    if length < 0 {
      p.MemAppendFast([PERCENT]);
      ghost var r1 := p.RoomNow();
      p.AppendHex(s[0]);
      LengthenedTwice(r0, r1, p.RoomNow());
      used := 1;
    } else if length == 1 && Letter(s[0]).Some? {
      p.MemAppendFast([BACKSLASH]);
      ghost var r1 := p.RoomNow();
      p.MemAppendFast([Letter(s[0]).value]);
      LengthenedTwice(r0, r1, p.RoomNow());
      used := 1;
    } else {
      p.MemAppendFast(s[..length]);
      used := length;
    }
  }

  /** append_escaped. */
  method AppendEscaped(p: Printbuf, s: bytes) returns (grown: nat)
    requires p.Valid()
    modifies p, p.buf
    ensures p.Valid() && p.Contents() == old(p.Contents()) + Escape(s)
    ensures old(p.Terminated()) || s != [] ==> p.Terminated()
    ensures p.SameOrMoved() && Lengthened(old(p.RoomNow()), p.RoomNow())
    ensures grown == |Escape(s)|
  {
    hide Escape, Piece;
    var start := p.bpos;
    var i := 0;
    assert s[0..] == s;
    while i < |s|
      invariant i <= |s| && p.Valid() && (old(p.Terminated()) || i > 0 ==> p.Terminated())
      invariant start <= p.bpos && p.SameOrMoved() && Lengthened(old(p.RoomNow()), p.RoomNow())
      invariant p.Contents() + Escape(s[i..]) == old(p.Contents()) + Escape(s)
    {
      ghost var here := p.Contents();
      ghost var todo := s[i..];
      var used := AppendChar(p, s[i..]);
      assert todo[used..] == s[i + used..];
      i := i + used;
      EscapeStep(here, todo);
    }
    EscapeNothing(p.Contents(), s[i..]);
    grown := p.bpos - start;
  }

  // ---------------------------------------------------------------- reading it back

  function Unletter(b: byte): Option<byte> {
    if b == 34 || b == 92 || b == 47 then Some(b)
    else if b == 98 then Some(8)
    else if b == 102 then Some(12)
    else if b == 110 then Some(10)
    else if b == 114 then Some(13)
    else if b == 116 then Some(9)
    else None
  }

  function Before(b: byte, rest: Option<bytes>): Option<bytes> {
    match rest
    case None => None
    case Some(r) => Some([b] + r)
  }

  /** What a JSON string body stands for, with the two-character escapes of section 7 of RFC
      8259; None if it has a bare quote or another escape. */
  function Unescape(t: bytes): Option<bytes> {
    if t == [] then Some([])
    else if t[0] == QUOTE then None
    else if t[0] != BACKSLASH then Before(t[0], Unescape(t[1..]))
    else if |t| == 1 || Unletter(t[1]).None? then None
    else Before(Unletter(t[1]).value, Unescape(t[2..]))
  }

  /** The string with every byte the scanner rejects written as %hh. */
  function Percent(s: bytes): bytes {
    if s == [] then []
    else
      match CharLength(s)
      case None => [PERCENT] + Hex(s[0]) + Percent(s[1..])
      case Some(k) => s[..k] + Percent(s[k..])
  }

  predicate Plain(s: bytes) {
    forall i | 0 <= i < |s| :: s[i] != QUOTE && s[i] != BACKSLASH
  }

  lemma {:induction false} UnescapePlain(s: bytes, t: bytes)
    requires Plain(s) && Unescape(t).Some?
    ensures Unescape(s + t) == Some(s + Unescape(t).value)
  {
    if s == [] {
      assert s + t == t && s + Unescape(t).value == Unescape(t).value;
    } else {
      assert (s + t)[1..] == s[1..] + t;
      UnescapePlain(s[1..], t);
      assert [s[0]] + (s[1..] + Unescape(t).value) == s + Unescape(t).value;
    }
  }

  /** A character that is copied is a single plain byte or all its bytes are above 0x7f. */
  lemma CopiedIsPlain(s: bytes)
    requires s != [] && CharLength(s).Some? && !(CharLength(s).value == 1 && Letter(s[0]).Some?)
    ensures Plain(s[..CharLength(s).value])
  {
    var k := CharLength(s).value;
    forall i | 0 <= i < k ensures s[i] != QUOTE && s[i] != BACKSLASH {
      if i > 0 { assert s[1..][i - 1] == s[i]; }
    }
  }

  lemma HexIsPlain(b: byte)
    ensures Plain([PERCENT] + Hex(b))
    ensures Small([PERCENT] + Hex(b)) && NoControls([PERCENT] + Hex(b))
  {
  }

  /** Unescaping what was written gives the string back, rejected bytes as %hh. */
  lemma {:induction false} EscapeReadsBack(s: bytes)
    ensures Unescape(Escape(s)) == Some(Percent(s))
  {
    if s != [] {
      var (piece, used) := Piece(s);
      EscapeReadsBack(s[used..]);
      var rest := Escape(s[used..]);
      match CharLength(s)
      case None =>
        HexIsPlain(s[0]);
        UnescapePlain(piece, rest);
      case Some(k) =>
        if k == 1 && Letter(s[0]).Some? {
          assert (piece + rest)[2..] == rest;
          assert s[..1] == [s[0]];
        } else {
          CopiedIsPlain(s);
          UnescapePlain(piece, rest);
        }
    }
  }

  /** Each rejected byte makes the result two longer, so the round trip is exact just when the
      scanner accepts the whole string. */
  lemma {:induction false} PercentKeepsAccepted(s: bytes)
    ensures |Percent(s)| >= |s|
    ensures Percent(s) == s <==> Accepted(s)
    ensures |Percent(s)| == |s| <==> Accepted(s)
  {
    if s != [] {
      match CharLength(s)
      case None => PercentKeepsAccepted(s[1..]);
      case Some(k) =>
        PercentKeepsAccepted(s[k..]);
        assert s == s[..k] + s[k..];
    }
  }

  lemma ExactRoundTrip(s: bytes)
    ensures Unescape(Escape(s)) == Some(s) <==> Accepted(s)
  {
    EscapeReadsBack(s);
    PercentKeepsAccepted(s);
  }

  // ---------------------------------------------------------------- the output

  predicate Small(s: bytes) {
    forall i | 0 <= i < |s| :: s[i] < 0x80
  }

  lemma {:induction false} AcceptedSmall(s: bytes, t: bytes)
    requires Small(s) && Accepted(t)
    ensures Accepted(s + t)
  {
    if s == [] {
      assert s + t == t;
    } else {
      assert (s + t)[1..] == s[1..] + t;
      AcceptedSmall(s[1..], t);
    }
  }

  /** The output is text the scanner accepts, whatever the input. */
  lemma {:induction false} OutputAccepted(s: bytes)
    ensures Accepted(Escape(s))
  {
    if s != [] {
      var (piece, used) := Piece(s);
      OutputAccepted(s[used..]);
      var rest := Escape(s[used..]);
      match CharLength(s)
      case None =>
        HexIsPlain(s[0]);
        AcceptedSmall(piece, rest);
      case Some(k) =>
        if k == 1 && Letter(s[0]).Some? {
          AcceptedSmall(piece, rest);
        } else {
          CharIsLocal(s, rest);
          assert (s[..k] + rest)[k..] == rest;
        }
    }
  }

  /** The output is at least as long as the input and at most three times as long. */
  lemma {:induction false} OutputLength(s: bytes)
    ensures |s| <= |Escape(s)| <= 3 * |s|
  {
    if s != [] { OutputLength(s[Piece(s).1..]); }
  }

  /** Where a string body that starts here ends: the offset of its first unescaped quote. */
  function BodyLength(t: bytes): Option<nat> {
    if t == [] then None
    else if t[0] == QUOTE then Some(0)
    else
      var step := if t[0] == BACKSLASH then 2 else 1;
      if step > |t| then None
      else match BodyLength(t[step..]) case None => None case Some(n) => Some(n + step)
  }

  /** The output has no unescaped quote: between quotes it is one string, that ends where it
      should. */
  lemma {:induction false} BodyEndsAtQuote(t: bytes, rest: bytes)
    requires Unescape(t).Some?
    ensures BodyLength(t + [QUOTE] + rest) == Some(|t|)
  {
    var u := t + [QUOTE] + rest;
    if t != [] {
      var step := if t[0] == BACKSLASH then 2 else 1;
      BodyEndsAtQuote(t[step..], rest);
      assert u[step..] == t[step..] + [QUOTE] + rest;
    }
  }

  lemma OutputIsOneString(s: bytes, rest: bytes)
    ensures BodyLength(Escape(s) + [QUOTE] + rest) == Some(|Escape(s)|)
  {
    EscapeReadsBack(s);
    BodyEndsAtQuote(Escape(s), rest);
  }

  /** Section 7 of RFC 8259 wants control characters escaped. */
  predicate NoControls(t: bytes) {
    forall i | 0 <= i < |t| :: t[i] >= 0x20
  }

  /** No control character but backspace, tab, line feed, form feed and carriage return. */
  predicate OnlyNamedControls(s: bytes) {
    forall i | 0 <= i < |s| :: s[i] >= 0x20 || s[i] == 8 || s[i] == 9 || s[i] == 10 || s[i] == 12 || s[i] == 13
  }

  lemma ControlsConcat(a: bytes, b: bytes)
    ensures NoControls(a + b) <==> NoControls(a) && NoControls(b)
    ensures OnlyNamedControls(a + b) <==> OnlyNamedControls(a) && OnlyNamedControls(b)
  {
    var t := a + b;
    assert forall i | 0 <= i < |b| :: t[|a| + i] == b[i];
    assert forall i | 0 <= i < |a| :: t[i] == a[i];
  }

  lemma PieceControls(s: bytes)
    requires s != []
    ensures NoControls(Piece(s).0) <==> OnlyNamedControls(s[..Piece(s).1])
  {
    match CharLength(s)
    case None => HexIsPlain(s[0]);
    case Some(k) =>
      if k > 1 {
        forall i | 0 <= i < k ensures s[..k][i] >= 0x20 {
          if i > 0 { assert s[1..][i - 1] == s[i]; }
        }
      } else {
        assert s[..1] == [s[0]];
      }
  }

  /** The scanner copies control characters that have no letter of their own: the output is
      free of them exactly when the input is. */
  lemma {:induction false} ControlsPassThrough(s: bytes)
    ensures NoControls(Escape(s)) <==> OnlyNamedControls(s)
  {
    if s != [] {
      hide CharLength;
      var (piece, used) := Piece(s);
      ControlsPassThrough(s[used..]);
      PieceControls(s);
      ControlsConcat(piece, Escape(s[used..]));
      ControlsConcat(s[..used], s[used..]);
      assert s == s[..used] + s[used..];
    }
  }
}
