/** How the escaper's scanner (src/util.c:313-375) stands to UTF-8 as in section 3 of RFC 3629. */
module Utf8 {
  import opened Bytes
  import opened Escaper
  import opened Printbuf

  predicate IsScalar(v: nat) {
    v < 0xd800 || 0xe000 <= v < 0x11_0000
  }

  /** The encoding of a code point, in the fewest bytes. */
  function Encoding(v: nat): (s: bytes)
    requires v < 0x11_0000
    ensures 1 <= |s| <= 4
  {
    var w := v / 0x40;
    var x := w / 0x40;
    if v < 0x80 then [v]
    else if v < 0x800 then [0xc0 + w, 0x80 + v % 0x40]
    else if v < 0x1_0000 then [0xe0 + x, 0x80 + w % 0x40, 0x80 + v % 0x40]
    else [0xf0 + x / 0x40, 0x80 + x % 0x40, 0x80 + w % 0x40, 0x80 + v % 0x40]
  }

  /** The six low bits of a byte, after those of the bytes before it. */
  function Then(high: nat, b: byte): nat {
    high * 0x40 + b % 0x40
  }

  /** What the bits of a character of `k` bytes stand for. */
  function CodePoint(s: bytes, k: nat): nat
    requires 1 <= k <= 4 && k <= |s|
  {
    if k == 1 then s[0]
    else if k == 2 then Then(s[0] % 0x20, s[1])
    else if k == 3 then Then(Then(s[0] % 0x10, s[1]), s[2])
    else Then(Then(Then(s[0] % 8, s[1]), s[2]), s[3])
  }

  /** The scanner accepts every character of UTF-8 and finds its length. */
  lemma ScannerTakesUtf8(v: nat, rest: bytes)
    requires v < 0x11_0000
    ensures CharLength(Encoding(v) + rest) == Some(|Encoding(v)|)
    ensures CodePoint(Encoding(v), |Encoding(v)|) == v
  {
    var c := Encoding(v);
    EncodingLooksRight(v);
    if |c| == 4 { FourBytesBack(v); }
    CharFromBytes(c, rest);
  }

  lemma FourBytesBack(v: nat)
    requires 0x1_0000 <= v < 0x11_0000
    ensures CodePoint(Encoding(v), 4) == v
  {
    var w := v / 0x40;
    var x := w / 0x40;
    assert Then(Then(Then(x / 0x40, 0x80 + x % 0x40), 0x80 + w % 0x40), 0x80 + v % 0x40) == v;
  }

  /** The bytes of one character, by their ranges. */
  predicate LooksRight(c: bytes) {
    && 1 <= |c| <= 4
    && (forall i | 1 <= i < |c| :: 0x80 <= c[i] < 0xc0)
    && if |c| == 1 then c[0] < 0x80
       else if |c| == 2 then 0xc2 <= c[0] < 0xe0
       else if |c| == 3 then 0xe0 <= c[0] < 0xf0
       else 0xf0 <= c[0] < 0xf8
  }

  lemma EncodingLooksRight(v: nat)
    requires v < 0x11_0000
    ensures LooksRight(Encoding(v))
  {
  }

  lemma CharFromBytes(c: bytes, rest: bytes)
    requires LooksRight(c)
    ensures CharLength(c + rest) == Some(|c|)
  {
    var s := c + rest;
    assert forall i | 0 <= i < |c| - 1 :: s[1..][i] == c[1..][i];
    assert forall i | 0 <= i < |c| - 1 :: c[1..][i] == c[i + 1];
    assert Continuations(s[1..], |c| - 1);
  }

  lemma BytesFromChar(s: bytes)
    requires s != [] && CharLength(s).Some?
    ensures LooksRight(s[..CharLength(s).value])
  {
    var k := CharLength(s).value;
    forall i | 1 <= i < k ensures 0x80 <= s[i] < 0xc0 {
      assert s[1..][i - 1] == s[i];
    }
  }

  /** An accepted character is one of UTF-8 exactly when its bits stand for a Unicode scalar
      value that needs all its bytes: the scanner also takes surrogates, overlong forms of three
      and four bytes, and numbers past the last code point. */
  lemma AcceptedIsUtf8(s: bytes)
    requires s != [] && CharLength(s).Some?
    ensures var k := CharLength(s).value;
            var v := CodePoint(s, k);
            (exists w :: IsScalar(w) && s[..k] == Encoding(w)) <==> IsScalar(v) && |Encoding(v)| == k
  {
    var k := CharLength(s).value;
    var v := CodePoint(s, k);
    if w: nat :| IsScalar(w) && s[..k] == Encoding(w) {
      ScannerTakesUtf8(w, []);
      SameCodePoint(s, k);
    }
    if IsScalar(v) && |Encoding(v)| == k {
      BytesFromChar(s);
      SameCodePoint(s, k);
      EncodesItself(s[..k]);
      assert s[..k] == Encoding(v);
    }
  }

  lemma SameCodePoint(s: bytes, k: nat)
    requires 1 <= k <= 4 && k <= |s|
    ensures CodePoint(s[..k], k) == CodePoint(s, k)
  {
  }

  lemma EncodesItself(c: bytes)
    requires LooksRight(c)
    requires CodePoint(c, |c|) < 0x11_0000 && |Encoding(CodePoint(c, |c|))| == |c|
    ensures c == Encoding(CodePoint(c, |c|))
  {
    var v := CodePoint(c, |c|);
    Leads(c);
    hide LooksRight, Then;
    if |c| == 2 {
      ThenInverts(c[0] % 0x20, c[1]);
    } else if |c| == 3 {
      ThenInverts(c[0] % 0x10, c[1]);
      ThenInverts(Then(c[0] % 0x10, c[1]), c[2]);
    } else if |c| == 4 {
      ThenInverts(c[0] % 8, c[1]);
      ThenInverts(Then(c[0] % 8, c[1]), c[2]);
      ThenInverts(Then(Then(c[0] % 8, c[1]), c[2]), c[3]);
    }
  }

  lemma ThenInverts(high: nat, b: byte)
    ensures Then(high, b) / 0x40 == high && Then(high, b) % 0x40 == b % 0x40
  {
  }

  lemma Leads(c: bytes)
    requires LooksRight(c)
    ensures forall i | 1 <= i < |c| :: c[i] == 0x80 + c[i] % 0x40
    ensures |c| == 1 ==> c[0] < 0x80
    ensures |c| == 2 ==> c[0] == 0xc0 + c[0] % 0x20
    ensures |c| == 3 ==> c[0] == 0xe0 + c[0] % 0x10
    ensures |c| == 4 ==> c[0] == 0xf0 + c[0] % 8
  {
  }

  /** The text of a list of scalar values. */
  function Text(vs: seq<nat>): bytes
    requires forall i | 0 <= i < |vs| :: IsScalar(vs[i])
  {
    if vs == [] then [] else (assert IsScalar(vs[0]); Encoding(vs[0])) + Text(vs[1..])
  }

  lemma {:induction false} TextIsAccepted(vs: seq<nat>)
    requires forall i | 0 <= i < |vs| :: IsScalar(vs[i])
    ensures Accepted(Text(vs))
  {
    hide Encoding, CharLength;
    if vs != [] {
      var rest := Text(vs[1..]);
      assert IsScalar(vs[0]);
      ScannerTakesUtf8(vs[0], rest);
      TextIsAccepted(vs[1..]);
      assert (Encoding(vs[0]) + rest)[|Encoding(vs[0])|..] == rest;
    }
  }

  /** So all UTF-8 text survives escaping and unescaping. */
  lemma TextSurvives(vs: seq<nat>)
    requires forall i | 0 <= i < |vs| :: IsScalar(vs[i])
    ensures Unescape(Escape(Text(vs))) == Some(Text(vs))
  {
    hide *;
    TextIsAccepted(vs);
    ExactRoundTrip(Text(vs));
  }

  // ---------------------------------------------------------------- whole strings

  /** Some scalar values have this text. */
  ghost predicate IsText(s: bytes) {
    exists vs :: IsTextOf(vs, s)
  }

  ghost predicate IsTextOf(vs: seq<nat>, s: bytes) {
    (forall i | 0 <= i < |vs| :: IsScalar(vs[i])) && Text(vs) == s
  }

  /** The character at the start stands for a scalar value that needs all its bytes. */
  predicate StartsWithScalar(s: bytes)
    requires s != [] && CharLength(s).Some?
  {
    var k := CharLength(s).value;
    IsScalar(CodePoint(s, k)) && |Encoding(CodePoint(s, k))| == k
  }

  /** Every character that the scanner accepts does; it goes on after a rejected byte. */
  predicate Scalars(s: bytes) {
    s == [] ||
    match CharLength(s)
    case None => Scalars(s[1..])
    case Some(k) => StartsWithScalar(s) && Scalars(s[k..])
  }

  lemma {:induction false} TextHasScalars(vs: seq<nat>)
    requires forall i | 0 <= i < |vs| :: IsScalar(vs[i])
    ensures Accepted(Text(vs)) && Scalars(Text(vs))
  {
    hide Encoding, CharLength, CodePoint;
    if vs != [] {
      assert IsScalar(vs[0]);
      var c, rest := Encoding(vs[0]), Text(vs[1..]);
      ScannerTakesUtf8(vs[0], rest);
      TextHasScalars(vs[1..]);
      assert (c + rest)[..|c|] == c && (c + rest)[|c|..] == rest;
      SameCodePoint(c + rest, |c|);
    }
  }

  lemma {:induction false} ScalarsAreText(s: bytes)
    requires Accepted(s) && Scalars(s)
    ensures IsText(s)
  {
    hide Encoding, CharLength, CodePoint, LooksRight;
    if s == [] {
      assert IsTextOf([], s);
    } else {
      var k := CharLength(s).value;
      var v := CodePoint(s, k);
      ScalarsAreText(s[k..]);
      var more :| IsTextOf(more, s[k..]);
      BytesFromChar(s);
      SameCodePoint(s, k);
      ScalarBelow(v);
      EncodesItself(s[..k]);
      var vs := [v] + more;
      assert vs[1..] == more;
      assert s == s[..k] + s[k..];
      assert IsTextOf(vs, s);
    }
  }

  lemma ScalarBelow(v: nat)
    ensures IsScalar(v) ==> v < 0x11_0000
  {
  }

  /** A string is UTF-8 exactly when the scanner accepts all of it, and only scalar values in their
      shortest form. */
  lemma TextExactly(s: bytes)
    ensures IsText(s) <==> Accepted(s) && Scalars(s)
  {
    hide Accepted, Scalars, Text;
    if IsText(s) {
      var vs :| IsTextOf(vs, s);
      TextHasScalars(vs);
    }
    if Accepted(s) && Scalars(s) { ScalarsAreText(s); }
  }

  lemma AsciiFirst(b: byte, t: bytes)
    requires b < 0x80
    ensures Scalars([b] + t) == Scalars(t)
  {
    assert ([b] + t)[1..] == t;
  }

  lemma CharFirst(s: bytes, t: bytes)
    requires s != [] && CharLength(s).Some?
    ensures var k := CharLength(s).value;
            Scalars(s[..k] + t) <==> StartsWithScalar(s) && Scalars(t)
  {
    hide CharLength, CodePoint, Encoding;
    var k := CharLength(s).value;
    var u := s[..k] + t;
    CharIsLocal(s, t);
    assert u[..k] == s[..k] && u[k..] == t;
    SameCodePoint(s, k);
    SameCodePoint(u, k);
  }

  lemma PieceScalars(s: bytes, t: bytes)
    requires s != []
    ensures Scalars(Piece(s).0 + t)
            <==> (CharLength(s).Some? ==> StartsWithScalar(s)) && Scalars(t)
  {
    hide CodePoint, Encoding, Scalars;
    match CharLength(s)
    case None =>
      var h := Hex(s[0]);
      assert Piece(s).0 + t == [PERCENT] + ([h[0]] + ([h[1]] + t));
      AsciiFirst(PERCENT, [h[0]] + ([h[1]] + t));
      AsciiFirst(h[0], [h[1]] + t);
      AsciiFirst(h[1], t);
    case Some(k) =>
      if k == 1 && Letter(s[0]).Some? {
        var l := Letter(s[0]).value;
        assert Piece(s).0 + t == [BACKSLASH] + ([l] + t);
        AsciiFirst(BACKSLASH, [l] + t);
        AsciiFirst(l, t);
        AsciiIsScalar(s);
      } else {
        CharFirst(s, t);
      }
  }

  lemma AsciiIsScalar(s: bytes)
    requires s != [] && s[0] < 0x80
    ensures CharLength(s) == Some(1) && StartsWithScalar(s)
  {
  }

  lemma {:induction false} EscapeScalars(s: bytes)
    ensures Scalars(Escape(s)) == Scalars(s)
  {
    hide Piece, CharLength, StartsWithScalar;
    if s != [] {
      var rest := s[Piece(s).1..];
      PieceScalars(s, Escape(rest));
      EscapeScalars(rest);
      PieceLength(s);
    }
  }

  lemma PieceLength(s: bytes)
    requires s != []
    ensures Piece(s).1 == match CharLength(s) case None => 1 case Some(k) => k
  {
  }

  /** What is written is UTF-8 exactly when every character of the string that the scanner accepts
      is: rejected bytes do no harm, as they are written in ASCII. */
  lemma EscapedExactly(s: bytes)
    ensures IsText(Escape(s)) <==> Scalars(s)
  {
    hide *;
    TextExactly(Escape(s));
    OutputAccepted(s);
    EscapeScalars(s);
  }

  /** For instance: an overlong zero, a surrogate and a number past the last code point pass
      through, and what is written is no UTF-8. */
  lemma NotAllIsUtf8()
    ensures Escape([0xe0, 0x80, 0x80]) == [0xe0, 0x80, 0x80] && !IsText([0xe0, 0x80, 0x80])
    ensures Escape([0xed, 0xa0, 0x80]) == [0xed, 0xa0, 0x80] && !IsText([0xed, 0xa0, 0x80])
    ensures Escape([0xf4, 0x90, 0x80, 0x80]) == [0xf4, 0x90, 0x80, 0x80] && !IsText([0xf4, 0x90, 0x80, 0x80])
  {
    hide *;
    Overlong([0xe0, 0x80, 0x80]);
    Surrogate([0xed, 0xa0, 0x80]);
    PastTheLast([0xf4, 0x90, 0x80, 0x80]);
  }

  lemma Overlong(s: bytes)
    requires s == [0xe0, 0x80, 0x80]
    ensures Escape(s) == s && !IsText(s)
  {
    hide Escape, IsText;
    OneCharacter(s, 0);
  }

  lemma Surrogate(s: bytes)
    requires s == [0xed, 0xa0, 0x80]
    ensures Escape(s) == s && !IsText(s)
  {
    hide Escape, IsText;
    OneCharacter(s, 0xd800);
  }

  lemma ThenIs(high: nat, b: byte, v: nat)
    requires 0x80 <= b < 0xc0 && v == high * 0x40 + (b - 0x80)
    ensures Then(high, b) == v
  {
  }

  lemma FourBytes(s: bytes)
    requires |s| == 4
    ensures CodePoint(s, 4) == Then(Then(Then(s[0] % 8, s[1]), s[2]), s[3])
  {
  }

  lemma PastTheLast(s: bytes)
    requires s == [0xf4, 0x90, 0x80, 0x80]
    ensures Escape(s) == s && !IsText(s)
  {
    hide Escape, IsText, Encoding, CodePoint, Then;
    ThenIs(4, 0x90, 0x110);
    ThenIs(0x110, 0x80, 0x4400);
    ThenIs(0x4400, 0x80, 0x11_0000);
    FourBytes(s);
    OneCharacter(s, 0x11_0000);
  }

  lemma OneCharacter(s: bytes, v: nat)
    requires 3 <= |s| <= 4 && LooksRight(s) && CodePoint(s, |s|) == v
    requires !IsScalar(v) || |Encoding(v)| != |s|
    ensures Escape(s) == s && !IsText(s)
  {
    hide CodePoint, Encoding;
    CharFromBytes(s, []);
    assert s + [] == s && s[..|s|] == s && s[|s|..] == [];
    assert !Scalars(s);
    TextExactly(s);
  }
}
