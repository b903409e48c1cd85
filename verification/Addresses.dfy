/** Printing and reading IPv4 and MAC addresses (src/util.c, src/util.h, src/rb_mac.c,
    src/export.c). */
module Addresses {
  import opened Bits
  import opened Bytes
  import opened Numbers
  import opened Printbuf
  import opened Wire

  const DOT: byte := 46
  const COLON: byte := 58

  // ---------------------------------------------------------------- IPv4

  /** Dotted-quad text. */
  function Dotted(addr: nat): bytes
    requires addr < 0x1_0000_0000
  {
    Digits(addr / 0x100_0000) + [DOT] + Digits(addr / 0x1_0000 % 0x100) + [DOT]
    + Digits(addr / 0x100 % 0x100) + [DOT] + Digits(addr % 0x100)
  }

  /** The last `n` numbers of an address, each with a dot before it. */
  function Tail(addr: nat, n: nat): bytes {
    if n == 0 then [] else Tail(addr / 0x100, n - 1) + [DOT] + Digits(addr % 0x100)
  }

  lemma {:induction false} TailIsDotted(addr: nat)
    requires addr < 0x1_0000_0000
    ensures Tail(addr, 4) == [DOT] + Dotted(addr)
  {
    hide Digits;
    var a, b, c := addr / 0x100, addr / 0x1_0000, addr / 0x100_0000;
    assert a / 0x100 == b && b / 0x100 == c && c / 0x100 == 0 && c % 0x100 == c;
    assert Tail(c, 1) == [DOT] + Digits(c) by { assert Tail(c / 0x100, 0) == []; }
    assert Tail(b, 2) == Tail(c, 1) + [DOT] + Digits(b % 0x100);
    assert Tail(a, 3) == Tail(b, 2) + [DOT] + Digits(a % 0x100);
    assert Tail(addr, 4) == Tail(a, 3) + [DOT] + Digits(addr % 0x100);
  }

  lemma ThreeDigits(b: nat)
    requires b < 0x100
    ensures Digits(b) == if b < 10 then [48 + b] else if b < 100 then [48 + b / 10, 48 + b % 10]
                         else [48 + b / 100, 48 + b / 10 % 10, 48 + b % 10]
  {
    if b >= 100 {
      assert Digits(b / 10) == Digits(b / 100) + [48 + b / 10 % 10];
    }
  }

  /** One round of _intoaV4's loop: a number of at most three digits, and a dot, written
      backwards from `at`. */
  method PutNumber(buf: array<byte>, at: nat, number: nat) returns (cp: nat)
    requires number < 0x100 && 4 <= at < buf.Length
    modifies buf
    ensures at - 4 <= cp <= at && buf[cp..at] == [DOT] + Digits(number)
    ensures buf[..at - 4] == old(buf[..at - 4]) && buf[at..] == old(buf[at..])
  {
    ThreeDigits(number);
    hide Digits;
    cp := at - 1;
    var b := number;
    buf[cp] := 48 + b % 10;
    b := b / 10;
    if b > 0 {
      cp := cp - 1;
      buf[cp] := 48 + b % 10;
      b := b / 10;
      if b > 0 {
        cp := cp - 1;
        buf[cp] := 48 + b;
      }
    }
    assert buf[cp..at] == Digits(number);
    cp := cp - 1;
    buf[cp] := DOT;
    assert buf[cp..at] == [DOT] + Digits(number);
  }

  lemma TailStep(addr: nat, n: nat, was: bytes)
    ensures Tail(addr / 0x100, n) + (([DOT] + Digits(addr % 0x100)) + was) == Tail(addr, n + 1) + was
  {
    hide Digits;
    assert Tail(addr / 0x100, n) + (([DOT] + Digits(addr % 0x100)) + was)
        == (Tail(addr / 0x100, n) + [DOT] + Digits(addr % 0x100)) + was;
  }

  /** _intoaV4: writes the four numbers backwards from the end of the buffer, and touches no
      more than its last 17 bytes. */
  method IntoaV4(addr: nat, buf: array<byte>) returns (start: nat)
    requires addr < 0x1_0000_0000 && buf.Length >= 17
    modifies buf
    ensures start < buf.Length && buf[start..buf.Length - 1] == Dotted(addr)
    ensures buf[buf.Length - 1] == 0
    ensures buf[..buf.Length - 17] == old(buf[..buf.Length - 17])
  {
    hide Digits, Tail, Dotted;
    var end := buf.Length - 1;
    var cp, rest := end, addr;
    buf[cp] := 0;
    for n := 4 downto 0
      invariant end - 4 * (4 - n) <= cp <= end && buf[end] == 0
      invariant buf[..end - 16] == old(buf[..end - 16])
      invariant Tail(rest, n) + buf[cp..end] == Tail(addr, 4)
    {
      label Round:
      ghost var was := buf[cp..end];
      var next := PutNumber(buf, cp, rest % 0x100);
      assert buf[cp..end] == was by { assert buf[cp..][..end - cp] == was; }
      assert buf[next..end] == buf[next..cp] + was;
      assert buf[..end - 16] == old@Round(buf[..cp - 4])[..end - 16];
      TailStep(rest, n, was);
      cp := next;
      rest := rest / 0x100;
    }
    TailIsDotted(addr);
    TailEnds(rest, buf[cp..end]);
    start := cp + 1;
    assert buf[start..end] == buf[cp..end][1..];
  }

  lemma TailEnds(addr: nat, t: bytes)
    ensures Tail(addr, 0) + t == t
  {
  }

  predicate IsSpace(b: byte) {
    b == 32 || 9 <= b <= 13
  }

  /** How many of the first bytes are digits. */
  function DigitRun(t: bytes): (n: nat)
    ensures n <= |t| && AllDigits(t[..n])
    ensures n < |t| ==> !IsDigit(t[n])
  {
    if t == [] || !IsDigit(t[0]) then 0 else 1 + DigitRun(t[1..])
  }

  function SkipSpace(t: bytes): bytes {
    if t != [] && IsSpace(t[0]) then SkipSpace(t[1..]) else t
  }

  /** A %d of scanf: an optional sign and at least one digit after any white space; the number
      and what follows it. */
  function ScanInt(t: bytes): Option<(int, bytes)> {
    var u := SkipSpace(t);
    var signed := u != [] && (u[0] == 45 || u[0] == 43);
    var v := if signed then u[1..] else u;
    var n := DigitRun(v);
    if n == 0 then None
    else Some((if signed && u[0] == 45 then 0 - ValueOf(v[..n]) else ValueOf(v[..n]), v[n..]))
  }

  /** A number, and the dot after it. */
  function ScanIntDot(t: bytes): Option<(int, bytes)> {
    match ScanInt(t)
    case None => None
    case Some((v, rest)) => if rest != [] && rest[0] == DOT then Some((v, rest[1..])) else None
  }

  /** str2addr: zero unless four numbers are read; each counts modulo 256. */
  function Str2Addr(t: bytes): nat {
    match ScanIntDot(t)
    case None => 0
    case Some((a, r1)) =>
      match ScanIntDot(r1)
      case None => 0
      case Some((b, r2)) =>
        match ScanIntDot(r2)
        case None => 0
        case Some((c, r3)) =>
          match ScanInt(r3)
          case None => 0
          case Some((d, _)) => Quad(a, b, c, d)
  }

  function Quad(a: int, b: int, c: int, d: int): nat {
    a % 0x100 * 0x100_0000 + b % 0x100 * 0x1_0000 + c % 0x100 * 0x100 + d % 0x100
  }

  lemma {:induction false} DigitRunStops(d: bytes, rest: bytes)
    requires AllDigits(d) && (rest != [] ==> !IsDigit(rest[0]))
    ensures DigitRun(d + rest) == |d|
  {
    if d != [] {
      assert (d + rest)[1..] == d[1..] + rest;
      DigitRunStops(d[1..], rest);
    } else {
      assert d + rest == rest;
    }
  }

  lemma ScansDigits(n: nat, rest: bytes)
    requires rest != [] ==> !IsDigit(rest[0])
    ensures ScanInt(Digits(n) + rest) == Some((n, rest))
  {
    hide Digits, ValueOf;
    var t := Digits(n) + rest;
    DigitsReadBack(n);
    DigitRunStops(Digits(n), rest);
    assert IsDigit(Digits(n)[0]) && t[0] == Digits(n)[0];
    assert t[..|Digits(n)|] == Digits(n) && t[|Digits(n)|..] == rest;
  }

  lemma ScansDigitsDot(n: nat, rest: bytes)
    ensures ScanIntDot(Digits(n) + [DOT] + rest) == Some((n, rest))
  {
    hide ScanInt;
    assert Digits(n) + [DOT] + rest == Digits(n) + ([DOT] + rest);
    ScansDigits(n, [DOT] + rest);
  }

  lemma Str2AddrReads(a: nat, b: nat, c: nat, d: nat)
    ensures Str2Addr(Digits(a) + [DOT] + (Digits(b) + [DOT] + (Digits(c) + [DOT] + Digits(d)))) == Quad(a, b, c, d)
  {
    hide ScanIntDot, ScanInt, Digits, Quad;
    var r3 := Digits(d);
    var r2 := Digits(c) + [DOT] + r3;
    var r1 := Digits(b) + [DOT] + r2;
    ScansDigitsDot(a, r1);
    ScansDigitsDot(b, r2);
    ScansDigitsDot(c, r3);
    assert r3 + [] == r3;
    ScansDigits(d, []);
  }

  /** Reading a printed address gives the address. */
  lemma Str2AddrInvertsIntoaV4(addr: nat)
    requires addr < 0x1_0000_0000
    ensures Str2Addr(Dotted(addr)) == addr
  {
    hide *;
    var a, b, c, d := addr / 0x100_0000, addr / 0x1_0000 % 0x100, addr / 0x100 % 0x100, addr % 0x100;
    QuadOfParts(addr);
    DottedParts(addr);
    Str2AddrReads(a, b, c, d);
  }

  lemma QuadOfParts(addr: nat)
    requires addr < 0x1_0000_0000
    ensures Quad(addr / 0x100_0000, addr / 0x1_0000 % 0x100, addr / 0x100 % 0x100, addr % 0x100) == addr
  {
    var b1, b2, b3 := addr / 0x100, addr / 0x1_0000, addr / 0x100_0000;
    DivTwice(addr);
    QuadOfBytes(b3, b2 % 0x100, b1 % 0x100, addr % 0x100);
    assert b2 == b3 * 0x100 + b2 % 0x100;
    assert b1 == b2 * 0x100 + b1 % 0x100;
  }

  lemma DivTwice(addr: nat)
    ensures addr / 0x1_0000 == addr / 0x100 / 0x100 && addr / 0x100_0000 == addr / 0x1_0000 / 0x100
  {
  }

  lemma QuadOfBytes(a: nat, b: nat, c: nat, d: nat)
    requires a < 0x100 && b < 0x100 && c < 0x100 && d < 0x100
    ensures Quad(a, b, c, d) == ((a * 0x100 + b) * 0x100 + c) * 0x100 + d
  {
  }

  lemma DottedParts(addr: nat)
    requires addr < 0x1_0000_0000
    ensures Dotted(addr)
            == Digits(addr / 0x100_0000) + [DOT]
               + (Digits(addr / 0x1_0000 % 0x100) + [DOT]
                  + (Digits(addr / 0x100 % 0x100) + [DOT] + Digits(addr % 0x100)))
  {
    hide Digits;
  }

  /** 10.0.0.1, in the order it is read. */
  lemma DottedInOrder()
    ensures Dotted(0x0a00_0001) == [49, 48, 46, 48, 46, 48, 46, 49]
    ensures Str2Addr([49, 48, 46, 48, 46, 48, 46, 49]) == 0x0a00_0001
  {
    hide Str2Addr, Digits, Dotted;
    Str2AddrInvertsIntoaV4(0x0a00_0001);
    DottedParts(0x0a00_0001);
    ThreeDigits(10);
    ThreeDigits(0);
    ThreeDigits(1);
  }

  /** Numbers count modulo 256, and with less than four of them nothing is read: 266.0.0.257 is
      10.0.0.1, and 0.0.0, 0.0 and 0 are 0, like the empty text. */
  lemma Str2AddrLoosely()
    ensures Str2Addr([50, 54, 54, 46, 48, 46, 48, 46, 50, 53, 55]) == 0x0a00_0001
    ensures Str2Addr([48, 46, 48, 46, 48]) == Str2Addr([48, 46, 48]) == Str2Addr([48]) == Str2Addr([]) == 0
  {
    hide Str2Addr, Digits, Quad, ScanIntDot, ScanInt;
    SomeDigits();
    Str2AddrReads(266, 0, 0, 257);
    assert Digits(266) + [DOT] + (Digits(0) + [DOT] + (Digits(0) + [DOT] + Digits(257)))
      == [50, 54, 54, 46, 48, 46, 48, 46, 50, 53, 55];
    QuadWraps();
    TooFewNumbers();
  }

  lemma SomeDigits()
    ensures Digits(0) == [48] && Digits(266) == [50, 54, 54] && Digits(257) == [50, 53, 55]
  {
    assert Digits(26) == [50, 54] && Digits(25) == [50, 53];
  }

  lemma QuadWraps()
    ensures Quad(266, 0, 0, 257) == 0x0a00_0001
  {
  }

  lemma TooFewNumbers()
    ensures Str2Addr([48, 46, 48, 46, 48]) == Str2Addr([48, 46, 48]) == Str2Addr([48]) == Str2Addr([]) == 0
  {
    hide Digits, ScanInt, ValueOf;
    SomeDigits();
    ScansDigits(0, []);
    assert [48] + [] == [48];
    ScansDigitsDot(0, [48]);
    assert [48] + [DOT] + [48] == [48, 46, 48];
    ScansDigitsDot(0, [48, 46, 48]);
    assert [48] + [DOT] + [48, 46, 48] == [48, 46, 48, 46, 48];
    NothingScanned();
  }

  lemma NothingScanned()
    ensures ScanInt([]).None?
  {
  }

  /** print_ipv4_addr0. */
  method PrintIpv4Addr0(p: Printbuf, ipv4: nat) returns (grown: nat)
    requires p.Valid() && ipv4 < 0x1_0000_0000
    modifies p, p.buf
    ensures p.Valid() && p.Terminated() && p.Contents() == old(p.Contents()) + Dotted(ipv4)
    ensures p.SameOrMoved() && Lengthened(old(p.RoomNow()), p.RoomNow())
    ensures grown == |Dotted(ipv4)|
  {
    hide Dotted;
    var buf := new byte[17];
    var start := IntoaV4(ipv4, buf);
    grown := buf.Length - start - 1;
    p.MemAppendFast(buf[start..start + grown]);
  }

  // ---------------------------------------------------------------- MAC addresses

  /** The bytes of an address in hexadecimal, with colons between them. */
  function MacText(m: bytes): bytes {
    if m == [] then [] else if |m| == 1 then Hex(m[0]) else Hex(m[0]) + [COLON] + MacText(m[1..])
  }

  /** print_mac0. */
  method PrintMac0(p: Printbuf, m: bytes) returns (grown: nat)
    requires p.Valid() && |m| == 6
    modifies p, p.buf
    ensures p.Valid() && p.Terminated() && p.Contents() == old(p.Contents()) + MacText(m)
    ensures p.SameOrMoved() && Lengthened(old(p.RoomNow()), p.RoomNow())
    ensures grown == 17 == |MacText(m)|
  {
    hide MacText, Hex;
    assert m[0..] == m;
    for i := 0 to 6
      invariant p.Valid() && (i > 0 ==> p.Terminated()) && p.SameOrMoved() && Lengthened(old(p.RoomNow()), p.RoomNow())
      invariant p.Contents() + MacText(m[i..]) == old(p.Contents()) + MacText(m)
    {
      ghost var here := p.Contents();
      p.AppendHex(m[i]);
      if i < 5 { p.MemAppendFast([COLON]); }
      MacTextStep(here, m, i);
    }
    MacTextEnds(p.Contents(), m);
    return 17;
  }

  lemma MacTextStep(here: bytes, m: bytes, i: nat)
    requires |m| == 6 && i < 6
    ensures (if i < 5 then here + Hex(m[i]) + [COLON] else here + Hex(m[i])) + MacText(m[i + 1..])
            == here + MacText(m[i..])
  {
    assert m[i..][1..] == m[i + 1..];
    if i < 5 {
      assert MacText(m[i..]) == Hex(m[i]) + [COLON] + MacText(m[i + 1..]);
    } else {
      assert MacText(m[i + 1..]) == [];
    }
  }

  lemma MacTextEnds(here: bytes, m: bytes)
    requires |m| == 6
    ensures here + MacText(m[6..]) == here && |MacText(m)| == 17
  {
    MacParts(m);
  }

  lemma LastThree(m: bytes)
    requires |m| == 3
    ensures MacText(m) == Hex(m[0]) + [COLON] + Hex(m[1]) + [COLON] + Hex(m[2])
  {
    hide Hex;
    assert MacText(m[1..][1..]) == Hex(m[2]);
    assert MacText(m[1..]) == Hex(m[1]) + [COLON] + Hex(m[2]);
  }

  lemma FirstThree(m: bytes)
    requires |m| == 6
    ensures MacText(m) == Hex(m[0]) + [COLON] + Hex(m[1]) + [COLON] + Hex(m[2]) + [COLON] + MacText(m[3..])
  {
    hide Hex;
    var m1 := m[1..];
    var m2 := m1[1..];
    assert m2[1..] == m[3..];
    assert MacText(m2) == Hex(m[2]) + [COLON] + MacText(m[3..]);
    assert MacText(m1) == Hex(m[1]) + [COLON] + MacText(m2);
    assert MacText(m) == Hex(m[0]) + [COLON] + MacText(m1);
  }

  /** A MAC address written out. */
  lemma MacParts(m: bytes)
    requires |m| == 6
    ensures MacText(m) == Hex(m[0]) + [COLON] + Hex(m[1]) + [COLON] + Hex(m[2]) + [COLON]
                          + (Hex(m[3]) + [COLON] + Hex(m[4]) + [COLON] + Hex(m[5]))
  {
    hide Hex, MacText;
    FirstThree(m);
    LastThree(m[3..]);
  }

  /** 00:1a:2b:3c:4d:5e, in the order it is read. */
  lemma MacInOrder()
    ensures MacText([0, 0x1a, 0x2b, 0x3c, 0x4d, 0x5e])
            == [48, 48, 58, 49, 97, 58, 50, 98, 58, 51, 99, 58, 52, 100, 58, 53, 101]
  {
    hide MacText;
    MacParts([0, 0x1a, 0x2b, 0x3c, 0x4d, 0x5e]);
  }

  predicate IsHexChar(b: byte) {
    48 <= b <= 57 || 97 <= b <= 102 || 65 <= b <= 70
  }

  function HexChar(b: byte): (n: nat)
    requires IsHexChar(b)
    ensures n < 16
  {
    if b <= 57 then b - 48 else if 97 <= b then b - 97 + 10 else b - 65 + 10
  }

  /** The positions of the digits, as mac_atoi lists them. */
  const MAC_POSITIONS: seq<nat> := [0, 1, 3, 4, 6, 7, 9, 10, 12, 13, 15, 16]

  /** All twelve digits are hexadecimal, whatever stands between them. */
  predicate HasHexDigits(t: bytes) {
    |t| >= 17 && forall j | 0 <= j < 12 :: IsHexChar(t[MAC_POSITIONS[j]])
  }

  predicate ValidMac(t: bytes) {
    |t| == 17 && HasHexDigits(t) && t[2] == t[5] == t[8] == t[11] == t[14] == COLON
  }

  const INVALID_MAC: nat := 0xffff_ffff_ffff_ffff

  /** The number of the first `j` digits. */
  function MacValue(t: bytes, j: nat): (v: nat)
    requires HasHexDigits(t) && j <= 12
    ensures v < Pow2(4 * j)
  {
    if j == 0 then 0
    else
      var p := Pow2(4 * (j - 1));
      Pow2Four(4 * (j - 1));
      MacValue(t, j - 1) * 16 + HexAt(t, j - 1)
  }

  /** parse_mac. */
  function ParseMac(t: bytes): nat {
    if !ValidMac(t) then INVALID_MAC else MacNumber(t)
  }

  /** The number of the twelve digits. */
  function MacNumber(t: bytes): nat
    requires HasHexDigits(t)
  {
    HexAt(t, 11) + HexAt(t, 10) * 0x10 + HexAt(t, 9) * 0x100 + HexAt(t, 8) * 0x1000
    + HexAt(t, 7) * 0x1_0000 + HexAt(t, 6) * 0x10_0000 + HexAt(t, 5) * 0x100_0000 + HexAt(t, 4) * 0x1000_0000
    + HexAt(t, 3) * 0x1_0000_0000 + HexAt(t, 2) * 0x10_0000_0000 + HexAt(t, 1) * 0x100_0000_0000
      + HexAt(t, 0) * 0x1000_0000_0000
  }

  function HexAt(t: bytes, j: nat): (n: nat)
    requires HasHexDigits(t) && j < 12
    ensures n < 16
  {
    HexChar(t[MAC_POSITIONS[j]])
  }

  /** A parsed address fits 48 bits, so the failure value is unmistakable. */
  lemma ParseMacFails(t: bytes)
    ensures ParseMac(t) == INVALID_MAC <==> !ValidMac(t)
    ensures ParseMac(t) != INVALID_MAC ==> ParseMac(t) < 0x1_0000_0000_0000
  {
  }

  /** A digit or-ed in below the digits before it. */
  lemma MacPlace(t: bytes, j: nat)
    requires HasHexDigits(t) && j < 12
    ensures Or(Shifted(MacValue(t, j), 4 * (12 - j)), Shifted(HexAt(t, j), 4 * (11 - j)))
            == Shifted(MacValue(t, j + 1), 4 * (11 - j))
  {
    hide *;
    MacValueGrows(t, j);
    assert 4 * (12 - j) == 4 * (11 - j) + 4;
    OrBelow(MacValue(t, j), HexAt(t, j), 4 * (11 - j));
  }

  lemma MacValueGrows(t: bytes, j: nat)
    requires HasHexDigits(t) && j < 12
    ensures MacValue(t, j + 1) == MacValue(t, j) * 16 + HexAt(t, j)
  {
  }

  lemma OrBelow(high: nat, digit: nat, place: nat)
    requires digit < 16
    ensures Or(Shifted(high, place + 4), Shifted(digit, place)) == Shifted(high * 16 + digit, place)
  {
    hide Or, Pow2;
    Pow2Four(place);
    Scaled(high, digit, Pow2(place));
    OrDisjoint(high, digit * Pow2(place), place + 4);
  }

  lemma Scaled(high: nat, digit: nat, p: nat)
    requires digit < 16 && p > 0
    ensures digit * p < 16 * p
    ensures high * (16 * p) + digit * p == (high * 16 + digit) * p
  {
    assert high * (16 * p) == (high * 16) * p;
  }

  /** What mac_atoi makes of any character: one that is no digit counts from 'a', as a signed
      char converted to 64 bits. */
  function LooseDigit(b: byte): nat {
    if 48 <= b <= 57 then b - 48
    else if 65 <= b <= 70 then b - 65 + 10
    else
      var c: int := if b < 128 then b else b - 256;
      if c >= 87 then c - 87 else c - 87 + TWO_64
  }

  /** That is the character less 'a' - 10, in the arithmetic of 64 bits. */
  lemma LooseDigitWraps(b: byte)
    requires !(48 <= b <= 57) && !(65 <= b <= 70)
    ensures LooseDigit(b) == (0x1_0000_0000_0000_0000 + b - (if b < 0x80 then 87 else 343)) % 0x1_0000_0000_0000_0000
  {
  }

  /** The digit `j` in its place, in 64 bits. */
  function InPlace(t: bytes, j: nat): nat
    requires |t| >= 17 && j < 12
  {
    Shifted(LooseDigit(t[MAC_POSITIONS[j]]), 4 * (11 - j)) % TWO_64
  }

  /** The first `j` digits or-ed together. */
  function Together(t: bytes, j: nat): nat
    requires |t| >= 17 && j <= 12
  {
    if j == 0 then 0 else Or(Together(t, j - 1), InPlace(t, j - 1))
  }

  /** mac_atoi: or-s each digit into its place. With hexadecimal digits that is their number, so
      that it agrees with parse_mac on every valid address. */
  method MacAtoi(t: bytes) returns (number: nat)
    requires |t| >= 17
    ensures number == Together(t, 12)
    ensures HasHexDigits(t) ==> number == MacNumber(t)
    ensures ValidMac(t) ==> number == ParseMac(t)
  {
    hide Or, LooseDigit, Shifted, MacNumber, HasHexDigits;
    number := 0;
    for j := 0 to 12
      invariant number == Together(t, j)
    {
      number := Or(number, Shifted(LooseDigit(t[MAC_POSITIONS[j]]), 4 * (11 - j)) % TWO_64);
    }
    if HasHexDigits(t) { TogetherIsNumber(t); }
  }

  lemma TogetherIsNumber(t: bytes)
    requires HasHexDigits(t)
    ensures Together(t, 12) == MacNumber(t)
  {
    hide *;
    TogetherIsShifted(t, 12);
    MacValueIsSum(t);
  }

  lemma {:induction false} TogetherIsShifted(t: bytes, j: nat)
    requires HasHexDigits(t) && j <= 12
    ensures Together(t, j) == Shifted(MacValue(t, j), 4 * (12 - j))
  {
    hide Or, Shifted, MacValue, InPlace, HexAt, HasHexDigits;
    if j == 0 {
      MacNothing(t);
    } else {
      TogetherIsShifted(t, j - 1);
      InPlaceIsDigit(t, j - 1);
      MacPlace(t, j - 1);
    }
  }

  lemma InPlaceIsDigit(t: bytes, j: nat)
    requires HasHexDigits(t) && j < 12
    ensures InPlace(t, j) == Shifted(HexAt(t, j), 4 * (11 - j))
  {
    var b := t[MAC_POSITIONS[j]];
    assert IsHexChar(b);
    assert LooseDigit(b) == HexAt(t, j);
    hide Pow2, LooseDigit, HexAt;
    Pow2Grows(4 * (11 - j), 44);
    SmallShift(HexAt(t, j), Pow2(4 * (11 - j)));
  }

  lemma SmallShift(digit: nat, p: nat)
    requires digit < 16 && p <= Pow2(44)
    ensures digit * p < TWO_64
  {
    FortyFour();
    hide Pow2;
    Increasing(digit, 16, p);
  }

  lemma FortyFour()
    ensures Pow2(44) == 0x1000_0000_0000
  {
    Pow2Four(0);
    Pow2Four(4);
    Pow2Four(8);
    assert Pow2(12) == 0x1000;
    Pow2Four(12);
    Pow2Four(16);
    Pow2Four(20);
    assert Pow2(24) == 0x100_0000;
    hide Pow2;
    Pow2Adds(12, 24);
    Pow2Four(36);
    Pow2Four(40);
  }

  lemma MacNothing(t: bytes)
    requires HasHexDigits(t)
    ensures Shifted(MacValue(t, 0), 48) == 0
  {
  }

  lemma MacValueIsSum(t: bytes)
    requires HasHexDigits(t)
    ensures Shifted(MacValue(t, 12), 0) == MacNumber(t)
  {
    var v4 := ((HexAt(t, 0) * 16 + HexAt(t, 1)) * 16 + HexAt(t, 2)) * 16 + HexAt(t, 3);
    assert MacValue(t, 2) == HexAt(t, 0) * 16 + HexAt(t, 1);
    assert MacValue(t, 4) == v4;
    var v8 := (((v4 * 16 + HexAt(t, 4)) * 16 + HexAt(t, 5)) * 16 + HexAt(t, 6)) * 16 + HexAt(t, 7);
    assert MacValue(t, 6) == (v4 * 16 + HexAt(t, 4)) * 16 + HexAt(t, 5);
    assert MacValue(t, 8) == v8;
    assert MacValue(t, 10) == (v8 * 16 + HexAt(t, 8)) * 16 + HexAt(t, 9);
    assert MacValue(t, 12) == (((v8 * 16 + HexAt(t, 8)) * 16 + HexAt(t, 9)) * 16 + HexAt(t, 10)) * 16 + HexAt(t, 11);
  }

  lemma HexCharInverts(n: nat)
    requires n < 16
    ensures IsHexChar(HexDigit(n)) && HexChar(HexDigit(n)) == n
  {
  }

  function Nibble(m: bytes, j: nat): (n: nat)
    requires |m| == 6 && j < 12
    ensures n < 16
  {
    if j % 2 == 0 then m[j / 2] / 16 else m[j / 2] % 16
  }

  lemma MacTextDigits(m: bytes, j: nat)
    requires |m| == 6 && j < 12
    ensures |MacText(m)| == 17 && MacText(m)[MAC_POSITIONS[j]] == HexDigit(Nibble(m, j))
  {
    hide HexDigit;
    MacParts(m);
  }

  lemma MacTextHasDigits(m: bytes)
    requires |m| == 6
    ensures HasHexDigits(MacText(m))
  {
    MacTextColons(m);
    hide HexDigit, HexChar, IsHexChar, MacText, Nibble;
    var t := MacText(m);
    forall j | 0 <= j < 12 ensures IsHexChar(t[MAC_POSITIONS[j]]) {
      HexCharInverts(Nibble(m, j));
      MacTextDigits(m, j);
    }
  }

  lemma MacTextHex(m: bytes, j: nat)
    requires |m| == 6 && j < 12 && HasHexDigits(MacText(m))
    ensures HexAt(MacText(m), j) == Nibble(m, j)
  {
    hide HexDigit, HexChar, IsHexChar, HasHexDigits, MacText, Nibble;
    HexCharInverts(Nibble(m, j));
    MacTextDigits(m, j);
  }

  lemma MacTextIsValid(m: bytes)
    requires |m| == 6
    ensures ValidMac(MacText(m))
    ensures forall j | 0 <= j < 12 :: HexAt(MacText(m), j) == Nibble(m, j)
  {
    hide MacText, Nibble, HexAt, HasHexDigits;
    MacTextHasDigits(m);
    MacTextColons(m);
    forall j | 0 <= j < 12 ensures HexAt(MacText(m), j) == Nibble(m, j) {
      MacTextHex(m, j);
    }
  }

  lemma MacTextColons(m: bytes)
    requires |m| == 6
    ensures |MacText(m)| == 17
    ensures MacText(m)[2] == MacText(m)[5] == MacText(m)[8] == MacText(m)[11] == MacText(m)[14] == COLON
  {
    hide HexDigit;
    MacParts(m);
  }

  lemma NibblesMakeBytes(m: bytes, i: nat)
    requires |m| == 6 && i < 6
    ensures Nibble(m, 2 * i) * 16 + Nibble(m, 2 * i + 1) == m[i]
  {
  }

  /** Parsing what print_mac0 writes for six bytes gives their number. */
  lemma ParseMacInvertsPrintMac(m: bytes)
    requires |m| == 6
    ensures ValidMac(MacText(m)) && ParseMac(MacText(m)) == Net2Number(m)
  {
    hide MacText, ValidMac, Nibble, HexAt;
    MacTextIsValid(m);
    NibblesMakeBytes(m, 0);
    NibblesMakeBytes(m, 1);
    NibblesMakeBytes(m, 2);
    NibblesMakeBytes(m, 3);
    NibblesMakeBytes(m, 4);
    NibblesMakeBytes(m, 5);
  }
}
