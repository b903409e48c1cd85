/** Reading and writing network byte order (src/util.c, src/netflow.h). */
module Wire {
  import opened Bytes

  /** The byte at offset `i` of the packet's storage. A malformed packet makes the dissector
      look past its end; the model reads zeros there. */
  function At(m: bytes, i: nat): byte {
    if i < |m| then m[i] else 0
  }

  function U16(m: bytes, i: nat): (n: nat)
    ensures n < 0x1_0000
  {
    At(m, i) * 0x100 + At(m, i + 1)
  }

  function U32(m: bytes, i: nat): (n: nat)
    ensures n < 0x1_0000_0000
  {
    U16(m, i) * 0x1_0000 + U16(m, i + 2)
  }

  /** `len` bytes of storage from offset `i`. */
  function Slice(m: bytes, i: nat, len: nat): (s: bytes)
    ensures |s| == len
  {
    seq<byte>(len, (k: nat) => At(m, i + k))
  }

  function Put16(n: nat): (s: bytes)
    requires n < 0x1_0000
    ensures |s| == 2
  {
    [n / 0x100, n % 0x100]
  }

  function Put32(n: nat): (s: bytes)
    requires n < 0x1_0000_0000
    ensures |s| == 4
  {
    Put16(n / 0x1_0000) + Put16(n % 0x1_0000)
  }

  /** htonll. */
  function Put64(n: nat): (s: bytes)
    requires n < 0x1_0000_0000_0000_0000
    ensures |s| == 8
  {
    Put32(n / 0x1_0000_0000) + Put32(n % 0x1_0000_0000)
  }

  lemma Net2NumberInvertsPut64(n: nat)
    requires n < 0x1_0000_0000_0000_0000
    ensures Net2Number(Put64(n)) == n
  {
    var s, high, low := Put64(n), n / 0x1_0000_0000, n % 0x1_0000_0000;
    assert s[0..4] == Put32(high) && s[4..8] == Put32(low);
    assert U32(s, 0) == high by { assert U16(s, 0) == high / 0x1_0000 && U16(s, 2) == high % 0x1_0000; }
    assert U32(s, 4) == low by { assert U16(s, 4) == low / 0x1_0000 && U16(s, 6) == low % 0x1_0000; }
  }

  /** The big-endian value of a byte string. */
  function BigEndian(s: bytes): nat {
    if s == [] then 0 else BigEndian(s[..|s| - 1]) * 0x100 + s[|s| - 1]
  }

  /** net2number: big-endian numbers of 1, 2, 4, 6 and 8 bytes; any other size reads as 0. */
  function Net2Number(s: bytes): (n: nat)
    ensures n < 0x1_0000_0000_0000_0000
  {
    match |s|
    case 1 => s[0]
    case 2 => U16(s, 0)
    case 4 => U32(s, 0)
    case 6 => U16(s, 0) * 0x1_0000_0000 + U32(s, 2)
    case 8 => U32(s, 0) * 0x1_0000_0000 + U32(s, 4)
    case _ => 0
  }

  /** net2number is the big-endian value for the sizes it knows, and zero for all others. */
  lemma {:induction false} Net2NumberBigEndian(s: bytes)
    ensures |s| in {1, 2, 4, 6, 8} ==> Net2Number(s) == BigEndian(s)
    ensures |s| !in {1, 2, 4, 6, 8} ==> Net2Number(s) == 0
  {
    if |s| == 1 {
      assert BigEndian(s) == BigEndian(s[..0]) * 0x100 + s[0];
    } else if |s| == 2 {
      BigEndianLastTwo(s);
    } else if |s| == 4 {
      BigEndianLastFour(s);
    } else if |s| == 6 {
      BigEndianLastFour(s);
      BigEndianLastTwo(s[..2]);
    } else if |s| == 8 {
      BigEndianLastFour(s);
      BigEndianLastFour(s[..4]);
    }
  }

  lemma BigEndianLastTwo(s: bytes)
    requires |s| >= 2
    ensures BigEndian(s) == BigEndian(s[..|s| - 2]) * 0x1_0000 + U16(s, |s| - 2)
  {
    var front := s[..|s| - 1];
    assert BigEndian(s) == BigEndian(front) * 0x100 + s[|s| - 1];
    assert BigEndian(front) == BigEndian(front[..|front| - 1]) * 0x100 + front[|front| - 1];
    assert front[..|front| - 1] == s[..|s| - 2];
  }

  lemma BigEndianLastFour(s: bytes)
    requires |s| >= 4
    ensures BigEndian(s) == BigEndian(s[..|s| - 4]) * 0x1_0000_0000 + U32(s, |s| - 4)
  {
    hide BigEndian;
    var front := s[..|s| - 2];
    BigEndianLastTwo(s);
    BigEndianLastTwo(front);
    assert front[..|front| - 2] == s[..|s| - 4];
  }

  // ---------------------------------------------------------------- finding what was written

  /** The storage holds `s` at offset `i`. */
  ghost predicate Holds(m: bytes, i: nat, s: bytes) {
    i + |s| <= |m| && m[i..i + |s|] == s
  }

  lemma HoldsParts(m: bytes, i: nat, s: bytes, t: bytes)
    requires Holds(m, i, s + t)
    ensures Holds(m, i, s) && Holds(m, i + |s|, t)
  {
    assert m[i..i + |s|] == m[i..i + |s + t|][..|s|] == s;
    assert m[i + |s|..i + |s| + |t|] == m[i..i + |s + t|][|s|..] == t;
  }

  lemma HoldsAt(m: bytes, i: nat, s: bytes, k: nat)
    requires Holds(m, i, s) && k < |s|
    ensures At(m, i + k) == s[k]
  {
    assert m[i + k] == m[i..i + |s|][k];
  }

  lemma HoldsSlice(m: bytes, i: nat, s: bytes)
    requires Holds(m, i, s)
    ensures Slice(m, i, |s|) == s
  {
    forall k | 0 <= k < |s| ensures Slice(m, i, |s|)[k] == s[k] {
      HoldsAt(m, i, s, k);
    }
  }

  lemma Holds16(m: bytes, i: nat, n: nat)
    requires n < 0x1_0000 && Holds(m, i, Put16(n))
    ensures U16(m, i) == n
  {
    HoldsAt(m, i, Put16(n), 0);
    HoldsAt(m, i, Put16(n), 1);
  }

  lemma Holds32(m: bytes, i: nat, n: nat)
    requires n < 0x1_0000_0000 && Holds(m, i, Put32(n))
    ensures U32(m, i) == n
  {
    HoldsParts(m, i, Put16(n / 0x1_0000), Put16(n % 0x1_0000));
    Holds16(m, i, n / 0x1_0000);
    Holds16(m, i + 2, n % 0x1_0000);
  }
}
