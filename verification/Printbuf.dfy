/** The growable line buffer (src/printbuf.c, src/printbuf.h): appending refines sequence
    append, and doubling keeps both the capacity and the copying in proportion. */
module Printbuf {
  import opened Bytes

  const FIRST_SIZE: nat := 2048

  // ---------------------------------------------------------------- how the capacity moves

  /** A buffer's length and capacity, the longest it has been, and the bytes its
      reallocations have copied. */
  datatype Room = Room(len: nat, size: nat, peak: nat, copied: nat)

  function Max(a: nat, b: nat): nat {
    if a < b then b else a
  }

  const NEW_ROOM: Room := Room(0, FIRST_SIZE, 0, 0)

  predicate Grows(r: Room, n: nat) {
    r.len + n >= r.size
  }

  /** Appending `n` bytes. */
  function Appended(r: Room, n: nat): Room {
    Room(r.len + n,
         if Grows(r, n) then Max(2 * r.size, r.len + n + 9) else r.size,
         Max(r.peak, r.len + n),
         if Grows(r, n) then r.copied + r.size else r.copied)
  }

  /** From `r` to `s`, the capacity changed exactly if the contents outgrew it. */
  ghost predicate Stretched(r: Room, s: Room) {
    r.peak <= s.peak && r.size <= s.size && (s.size == r.size <==> s.peak < r.size)
  }

  /** The same, and nothing was cut back. */
  ghost predicate Lengthened(r: Room, s: Room) {
    Stretched(r, s) && r.len <= s.len && s.peak == Max(r.peak, s.len)
  }

  lemma NotLengthened(r: Room)
    requires Proportionate(r)
    ensures Lengthened(r, r) && Stretched(r, r)
  {
  }

  lemma StretchedTwice(r: Room, s: Room, t: Room)
    requires Stretched(r, s) && Stretched(s, t)
    ensures Stretched(r, t) && r.size <= s.size <= t.size
  {
  }

  /** Appending and cutting back may leave the buffer larger, but no longer. */
  lemma LengthenedThenCut(r: Room, s: Room)
    requires Lengthened(r, s)
    ensures r.len <= s.len && Stretched(r, CutBack(s, r.len))
  {
  }

  lemma LengthenedIsStretched(r: Room, s: Room)
    requires Lengthened(r, s)
    ensures Stretched(r, s)
  {
  }

  /** Appending moves the contents exactly when they no longer fit. */
  lemma LengthenedMoves(r: Room, s: Room)
    requires Proportionate(r) && Lengthened(r, s)
    ensures s.size == r.size <==> s.len < r.size
  {
  }

  lemma LengthenedTwice(r: Room, s: Room, t: Room)
    requires Lengthened(r, s) && Lengthened(s, t)
    ensures Lengthened(r, t) && Stretched(r, t) && r.size <= s.size <= t.size
  {
  }

  /** Cutting the buffer back to `k` bytes. */
  function CutBack(r: Room, k: nat): Room {
    r.(len := k)
  }

  datatype Edit = Append(n: nat) | Cut(k: nat)

  /** A buffer after a list of edits; a cut can only shorten. */
  function After(edits: seq<Edit>): Room {
    if edits == [] then NEW_ROOM
    else
      var r := After(edits[..|edits| - 1]);
      match edits[|edits| - 1]
      case Append(n) => Appended(r, n)
      case Cut(k) => if k <= r.len then CutBack(r, k) else r
  }

  ghost predicate Proportionate(r: Room) {
    && r.len <= r.peak < r.size && FIRST_SIZE <= r.size
    && r.size <= Max(FIRST_SIZE, 2 * r.peak)
    && r.copied + FIRST_SIZE <= r.size
  }

  /** In every reachable state the capacity is at most the first one or twice the longest the
      buffer has been, there is room for the terminator, and all reallocations together have
      copied less than the capacity. */
  lemma {:induction false} AlwaysProportionate(edits: seq<Edit>)
    ensures Proportionate(After(edits))
  {
    if edits != [] {
      AlwaysProportionate(edits[..|edits| - 1]);
    }
  }

  /** A buffer that never gets to its first capacity never moves. */
  lemma {:induction false} ShortLinesNeverMove(edits: seq<Edit>)
    ensures After(edits).peak < FIRST_SIZE <==> After(edits).size == FIRST_SIZE
  {
    AlwaysProportionate(edits);
    if edits != [] {
      ShortLinesNeverMove(edits[..|edits| - 1]);
      AlwaysProportionate(edits[..|edits| - 1]);
    }
  }

  /** The capacity of a new buffer after appending `n` bytes: the first one, its double, or as
      much as is needed and nine bytes more. */
  lemma FirstGrowth(n: nat)
    ensures After([Append(n)]).size == if n < 2048 then 2048 else if n <= 4087 then 4096 else n + 9
  {
    assert [Append(n)][..0] == [];
    assert After([]) == NEW_ROOM;
  }

  // ---------------------------------------------------------------- the buffer

  class Printbuf {
    var buf: array<byte>
    var bpos: nat
    var size: nat
    ghost var peak: nat
    ghost var copied: nat

    ghost predicate Valid()
      reads this
    {
      buf.Length == size && Proportionate(RoomNow())
    }

    ghost function RoomNow(): Room
      reads this
    {
      Room(bpos, size, peak, copied)
    }

    ghost function Contents(): bytes
      reads this, buf
      requires Valid()
    {
      buf[..bpos]
    }

    /** The byte after the contents is zero; a new buffer has no terminator yet. */
    ghost predicate Terminated()
      reads this, buf
      requires Valid()
    {
      buf[bpos] == 0
    }

    /** The storage is the old one unless its size changed. */
    twostate predicate SameOrMoved()
      reads this
    {
      if size == old(size) then buf == old(buf) else fresh(buf)
    }

    constructor ()
      ensures Valid() && fresh(buf) && Contents() == [] && RoomNow() == NEW_ROOM
    {
      buf := new byte[FIRST_SIZE];
      size := FIRST_SIZE;
      bpos := 0;
      peak := 0;
      copied := 0;
    }

    /** printbuf_extend: at least `min` bytes of storage, and at least twice as much as before.
        The reallocation is modelled as a move. */
    method Extend(min: nat)
      requires Valid()
      modifies `buf, `size, `copied
      ensures buf.Length == size && bpos < size && old(size) <= size && buf[..old(size)] == old(buf[..])
      ensures if old(size) >= min then buf == old(buf) && size == old(size) && copied == old(copied)
              else fresh(buf) && size == Max(2 * old(size), min + 8) && copied == old(copied) + old(size)
    {
      if size >= min {
        assert buf[..size] == buf[..];
        return;
      }
      var newSize := Max(size * 2, min + 8);
      var t := new byte[newSize];
      for i := 0 to size
        invariant t[..i] == buf[..i]
        modifies t
      {
        t[i] := buf[i];
      }
      assert t[..size] == buf[..];
      copied := copied + size;
      size := newSize;
      buf := t;
    }

    method Copy(data: bytes)
      requires buf.Length == size && bpos + |data| < size
      modifies this`bpos, this`peak, buf
      ensures bpos == old(bpos) + |data| && peak == Max(old(peak), bpos)
      ensures buf[..bpos] == old(buf[..bpos]) + data && buf[bpos] == 0
    {
      var start := bpos;
      for i := 0 to |data|
        invariant buf[..start] == old(buf[..bpos])
        invariant buf[start..start + i] == data[..i]
        modifies buf
      {
        buf[start + i] := data[i];
        assert buf[start..start + i + 1] == buf[start..start + i] + [data[i]];
      }
      bpos := bpos + |data|;
      peak := Max(peak, bpos);
      buf[bpos] := 0;
      assert buf[..bpos] == buf[..start] + buf[start..start + |data|];
    }

    /** printbuf_memappend. */
    method MemAppend(data: bytes)
      requires Valid()
      modifies this, buf
      ensures Valid() && Terminated() && Contents() == old(Contents()) + data
      ensures RoomNow() == Appended(old(RoomNow()), |data|)
      ensures SameOrMoved() && Lengthened(old(RoomNow()), RoomNow())
    {
      if size <= bpos + |data| + 1 {
        Extend(bpos + |data| + 1);
        assert buf[..bpos] == old(buf[..size])[..bpos];
      }
      Copy(data);
    }

    /** printbuf_memappend_fast: copies in place when there is room, and otherwise does the same
        as the slow function. */
    method MemAppendFast(data: bytes)
      requires Valid()
      modifies this, buf
      ensures Valid() && Terminated() && Contents() == old(Contents()) + data
      ensures RoomNow() == Appended(old(RoomNow()), |data|)
      ensures SameOrMoved() && Lengthened(old(RoomNow()), RoomNow())
    {
      if size - bpos > |data| {
        Copy(data);
      } else {
        MemAppend(data);
      }
    }

    /** Rolls the buffer back to a length it had. */
    method Truncate(k: nat)
      requires Valid() && k <= bpos
      modifies this`bpos, buf
      ensures Valid() && Terminated() && Contents() == old(Contents())[..k]
      ensures RoomNow() == CutBack(old(RoomNow()), k)
    {
      assert buf[..k] == buf[..bpos][..k];
      bpos := k;
      buf[bpos] := 0;
    }

    /** printbuf_memappend_fast_n16: two hexadecimal digits. */
    method AppendHex(value: byte)
      requires Valid()
      modifies this, buf
      ensures Valid() && Terminated() && Contents() == old(Contents()) + Hex(value)
      ensures SameOrMoved() && Lengthened(old(RoomNow()), RoomNow())
    {
      hide Appended, Grows, Lengthened, Stretched;
      ghost var r0 := RoomNow();
      MemAppendFast([HexDigit(value / 16)]);
      ghost var r1 := RoomNow();
      MemAppendFast([HexDigit(value % 16)]);
      LengthenedTwice(r0, r1, RoomNow());
    }
  }

  // ---------------------------------------------------------------- hexadecimal

  function HexDigit(n: nat): byte
    requires n < 16
  {
    if n < 10 then 48 + n else 87 + n
  }

  function Hex(value: byte): bytes {
    [HexDigit(value / 16), HexDigit(value % 16)]
  }

  /** 0 to 9 and a to f. */
  const HEX_DIGITS: bytes := [48, 49, 50, 51, 52, 53, 54, 55, 56, 57, 97, 98, 99, 100, 101, 102]

  lemma HexDigitFromTable(n: nat)
    requires n < 16
    ensures HexDigit(n) == HEX_DIGITS[n]
  {
  }

  /** The digits are those of the table, in lower case, the high one first. */
  lemma HexFromTable(high: nat, low: nat)
    requires high < 16 && low < 16
    ensures Hex(16 * high + low) == [HEX_DIGITS[high], HEX_DIGITS[low]]
  {
    hide HexDigit;
    HexDigitFromTable(high);
    HexDigitFromTable(low);
    assert (16 * high + low) / 16 == high && (16 * high + low) % 16 == low;
  }
}
