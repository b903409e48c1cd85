/** The abstract state of the DNS cache (src/rb_dns_cache.c): the AVL index, the LRU
    queue and the live, reference-counted entries, with the functions that the methods of
    `DnsCache.Cache` are proved against. Entries are named by a handle type `H`. */
module DnsCacheState {
  import opened Bytes

  type Addr = a: bytes | |a| == 16 witness seq(16, _ => 0)

  /** What one entry holds; `refcnt` counts the index and every outstanding handle. */
  datatype Cell = Cell(addr: Addr, name: bytes, lastChecked: int, refcnt: nat)

  /** `header` is the size of the C struct that precedes the name in memory. */
  datatype Config = Config(maxBytes: nat, timeout: int, header: nat)

  /** `lru` has the most recently used entry first; `cells` are the entries not yet freed. */
  datatype State<H> = State(avl: map<Addr, H>, lru: seq<H>, cells: map<H, Cell>)

  function Size(cfg: Config, c: Cell): nat {
    cfg.header + |c.name| + 1
  }

  // ---------------------------------------------------------------- bytes in use

  /** The bytes memctx reports as out: the sum over all live entries. */
  ghost function LiveBytes<H>(cfg: Config, cells: map<H, Cell>): nat {
    if cells == map[] then 0
    else
      var h :| h in cells;
      Size(cfg, cells[h]) + LiveBytes(cfg, cells - {h})
  }

  ghost function SizeOf<H>(cfg: Config, cells: map<H, Cell>, h: H): nat {
    if h in cells then Size(cfg, cells[h]) else 0
  }

  /** The bytes of the entries of `q`. */
  ghost function SeqBytes<H>(cfg: Config, cells: map<H, Cell>, q: seq<H>): nat {
    if q == [] then 0 else SizeOf(cfg, cells, q[0]) + SeqBytes(cfg, cells, q[1..])
  }

  /** The bytes of the entries of `q` that somebody still holds. */
  ghost function HeldBytes<H>(cfg: Config, cells: map<H, Cell>, q: seq<H>, holders: multiset<H>): nat {
    if q == [] then 0
    else (if holders[q[0]] > 0 then SizeOf(cfg, cells, q[0]) else 0) + HeldBytes(cfg, cells, q[1..], holders)
  }

  lemma {:induction false} LiveBytesRemove<H>(cfg: Config, cells: map<H, Cell>, h: H)
    requires h in cells
    ensures LiveBytes(cfg, cells) == Size(cfg, cells[h]) + LiveBytes(cfg, cells - {h})
    decreases |cells|
  {
    var g :| g in cells && LiveBytes(cfg, cells) == Size(cfg, cells[g]) + LiveBytes(cfg, cells - {g});
    if g != h {
      assert |cells - {g}| == |cells| - 1 by { assert (cells - {g}).Keys == cells.Keys - {g}; }
      assert |cells - {h}| == |cells| - 1 by { assert (cells - {h}).Keys == cells.Keys - {h}; }
      LiveBytesRemove(cfg, cells - {g}, h);
      LiveBytesRemove(cfg, cells - {h}, g);
      assert cells - {g} - {h} == cells - {h} - {g};
    }
  }

  lemma LiveBytesAdd<H>(cfg: Config, cells: map<H, Cell>, h: H, c: Cell)
    requires h !in cells
    ensures LiveBytes(cfg, cells[h := c]) == Size(cfg, c) + LiveBytes(cfg, cells)
  {
    LiveBytesRemove(cfg, cells[h := c], h);
    assert cells[h := c] - {h} == cells;
  }

  lemma LiveBytesSameSize<H>(cfg: Config, cells: map<H, Cell>, h: H, c: Cell)
    requires h in cells && Size(cfg, c) == Size(cfg, cells[h])
    ensures LiveBytes(cfg, cells[h := c]) == LiveBytes(cfg, cells)
  {
    LiveBytesRemove(cfg, cells[h := c], h);
    LiveBytesRemove(cfg, cells, h);
    assert cells[h := c] - {h} == cells - {h};
  }

  // ---------------------------------------------------------------- operations

  /** Unlinking `h` from the tail queue. */
  ghost function Without<H>(q: seq<H>, h: H): (r: seq<H>) {
    if q == [] then [] else if q[0] == h then q[1..] else [q[0]] + Without(q[1..], h)
  }

  /** Dropping one reference; the entry goes away with the last one. */
  ghost function Decref<H>(s: State<H>, h: H): State<H>
    requires h in s.cells && s.cells[h].refcnt > 0
  {
    var c := s.cells[h];
    s.(cells := if c.refcnt == 1 then s.cells - {h} else s.cells[h := c.(refcnt := c.refcnt - 1)])
  }

  /** What the AVL says of one address. */
  ghost predicate AvlEntry<H>(s: State<H>, a: Addr) {
    a in s.avl ==> s.avl[a] in s.cells && s.cells[s.avl[a]].addr == a && s.avl[a] in s.lru
  }

  /** What being in the LRU says of one entry. */
  ghost predicate LruEntry<H>(s: State<H>, h: H) {
    h in s.lru ==> h in s.cells && s.cells[h].addr in s.avl && s.avl[s.cells[h].addr] == h
  }

  /** The AVL and the LRU hold the same live entries, each under its own address and once. */
  ghost predicate Agree<H>(s: State<H>) {
    && (forall a {:trigger AvlEntry(s, a)} | a in s.avl :: AvlEntry(s, a))
    && (forall h {:trigger LruEntry(s, h)} | h in s.lru :: LruEntry(s, h))
    && (forall i, j | 0 <= i < j < |s.lru| :: s.lru[i] != s.lru[j])
    && (forall h | h in s.cells :: s.cells[h].refcnt > 0)
  }

  lemma MakeAgree<H>(s: State<H>)
    requires forall a | a in s.avl :: s.avl[a] in s.cells && s.cells[s.avl[a]].addr == a && s.avl[a] in s.lru
    requires forall h | h in s.lru :: h in s.cells && s.cells[h].addr in s.avl && s.avl[s.cells[h].addr] == h
    requires forall i, j | 0 <= i < j < |s.lru| :: s.lru[i] != s.lru[j]
    requires forall h | h in s.cells :: s.cells[h].refcnt > 0
    ensures Agree(s)
  {
  }

  lemma AgreeFacts<H>(s: State<H>)
    requires Agree(s)
    ensures forall a | a in s.avl :: s.avl[a] in s.cells && s.cells[s.avl[a]].addr == a && s.avl[a] in s.lru
    ensures forall h | h in s.lru :: h in s.cells && s.cells[h].addr in s.avl && s.avl[s.cells[h].addr] == h
  {
    forall a | a in s.avl ensures s.avl[a] in s.cells && s.cells[s.avl[a]].addr == a && s.avl[a] in s.lru {
      assert AvlEntry(s, a);
    }
    forall h | h in s.lru ensures h in s.cells && s.cells[h].addr in s.avl && s.avl[s.cells[h].addr] == h {
      assert LruEntry(s, h);
    }
  }

  /** Reference counting: one for the index, one for every holder, and nothing else. */
  ghost predicate Counted<H>(s: State<H>, holders: multiset<H>) {
    && (forall h | h in s.cells :: s.cells[h].refcnt == (if h in s.lru then 1 else 0) + holders[h])
    && (forall h | h in holders :: h in s.cells)
  }

  /** Dropping the least recently used entry from both structures. */
  ghost function Evict<H>(s: State<H>): State<H>
    requires Agree(s) && s.lru != []
  {
    var h := s.lru[|s.lru| - 1];
    assert LruEntry(s, h);
    Decref(State(s.avl - {s.cells[h].addr}, s.lru[..|s.lru| - 1], s.cells), h)
  }

  /** `t` is `s` after the loss of some least recently used entries. */
  ghost predicate Shrunk<H>(s: State<H>, t: State<H>) {
    && t.lru <= s.lru
    && (forall h | h in t.cells :: h in s.cells && s.cells[h].(refcnt := 0) == t.cells[h].(refcnt := 0))
    && (forall h | h in t.lru :: h in s.cells && h in t.cells && t.cells[h] == s.cells[h])
    && (forall a | a in t.avl :: a in s.avl && s.avl[a] == t.avl[a])
  }

  ghost function VictimSize<H>(cfg: Config, s: State<H>): nat
    requires Agree(s) && s.lru != []
  {
    assert LruEntry(s, s.lru[|s.lru| - 1]);
    Size(cfg, s.cells[s.lru[|s.lru| - 1]])
  }

  lemma ShrunkReflexive<H>(s: State<H>)
    requires Agree(s)
    ensures Shrunk(s, s)
  {
    AgreeFacts(s);
  }

  lemma ShrunkTransitive<H>(s: State<H>, t: State<H>, u: State<H>)
    requires Shrunk(s, t) && Shrunk(t, u)
    ensures Shrunk(s, u)
  {
    forall h | h in u.lru ensures h in s.cells && h in u.cells && u.cells[h] == s.cells[h] {
      assert h in t.lru;
    }
  }

  lemma EvictAgrees<H>(s: State<H>)
    requires Agree(s) && s.lru != []
    ensures Agree(Evict(s))
    ensures Shrunk(s, Evict(s))
  {
    AgreeFacts(s);
    var h := s.lru[|s.lru| - 1];
    var t := Evict(s);
    assert h !in t.lru;
    forall g | g in t.lru ensures g in t.cells && t.cells[g] == s.cells[g] && t.cells[g].addr in t.avl
      && t.avl[t.cells[g].addr] == g {
      assert g in s.lru;
    }
    forall a | a in t.avl ensures t.avl[a] in t.cells && t.cells[t.avl[a]].addr == a && t.avl[a] in t.lru {
      assert s.avl[a] in s.lru && s.avl[a] != h;
      var i :| 0 <= i < |s.lru| && s.lru[i] == s.avl[a];
      assert t.lru[i] == s.avl[a];
    }
    MakeAgree(t);
  }

  /** The eviction loop. `want` is the byte count read once before the loop plus the size
      of the new entry, and `freed` counts victims whether or not their memory went away.
      The flag says whether room was found. */
  ghost function MakeRoom<H>(cfg: Config, s: State<H>, want: nat, freed: nat): (r: (State<H>, bool))
    requires Agree(s)
    ensures Agree(r.0)
    decreases |s.lru|
  {
    if want <= cfg.maxBytes + freed then (s, true)
    else if s.lru == [] then (s, false)
    else
      EvictAgrees(s);
      MakeRoom(cfg, Evict(s), want, freed + VictimSize(cfg, s))
  }

  /** Putting the new entry `p` at the head of the LRU and into the AVL, which hands back
      the entry it replaced, if any. */
  ghost function Insert<H>(s: State<H>, p: H, addr: Addr, name: bytes, now: int): State<H>
    requires Agree(s) && p !in s.cells
  {
    var cells := s.cells[p := Cell(addr, name, now, 2)];
    if addr in s.avl then
      var o := s.avl[addr];
      assert AvlEntry(s, addr);
      Decref(State(s.avl[addr := p], Without([p] + s.lru, o), cells), o)
    else
      State(s.avl[addr := p], [p] + s.lru, cells)
  }

  /** `p` is the storage the allocator hands out when the entry fits. */
  ghost function Save<H>(cfg: Config, s: State<H>, p: H, addr: Addr, name: bytes, now: int): (State<H>, Option<H>)
    requires Agree(s) && p !in s.cells
  {
    var room := MakeRoom(cfg, s, LiveBytes(cfg, s.cells) + cfg.header + |name| + 1, 0);
    MakeRoomShrinks(cfg, s, LiveBytes(cfg, s.cells) + cfg.header + |name| + 1, 0);
    if room.1 then (Insert(room.0, p, addr, name, now), Some(p)) else (room.0, None)
  }

  /** A lookup: an expired entry is dropped, a fresh one moves to the head and is held. */
  ghost function Get<H>(cfg: Config, s: State<H>, addr: Addr, now: int): (State<H>, Option<H>)
    requires Agree(s)
  {
    if addr !in s.avl then (s, None)
    else
      var h := s.avl[addr];
      assert AvlEntry(s, addr);
      var c := s.cells[h];
      var rest := Without(s.lru, h);
      if now - c.lastChecked > cfg.timeout then
        (Decref(State(s.avl - {addr}, rest, s.cells), h), None)
      else
        (State(s.avl, [h] + rest, s.cells[h := c.(refcnt := c.refcnt + 1)]), Some(h))
  }

  // ---------------------------------------------------------------- unlinking

  lemma {:induction false} WithoutMembers<H>(q: seq<H>, h: H)
    requires forall i, j | 0 <= i < j < |q| :: q[i] != q[j]
    ensures h !in Without(q, h)
    ensures forall g :: g in Without(q, h) <==> g in q && g != h
    ensures forall i, j | 0 <= i < j < |Without(q, h)| :: Without(q, h)[i] != Without(q, h)[j]
  {
    if q != [] {
      assert q == [q[0]] + q[1..];
      if q[0] != h {
        WithoutMembers(q[1..], h);
        assert q[0] !in Without(q[1..], h);
      }
    }
  }

  lemma {:induction false} SeqBytesFrame<H>(cfg: Config, c1: map<H, Cell>, c2: map<H, Cell>, q: seq<H>)
    requires forall h | h in q :: SizeOf(cfg, c1, h) == SizeOf(cfg, c2, h)
    ensures SeqBytes(cfg, c1, q) == SeqBytes(cfg, c2, q)
  {
    if q != [] { SeqBytesFrame(cfg, c1, c2, q[1..]); }
  }

  lemma {:induction false} HeldBytesFrame<H>(cfg: Config, c1: map<H, Cell>, c2: map<H, Cell>, q: seq<H>,
      holders: multiset<H>)
    requires forall h | h in q :: SizeOf(cfg, c1, h) == SizeOf(cfg, c2, h)
    ensures HeldBytes(cfg, c1, q, holders) == HeldBytes(cfg, c2, q, holders)
  {
    if q != [] { HeldBytesFrame(cfg, c1, c2, q[1..], holders); }
  }

  lemma {:induction false} SeqBytesConcat<H>(cfg: Config, cells: map<H, Cell>, p: seq<H>, q: seq<H>)
    ensures SeqBytes(cfg, cells, p + q) == SeqBytes(cfg, cells, p) + SeqBytes(cfg, cells, q)
  {
    if p == [] {
      assert p + q == q;
    } else {
      assert (p + q)[1..] == p[1..] + q;
      SeqBytesConcat(cfg, cells, p[1..], q);
    }
  }

  lemma {:induction false} HeldBytesConcat<H>(cfg: Config, cells: map<H, Cell>, p: seq<H>, q: seq<H>,
      holders: multiset<H>)
    ensures HeldBytes(cfg, cells, p + q, holders)
              == HeldBytes(cfg, cells, p, holders) + HeldBytes(cfg, cells, q, holders)
  {
    if p == [] {
      assert p + q == q;
    } else {
      assert (p + q)[1..] == p[1..] + q;
      HeldBytesConcat(cfg, cells, p[1..], q, holders);
    }
  }

  lemma {:induction false} SeqBytesWithout<H>(cfg: Config, cells: map<H, Cell>, q: seq<H>, h: H)
    requires h in q
    ensures SeqBytes(cfg, cells, q) == SizeOf(cfg, cells, h) + SeqBytes(cfg, cells, Without(q, h))
  {
    if q[0] != h {
      SeqBytesWithout(cfg, cells, q[1..], h);
      assert Without(q, h)[1..] == Without(q[1..], h);
    }
  }

  /** Indexed entries are live, so they never account for more than the live bytes;
      when every live entry is indexed the two counts are the same. */
  lemma {:induction false} IndexedWithinLive<H>(cfg: Config, cells: map<H, Cell>, q: seq<H>)
    requires forall h | h in q :: h in cells
    requires forall i, j | 0 <= i < j < |q| :: q[i] != q[j]
    ensures SeqBytes(cfg, cells, q) <= LiveBytes(cfg, cells)
    ensures (forall h | h in cells :: h in q) ==> SeqBytes(cfg, cells, q) == LiveBytes(cfg, cells)
  {
    if q == [] {
      if forall h | h in cells :: h in q {
        assert cells == map[] by { assert forall h :: h !in cells; }
      }
    } else {
      var rest := cells - {q[0]};
      LiveBytesRemove(cfg, cells, q[0]);
      IndexedWithinLive(cfg, rest, q[1..]);
      SeqBytesFrame(cfg, rest, cells, q[1..]);
      if forall h | h in cells :: h in q {
        forall h | h in rest ensures h in q[1..] {
          assert h in q && h != q[0];
        }
      }
    }
  }

  // ---------------------------------------------------------------- the eviction loop

  /** Room is made by dropping a tail of the LRU and nothing else. */
  lemma {:induction false} MakeRoomShrinks<H>(cfg: Config, s: State<H>, want: nat, freed: nat)
    requires Agree(s)
    ensures Shrunk(s, MakeRoom(cfg, s, want, freed).0)
    decreases |s.lru|
  {
    hide Agree, Shrunk;
    if want > cfg.maxBytes + freed && s.lru != [] {
      EvictAgrees(s);
      MakeRoomShrinks(cfg, Evict(s), want, freed + VictimSize(cfg, s));
      ShrunkTransitive(s, Evict(s), MakeRoom(cfg, Evict(s), want, freed + VictimSize(cfg, s)).0);
    } else {
      ShrunkReflexive(s);
    }
  }
}
