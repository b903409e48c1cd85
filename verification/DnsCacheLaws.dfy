/** What every operation of the DNS cache keeps, and the bounds on its memory. */
module DnsCacheLaws {
  import opened Bytes
  import opened DnsCacheState

  /** The bytes of the entries that the index can reach. */
  ghost function IndexedBytes<H>(cfg: Config, s: State<H>): nat
    requires Agree(s)
  {
    SeqBytes(cfg, s.cells, s.lru)
  }

  ghost function Victims<H>(s: State<H>, t: State<H>): seq<H>
    requires t.lru <= s.lru
  {
    s.lru[|t.lru|..]
  }

  // ---------------------------------------------------------------- releasing references

  /** A release by a holder: the count stays exact, and the entry is freed exactly when it
      was not indexed and this was the last holder. */
  lemma ReleaseKeeps<H>(cfg: Config, s: State<H>, holders: multiset<H>, h: H)
    requires Agree(s) && Counted(s, holders) && holders[h] > 0
    ensures var t := Decref(s, h);
            && Agree(t) && Counted(t, holders - multiset{h})
            && t.lru == s.lru && t.avl == s.avl
            && (h !in t.cells <==> h !in s.lru && holders[h] == 1)
            && (forall g | g in s.cells && g != h :: g in t.cells && t.cells[g] == s.cells[g])
            && LiveBytes(cfg, t.cells) <= LiveBytes(cfg, s.cells)
            && IndexedBytes(cfg, t) == IndexedBytes(cfg, s)
  {
    AgreeFacts(s);
    var t := Decref(s, h);
    if s.cells[h].refcnt == 1 {
      LiveBytesRemove(cfg, s.cells, h);
    } else {
      LiveBytesSameSize(cfg, s.cells, h, t.cells[h]);
    }
    SeqBytesFrame(cfg, s.cells, t.cells, s.lru);
    MakeAgree(t);
  }

  // ---------------------------------------------------------------- making room

  lemma EvictEffects<H>(cfg: Config, s: State<H>, holders: multiset<H>)
    requires Agree(s) && Counted(s, holders) && s.lru != []
    ensures var h := s.lru[|s.lru| - 1];
            && Agree(Evict(s)) && Counted(Evict(s), holders)
            && Evict(s).lru == s.lru[..|s.lru| - 1]
            && LiveBytes(cfg, Evict(s).cells) + VictimSize(cfg, s)
               == LiveBytes(cfg, s.cells) + (if holders[h] > 0 then VictimSize(cfg, s) else 0)
  {
    EvictAgrees(s);
    EvictCounts(s, holders);
    hide Agree, Counted;
    LastLive(s);
    var h := s.lru[|s.lru| - 1];
    if s.cells[h].refcnt == 1 {
      LiveBytesRemove(cfg, s.cells, h);
    } else {
      LiveBytesSameSize(cfg, s.cells, h, Evict(s).cells[h]);
    }
  }

  lemma LastLive<H>(s: State<H>)
    requires Agree(s) && s.lru != []
    ensures s.lru[|s.lru| - 1] in s.cells && s.cells[s.lru[|s.lru| - 1]].refcnt > 0
  {
    AgreeFacts(s);
  }

  lemma EvictCounts<H>(s: State<H>, holders: multiset<H>)
    requires Agree(s) && Counted(s, holders) && s.lru != []
    ensures Counted(Evict(s), holders)
    ensures Evict(s).lru == s.lru[..|s.lru| - 1]
    ensures LastHeld(s, holders)
  {
    LastLive(s);
    var h := s.lru[|s.lru| - 1];
    var t := Evict(s);
    assert s.lru == t.lru + [h];
    assert h !in t.lru;
    assert s.cells[h].refcnt == 1 + holders[h];
    forall g | g in t.cells ensures t.cells[g].refcnt == (if g in t.lru then 1 else 0) + holders[g] {
      assert g in s.cells;
    }
  }

  /** The last entry's count is one more than its holders. */
  ghost predicate LastHeld<H>(s: State<H>, holders: multiset<H>)
    requires s.lru != []
  {
    var h := s.lru[|s.lru| - 1];
    h in s.cells && s.cells[h].refcnt == 1 + holders[h]
  }

  lemma TailSplit<H>(cfg: Config, c1: map<H, Cell>, c2: map<H, Cell>, q: seq<H>, h: H, holders: multiset<H>)
    requires forall g | g in q :: SizeOf(cfg, c1, g) == SizeOf(cfg, c2, g)
    ensures SeqBytes(cfg, c1, q + [h]) == SeqBytes(cfg, c2, q) + SizeOf(cfg, c1, h)
    ensures HeldBytes(cfg, c1, q + [h], holders)
            == HeldBytes(cfg, c2, q, holders) + (if holders[h] > 0 then SizeOf(cfg, c1, h) else 0)
  {
    SeqBytesConcat(cfg, c1, q, [h]);
    HeldBytesConcat(cfg, c1, q, [h], holders);
    SeqBytesFrame(cfg, c1, c2, q);
    HeldBytesFrame(cfg, c1, c2, q, holders);
  }

  lemma EvictedQueue<H>(cfg: Config, s: State<H>)
    requires Agree(s) && s.lru != []
    ensures Agree(Evict(s)) && Evict(s).lru == s.lru[..|s.lru| - 1]
    ensures SizeOf(cfg, s.cells, s.lru[|s.lru| - 1]) == VictimSize(cfg, s)
    ensures forall g | g in Evict(s).lru :: SizeOf(cfg, s.cells, g) == SizeOf(cfg, Evict(s).cells, g)
  {
    AgreeFacts(s);
    EvictAgrees(s);
  }

  lemma TailBytes<H>(cfg: Config, s: State<H>, k: nat, holders: multiset<H>)
    requires Agree(s) && k < |s.lru|
    ensures var e := Evict(s);
            && k <= |e.lru|
            && SeqBytes(cfg, s.cells, s.lru[k..]) == SeqBytes(cfg, e.cells, e.lru[k..]) + VictimSize(cfg, s)
            && HeldBytes(cfg, s.cells, s.lru[k..], holders) == HeldBytes(cfg, e.cells, e.lru[k..], holders)
               + (if holders[s.lru[|s.lru| - 1]] > 0 then VictimSize(cfg, s) else 0)
  {
    hide Agree;
    EvictedQueue(cfg, s);
    var e := Evict(s);
    var q := e.lru[k..];
    TailSplit(cfg, s.cells, e.cells, q, s.lru[|s.lru| - 1], holders);
    assert s.lru[k..] == q + [s.lru[|s.lru| - 1]];
  }

  /** What the eviction loop did, given where it stopped: which tail went, what that freed,
      and that no shorter tail would have made room. */
  ghost predicate RoomMade<H>(cfg: Config, s: State<H>, t: State<H>, ok: bool, want: nat, freed: nat,
      holders: multiset<H>)
    requires Agree(s) && Shrunk(s, t)
  {
    var gone := Victims(s, t);
    && Counted(t, holders)
    && LiveBytes(cfg, t.cells) + SeqBytes(cfg, s.cells, gone)
       == LiveBytes(cfg, s.cells) + HeldBytes(cfg, s.cells, gone, holders)
    && (ok <==> want <= cfg.maxBytes + freed + SeqBytes(cfg, s.cells, gone))
    && (!ok ==> t.lru == [])
    && (forall j | |t.lru| < j <= |s.lru| :: TooMany(cfg, s, j, want, freed))
  }

  /** Evicting only the entries from position `j` on leaves the new entry without room. */
  ghost predicate TooMany<H>(cfg: Config, s: State<H>, j: nat, want: nat, freed: nat)
    requires Agree(s) && j <= |s.lru|
  {
    want > cfg.maxBytes + freed + SeqBytes(cfg, s.cells, s.lru[j..])
  }

  lemma RoomMadeStep<H>(cfg: Config, s: State<H>, t: State<H>, ok: bool, want: nat, freed: nat, holders: multiset<H>)
    requires Agree(s) && Counted(s, holders) && s.lru != [] && want > cfg.maxBytes + freed
    requires Agree(Evict(s)) && Shrunk(Evict(s), t) && Shrunk(s, t)
    requires RoomMade(cfg, Evict(s), t, ok, want, freed + VictimSize(cfg, s), holders)
    ensures RoomMade(cfg, s, t, ok, want, freed, holders)
  {
    hide Agree, Counted, Shrunk;
    EvictEffects(cfg, s, holders);
    ShrunkPrefix(Evict(s), t);
    ShrunkPrefix(s, t);
    TailBytes(cfg, s, |t.lru|, holders);
    forall j | |t.lru| < j <= |s.lru| ensures TooMany(cfg, s, j, want, freed) {
      TooManyStep(cfg, s, j, want, freed, holders);
      assert j < |s.lru| ==> TooMany(cfg, Evict(s), j, want, freed + VictimSize(cfg, s));
    }
  }

  lemma ShrunkPrefix<H>(s: State<H>, t: State<H>)
    requires Shrunk(s, t)
    ensures t.lru <= s.lru
  {
  }

  lemma TooManyStep<H>(cfg: Config, s: State<H>, j: nat, want: nat, freed: nat, holders: multiset<H>)
    requires Agree(s) && s.lru != [] && Agree(Evict(s)) && want > cfg.maxBytes + freed
    requires |Evict(s).lru| == |s.lru| - 1 && j <= |s.lru|
    requires j < |s.lru| ==> TooMany(cfg, Evict(s), j, want, freed + VictimSize(cfg, s))
    ensures TooMany(cfg, s, j, want, freed)
  {
    hide Agree;
    if j < |s.lru| {
      TailBytes(cfg, s, j, holders);
    } else {
      assert s.lru[j..] == [];
    }
  }

  /** The eviction loop: the victims are the shortest tail of the LRU that makes room, the
      loop fails only with the LRU empty, and only victims that nobody holds free memory. */
  lemma {:induction false} MakeRoomLaw<H>(cfg: Config, s: State<H>, want: nat, freed: nat, holders: multiset<H>)
    requires Agree(s) && Counted(s, holders)
    ensures var r := MakeRoom(cfg, s, want, freed);
            && Shrunk(s, r.0) && RoomMade(cfg, s, r.0, r.1, want, freed, holders)
    decreases |s.lru|
  {
    MakeRoomShrinks(cfg, s, want, freed);
    if want > cfg.maxBytes + freed && s.lru != [] {
      EvictAgrees(s);
      EvictEffects(cfg, s, holders);
      MakeRoomStep(cfg, s, want, freed, holders);
    } else {
      assert Victims(s, s) == [];
    }
  }

  lemma MakeRoomStep<H>(cfg: Config, s: State<H>, want: nat, freed: nat, holders: multiset<H>)
    requires Agree(s) && Counted(s, holders) && s.lru != [] && want > cfg.maxBytes + freed
    ensures var r := MakeRoom(cfg, s, want, freed);
            && Shrunk(s, r.0) && RoomMade(cfg, s, r.0, r.1, want, freed, holders)
    decreases |s.lru|, 0
  {
    hide Agree, Counted, Shrunk, RoomMade;
    EvictEffects(cfg, s, holders);
    MakeRoomShrinks(cfg, s, want, freed);
    MakeRoomLaw(cfg, Evict(s), want, freed + VictimSize(cfg, s), holders);
    var r := MakeRoom(cfg, Evict(s), want, freed + VictimSize(cfg, s));
    RoomMadeStep(cfg, s, r.0, r.1, want, freed, holders);
  }

  // ---------------------------------------------------------------- saving

  lemma DecrefIndexed<H>(s: State<H>, o: H)
    requires o in s.cells && s.cells[o].refcnt > 0
    ensures forall h | h in s.cells && h != o :: h in Decref(s, o).cells && Decref(s, o).cells[h] == s.cells[h]
    ensures forall h | h in Decref(s, o).cells :: h in s.cells
    ensures o in Decref(s, o).cells <==> s.cells[o].refcnt > 1
    ensures s.cells[o].refcnt > 1 ==> Decref(s, o).cells[o] == s.cells[o].(refcnt := s.cells[o].refcnt - 1)
  {
  }

  lemma DecrefBytes<H>(cfg: Config, s: State<H>, o: H)
    requires o in s.cells && s.cells[o].refcnt > 0
    ensures LiveBytes(cfg, Decref(s, o).cells) <= LiveBytes(cfg, s.cells)
  {
    if s.cells[o].refcnt == 1 {
      LiveBytesRemove(cfg, s.cells, o);
    } else {
      LiveBytesSameSize(cfg, s.cells, o, Decref(s, o).cells[o]);
    }
  }

  /** Taking an indexed entry out of both structures and dropping the index's reference. */
  ghost function Drop<H>(s: State<H>, o: H): State<H>
    requires Agree(s) && o in s.lru
  {
    assert LruEntry(s, o);
    Decref(State(s.avl - {s.cells[o].addr}, Without(s.lru, o), s.cells), o)
  }

  lemma {:induction false} InWithout<H>(q: seq<H>, h: H, g: H)
    requires g in Without(q, h)
    ensures g in q
  {
    if q[0] != h && g != q[0] {
      assert Without(q, h)[1..] == Without(q[1..], h);
      InWithout(q[1..], h, g);
    }
  }

  lemma DropAgrees<H>(s: State<H>, o: H)
    requires Agree(s) && o in s.lru
    ensures LruEntry(s, o)
    ensures Agree(Drop(s, o))
    ensures Drop(s, o).avl == s.avl - {s.cells[o].addr}
    ensures Drop(s, o).lru == Without(s.lru, o) && o !in Drop(s, o).lru
    ensures forall h | h in Drop(s, o).cells :: h in s.cells
              && Drop(s, o).cells[h].(refcnt := 0) == s.cells[h].(refcnt := 0)
    ensures forall h | h in s.cells && h != o :: h in Drop(s, o).cells && Drop(s, o).cells[h] == s.cells[h]
  {
    AgreeFacts(s);
    WithoutMembers(s.lru, o);
    DecrefIndexed(State(s.avl - {s.cells[o].addr}, Without(s.lru, o), s.cells), o);
    var t := Drop(s, o);
    forall a | a in t.avl ensures t.avl[a] in t.cells && t.cells[t.avl[a]].addr == a && t.avl[a] in t.lru {
      assert a in s.avl && s.avl[a] != o;
    }
    forall h | h in t.lru ensures h in t.cells && t.cells[h].addr in t.avl && t.avl[t.cells[h].addr] == h {
      InWithout(s.lru, o, h);
      assert h in s.lru && h != o;
    }
    MakeAgree(t);
  }

  lemma DropCounts<H>(s: State<H>, o: H, holders: multiset<H>)
    requires Agree(s) && o in s.lru && Counted(s, holders)
    ensures LruEntry(s, o)
    ensures Counted(Drop(s, o), holders)
  {
    AgreeFacts(s);
    WithoutMembers(s.lru, o);
    DecrefIndexed(State(s.avl - {s.cells[o].addr}, Without(s.lru, o), s.cells), o);
  }

  lemma DropBytes<H>(cfg: Config, s: State<H>, o: H)
    requires Agree(s) && o in s.lru
    ensures LruEntry(s, o)
    ensures LiveBytes(cfg, Drop(s, o).cells) <= LiveBytes(cfg, s.cells)
    ensures SeqBytes(cfg, Drop(s, o).cells, Drop(s, o).lru) <= SeqBytes(cfg, s.cells, s.lru)
  {
    DropAgrees(s, o);
    hide Agree;
    var t := Drop(s, o);
    DecrefBytes(cfg, State(s.avl - {s.cells[o].addr}, Without(s.lru, o), s.cells), o);
    SeqBytesWithout(cfg, s.cells, s.lru, o);
    DropSizes(cfg, s, o);
    SeqBytesFrame(cfg, s.cells, t.cells, t.lru);
  }

  lemma DropSizes<H>(cfg: Config, s: State<H>, o: H)
    requires Agree(s) && o in s.lru
    ensures LruEntry(s, o)
    ensures forall g | g in Drop(s, o).lru :: SizeOf(cfg, s.cells, g) == SizeOf(cfg, Drop(s, o).cells, g)
  {
    AgreeFacts(s);
    DropAgrees(s, o);
  }

  /** A new entry under an address that is not indexed. */
  ghost function Push<H>(s: State<H>, p: H, c: Cell): State<H> {
    State(s.avl[c.addr := p], [p] + s.lru, s.cells[p := c])
  }

  lemma PushAgrees<H>(s: State<H>, p: H, c: Cell, holders: multiset<H>)
    requires Agree(s) && Counted(s, holders) && p !in s.cells && c.addr !in s.avl && c.refcnt == 2
    ensures Agree(Push(s, p, c))
    ensures Counted(Push(s, p, c), holders + multiset{p})
  {
    AgreeFacts(s);
    var t := Push(s, p, c);
    assert forall h :: h in t.lru <==> h == p || h in s.lru;
    assert holders[p] == 0;
    forall a | a in t.avl ensures t.avl[a] in t.cells && t.cells[t.avl[a]].addr == a && t.avl[a] in t.lru {
      if a != c.addr { assert a in s.avl; }
    }
    MakeAgree(t);
  }

  lemma PushBytes<H>(cfg: Config, s: State<H>, p: H, c: Cell)
    requires p !in s.cells && p !in s.lru
    ensures LiveBytes(cfg, Push(s, p, c).cells) == LiveBytes(cfg, s.cells) + Size(cfg, c)
    ensures SeqBytes(cfg, Push(s, p, c).cells, Push(s, p, c).lru) == SeqBytes(cfg, s.cells, s.lru) + Size(cfg, c)
  {
    LiveBytesAdd(cfg, s.cells, p, c);
    SeqBytesFrame(cfg, s.cells, s.cells[p := c], s.lru);
    assert Push(s, p, c).lru[1..] == s.lru;
  }

  /** What stands before the new entry is pushed. */
  ghost function Cleared<H>(s: State<H>, addr: Addr): State<H>
    requires Agree(s)
  {
    assert AvlEntry(s, addr);
    if addr in s.avl then Drop(s, s.avl[addr]) else s
  }

  lemma ClearedLaws<H>(cfg: Config, s: State<H>, addr: Addr, holders: multiset<H>)
    requires Agree(s) && Counted(s, holders)
    ensures var t := Cleared(s, addr);
            && Agree(t) && Counted(t, holders)
            && t.avl == s.avl - {addr}
            && t.lru == (if addr in s.avl then Without(s.lru, s.avl[addr]) else s.lru)
            && (forall h | h in t.cells :: h in s.cells && t.cells[h].(refcnt := 0) == s.cells[h].(refcnt := 0))
            && LiveBytes(cfg, t.cells) <= LiveBytes(cfg, s.cells)
            && SeqBytes(cfg, t.cells, t.lru) <= SeqBytes(cfg, s.cells, s.lru)
  {
    if addr in s.avl {
      hide Agree, Counted;
      AvlInLru(s, addr);
      DropAgrees(s, s.avl[addr]);
      DropCounts(s, s.avl[addr], holders);
      DropBytes(cfg, s, s.avl[addr]);
    }
  }

  lemma AvlInLru<H>(s: State<H>, addr: Addr)
    requires Agree(s) && addr in s.avl
    ensures s.avl[addr] in s.lru && s.avl[addr] in s.cells && s.cells[s.avl[addr]].addr == addr
  {
    AgreeFacts(s);
  }

  /** Replacing through the AVL is dropping the old entry and pushing the new one. */
  lemma InsertIsPush<H>(s: State<H>, p: H, addr: Addr, name: bytes, now: int)
    requires Agree(s) && p !in s.cells
    ensures Insert(s, p, addr, name, now) == Push(Cleared(s, addr), p, Cell(addr, name, now, 2))
  {
    AgreeFacts(s);
    if addr in s.avl {
      var o := s.avl[addr];
      assert o != p;
      assert ([p] + s.lru)[1..] == s.lru;
      assert Without([p] + s.lru, o) == [p] + Without(s.lru, o);
      var c := Cell(addr, name, now, 2);
      assert (s.cells[p := c]) - {o} == (s.cells - {o})[p := c];
      assert s.avl[addr := p] == (s.avl - {addr})[addr := p];
    }
  }

  lemma InsertLaws<H>(cfg: Config, s: State<H>, p: H, addr: Addr, name: bytes, now: int, holders: multiset<H>)
    requires Agree(s) && Counted(s, holders) && p !in s.cells
    ensures var t := Insert(s, p, addr, name, now);
            && Agree(t) && Counted(t, holders + multiset{p})
            && t.lru == [p] + (if addr in s.avl then Without(s.lru, s.avl[addr]) else s.lru)
            && t.avl == (s.avl - {addr})[addr := p]
            && p in t.cells && t.cells[p] == Cell(addr, name, now, 2)
            && (forall h | h in t.cells && h != p :: h in s.cells
                 && t.cells[h].(refcnt := 0) == s.cells[h].(refcnt := 0))
            && LiveBytes(cfg, t.cells) <= LiveBytes(cfg, s.cells) + cfg.header + |name| + 1
            && SeqBytes(cfg, t.cells, t.lru) <= SeqBytes(cfg, s.cells, s.lru) + cfg.header + |name| + 1
  {
    var c := Cell(addr, name, now, 2);
    var u := Cleared(s, addr);
    InsertIsPush(s, p, addr, name, now);
    hide Agree, Counted;
    ClearedLaws(cfg, s, addr, holders);
    PushAgrees(u, p, c, holders);
    LruLive(u);
    PushBytes(cfg, u, p, c);
  }

  lemma LruLive<H>(s: State<H>)
    requires Agree(s)
    ensures forall h | h in s.lru :: h in s.cells
  {
    AgreeFacts(s);
  }

  /** The bytes of this save's victims that are still held, so their memory is not back. */
  ghost function HeldVictims<H>(cfg: Config, s: State<H>, t: State<H>, holders: multiset<H>): nat {
    HeldBytes(cfg, s.cells, if t.lru <= s.lru then Victims(s, t) else [], holders)
  }

  ghost function RoomFor<H>(cfg: Config, s: State<H>, name: bytes): (State<H>, bool)
    requires Agree(s)
  {
    MakeRoom(cfg, s, LiveBytes(cfg, s.cells) + cfg.header + |name| + 1, 0)
  }

  lemma ShrunkIndexed<H>(cfg: Config, s: State<H>, t: State<H>)
    requires Agree(s) && Agree(t) && Shrunk(s, t)
    ensures IndexedBytes(cfg, s) == IndexedBytes(cfg, t) + SeqBytes(cfg, s.cells, Victims(s, t))
  {
    assert s.lru == t.lru + Victims(s, t);
    SeqBytesConcat(cfg, s.cells, t.lru, Victims(s, t));
    SeqBytesFrame(cfg, s.cells, t.cells, t.lru);
  }

  /** The memory bound of a save. When it succeeds, the indexed bytes fit the budget, and the
      live bytes exceed it by no more than the victims of this very save that are still held.
      It returns NULL exactly when all entries together leave no room, and then the cache is
      empty and no byte more is in use than before. */
  lemma SaveBounds<H>(cfg: Config, s: State<H>, p: H, addr: Addr, name: bytes, now: int, holders: multiset<H>)
    requires Agree(s) && Counted(s, holders) && p !in s.cells
    ensures var r := Save(cfg, s, p, addr, name, now);
            var room := RoomFor(cfg, s, name).0;
            && (r.1.Some? ==>
                  && SeqBytes(cfg, r.0.cells, r.0.lru) <= cfg.maxBytes
                  && LiveBytes(cfg, r.0.cells) <= cfg.maxBytes + HeldVictims(cfg, s, room, holders))
            && (r.1.None? ==> r.0.lru == [] && LiveBytes(cfg, r.0.cells) <= LiveBytes(cfg, s.cells))
            && (r.1.None? <==> LiveBytes(cfg, s.cells) + cfg.header + |name| + 1 > cfg.maxBytes + IndexedBytes(cfg, s))
  {
    hide Agree, Counted, Shrunk, RoomMade;
    RoomBounds(cfg, s, name, holders);
    var room := RoomFor(cfg, s, name);
    if room.1 {
      RoomFresh(s, room.0, p);
      InsertLaws(cfg, room.0, p, addr, name, now, holders);
    }
  }

  /** The state of the byte counts when the eviction loop stops. */
  lemma RoomBounds<H>(cfg: Config, s: State<H>, name: bytes, holders: multiset<H>)
    requires Agree(s) && Counted(s, holders)
    ensures var room := RoomFor(cfg, s, name);
            var size := cfg.header + |name| + 1;
            && Shrunk(s, room.0) && Counted(room.0, holders)
            && (!room.1 <==> LiveBytes(cfg, s.cells) + size > cfg.maxBytes + IndexedBytes(cfg, s))
            && (room.1 ==> SeqBytes(cfg, room.0.cells, room.0.lru) + size <= cfg.maxBytes)
            && (room.1 ==> LiveBytes(cfg, room.0.cells) + size <= cfg.maxBytes + HeldVictims(cfg, s, room.0, holders))
            && (!room.1 ==> room.0.lru == [] && LiveBytes(cfg, room.0.cells) <= LiveBytes(cfg, s.cells))
  {
    hide Agree, Counted, Shrunk;
    IndexedLive(cfg, s);
    var want := LiveBytes(cfg, s.cells) + cfg.header + |name| + 1;
    MakeRoomLaw(cfg, s, want, 0, holders);
    var room := RoomFor(cfg, s, name);
    ShrunkPrefix(s, room.0);
    ShrunkIndexed(cfg, s, room.0);
    HeldWithinSeq(cfg, s.cells, Victims(s, room.0), holders);
    assert room.0.lru == [] ==> SeqBytes(cfg, room.0.cells, room.0.lru) == 0;
  }

  lemma IndexedLive<H>(cfg: Config, s: State<H>)
    requires Agree(s)
    ensures IndexedBytes(cfg, s) <= LiveBytes(cfg, s.cells)
    ensures (forall h | h in s.cells :: h in s.lru) ==> IndexedBytes(cfg, s) == LiveBytes(cfg, s.cells)
  {
    LruDistinct(s);
    IndexedWithinLive(cfg, s.cells, s.lru);
  }

  lemma LruDistinct<H>(s: State<H>)
    requires Agree(s)
    ensures forall i, j | 0 <= i < j < |s.lru| :: s.lru[i] != s.lru[j]
    ensures forall h | h in s.lru :: h in s.cells
  {
    AgreeFacts(s);
  }

  lemma RoomFresh<H>(s: State<H>, t: State<H>, p: H)
    requires Shrunk(s, t) && p !in s.cells
    ensures p !in t.cells
  {
  }

  lemma {:induction false} HeldWithinSeq<H>(cfg: Config, cells: map<H, Cell>, q: seq<H>, holders: multiset<H>)
    ensures HeldBytes(cfg, cells, q, holders) <= SeqBytes(cfg, cells, q)
  {
    if q != [] { HeldWithinSeq(cfg, cells, q[1..], holders); }
  }

  /** `t` holds what `s` held, apart from reference counts, lost entries and the entry `p`. */
  ghost predicate SameEntries<H>(s: State<H>, t: State<H>, p: H) {
    forall h | h in t.cells && h != p :: h in s.cells && t.cells[h].(refcnt := 0) == s.cells[h].(refcnt := 0)
  }

  /** A save keeps both structures in agreement and every count exact, whatever it evicts;
      the caller becomes a holder exactly when it gets an entry. */
  lemma SaveKeeps<H>(cfg: Config, s: State<H>, p: H, addr: Addr, name: bytes, now: int, holders: multiset<H>)
    requires Agree(s) && Counted(s, holders) && p !in s.cells
    ensures var r := Save(cfg, s, p, addr, name, now);
            && Agree(r.0)
            && Counted(r.0, if r.1.Some? then holders + multiset{p} else holders)
            && (r.1.Some? ==>
                  && r.1.value == p && p in r.0.cells && r.0.cells[p] == Cell(addr, name, now, 2)
                  && r.0.lru != [] && r.0.lru[0] == p)
            && SameEntries(s, r.0, p)
            && (forall a | a in r.0.avl :: (r.1.Some? && a == addr && r.0.avl[a] == p)
                 || (a in s.avl && a != addr && r.0.avl[a] == s.avl[a]))
  {
    hide Agree, Counted;
    var want := LiveBytes(cfg, s.cells) + cfg.header + |name| + 1;
    MakeRoomLaw(cfg, s, want, 0, holders);
    var room := RoomFor(cfg, s, name);
    if room.1 {
      RoomFresh(s, room.0, p);
      InsertLaws(cfg, room.0, p, addr, name, now, holders);
    } else {
      EmptyAvl(room.0);
    }
  }

  /** The queue after a save: the new entry, and the `n` most recently used ones but the old entry
      of the address; a queue any longer would not have left room. */
  ghost predicate KeepsFirst<H>(cfg: Config, s: State<H>, t: State<H>, p: H, addr: Addr, want: nat, n: nat)
    requires Agree(s)
  {
    && n <= |s.lru|
    && t.lru == [p] + (if addr in s.avl then Without(s.lru[..n], s.avl[addr]) else s.lru[..n])
    && !TooMany(cfg, s, n, want, 0)
    && (forall j | n < j <= |s.lru| :: TooMany(cfg, s, j, want, 0))
  }

  lemma LongestQueue<H>(cfg: Config, s: State<H>, name: bytes, holders: multiset<H>)
    requires Agree(s) && Counted(s, holders)
    ensures var room := RoomFor(cfg, s, name);
            var want := LiveBytes(cfg, s.cells) + cfg.header + |name| + 1;
            && Shrunk(s, room.0) && room.0.lru <= s.lru
            && (room.1 ==>
                  && room.0.lru == s.lru[..|room.0.lru|] && !TooMany(cfg, s, |room.0.lru|, want, 0)
                  && (forall j | |room.0.lru| < j <= |s.lru| :: TooMany(cfg, s, j, want, 0)))
  {
    hide Agree, Counted, Shrunk;
    var room := RoomFor(cfg, s, name);
    MakeRoomLaw(cfg, s, LiveBytes(cfg, s.cells) + cfg.header + |name| + 1, 0, holders);
    ShrunkPrefix(s, room.0);
    assert Victims(s, room.0) == s.lru[|room.0.lru|..];
  }

  /** Saving evicts no more than is needed, and nothing but the least recently used entries and the
      one it replaces. */
  lemma SaveEvicts<H>(cfg: Config, s: State<H>, p: H, addr: Addr, name: bytes, now: int, holders: multiset<H>)
    returns (n: nat)
    requires Agree(s) && Counted(s, holders) && p !in s.cells
    ensures var r := Save(cfg, s, p, addr, name, now);
            var want := LiveBytes(cfg, s.cells) + cfg.header + |name| + 1;
            r.1.Some? ==> KeepsFirst(cfg, s, r.0, p, addr, want, n)
  {
    hide Agree, Counted, Shrunk, RoomMade, TooMany, Without, MakeRoom, Insert;
    var room := RoomFor(cfg, s, name);
    n := |room.0.lru|;
    LongestQueue(cfg, s, name, holders);
    RoomBounds(cfg, s, name, holders);
    if room.1 {
      RoomFresh(s, room.0, p);
      InsertLaws(cfg, room.0, p, addr, name, now, holders);
      SameWithout(s, room.0, addr);
    }
  }

  /** Taking the entry of an address out of what is left of the queue. */
  lemma SameWithout<H>(s: State<H>, t: State<H>, addr: Addr)
    requires Agree(s) && Agree(t) && Shrunk(s, t)
    ensures (if addr in t.avl then Without(t.lru, t.avl[addr]) else t.lru)
            == if addr in s.avl then Without(t.lru, s.avl[addr]) else t.lru
  {
    AgreeFacts(s);
    AgreeFacts(t);
    if addr in s.avl && addr !in t.avl { WithoutNothing(t.lru, s.avl[addr]); }
  }

  lemma {:induction false} WithoutNothing<H>(q: seq<H>, h: H)
    requires h !in q
    ensures Without(q, h) == q
  {
    if q != [] { WithoutNothing(q[1..], h); }
  }

  lemma EmptyAvl<H>(s: State<H>)
    requires Agree(s) && s.lru == []
    ensures s.avl == map[]
  {
    AgreeFacts(s);
    assert forall a | a in s.avl :: s.avl[a] in s.lru;
  }

  // ---------------------------------------------------------------- looking up

  /** Moving an indexed entry to the head of the LRU and handing out a reference to it. */
  ghost function Touch<H>(s: State<H>, h: H): State<H>
    requires h in s.cells
  {
    State(s.avl, [h] + Without(s.lru, h), s.cells[h := s.cells[h].(refcnt := s.cells[h].refcnt + 1)])
  }

  lemma TouchAgrees<H>(s: State<H>, h: H, holders: multiset<H>)
    requires Agree(s) && h in s.lru && Counted(s, holders)
    ensures LruEntry(s, h) && Agree(Touch(s, h))
    ensures Counted(Touch(s, h), holders + multiset{h})
  {
    AgreeFacts(s);
    WithoutMembers(s.lru, h);
    var t := Touch(s, h);
    assert forall g :: g in t.lru <==> g in s.lru;
    forall g | g in t.lru ensures g in t.cells && t.cells[g].addr in t.avl && t.avl[t.cells[g].addr] == g {
      if g != h { InWithout(s.lru, h, g); }
    }
    MakeAgree(t);
  }

  lemma TouchBytes<H>(cfg: Config, s: State<H>, h: H)
    requires h in s.cells && h in s.lru
    ensures LiveBytes(cfg, Touch(s, h).cells) == LiveBytes(cfg, s.cells)
    ensures SeqBytes(cfg, Touch(s, h).cells, Touch(s, h).lru) == SeqBytes(cfg, s.cells, s.lru)
  {
    var t := Touch(s, h);
    LiveBytesSameSize(cfg, s.cells, h, t.cells[h]);
    SeqBytesWithout(cfg, s.cells, s.lru, h);
    SeqBytesFrame(cfg, s.cells, t.cells, Without(s.lru, h));
    assert t.lru[1..] == Without(s.lru, h);
  }

  /** A lookup hits exactly when the address is indexed and the entry has not expired. A hit
      is handed to the caller as one more holder and moves to the head of the LRU; a miss
      leaves no entry for that address. Nothing else changes, and no byte more is in use. */
  lemma GetKeeps<H>(cfg: Config, s: State<H>, addr: Addr, now: int, holders: multiset<H>)
    requires Agree(s) && Counted(s, holders)
    ensures var r := Get(cfg, s, addr, now);
            && Agree(r.0)
            && Counted(r.0, if r.1.Some? then holders + multiset{r.1.value} else holders)
            && (addr in s.avl ==> s.avl[addr] in s.cells)
            && (r.1.Some? <==> addr in s.avl && now - s.cells[s.avl[addr]].lastChecked <= cfg.timeout)
            && (r.1.Some? ==> r.1.value == s.avl[addr] && r.1.value in r.0.cells && r.0.cells[r.1.value].addr == addr
                              && r.0.avl == s.avl && r.0.lru == [r.1.value] + Without(s.lru, r.1.value))
            && (r.1.None? ==> r.0.avl == s.avl - {addr}
                              && r.0.lru == if addr in s.avl then Without(s.lru, s.avl[addr]) else s.lru)
            && (forall h | h in r.0.cells :: h in s.cells && r.0.cells[h].(refcnt := 0) == s.cells[h].(refcnt := 0))
            && SeqBytes(cfg, r.0.cells, r.0.lru) <= SeqBytes(cfg, s.cells, s.lru)
            && LiveBytes(cfg, r.0.cells) <= LiveBytes(cfg, s.cells)
  {
    hide Agree, Counted;
    ClearedLaws(cfg, s, addr, holders);
    if addr in s.avl {
      var h := s.avl[addr];
      AvlInLru(s, addr);
      if now - s.cells[h].lastChecked > cfg.timeout {
        assert Get(cfg, s, addr, now).0 == Cleared(s, addr);
      } else {
        TouchAgrees(s, h, holders);
        TouchBytes(cfg, s, h);
        assert Get(cfg, s, addr, now).0 == Touch(s, h);
      }
    } else {
      assert s.avl - {addr} == s.avl;
    }
  }
}
