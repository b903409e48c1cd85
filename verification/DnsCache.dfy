/** The DNS cache itself (src/rb_dns_cache.c): entries whose reference count changes in place,
    an LRU queue and an AVL index, each method standing for one critical section of the
    source's mutex. */
module DnsCache {
  import opened Bytes
  import opened DnsCacheState
  import opened DnsCacheLaws

  class Entry {
    const addr: Addr
    const name: bytes
    const lastChecked: int
    var refcnt: nat

    constructor (addr: Addr, name: bytes, now: int)
      ensures this.addr == addr && this.name == name && this.lastChecked == now
      ensures refcnt == 2
    {
      this.addr, this.name, lastChecked, refcnt := addr, name, now, 2;
    }

    function Size(cfg: Config): nat {
      cfg.header + |name| + 1
    }
  }

  lemma OldEntry<H>(s: State<H>, addr: Addr)
    requires Agree(s) && addr in s.avl
    ensures s.avl[addr] in s.lru && s.avl[addr] in s.cells
    ensures s.cells[s.avl[addr]].refcnt > 0 && s.cells[s.avl[addr]].addr == addr
  {
    AgreeFacts(s);
  }

  lemma HeldIsLive<H>(s: State<H>, holders: multiset<H>, h: H)
    requires Agree(s) && Counted(s, holders) && holders[h] > 0
    ensures h in s.cells && s.cells[h].refcnt > 0
  {
  }

  lemma MakeRoomRound<H>(cfg: Config, s: State<H>, want: nat, freed: nat)
    requires Agree(s)
    ensures MakeRoom(cfg, s, want, freed) ==
      if want <= cfg.maxBytes + freed then (s, true)
      else if s.lru == [] then (s, false)
      else (EvictAgrees(s); MakeRoom(cfg, Evict(s), want, freed + VictimSize(cfg, s)))
  {
    if want > cfg.maxBytes + freed && s.lru != [] { EvictAgrees(s); }
  }

  lemma RoomUnfold<H>(cfg: Config, s: State<H>, name: bytes)
    requires Agree(s)
    ensures RoomFor(cfg, s, name) == MakeRoom(cfg, s, LiveBytes(cfg, s.cells) + (cfg.header + |name| + 1), 0)
  {
    hide Agree;
  }

  lemma SaveWithRoom<H>(cfg: Config, s: State<H>, p: H, addr: Addr, name: bytes, now: int)
    requires Agree(s) && p !in s.cells && RoomFor(cfg, s, name).1
    ensures p !in RoomFor(cfg, s, name).0.cells
    ensures Save(cfg, s, p, addr, name, now) == (Insert(RoomFor(cfg, s, name).0, p, addr, name, now), Some(p))
  {
    hide Agree, Shrunk, MakeRoom, Insert, LiveBytes;
    MakeRoomShrinks(cfg, s, LiveBytes(cfg, s.cells) + cfg.header + |name| + 1, 0);
    RoomFresh(s, RoomFor(cfg, s, name).0, p);
  }

  /** Insert in the source's order: link the new entry in, then discard the replaced one. */
  lemma InsertUnfold<H>(s: State<H>, p: H, addr: Addr, name: bytes, now: int)
    requires Agree(s) && p !in s.cells
    ensures var linked := State(s.avl[addr := p], [p] + s.lru, s.cells[p := Cell(addr, name, now, 2)]);
            && (addr in s.avl ==>
                  s.avl[addr] in s.cells && s.avl[addr] in linked.cells && linked.cells[s.avl[addr]].refcnt > 0)
            && Insert(s, p, addr, name, now) ==
                 if addr in s.avl then Decref(linked.(lru := Without(linked.lru, s.avl[addr])), s.avl[addr]) else linked
  {
    if addr in s.avl { OldEntry(s, addr); }
  }

  class Cache {
    const cfg: Config
    /** memctx's count of the bytes allocated and not yet freed. */
    var bytesOut: nat
    /** librd's AVL, by address: inserting an equal key replaces the old entry. */
    var avl: map<Addr, Entry>
    /** The tail queue, most recently used first. */
    var lru: seq<Entry>
    /** The entries allocated and not yet freed. */
    ghost var live: set<Entry>
    /** One occurrence for every handle that a caller still has to release. */
    ghost var holders: multiset<Entry>

    ghost function Abs(): State<Entry>
      reads `avl, `lru, `live, live
    {
      State(avl, lru, Cells())
    }

    ghost function Cells(): map<Entry, Cell>
      reads `live, live
    {
      map e | e in live :: Cell(e.addr, e.name, e.lastChecked, e.refcnt)
    }

    ghost predicate Valid()
      reads this, live
    {
      && Agree(Abs())
      && Counted(Abs(), holders)
      && bytesOut == LiveBytes(cfg, Cells())
    }

    lemma AbsIsLive()
      requires Valid()
      ensures Agree(Abs()) && Counted(Abs(), holders)
      ensures bytesOut == LiveBytes(cfg, Cells()) && Cells() == Abs().cells
      ensures Abs().lru == lru && Abs().avl == avl
      ensures forall e: Entry :: e in Abs().cells <==> e in live
    {
    }

    lemma AbsParts()
      ensures Abs() == State(avl, lru, Cells())
    {
    }

    lemma MakeValid()
      requires Agree(Abs()) && Counted(Abs(), holders) && bytesOut == LiveBytes(cfg, Cells())
      ensures Valid()
    {
    }

    constructor (cfg: Config)
      ensures Valid() && this.cfg == cfg
      ensures Abs() == State(map[], [], map[]) && holders == multiset{}
    {
      this.cfg := cfg;
      bytesOut, avl, lru := 0, map[], [];
      live, holders := {}, multiset{};
    }

    /** dns_cache_decref_elm_nl: drop one reference, and free the entry with the last one. */
    method DecrefNoLock(e: Entry)
      requires e in Cells() && Cells()[e].refcnt > 0
      requires bytesOut == LiveBytes(cfg, Cells())
      modifies this`bytesOut, this`live, e`refcnt
      ensures Abs() == Decref(old(Abs()), e)
      ensures live == if old(e.refcnt) == 1 then old(live) - {e} else old(live)
      ensures bytesOut == LiveBytes(cfg, Cells())
    {
      ghost var before: map<Entry, Cell> := Cells();
      e.refcnt := e.refcnt - 1;
      if e.refcnt == 0 {
        LiveBytesRemove(cfg, before, e);
        live := live - {e};
        bytesOut := bytesOut - e.Size(cfg);
        assert Cells() == before - {e};
      } else {
        LiveBytesSameSize(cfg, before, e, before[e].(refcnt := e.refcnt));
        assert Cells() == before[e := before[e].(refcnt := e.refcnt)];
      }
    }

    /** TAILQ_REMOVE. */
    method Unlink(e: Entry)
      modifies this`lru
      ensures lru == Without(old(lru), e)
    {
      var i := 0;
      assert lru[..0] == [] && lru[0..] == lru;
      while i < |lru| && lru[i] != e
        invariant 0 <= i <= |lru|
        invariant Without(lru, e) == lru[..i] + Without(lru[i..], e)
      {
        assert lru[i..][1..] == lru[i + 1..];
        assert lru[..i] + [lru[i]] == lru[..i + 1];
        i := i + 1;
      }
      if i < |lru| {
        assert lru[i..][1..] == lru[i + 1..];
        lru := lru[..i] + lru[i + 1..];
      } else {
        assert lru[..i] + [] == lru;
      }
    }

    /** Off the LRU, and the index's reference with it. */
    method Discard(e: Entry)
      requires e in Cells() && Cells()[e].refcnt > 0
      requires bytesOut == LiveBytes(cfg, Cells())
      modifies this`bytesOut, this`lru, this`live, e`refcnt
      ensures Abs() == Decref(old(Abs()).(lru := Without(old(lru), e)), e)
      ensures live <= old(live)
      ensures bytesOut == LiveBytes(cfg, Cells())
    {
      Unlink(e);
      DecrefNoLock(e);
    }

    /** rd_memctx_calloc, lru_push and RD_AVL_INSERT; returns the entry the AVL gave back. */
    method Link(e: Entry) returns (replaced: Entry?)
      requires e !in live && bytesOut == LiveBytes(cfg, Cells())
      modifies this`bytesOut, this`live, this`holders, this`avl, this`lru
      ensures live == old(live) + {e} && holders == old(holders) + multiset{e}
      ensures Abs() == State(old(avl)[e.addr := e], [e] + old(lru),
                             old(Cells())[e := Cell(e.addr, e.name, e.lastChecked, e.refcnt)])
      ensures bytesOut == LiveBytes(cfg, Cells())
      ensures replaced == if e.addr in old(avl) then old(avl)[e.addr] else null
    {
      var c := Cell(e.addr, e.name, e.lastChecked, e.refcnt);
      LiveBytesAdd(cfg, Cells(), e, c);
      ghost var before: map<Entry, Cell> := Cells();
      replaced := if e.addr in avl then avl[e.addr] else null;
      lru := [e] + lru;
      avl := avl[e.addr := e];
      live := live + {e};
      bytesOut := bytesOut + e.Size(cfg);
      holders := holders + multiset{e};
      assert Cells() == before[e := c];
    }

    /** Moves a looked-up entry to the head of the LRU and counts its new holder. */
    method Refresh(e: Entry)
      requires e in Cells() && bytesOut == LiveBytes(cfg, Cells())
      modifies this`lru, this`holders, e`refcnt
      ensures holders == old(holders) + multiset{e}
      ensures Abs() == Touch(old(Abs()), e)
      ensures bytesOut == LiveBytes(cfg, Cells())
    {
      ghost var before: map<Entry, Cell> := Cells();
      var c := Cell(e.addr, e.name, e.lastChecked, e.refcnt + 1);
      LiveBytesSameSize(cfg, before, e, c);
      Unlink(e);
      lru := [e] + lru;
      e.refcnt := e.refcnt + 1;
      holders := holders + multiset{e};
      assert Cells() == before[e := c];
    }

    /** One round of the eviction loop; returns the size counted as freed. */
    method EvictLast() returns (size: nat)
      requires Valid() && lru != []
      modifies this`bytesOut, this`avl, this`lru, this`live, live
      ensures Valid() && live <= old(live)
      ensures Abs() == Evict(old(Abs())) && lru == old(lru)[..|old(lru)| - 1]
      ensures size == VictimSize(cfg, old(Abs()))
    {
      ghost var before: State<Entry> := Abs();
      hide Agree, Counted;
      EvictEffects(cfg, before, holders);
      LastLive(before);
      var e := lru[|lru| - 1];
      assert e in before.cells;
      size := e.Size(cfg);
      lru := lru[..|lru| - 1];
      avl := avl - {e.addr};
      DecrefNoLock(e);
    }

    /** The second half of dns_cache_save_elm: the entry goes in, an older one may go out. */
    method Enter(e: Entry)
      requires Valid() && e !in live && e.refcnt == 2
      modifies this`bytesOut, this`avl, this`lru, this`live, this`holders, live
      ensures Valid() && live <= old(live) + {e}
      ensures Abs() == Insert(old(Abs()), e, e.addr, e.name, e.lastChecked)
      ensures holders == old(holders) + multiset{e}
    {
      ghost var before: State<Entry> := Abs();
      hide *;
      AbsIsLive();
      InsertUnfold(before, e, e.addr, e.name, e.lastChecked);
      var replaced := Link(e);
      AbsParts();
      if replaced != null {
        Discard(replaced);
      }
      InsertLaws(cfg, before, e, e.addr, e.name, e.lastChecked, old(holders));
      MakeValid();
    }

    /** The eviction loop, for an entry with the given name. */
    method FreeRoom(name: bytes) returns (ok: bool)
      requires Valid()
      modifies this`bytesOut, this`avl, this`lru, this`live, live
      ensures Valid() && live <= old(live)
      ensures (Abs(), ok) == RoomFor(cfg, old(Abs()), name)
    {
      hide *;
      AbsIsLive();
      var want := bytesOut + (cfg.header + |name| + 1);
      var freed := 0;
      RoomUnfold(cfg, Abs(), name);
      ghost var goal := RoomFor(cfg, Abs(), name);
      while want > cfg.maxBytes + freed
        invariant Valid() && live <= old(live) && Agree(Abs()) && Abs().lru == lru
        invariant MakeRoom(cfg, Abs(), want, freed) == goal
        decreases |lru|
      {
        MakeRoomRound(cfg, Abs(), want, freed);
        if lru == [] {
          return false;
        }
        var victim := EvictLast();
        AbsIsLive();
        freed := freed + victim;
      }
      MakeRoomRound(cfg, Abs(), want, freed);
      return true;
    }

    /** dns_cache_save_elm: evict from the tail until the budget allows the entry, then insert
        it, replacing any entry for the same address. NULL when evicting everything is not
        enough. */
    method Save(addr: Addr, name: bytes, now: int) returns (r: Entry?)
      requires Valid()
      modifies this`bytesOut, this`avl, this`lru, this`live, this`holders, live
      ensures Valid() && fresh(live - old(live))
      ensures r != null ==> fresh(r) && (Abs(), Some(r)) == DnsCacheState.Save(cfg, old(Abs()), r, addr, name, now)
      ensures r == null ==> (Abs(), false) == RoomFor(cfg, old(Abs()), name)
      ensures holders == if r != null then old(holders) + multiset{r} else old(holders)
    {
      ghost var before: State<Entry> := Abs();
      hide *;
      AbsIsLive();
      var ok := FreeRoom(name);
      if !ok {
        return null;
      }
      r := new Entry(addr, name, now);
      Enter(r);
      SaveWithRoom(cfg, before, r, addr, name, now);
    }

    /** dns_cache_get_elm. */
    method Get(addr: Addr, now: int) returns (r: Entry?)
      requires Valid()
      modifies this`bytesOut, this`avl, this`lru, this`live, this`holders, live
      ensures Valid() && live <= old(live)
      ensures (Abs(), if r != null then Some(r) else None) == DnsCacheState.Get(cfg, old(Abs()), addr, now)
      ensures holders == if r != null then old(holders) + multiset{r} else old(holders)
    {
      ghost var before: State<Entry> := Abs();
      hide Agree, Counted, Decref;
      GetKeeps(cfg, before, addr, now, holders);
      r := null;
      if addr in avl {
        var e := avl[addr];
        OldEntry(before, addr);
        assert e in Cells();
        if now - e.lastChecked > cfg.timeout {
          avl := avl - {addr};
          Discard(e);
        } else {
          Refresh(e);
          r := e;
        }
      }
    }

    /** dns_cache_decref_elm: a caller gives its handle back. */
    method Release(e: Entry)
      requires Valid() && holders[e] > 0
      modifies this`bytesOut, this`live, this`holders, e`refcnt
      ensures Valid() && live <= old(live)
      ensures Abs() == Decref(old(Abs()), e)
      ensures holders == old(holders) - multiset{e}
    {
      ghost var before: State<Entry> := Abs();
      HeldIsLive(before, holders, e);
      hide Agree, Counted;
      ReleaseKeeps(cfg, before, holders, e);
      holders := holders - multiset{e};
      DecrefNoLock(e);
    }
  }
}
