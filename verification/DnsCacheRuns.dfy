/** Runs of the DNS cache: any sequence of saves, lookups and releases, with what the outside
    world may remember about them. */
module DnsCacheRuns {
  import opened Bytes
  import opened DnsCacheState
  import opened DnsCacheLaws

  /** The cache, the multiset of handles its callers hold, the name and time most recently
      given to a save for each address, and the entries in the order they were touched. */
  datatype History<H> = History(cache: State<H>, holders: multiset<H>, latest: map<Addr, (bytes, int)>, touched: seq<H>)

  datatype Op<H> =
    | SaveOp(p: H, addr: Addr, name: bytes, now: int)  // `p`: where the allocator would put it
    | GetOp(addr: Addr, now: int)
    | ReleaseOp(h: H)

  ghost predicate Enabled<H>(t: History<H>, op: Op<H>) {
    match op
    case SaveOp(p, _, _, _) => p !in t.cache.cells
    case GetOp(_, _) => true
    case ReleaseOp(h) => t.holders[h] > 0 && h in t.cache.cells && t.cache.cells[h].refcnt > 0
  }

  /** The handle that the operation returns to its caller. */
  ghost function Returned<H>(cfg: Config, t: History<H>, op: Op<H>): Option<H>
    requires Agree(t.cache) && Enabled(t, op)
  {
    match op
    case SaveOp(p, addr, name, now) => Save(cfg, t.cache, p, addr, name, now).1
    case GetOp(addr, now) => Get(cfg, t.cache, addr, now).1
    case ReleaseOp(_) => None
  }

  ghost function Apply<H>(cfg: Config, t: History<H>, op: Op<H>): History<H>
    requires Agree(t.cache) && Enabled(t, op)
  {
    var got := Returned(cfg, t, op);
    var holders := if got.Some? then t.holders + multiset{got.value} else t.holders;
    var touched := if got.Some? then t.touched + [got.value] else t.touched;
    match op
    case SaveOp(p, addr, name, now) =>
      History(Save(cfg, t.cache, p, addr, name, now).0, holders, t.latest[addr := (name, now)], touched)
    case GetOp(addr, now) =>
      History(Get(cfg, t.cache, addr, now).0, holders, t.latest, touched)
    case ReleaseOp(h) =>
      History(Decref(t.cache, h), t.holders - multiset{h}, t.latest, t.touched)
  }

  // ---------------------------------------------------------------- last-touch order

  /** The position of the last touch of `h`, or -1. */
  ghost function LastTouch<H>(t: seq<H>, h: H): int {
    if t == [] then -1
    else if t[|t| - 1] == h then |t| - 1
    else LastTouch(t[..|t| - 1], h)
  }

  /** The queue lists entries from the last touched to the first touched. */
  ghost predicate ByLastTouch<H>(q: seq<H>, t: seq<H>) {
    q == [] ||
    (&& 0 <= LastTouch(t, q[0])
     && (forall g | g in q[1..] :: LastTouch(t, g) < LastTouch(t, q[0]))
     && ByLastTouch(q[1..], t))
  }

  lemma {:induction false} LastTouchBound<H>(t: seq<H>, h: H)
    ensures -1 <= LastTouch(t, h) < |t|
  {
    if t != [] { LastTouchBound(t[..|t| - 1], h); }
  }

  lemma TouchMoves<H>(t: seq<H>, h: H, g: H)
    ensures LastTouch(t + [h], g) == if g == h then |t| else LastTouch(t, g)
  {
    assert (t + [h])[..|t|] == t;
  }

  lemma {:induction false} ByLastTouchWithout<H>(q: seq<H>, t: seq<H>, h: H)
    requires ByLastTouch(q, t)
    ensures ByLastTouch(Without(q, h), t)
  {
    if q != [] && q[0] != h {
      ByLastTouchWithout(q[1..], t, h);
      var r := Without(q, h);
      assert r[1..] == Without(q[1..], h);
      forall g | g in r[1..] ensures LastTouch(t, g) < LastTouch(t, r[0]) {
        InWithout(q[1..], h, g);
      }
    }
  }

  lemma {:induction false} ByLastTouchPrefix<H>(q: seq<H>, r: seq<H>, t: seq<H>)
    requires ByLastTouch(q, t) && r <= q
    ensures ByLastTouch(r, t)
  {
    if r != [] {
      assert r[1..] <= q[1..];
      ByLastTouchPrefix(q[1..], r[1..], t);
      assert forall g | g in r[1..] :: g in q[1..];
    }
  }

  lemma {:induction false} ByLastTouchExtend<H>(q: seq<H>, t: seq<H>, h: H)
    requires ByLastTouch(q, t) && h !in q
    ensures ByLastTouch(q, t + [h])
  {
    if q != [] {
      ByLastTouchExtend(q[1..], t, h);
      forall g | g in q ensures LastTouch(t + [h], g) == LastTouch(t, g) {
        TouchMoves(t, h, g);
      }
      assert forall g | g in q[1..] :: g in q;
    }
  }

  lemma ByLastTouchPush<H>(q: seq<H>, t: seq<H>, h: H)
    requires ByLastTouch(q, t) && h !in q
    ensures ByLastTouch([h] + q, t + [h])
  {
    ByLastTouchExtend(q, t, h);
    TouchMoves(t, h, h);
    assert ([h] + q)[1..] == q;
    forall g | g in q ensures LastTouch(t + [h], g) < |t| {
      TouchMoves(t, h, g);
      LastTouchBound(t, g);
    }
  }

  /** What `ByLastTouch` means for any two entries of the queue. */
  lemma {:induction false} LastTouchOrder<H>(q: seq<H>, t: seq<H>, i: nat, j: nat)
    requires ByLastTouch(q, t) && i < j < |q|
    ensures 0 <= LastTouch(t, q[j]) < LastTouch(t, q[i])
    decreases |q|
  {
    assert q[1..][j - 1] == q[j];
    if i > 0 {
      assert q[1..][i - 1] == q[i];
      LastTouchOrder(q[1..], t, i - 1, j - 1);
    } else {
      assert q[j] in q[1..];
      TouchedMember(q[1..], t, q[j]);
    }
  }

  lemma {:induction false} TouchedMember<H>(q: seq<H>, t: seq<H>, h: H)
    requires ByLastTouch(q, t) && h in q
    ensures 0 <= LastTouch(t, h)
  {
    if h != q[0] { TouchedMember(q[1..], t, h); }
  }

  // ---------------------------------------------------------------- the invariant

  /** Every indexed entry carries the name and time of the last save for its address. */
  ghost predicate Remembers<H>(s: State<H>, latest: map<Addr, (bytes, int)>) {
    forall a | a in s.avl :: a in latest && s.avl[a] in s.cells
      && s.cells[s.avl[a]].name == latest[a].0 && s.cells[s.avl[a]].lastChecked == latest[a].1
  }

  ghost predicate Inv<H>(cfg: Config, t: History<H>) {
    && Agree(t.cache)
    && Counted(t.cache, t.holders)
    && SeqBytes(cfg, t.cache.cells, t.cache.lru) <= cfg.maxBytes
    && Remembers(t.cache, t.latest)
    && ByLastTouch(t.cache.lru, t.touched)
  }

  /** The new entry is the last one touched; the ones it displaces keep the rest in order. */
  lemma InsertByTouch<H>(cfg: Config, s: State<H>, p: H, addr: Addr, name: bytes, now: int, touched: seq<H>,
      holders: multiset<H>)
    requires Agree(s) && Counted(s, holders) && p !in s.cells && ByLastTouch(s.lru, touched)
    ensures ByLastTouch(Insert(s, p, addr, name, now).lru, touched + [p])
  {
    hide Agree, Counted, ByLastTouch;
    InsertLaws(cfg, s, p, addr, name, now, holders);
    LruLive(s);
    if addr in s.avl {
      ByLastTouchWithout(s.lru, touched, s.avl[addr]);
      NotInWithout(s.lru, s.avl[addr], p);
      ByLastTouchPush(Without(s.lru, s.avl[addr]), touched, p);
    } else {
      ByLastTouchPush(s.lru, touched, p);
    }
  }

  lemma SaveByTouch<H>(cfg: Config, s: State<H>, p: H, addr: Addr, name: bytes, now: int, touched: seq<H>,
      holders: multiset<H>)
    requires Agree(s) && Counted(s, holders) && p !in s.cells && ByLastTouch(s.lru, touched)
    ensures var r := Save(cfg, s, p, addr, name, now);
            ByLastTouch(r.0.lru, if r.1.Some? then touched + [p] else touched)
  {
    hide Agree, Counted, Shrunk, RoomMade, ByLastTouch;
    MakeRoomLaw(cfg, s, LiveBytes(cfg, s.cells) + cfg.header + |name| + 1, 0, holders);
    var room := RoomFor(cfg, s, name);
    ShrunkPrefix(s, room.0);
    ByLastTouchPrefix(s.lru, room.0.lru, touched);
    if room.1 {
      RoomFresh(s, room.0, p);
      InsertByTouch(cfg, room.0, p, addr, name, now, touched, holders);
    }
  }

  lemma NotInWithout<H>(q: seq<H>, h: H, g: H)
    requires g !in q
    ensures g !in Without(q, h)
  {
    if g in Without(q, h) { InWithout(q, h, g); }
  }

  lemma SaveStep<H>(cfg: Config, t: History<H>, p: H, addr: Addr, name: bytes, now: int)
    requires Inv(cfg, t) && p !in t.cache.cells
    ensures Inv(cfg, Apply(cfg, t, SaveOp(p, addr, name, now)))
  {
    hide Agree, Counted, Remembers, ByLastTouch;
    SaveByTouch(cfg, t.cache, p, addr, name, now, t.touched, t.holders);
    SaveRemembers(cfg, t.cache, p, addr, name, now, t.latest, t.holders);
    SaveKeeps(cfg, t.cache, p, addr, name, now, t.holders);
    SaveBounds(cfg, t.cache, p, addr, name, now, t.holders);
  }

  lemma SaveRemembers<H>(cfg: Config, s: State<H>, p: H, addr: Addr, name: bytes, now: int,
                         latest: map<Addr, (bytes, int)>, holders: multiset<H>)
    requires Agree(s) && Counted(s, holders) && p !in s.cells && Remembers(s, latest)
    ensures Remembers(Save(cfg, s, p, addr, name, now).0, latest[addr := (name, now)])
  {
    hide Agree, Counted;
    var r := Save(cfg, s, p, addr, name, now);
    SaveKeeps(cfg, s, p, addr, name, now, holders);
    forall a | a in r.0.avl
      ensures a in latest[addr := (name, now)] && r.0.avl[a] in r.0.cells
      ensures r.0.cells[r.0.avl[a]].name == latest[addr := (name, now)][a].0
      ensures r.0.cells[r.0.avl[a]].lastChecked == latest[addr := (name, now)][a].1
    {
      AvlInLru(r.0, a);
      if !(a == addr && r.0.avl[a] == p) {
        assert a in s.avl && r.0.avl[a] == s.avl[a];
        LiveNotFresh(s, p, a);
      }
    }
  }

  lemma LiveNotFresh<H>(s: State<H>, p: H, a: Addr)
    requires Agree(s) && p !in s.cells && a in s.avl
    ensures s.avl[a] != p
  {
    AgreeFacts(s);
  }

  lemma GetStep<H>(cfg: Config, t: History<H>, addr: Addr, now: int)
    requires Inv(cfg, t)
    ensures Inv(cfg, Apply(cfg, t, GetOp(addr, now)))
  {
    var r := Get(cfg, t.cache, addr, now);
    LruDistinct(t.cache);
    if addr in t.cache.avl {
      AvlInLru(t.cache, addr);
      WithoutMembers(t.cache.lru, t.cache.avl[addr]);
      ByLastTouchWithout(t.cache.lru, t.touched, t.cache.avl[addr]);
      ByLastTouchPush(Without(t.cache.lru, t.cache.avl[addr]), t.touched, t.cache.avl[addr]);
    }
    hide Agree, Counted, ByLastTouch;
    GetKeeps(cfg, t.cache, addr, now, t.holders);
    forall a | a in r.0.avl
      ensures a in t.latest && r.0.avl[a] in r.0.cells
      ensures r.0.cells[r.0.avl[a]].name == t.latest[a].0 && r.0.cells[r.0.avl[a]].lastChecked == t.latest[a].1
    {
      AvlInLru(r.0, a);
    }
  }

  lemma ReleaseStep<H>(cfg: Config, t: History<H>, h: H)
    requires Inv(cfg, t) && Enabled(t, ReleaseOp(h))
    ensures Inv(cfg, Apply(cfg, t, ReleaseOp(h)))
  {
    ReleaseKeeps(cfg, t.cache, t.holders, h);
    var r := Decref(t.cache, h);
    forall a | a in r.avl
      ensures a in t.latest && r.avl[a] in r.cells
      ensures r.cells[r.avl[a]].name == t.latest[a].0 && r.cells[r.avl[a]].lastChecked == t.latest[a].1
    {
      AvlInLru(r, a);
    }
  }

  /** Every operation keeps the invariant. */
  lemma StepKeepsInv<H>(cfg: Config, t: History<H>, op: Op<H>)
    requires Inv(cfg, t) && Enabled(t, op)
    ensures Inv(cfg, Apply(cfg, t, op))
  {
    match op
    case SaveOp(p, addr, name, now) => SaveStep(cfg, t, p, addr, name, now);
    case GetOp(addr, now) => GetStep(cfg, t, addr, now);
    case ReleaseOp(h) => ReleaseStep(cfg, t, h);
  }

  // ---------------------------------------------------------------- whole runs

  ghost function Fresh<H>(): History<H> {
    History(State(map[], [], map[]), multiset{}, map[], [])
  }

  /** One operation of a run; that the two structures agree is no restriction, see `RunGoesOn`. */
  ghost predicate RunStep<H>(cfg: Config, trace: seq<History<H>>, ops: seq<Op<H>>, i: nat)
    requires i < |ops| && |trace| == |ops| + 1
  {
    && Agree(trace[i].cache) && Enabled(trace[i], ops[i])
    && trace[i + 1] == Apply(cfg, trace[i], ops[i])
  }

  /** `trace` lists the states of a run of `ops` from the empty cache, first and last included. */
  ghost predicate IsRun<H>(cfg: Config, trace: seq<History<H>>, ops: seq<Op<H>>) {
    && |trace| == |ops| + 1
    && trace[0] == Fresh()
    && (forall i {:trigger RunStep(cfg, trace, ops, i)} | 0 <= i < |ops| :: RunStep(cfg, trace, ops, i))
  }

  /** The invariant holds at every point of every run. */
  lemma {:induction false} RunsKeepInv<H>(cfg: Config, trace: seq<History<H>>, ops: seq<Op<H>>, k: nat)
    requires IsRun(cfg, trace, ops) && k <= |ops|
    ensures Inv(cfg, trace[k])
  {
    if k > 0 {
      hide Inv, Agree, Enabled;
      RunsKeepInv(cfg, trace, ops, k - 1);
      assert RunStep(cfg, trace, ops, k - 1);
      StepKeepsInv(cfg, trace[k - 1], ops[k - 1]);
    }
  }

  /** A run can go on with any enabled operation. */
  lemma RunGoesOn<H>(cfg: Config, trace: seq<History<H>>, ops: seq<Op<H>>, op: Op<H>)
    requires IsRun(cfg, trace, ops) && Enabled(trace[|ops|], op)
    ensures Agree(trace[|ops|].cache) && IsRun(cfg, trace + [Apply(cfg, trace[|ops|], op)], ops + [op])
  {
    RunsKeepInv(cfg, trace, ops, |ops|);
    hide Agree, Enabled, Apply, Inv;
    var t := trace + [Apply(cfg, trace[|ops|], op)];
    forall i | 0 <= i < |ops| + 1 ensures RunStep(cfg, t, ops + [op], i) {
      if i < |ops| { assert RunStep(cfg, trace, ops, i); }
    }
  }

  /** At any point of a run a hit returns the name most recently saved for the address, no
      older than the timeout, and the index holds no more than the budget. */
  lemma HitsAreLatest<H>(cfg: Config, trace: seq<History<H>>, ops: seq<Op<H>>, k: nat, addr: Addr, now: int)
    requires IsRun(cfg, trace, ops) && k <= |ops|
    ensures var t := trace[k];
            && Agree(t.cache) && IndexedBytes(cfg, t.cache) <= cfg.maxBytes
            && var got := Get(cfg, t.cache, addr, now).1;
            got.Some? ==> addr in t.latest && got.value in t.cache.cells
                          && t.cache.cells[got.value].name == t.latest[addr].0
                          && now - t.latest[addr].1 <= cfg.timeout
  {
    RunsKeepInv(cfg, trace, ops, k);
    hide Agree, Counted;
    GetKeeps(cfg, trace[k].cache, addr, now, trace[k].holders);
  }

  /** At any point of a run the LRU lists its entries from the last touched to the first. */
  lemma LruIsTouchOrder<H>(cfg: Config, trace: seq<History<H>>, ops: seq<Op<H>>, k: nat, i: nat, j: nat)
    requires IsRun(cfg, trace, ops) && k <= |ops| && i < j < |trace[k].cache.lru|
    ensures var t := trace[k];
            0 <= LastTouch(t.touched, t.cache.lru[j]) < LastTouch(t.touched, t.cache.lru[i])
  {
    RunsKeepInv(cfg, trace, ops, k);
    LastTouchOrder(trace[k].cache.lru, trace[k].touched, i, j);
  }

  /** When nobody holds a handle, exactly the indexed entries are live, each counted once,
      and all memory in use fits the budget. */
  lemma QuietMemory<H>(cfg: Config, t: History<H>)
    requires Inv(cfg, t) && t.holders == multiset{}
    ensures forall h | h in t.cache.cells :: h in t.cache.lru && t.cache.cells[h].refcnt == 1
    ensures LiveBytes(cfg, t.cache.cells) <= cfg.maxBytes
  {
    forall h | h in t.cache.cells ensures h in t.cache.lru && t.cache.cells[h].refcnt == 1 {
      assert t.holders[h] == 0;
    }
    IndexedLive(cfg, t.cache);
  }
}
