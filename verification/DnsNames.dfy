/** Which name a flow ends up with: the one its query was answered with, or the one last saved
    for its address (src/collect.c:603-669 and 1272-1322). */
module DnsNames {
  import opened Bytes
  import opened DnsCacheLaws
  import opened DnsCacheState
  import opened DnsCacheRuns
  import opened DnsFlows
  import opened DnsSchedules

  /** A side of a flow has this name: in a live entry of its address, or else in a copy of its own. */
  ghost predicate HasName(w: World, i: nat, client: bool, name: bytes)
    requires i < |w.flows|
  {
    var side := SideOf(w.flows[i], client);
    var cells := w.dns.cache.cells;
    && !side.waiting
    && match side.handle
       case Some(h) => h in cells && cells[h].addr == side.addr && cells[h].name == name && side.name.None?
       case None => side.name == Some(name)
  }

  /** A side of a flow has no name, and will get none. */
  ghost predicate HasNone(w: World, i: nat, client: bool)
    requires i < |w.flows|
  {
    var side := SideOf(w.flows[i], client);
    !side.waiting && side.handle.None? && side.name.None?
  }

  /** The name last saved for an address by the first `k` steps: that of the last answer with a
      name to a query for it. */
  ghost function LastAnswer(worlds: seq<World>, steps: seq<Step>, k: nat, addr: Addr): Option<(bytes, int)>
    requires |worlds| == |steps| + 1 && k <= |steps|
  {
    if k == 0 then None
    else if AnswersFor(worlds[k - 1], steps[k - 1], addr) then Some((steps[k - 1].result.value, steps[k - 1].now))
    else LastAnswer(worlds, steps, k - 1, addr)
  }

  ghost predicate AnswersFor(w: World, s: Step, addr: Addr) {
    s.Answer? && s.result.Some? && s.flow < |w.flows| && SideOf(w.flows[s.flow], s.client).addr == addr
  }

  // ---------------------------------------------------------------- one step

  lemma LookUpLatest(cfg: Config, dns: History<Ptr>, want: bool, addr: Addr, now: int)
    requires Agree(dns.cache)
    ensures LookUp(cfg, dns, want, addr, now).0.latest == dns.latest
  {
  }

  lemma GiveBackLatest(cfg: Config, dns: History<Ptr>, handle: Option<Ptr>)
    requires Inv(cfg, dns) && (handle.Some? ==> Enabled(dns, ReleaseOp(handle.value)))
    ensures GiveBack(cfg, dns, handle).latest == dns.latest
  {
  }

  lemma IssueLatest(cfg: Config, w: World, s: Step)
    requires Good(cfg, w) && s.Issue? && CanStep(w, s)
    ensures Next(cfg, w, s).dns.latest == w.dns.latest
  {
    hide Inv, Agree, Counted, LookUp, AllHandles, GoodLog, AllGood, NewFlow, Kept;
    InvCounts(cfg, w.dns);
    LookUpKeeps(cfg, w.dns, s.solveClient, s.clientAddr, s.now);
    var dns1 := LookUp(cfg, w.dns, s.solveClient, s.clientAddr, s.now).0;
    InvCounts(cfg, dns1);
    LookUpLatest(cfg, w.dns, s.solveClient, s.clientAddr, s.now);
    LookUpLatest(cfg, dns1, s.solveTarget, s.targetAddr, s.now);
  }

  lemma FinaliseLatest(cfg: Config, w: World, s: Step)
    requires Good(cfg, w) && s.Finalise? && CanStep(w, s)
    ensures Next(cfg, w, s).dns.latest == w.dns.latest
  {
    hide Inv, Agree, Counted, GiveBack, Enabled, AllHandles, GoodLog, AllGood, Closed;
    FlowWithinAll(w.flows, s.flow);
    var f := w.flows[s.flow];
    HandleReleasable(cfg, w.dns, f.client.handle, SideHandles(f.target));
    var dns1 := GiveBack(cfg, w.dns, f.client.handle);
    HandleReleasable(cfg, dns1, f.target.handle, multiset{});
    GiveBackLatest(cfg, w.dns, f.client.handle);
    GiveBackLatest(cfg, dns1, f.target.handle);
  }

  lemma AnswerLatest(cfg: Config, w: World, s: Step)
    requires Good(cfg, w) && s.Answer? && CanStep(w, s)
    ensures Next(cfg, w, s).dns.latest
            == match s.result
               case None => w.dns.latest
               case Some(name) => w.dns.latest[SideOf(w.flows[s.flow], s.client).addr := (name, s.now)]
  {
    hide Agree, Counted, Returned, Remembers, ByLastTouch, AllHandles, GoodLog, AllGood;
  }

  /** What the cache is told: the names of answers, and nothing else. */
  lemma NextLatest(cfg: Config, w: World, s: Step, addr: Addr)
    requires Good(cfg, w) && CanStep(w, s)
    ensures var after := Next(cfg, w, s).dns.latest;
            if AnswersFor(w, s, addr) then addr in after && after[addr] == (s.result.value, s.now)
            else (addr in after <==> addr in w.dns.latest) && (addr in after ==> after[addr] == w.dns.latest[addr])
  {
    hide Good, Next;
    match s
    case Issue(_, _, _, _, _) => IssueLatest(cfg, w, s);
    case Answer(_, _, _, _, _) => AnswerLatest(cfg, w, s);
    case Finalise(_) => FinaliseLatest(cfg, w, s);
  }

  lemma {:induction false} LatestIsLastAnswer(cfg: Config, worlds: seq<World>, steps: seq<Step>, k: nat, addr: Addr)
    requires IsSchedule(cfg, worlds, steps) && k <= |steps|
    ensures var latest := worlds[k].dns.latest;
            LastAnswer(worlds, steps, k, addr) == if addr in latest then Some(latest[addr]) else None
  {
    hide Good, CanStep, Next, AnswersFor;
    if k > 0 {
      LatestIsLastAnswer(cfg, worlds, steps, k - 1, addr);
      assert Played(cfg, worlds, steps, k - 1);
      NextLatest(cfg, worlds[k - 1], steps[k - 1], addr);
    }
  }

  /** Entries that a flow holds keep their address and name through a step. */
  lemma NextKeepsCells(cfg: Config, w: World, s: Step, i: nat, client: bool)
    requires Good(cfg, w) && CanStep(w, s) && i < |w.flows|
    requires var side := SideOf(w.flows[i], client); side.handle.Some?
    requires s.Finalise? ==> s.flow != i
    ensures var h := SideOf(w.flows[i], client).handle.value;
            var after := Next(cfg, w, s).dns.cache.cells;
            && h in w.dns.cache.cells && h in after
            && after[h].(refcnt := 0) == w.dns.cache.cells[h].(refcnt := 0)
  {
    hide Inv, Agree, Counted, Returned, Apply, LookUp, GiveBack, AnsweredSide, AllHandles, GoodLog, NewFlow, Closed,
      Enabled, Kept, FlowHandles;
    var h := SideOf(w.flows[i], client).handle.value;
    FlowWithinAll(w.flows, i);
    HandleHeld(w.flows[i], client);
    assert h in w.dns.holders;
    InvCounts(cfg, w.dns);
    HeldIsLive(w.dns, h);
    match s
    case Issue(c, t, a, b, now) =>
      var dns1 := LookUp(cfg, w.dns, c, a, now).0;
      LookUpKeeps(cfg, w.dns, c, a, now);
      InvCounts(cfg, dns1);
      HeldIsLive(dns1, h);
      var dns2 := LookUp(cfg, dns1, t, b, now).0;
      LookUpKeeps(cfg, dns1, t, b, now);
      InvCounts(cfg, dns2);
      HeldIsLive(dns2, h);
      KeptTwice(w.dns.cache, dns1.cache, dns2.cache, h);
    case Answer(_, _, _, _, _) =>
      assert FlowAt(w.flows, w.dns.cache.cells, s.flow);
      AnsweredSideKeeps(cfg, w.dns, SideOf(w.flows[s.flow], s.client), s.result, s.place, s.now);
      var dns := AnsweredSide(cfg, w.dns, SideOf(w.flows[s.flow], s.client), s.result, s.place, s.now).0;
      InvCounts(cfg, dns);
      HeldIsLive(dns, h);
      KeptOnce(w.dns.cache, dns.cache, h);
    case Finalise(k) =>
      FlowWithinAll(w.flows, k);
      var f := w.flows[k];
      FinaliseCache(cfg, w.dns, f, w.flows, k);
      var dns1 := GiveBack(cfg, w.dns, f.client.handle);
      var dns2 := GiveBack(cfg, dns1, f.target.handle);
      FlowWithinAll(w.flows[k := Closed(f)], i);
      assert h in dns2.holders;
      HeldIsLive(dns1, h);
      HeldIsLive(dns2, h);
      KeptTwice(w.dns.cache, dns1.cache, dns2.cache, h);
  }

  lemma HandleHeld(f: Flow, client: bool)
    ensures SideOf(f, client).handle.Some? ==> FlowHandles(f)[SideOf(f, client).handle.value] > 0
  {
  }

  lemma HeldIsLive(dns: History<Ptr>, h: Ptr)
    requires Counted(dns.cache, dns.holders) && h in dns.holders
    ensures h in dns.cache.cells
  {
  }

  lemma KeptOnce(s: State<Ptr>, t: State<Ptr>, h: Ptr)
    requires Kept(s, t) && h in s.cells && h in t.cells
    ensures s.cells[h].(refcnt := 0) == t.cells[h].(refcnt := 0)
  {
  }

  lemma KeptTwice(s: State<Ptr>, t: State<Ptr>, u: State<Ptr>, h: Ptr)
    requires Kept(s, t) && Kept(t, u) && h in s.cells && h in t.cells && h in u.cells
    ensures s.cells[h].(refcnt := 0) == u.cells[h].(refcnt := 0)
  {
    KeptOnce(s, t, h);
    KeptOnce(t, u, h);
  }

  /** A side that waits no more stays as it is until its flow is finalised. */
  lemma NextKeepsSide(cfg: Config, w: World, s: Step, i: nat, client: bool)
    requires Good(cfg, w) && CanStep(w, s) && i < |w.flows| && !SideOf(w.flows[i], client).waiting
    ensures var after := Next(cfg, w, s);
            && i < |after.flows|
            && (w.flows[i].stage == Finalised ==> after.flows[i].stage == Finalised)
            && (after.flows[i].stage != Finalised ==>
                  SideOf(after.flows[i], client) == SideOf(w.flows[i], client) && !(s.Finalise? && s.flow == i))
  {
    hide Inv, Agree, LookUp, GiveBack, AnsweredSide, AllHandles, GoodLog, NewFlow;
    assert FlowAt(w.flows, w.dns.cache.cells, i);
    if s.Issue? { InvCounts(cfg, w.dns); }
  }

  // ---------------------------------------------------------------- answers

  /** Even without all indexed entries there is no room for the name. */
  ghost predicate NoRoom(cfg: Config, w: World, name: bytes) {
    var cache := w.dns.cache;
    LiveBytes(cfg, cache.cells) + cfg.header + |name| + 1 > cfg.maxBytes + SeqBytes(cfg, cache.cells, cache.lru)
  }

  lemma AnswerGives(cfg: Config, w: World, s: Step)
    requires Good(cfg, w) && s.Answer? && CanStep(w, s)
    ensures var after := Next(cfg, w, s);
            && s.flow < |after.flows|
            && (s.result.None? ==> HasNone(after, s.flow, s.client))
            && (s.result.Some? ==>
                  && HasName(after, s.flow, s.client, s.result.value)
                  && (SideOf(after.flows[s.flow], s.client).handle.None? <==> NoRoom(cfg, w, s.result.value)))
  {
    hide Agree, Counted, Remembers, ByLastTouch, AllHandles, GoodLog, Save;
    assert FlowAt(w.flows, w.dns.cache.cells, s.flow);
    var side := SideOf(w.flows[s.flow], s.client);
    if s.result.Some? {
      SaveKeeps(cfg, w.dns.cache, s.place, side.addr, s.result.value, s.now, w.dns.holders);
      SaveBounds(cfg, w.dns.cache, s.place, side.addr, s.result.value, s.now, w.dns.holders);
    }
  }

  lemma {:induction false} NameStays(cfg: Config, worlds: seq<World>, steps: seq<Step>, j: nat, k: nat, i: nat,
      client: bool, name: bytes)
    requires IsSchedule(cfg, worlds, steps) && j <= k <= |steps| && i < |worlds[j].flows|
    requires HasName(worlds[j], i, client, name)
    ensures i < |worlds[k].flows|
    ensures worlds[k].flows[i].stage != Finalised ==>
              && HasName(worlds[k], i, client, name)
              && SideOf(worlds[k].flows[i], client) == SideOf(worlds[j].flows[i], client)
    ensures worlds[k].flows[i].stage == Finalised || !SideOf(worlds[k].flows[i], client).waiting
    decreases k
  {
    hide Good, CanStep, Next;
    if k > j {
      NameStays(cfg, worlds, steps, j, k - 1, i, client, name);
      var w, s := worlds[k - 1], steps[k - 1];
      assert Played(cfg, worlds, steps, k - 1);
      StageNotWaiting(cfg, w, i, client);
      NextKeepsSide(cfg, w, s, i, client);
      if worlds[k].flows[i].stage != Finalised && SideOf(w.flows[i], client).handle.Some? {
        NotFinalising(s, i);
        NextKeepsCells(cfg, w, s, i, client);
      }
    }
  }

  lemma NotFinalising(s: Step, i: nat)
    ensures !(s.Finalise? && s.flow == i) ==> (s.Finalise? ==> s.flow != i)
  {
  }

  lemma StageNotWaiting(cfg: Config, w: World, i: nat, client: bool)
    requires Good(cfg, w) && i < |w.flows|
    ensures w.flows[i].stage == Finalised ==> !SideOf(w.flows[i], client).waiting
  {
    assert FlowAt(w.flows, w.dns.cache.cells, i);
  }

  /** From its answer until its finalisation, a side has the name it was answered with: in the
      cache's entry, or in a copy of its own, the latter exactly when the cache had no room. */
  lemma AnsweredName(cfg: Config, worlds: seq<World>, steps: seq<Step>, j: nat, k: nat)
    requires IsSchedule(cfg, worlds, steps) && j < k <= |steps| && steps[j].Answer? && steps[j].result.Some?
    ensures var s := steps[j];
            && s.flow < |worlds[k].flows|
            && (worlds[k].flows[s.flow].stage != Finalised ==>
                  && HasName(worlds[k], s.flow, s.client, s.result.value)
                  && (SideOf(worlds[k].flows[s.flow], s.client).handle.None?
                      <==> NoRoom(cfg, worlds[j], s.result.value)))
  {
    hide Good, CanStep, Next, HasName, NoRoom;
    var s := steps[j];
    assert Played(cfg, worlds, steps, j);
    AnswerGives(cfg, worlds[j], s);
    NameStays(cfg, worlds, steps, j + 1, k, s.flow, s.client, s.result.value);
  }

  // ---------------------------------------------------------------- lookups

  /** The cache has a name for the address that is not too old. */
  ghost predicate InCache(cfg: Config, cache: State<Ptr>, addr: Addr, now: int) {
    addr in cache.avl && cache.avl[addr] in cache.cells
    && now - cache.cells[cache.avl[addr]].lastChecked <= cfg.timeout
  }

  lemma LookUpFinds(cfg: Config, dns: History<Ptr>, want: bool, addr: Addr, now: int, other: Addr)
    requires Inv(cfg, dns)
    ensures var (after, got) := LookUp(cfg, dns, want, addr, now);
            && (got.Some? <==> want && InCache(cfg, dns.cache, addr, now))
            && (got.Some? ==> addr in dns.latest && got.value in after.cache.cells
                              && after.cache.cells[got.value].addr == addr
                              && after.cache.cells[got.value].name == dns.latest[addr].0)
            && (InCache(cfg, after.cache, other, now) <==> InCache(cfg, dns.cache, other, now))
  {
    hide Agree, Counted, ByLastTouch, Remembers, Get, InCache;
    if want {
      GetFinds(cfg, dns, addr, now);
      GetOthers(cfg, dns, addr, now, other);
    }
  }

  lemma GetFinds(cfg: Config, dns: History<Ptr>, addr: Addr, now: int)
    requires Inv(cfg, dns)
    ensures var (after, got) := Get(cfg, dns.cache, addr, now);
            && (got.Some? <==> InCache(cfg, dns.cache, addr, now))
            && (got.Some? ==> addr in dns.latest && got.value in after.cells && after.cells[got.value].addr == addr
                              && after.cells[got.value].name == dns.latest[addr].0)
  {
    hide Agree, Counted, ByLastTouch, Get;
    GetKeeps(cfg, dns.cache, addr, now, dns.holders);
  }

  lemma GetOthers(cfg: Config, dns: History<Ptr>, addr: Addr, now: int, other: Addr)
    requires Inv(cfg, dns)
    ensures var after := Get(cfg, dns.cache, addr, now).0;
            InCache(cfg, after, other, now) <==> InCache(cfg, dns.cache, other, now)
  {
    hide Agree, Counted, ByLastTouch, Remembers, Get;
    LiveOfAddress(dns.cache, addr);
    LiveOfAddress(dns.cache, other);
    GetKeeps(cfg, dns.cache, addr, now, dns.holders);
    LiveOfAddress(Get(cfg, dns.cache, addr, now).0, other);
  }

  lemma LiveOfAddress(s: State<Ptr>, addr: Addr)
    requires Agree(s)
    ensures addr in s.avl ==> s.avl[addr] in s.cells && s.cells[s.avl[addr]].addr == addr
  {
    AgreeFacts(s);
  }

  /** A new flow: a side that is wanted has the name last saved for its address if the cache has
      one that is not too old, and waits for the answer to a query otherwise; a side that is not
      wanted has none. */
  ghost predicate Looked(cfg: Config, before: World, after: World, client: bool, want: bool, addr: Addr, now: int)
    requires after.flows != []
  {
    var i := |after.flows| - 1;
    var side := SideOf(after.flows[i], client);
    && side.addr == addr
    && (side.waiting <==> want && !InCache(cfg, before.dns.cache, addr, now))
    && (side.handle.Some? <==> want && InCache(cfg, before.dns.cache, addr, now))
    && (side.handle.Some? ==> addr in before.dns.latest && HasName(after, i, client, before.dns.latest[addr].0))
    && side.name.None?
  }

  /** The handle is that of the name last saved for the address. */
  ghost predicate Names(dns: History<Ptr>, h: Ptr, addr: Addr, latest: map<Addr, (bytes, int)>) {
    addr in latest && h in dns.cache.cells && dns.cache.cells[h].addr == addr
    && dns.cache.cells[h].name == latest[addr].0
  }

  /** Both lookups of a new flow. */
  lemma TwoLookUps(cfg: Config, dns: History<Ptr>, s: Step)
    returns (dns1: History<Ptr>, client: Option<Ptr>, dns2: History<Ptr>, target: Option<Ptr>)
    requires Inv(cfg, dns) && s.Issue? && Agree(dns.cache)
    ensures (dns1, client) == LookUp(cfg, dns, s.solveClient, s.clientAddr, s.now) && Agree(dns1.cache)
    ensures (dns2, target) == LookUp(cfg, dns1, s.solveTarget, s.targetAddr, s.now)
    ensures client.Some? <==> s.solveClient && InCache(cfg, dns.cache, s.clientAddr, s.now)
    ensures target.Some? <==> s.solveTarget && InCache(cfg, dns.cache, s.targetAddr, s.now)
    ensures client.Some? ==> Names(dns2, client.value, s.clientAddr, dns.latest)
    ensures target.Some? ==> Names(dns2, target.value, s.targetAddr, dns.latest)
  {
    hide Inv, Agree, Counted, LookUp, InCache, Kept;
    InvCounts(cfg, dns);
    dns1, client := LookUp(cfg, dns, s.solveClient, s.clientAddr, s.now).0,
      LookUp(cfg, dns, s.solveClient, s.clientAddr, s.now).1;
    LookUpKeeps(cfg, dns, s.solveClient, s.clientAddr, s.now);
    LookUpFinds(cfg, dns, s.solveClient, s.clientAddr, s.now, s.targetAddr);
    LookUpLatest(cfg, dns, s.solveClient, s.clientAddr, s.now);
    InvCounts(cfg, dns1);
    dns2, target := LookUp(cfg, dns1, s.solveTarget, s.targetAddr, s.now).0,
      LookUp(cfg, dns1, s.solveTarget, s.targetAddr, s.now).1;
    LookUpKeeps(cfg, dns1, s.solveTarget, s.targetAddr, s.now);
    LookUpFinds(cfg, dns1, s.solveTarget, s.targetAddr, s.now, s.targetAddr);
    if client.Some? {
      HeldAfter(cfg, dns1, dns2, client.value);
      KeptOnce(dns1.cache, dns2.cache, client.value);
    }
  }

  lemma IssueLooks(cfg: Config, w: World, s: Step)
    requires Good(cfg, w) && s.Issue? && CanStep(w, s)
    ensures var after := Next(cfg, w, s);
            && |after.flows| == |w.flows| + 1 && after.flows[..|w.flows|] == w.flows
            && Looked(cfg, w, after, true, s.solveClient, s.clientAddr, s.now)
            && Looked(cfg, w, after, false, s.solveTarget, s.targetAddr, s.now)
            && (after.flows[|w.flows|].stage == Queued
                <==> !after.flows[|w.flows|].client.waiting && !after.flows[|w.flows|].target.waiting)
  {
    hide Inv, Agree, Counted, LookUp, AllHandles, AllGood, GoodLog, InCache, NewFlow;
    InvCounts(cfg, w.dns);
    var dns1, client, dns2, target := TwoLookUps(cfg, w.dns, s);
    NewSides(s, client, target);
  }

  lemma HeldAfter(cfg: Config, dns1: History<Ptr>, dns2: History<Ptr>, h: Ptr)
    requires Inv(cfg, dns2) && h in dns1.holders && dns1.holders <= dns2.holders
    ensures h in dns2.cache.cells
  {
    hide Agree;
    assert h in dns2.holders;
  }

  /** What becomes of the names that were found and of those that were not. */
  lemma NewSides(s: Step, client: Option<Ptr>, target: Option<Ptr>)
    requires s.Issue? && (client.Some? ==> s.solveClient) && (target.Some? ==> s.solveTarget)
    ensures var f := NewFlow(s, client, target);
            && f.client == Side(s.clientAddr, s.solveClient && client.None?, client, None)
            && f.target == Side(s.targetAddr, s.solveTarget && target.None?, target, None)
            && (f.stage == Queued <==> !f.client.waiting && !f.target.waiting)
  {
  }

  /** A side filled from the cache has, until its flow is finalised, the name of the last answer
      to a query for its address before it was looked up, which came no longer ago than the
      timeout. */
  lemma LookedUpName(cfg: Config, worlds: seq<World>, steps: seq<Step>, j: nat, k: nat, client: bool)
    requires IsSchedule(cfg, worlds, steps) && j < k <= |steps| && steps[j].Issue?
    ensures var i := |worlds[j].flows|;
            && i < |worlds[j + 1].flows| && i < |worlds[k].flows|
            && var side := SideOf(worlds[j + 1].flows[i], client);
               side.handle.Some? && worlds[k].flows[i].stage != Finalised ==>
                 var last := LastAnswer(worlds, steps, j, side.addr);
                 last.Some? && HasName(worlds[k], i, client, last.value.0) && steps[j].now - last.value.1 <= cfg.timeout
  {
    hide Good, CanStep, Next, HasName, LastAnswer;
    var w, s, i := worlds[j], steps[j], |worlds[j].flows|;
    assert Played(cfg, worlds, steps, j);
    IssueLooks(cfg, w, s);
    var side := SideOf(worlds[j + 1].flows[i], client);
    if side.handle.Some? {
      LatestIsLastAnswer(cfg, worlds, steps, j, side.addr);
      NotTooOld(cfg, w, side.addr, s.now);
      NameStays(cfg, worlds, steps, j + 1, k, i, client, w.dns.latest[side.addr].0);
    } else {
      FlowsGrow(cfg, worlds, steps, j + 1, k);
    }
  }

  lemma NotTooOld(cfg: Config, w: World, addr: Addr, now: int)
    requires Good(cfg, w) && InCache(cfg, w.dns.cache, addr, now)
    ensures addr in w.dns.latest && now - w.dns.latest[addr].1 <= cfg.timeout
  {
    hide Agree, Counted, ByLastTouch, AllGood, GoodLog;
  }

  lemma {:induction false} FlowsGrow(cfg: Config, worlds: seq<World>, steps: seq<Step>, j: nat, k: nat)
    requires IsSchedule(cfg, worlds, steps) && j <= k <= |steps|
    ensures |worlds[j].flows| <= |worlds[k].flows|
    decreases k
  {
    hide Good, CanStep, Inv, LookUp, GiveBack, AnsweredSide, NewFlow;
    if k > j {
      FlowsGrow(cfg, worlds, steps, j, k - 1);
      assert Played(cfg, worlds, steps, k - 1);
      MoreFlows(cfg, worlds[k - 1], steps[k - 1]);
    }
  }

  lemma MoreFlows(cfg: Config, w: World, s: Step)
    requires Good(cfg, w) && CanStep(w, s)
    ensures |w.flows| <= |Next(cfg, w, s).flows|
  {
    hide Inv, Agree, LookUp, GiveBack, AnsweredSide, NewFlow, AllHandles, GoodLog;
  }
}
