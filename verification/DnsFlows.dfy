/** Reverse lookups for flows (src/collect.c): every flow asks the cache for its client and
    target names, sends a DNS query for each one that is missing, saves the answers, and is
    finalised, which gives its handles back. A step system over arbitrary interleavings. */
module DnsFlows {
  import opened Bytes
  import opened DnsCacheState
  import opened DnsCacheLaws
  import opened DnsCacheRuns

  /** Where an entry lives in memory; the allocator may reuse the place of a freed one. */
  type Ptr = nat

  /** One of the two names of a flow: `waiting` while its query is unanswered, `handle` for
      a name taken from the cache, `name` for one that the cache had no room for. */
  datatype Side = Side(addr: Addr, waiting: bool, handle: Option<Ptr>, name: Option<bytes>)

  /** `Queued`: handed to split_after_dns_query_completed, which has not run yet. */
  datatype Stage = InFlight | Queued | Finalised

  /** `refcnt` is the opaque's count of answers to come; `issued` and `answered` count the
      queries of this flow. */
  datatype Flow = Flow(client: Side, target: Side, refcnt: int, issued: nat, answered: nat, stage: Stage)

  datatype World = World(dns: History<Ptr>, flows: seq<Flow>, finalised: seq<nat>)

  datatype Step =
    | Issue(solveClient: bool, solveTarget: bool, clientAddr: Addr, targetAddr: Addr, now: int)
    | Answer(flow: nat, client: bool, result: Option<bytes>, place: Ptr, now: int)
    | Finalise(flow: nat)

  function Bit(b: bool): nat { if b then 1 else 0 }

  // ---------------------------------------------------------------- steps

  /** One lookup of a new flow, when that name is wanted. */
  ghost function LookUp(cfg: Config, dns: History<Ptr>, want: bool, addr: Addr, now: int): (History<Ptr>, Option<Ptr>)
    requires Agree(dns.cache)
  {
    if want then (Apply(cfg, dns, GetOp(addr, now)), Returned(cfg, dns, GetOp(addr, now))) else (dns, None)
  }

  ghost function IssueFlow(cfg: Config, w: World, s: Step): World
    requires s.Issue? && Inv(cfg, w.dns)
  {
    var (dns1, client) := LookUp(cfg, w.dns, s.solveClient, s.clientAddr, s.now);
    LookUpKeeps(cfg, w.dns, s.solveClient, s.clientAddr, s.now);
    var (dns2, target) := LookUp(cfg, dns1, s.solveTarget, s.targetAddr, s.now);
    World(dns2, w.flows + [NewFlow(s, client, target)], w.finalised)
  }

  /** The flow's opaque, after its cache lookups: it counts the names still missing and sends
      a query for each; with none missing its finalisation is queued at once. */
  ghost function NewFlow(s: Step, client: Option<Ptr>, target: Option<Ptr>): Flow
    requires s.Issue?
  {
    var refcnt := Bit(s.solveClient) + Bit(s.solveTarget) - Bit(client.Some?) - Bit(target.Some?);
    var askClient := refcnt != 0 && s.solveClient && client.None?;
    var askTarget := refcnt != 0 && s.solveTarget && target.None?;
    Flow(Side(s.clientAddr, askClient, client, None), Side(s.targetAddr, askTarget, target, None),
         refcnt, Bit(askClient) + Bit(askTarget), 0, if refcnt == 0 then Queued else InFlight)
  }

  ghost function SideOf(f: Flow, client: bool): Side {
    if client then f.client else f.target
  }

  /** The answered side: the cache's entry, or a private copy of the name when the cache is
      full, or nothing when the address has no name. */
  ghost function AnsweredSide(cfg: Config, dns: History<Ptr>, side: Side, result: Option<bytes>, place: Ptr,
      now: int): (History<Ptr>, Side)
    requires Agree(dns.cache) && place !in dns.cache.cells
  {
    match result
    case None => (dns, side.(waiting := false))
    case Some(name) =>
      var op := SaveOp(place, side.addr, name, now);
      var got := Returned(cfg, dns, op);
      (Apply(cfg, dns, op), side.(waiting := false, handle := got, name := if got.None? then Some(name) else side.name))
  }

  ghost function AnswerFlow(cfg: Config, w: World, s: Step): World
    requires s.Answer? && Inv(cfg, w.dns) && s.flow < |w.flows| && s.place !in w.dns.cache.cells
  {
    var f := w.flows[s.flow];
    var (dns, side) := AnsweredSide(cfg, w.dns, SideOf(f, s.client), s.result, s.place, s.now);
    var g := if s.client then f.(client := side) else f.(target := side);
    var h := g.(refcnt := f.refcnt - 1, answered := f.answered + 1,
                stage := if f.refcnt - 1 == 0 then Queued else f.stage);
    World(dns, w.flows[s.flow := h], w.finalised)
  }

  ghost function GiveBack(cfg: Config, dns: History<Ptr>, handle: Option<Ptr>): History<Ptr>
    requires Inv(cfg, dns) && (handle.Some? ==> Enabled(dns, ReleaseOp(handle.value)))
  {
    if handle.Some? then Apply(cfg, dns, ReleaseOp(handle.value)) else dns
  }

  /** The multiset of handles that a side, a flow and all flows hold. */
  ghost function SideHandles(s: Side): multiset<Ptr> {
    if s.handle.Some? then multiset{s.handle.value} else multiset{}
  }

  ghost function FlowHandles(f: Flow): multiset<Ptr> {
    SideHandles(f.client) + SideHandles(f.target)
  }

  ghost function AllHandles(flows: seq<Flow>): multiset<Ptr> {
    if flows == [] then multiset{} else FlowHandles(flows[0]) + AllHandles(flows[1..])
  }

  ghost function Closed(f: Flow): Flow {
    f.(client := f.client.(handle := None), target := f.target.(handle := None), stage := Finalised)
  }

  ghost function FinaliseFlow(cfg: Config, w: World, s: Step): World
    requires s.Finalise? && s.flow < |w.flows| && Inv(cfg, w.dns) && FlowHandles(w.flows[s.flow]) <= w.dns.holders
  {
    var f := w.flows[s.flow];
    HandleReleasable(cfg, w.dns, f.client.handle, SideHandles(f.target));
    var dns1 := GiveBack(cfg, w.dns, f.client.handle);
    HandleReleasable(cfg, dns1, f.target.handle, multiset{});
    var dns2 := GiveBack(cfg, dns1, f.target.handle);
    World(dns2, w.flows[s.flow := Closed(f)], w.finalised + [s.flow])
  }

  /** What may happen next: a new flow that wants some name; an answer to a query in flight,
      with the place the allocator would pick; the queued finalisation of a flow. */
  ghost predicate CanStep(w: World, s: Step) {
    match s
    case Issue(c, t, _, _, _) => c || t
    case Answer(i, client, _, place, _) =>
      i < |w.flows| && SideOf(w.flows[i], client).waiting && place !in w.dns.cache.cells
    case Finalise(i) => i < |w.flows| && w.flows[i].stage == Queued
  }

  ghost function Next(cfg: Config, w: World, s: Step): World
    requires Good(cfg, w) && CanStep(w, s)
  {
    match s
    case Issue(_, _, _, _, _) => IssueFlow(cfg, w, s)
    case Answer(_, _, _, _, _) => AnswerFlow(cfg, w, s)
    case Finalise(i) => FlowWithinAll(w.flows, i); FinaliseFlow(cfg, w, s)
  }

  // ---------------------------------------------------------------- the invariant

  ghost predicate GoodSide(s: Side, cells: map<Ptr, Cell>) {
    && (s.waiting ==> s.handle.None? && s.name.None?)
    && (s.handle.Some? ==> s.handle.value in cells && cells[s.handle.value].addr == s.addr)
  }

  ghost predicate GoodFlow(f: Flow, cells: map<Ptr, Cell>) {
    && GoodSide(f.client, cells) && GoodSide(f.target, cells)
    && f.refcnt == Bit(f.client.waiting) + Bit(f.target.waiting)
    && f.issued == f.answered + f.refcnt
    && (f.stage == InFlight <==> f.refcnt > 0)
    && (f.stage == Finalised ==> f.client.handle.None? && f.target.handle.None?)
  }

  ghost predicate AllGood(flows: seq<Flow>, cells: map<Ptr, Cell>) {
    forall i {:trigger FlowAt(flows, cells, i)} | 0 <= i < |flows| :: FlowAt(flows, cells, i)
  }

  ghost predicate FlowAt(flows: seq<Flow>, cells: map<Ptr, Cell>, i: nat)
    requires i < |flows|
  {
    GoodFlow(flows[i], cells)
  }

  /** The finalisation log lists exactly the finalised flows, each once. */
  ghost predicate GoodLog(flows: seq<Flow>, finalised: seq<nat>) {
    && (forall k | k in finalised :: k < |flows| && flows[k].stage == Finalised)
    && (forall i | 0 <= i < |flows| && flows[i].stage == Finalised :: i in finalised)
    && (forall j, k | 0 <= j < k < |finalised| :: finalised[j] != finalised[k])
  }

  /** Besides the cache's own invariant: its holders are exactly the handles in the flows. */
  ghost predicate Good(cfg: Config, w: World) {
    && Inv(cfg, w.dns)
    && w.dns.holders == AllHandles(w.flows)
    && AllGood(w.flows, w.dns.cache.cells)
    && GoodLog(w.flows, w.finalised)
  }

  // ---------------------------------------------------------------- handles of flows

  lemma {:induction false} FlowWithinAll(flows: seq<Flow>, i: nat)
    requires i < |flows|
    ensures FlowHandles(flows[i]) <= AllHandles(flows)
  {
    if i > 0 { FlowWithinAll(flows[1..], i - 1); }
  }

  lemma {:induction false} AllHandlesAppend(flows: seq<Flow>, f: Flow)
    ensures AllHandles(flows + [f]) == AllHandles(flows) + FlowHandles(f)
  {
    if flows == [] {
      assert flows + [f] == [f];
    } else {
      assert (flows + [f])[1..] == flows[1..] + [f];
      AllHandlesAppend(flows[1..], f);
    }
  }

  lemma MultisetShift(a: multiset<Ptr>, b: multiset<Ptr>, c: multiset<Ptr>, d: multiset<Ptr>, e: multiset<Ptr>)
    requires b + c == d + e
    ensures a + b + c == a + d + e
  {
    assert a + b + c == a + (b + c);
    assert a + d + e == a + (d + e);
  }

  lemma {:induction false} AllHandlesUpdate(flows: seq<Flow>, i: nat, f: Flow)
    requires i < |flows|
    ensures AllHandles(flows[i := f]) + FlowHandles(flows[i]) == AllHandles(flows) + FlowHandles(f)
  {
    if i > 0 {
      assert flows[i := f][1..] == flows[1..][i - 1 := f];
      AllHandlesUpdate(flows[1..], i - 1, f);
      MultisetShift(FlowHandles(flows[0]), AllHandles(flows[1..][i - 1 := f]), FlowHandles(flows[i]),
        AllHandles(flows[1..]), FlowHandles(f));
    } else {
      assert flows[i := f][1..] == flows[1..];
    }
  }

  lemma HandleReleasable(cfg: Config, dns: History<Ptr>, handle: Option<Ptr>, more: multiset<Ptr>)
    requires Inv(cfg, dns)
    requires (if handle.Some? then multiset{handle.value} else multiset{}) + more <= dns.holders
    ensures handle.Some? ==> Enabled(dns, ReleaseOp(handle.value))
    ensures Inv(cfg, GiveBack(cfg, dns, handle)) && more <= GiveBack(cfg, dns, handle).holders
    ensures GiveBack(cfg, dns, handle).holders == dns.holders
            - (if handle.Some? then multiset{handle.value} else multiset{})
  {
    if handle.Some? {
      var h := handle.value;
      assert h in dns.holders by { assert (multiset{h} + more)[h] >= 1; }
      ReleaseStep(cfg, dns, h);
    }
  }

  /** Entries live before and after keep everything but their count. */
  ghost predicate Kept(s: State<Ptr>, t: State<Ptr>) {
    forall h | h in s.cells && h in t.cells :: s.cells[h].(refcnt := 0) == t.cells[h].(refcnt := 0)
  }

  lemma LookUpKeeps(cfg: Config, dns: History<Ptr>, want: bool, addr: Addr, now: int)
    requires Inv(cfg, dns)
    ensures var r := LookUp(cfg, dns, want, addr, now);
            && Inv(cfg, r.0)
            && r.0.holders == dns.holders + (if r.1.Some? then multiset{r.1.value} else multiset{})
            && (r.1.Some? ==> want && r.1.value in r.0.cache.cells && r.0.cache.cells[r.1.value].addr == addr)
            && Kept(dns.cache, r.0.cache)
  {
    hide Agree, Counted, Remembers, ByLastTouch;
    if want {
      GetStep(cfg, dns, addr, now);
      GetKeeps(cfg, dns.cache, addr, now, dns.holders);
    }
  }

  // ---------------------------------------------------------------- every step keeps the invariant

  /** A flow whose handles are still counted stays good, whatever else the cache did. */
  lemma FlowSurvives(f: Flow, s: State<Ptr>, t: State<Ptr>, holders: multiset<Ptr>)
    requires GoodFlow(f, s.cells) && Kept(s, t)
    requires Counted(t, holders) && FlowHandles(f) <= holders
    ensures GoodFlow(f, t.cells)
  {
    assert forall h | h in FlowHandles(f) :: holders[h] > 0;
    assert f.client.handle.Some? ==> f.client.handle.value in FlowHandles(f);
    assert f.target.handle.Some? ==> f.target.handle.value in FlowHandles(f);
    forall h | h in FlowHandles(f) && h in s.cells ensures h in t.cells && t.cells[h].addr == s.cells[h].addr {
      assert h in holders;
      assert t.cells[h].(refcnt := 0).addr == s.cells[h].(refcnt := 0).addr;
    }
  }

  lemma AllSurvive(flows: seq<Flow>, s: State<Ptr>, t: State<Ptr>, holders: multiset<Ptr>)
    requires AllGood(flows, s.cells)
    requires Kept(s, t) && Counted(t, holders) && AllHandles(flows) <= holders
    ensures AllGood(flows, t.cells)
  {
    forall i | 0 <= i < |flows| ensures FlowAt(flows, t.cells, i) {
      assert FlowAt(flows, s.cells, i);
      FlowWithinAll(flows, i);
      FlowSurvives(flows[i], s, t, holders);
    }
  }

  lemma IssueKeepsGood(cfg: Config, w: World, s: Step)
    requires Good(cfg, w) && s.Issue? && CanStep(w, s)
    ensures Good(cfg, IssueFlow(cfg, w, s))
  {
    hide Inv, Agree, Counted, Returned, Apply, LookUp, Kept, AllHandles, GoodLog, GoodFlow, FlowHandles, NewFlow;
    InvCounts(cfg, w.dns);
    var (dns1, client) := LookUp(cfg, w.dns, s.solveClient, s.clientAddr, s.now);
    LookUpKeeps(cfg, w.dns, s.solveClient, s.clientAddr, s.now);
    InvCounts(cfg, dns1);
    var (dns2, target) := LookUp(cfg, dns1, s.solveTarget, s.targetAddr, s.now);
    LookUpKeeps(cfg, dns1, s.solveTarget, s.targetAddr, s.now);
    InvCounts(cfg, dns2);
    var f := NewFlow(s, client, target);
    AllHandlesAppend(w.flows, f);
    NewFlowGood(s, client, target, dns1.cache, dns2.cache, dns2.holders, AllHandles(w.flows));
    AllSurvive(w.flows, w.dns.cache, dns1.cache, dns1.holders);
    AllSurvive(w.flows, dns1.cache, dns2.cache, dns2.holders);
    LogAppended(w.flows, w.finalised, f);
    AllGoodAppend(w.flows, dns2.cache.cells, f);
  }

  lemma LogAppended(flows: seq<Flow>, finalised: seq<nat>, f: Flow)
    requires GoodLog(flows, finalised) && f.stage != Finalised
    ensures GoodLog(flows + [f], finalised)
  {
  }

  lemma NewFlowGood(s: Step, client: Option<Ptr>, target: Option<Ptr>, s1: State<Ptr>, s2: State<Ptr>,
      holders: multiset<Ptr>, before: multiset<Ptr>)
    requires s.Issue? && (s.solveClient || s.solveTarget)
    requires client.Some? ==> s.solveClient && client.value in s1.cells && s1.cells[client.value].addr == s.clientAddr
    requires target.Some? ==> s.solveTarget && target.value in s2.cells && s2.cells[target.value].addr == s.targetAddr
    requires Kept(s1, s2) && Counted(s2, holders)
    requires holders == before + (if client.Some? then multiset{client.value} else multiset{})
                               + (if target.Some? then multiset{target.value} else multiset{})
    ensures GoodFlow(NewFlow(s, client, target), s2.cells) && NewFlow(s, client, target).stage != Finalised
    ensures holders == before + FlowHandles(NewFlow(s, client, target))
  {
    if client.Some? {
      assert holders[client.value] > 0;
      assert client.value in holders;
      assert s1.cells[client.value].(refcnt := 0).addr == s2.cells[client.value].(refcnt := 0).addr;
    }
  }

  lemma InvCounts(cfg: Config, dns: History<Ptr>)
    requires Inv(cfg, dns)
    ensures Agree(dns.cache) && Counted(dns.cache, dns.holders)
  {
  }

  lemma AnsweredSideKeeps(cfg: Config, dns: History<Ptr>, side: Side, result: Option<bytes>, place: Ptr, now: int)
    requires Inv(cfg, dns) && place !in dns.cache.cells && side.waiting && GoodSide(side, dns.cache.cells)
    ensures var r := AnsweredSide(cfg, dns, side, result, place, now);
            && Inv(cfg, r.0) && Kept(dns.cache, r.0.cache)
            && GoodSide(r.1, r.0.cache.cells) && !r.1.waiting
            && r.0.holders == dns.holders + SideHandles(r.1)
  {
    hide Agree, Counted, Remembers, ByLastTouch;
    if result.Some? {
      SaveStep(cfg, dns, place, side.addr, result.value, now);
      SaveKeeps(cfg, dns.cache, place, side.addr, result.value, now, dns.holders);
    }
  }

  lemma AnsweredFlow(f: Flow, client: bool, side: Side, cells: map<Ptr, Cell>)
    requires GoodFlow(f, cells) && SideOf(f, client).waiting && GoodSide(side, cells) && !side.waiting
    ensures var g := if client then f.(client := side) else f.(target := side);
            var h := g.(refcnt := f.refcnt - 1, answered := f.answered + 1,
                        stage := if f.refcnt - 1 == 0 then Queued else f.stage);
            && f.stage == InFlight && h.stage != Finalised
            && GoodFlow(h, cells) && FlowHandles(h) == FlowHandles(f) + SideHandles(side)
  {
  }

  lemma AnswerKeepsGood(cfg: Config, w: World, s: Step)
    requires Good(cfg, w) && s.Answer? && CanStep(w, s)
    ensures Good(cfg, AnswerFlow(cfg, w, s))
  {
    hide Inv, Agree, Counted, AnsweredSide, Kept, GoodLog, FlowHandles, AllHandles;
    var f := w.flows[s.flow];
    assert FlowAt(w.flows, w.dns.cache.cells, s.flow);
    InvCounts(cfg, w.dns);
    AnsweredSideKeeps(cfg, w.dns, SideOf(f, s.client), s.result, s.place, s.now);
    var (dns, side) := AnsweredSide(cfg, w.dns, SideOf(f, s.client), s.result, s.place, s.now);
    InvCounts(cfg, dns);
    SubMultiset(w.dns.holders, SideHandles(side));
    AllSurvive(w.flows, w.dns.cache, dns.cache, dns.holders);
    assert FlowAt(w.flows, dns.cache.cells, s.flow);
    AnsweredFlow(f, s.client, side, dns.cache.cells);
    var h := AnswerFlow(cfg, w, s).flows[s.flow];
    AllHandlesUpdate(w.flows, s.flow, h);
    MultisetCancel(AllHandles(w.flows[s.flow := h]), FlowHandles(f), AllHandles(w.flows), SideHandles(side));
    LogSurvives(w.flows, w.finalised, s.flow, h);
    AllGoodUpdate(w.flows, dns.cache.cells, s.flow, h);
  }

  lemma AllGoodUpdate(flows: seq<Flow>, cells: map<Ptr, Cell>, i: nat, f: Flow)
    requires AllGood(flows, cells) && i < |flows| && GoodFlow(f, cells)
    ensures AllGood(flows[i := f], cells)
  {
    var after := flows[i := f];
    forall k | 0 <= k < |flows| ensures FlowAt(after, cells, k) {
      assert FlowAt(flows, cells, k);
    }
  }

  lemma AllGoodAppend(flows: seq<Flow>, cells: map<Ptr, Cell>, f: Flow)
    requires AllGood(flows, cells) && GoodFlow(f, cells)
    ensures AllGood(flows + [f], cells)
  {
    var after := flows + [f];
    forall k | 0 <= k < |after| ensures FlowAt(after, cells, k) {
      if k < |flows| { assert FlowAt(flows, cells, k); }
    }
  }

  lemma SubMultiset(a: multiset<Ptr>, b: multiset<Ptr>)
    ensures a <= a + b
  {
  }

  lemma MultisetCancel(a: multiset<Ptr>, f: multiset<Ptr>, b: multiset<Ptr>, c: multiset<Ptr>)
    requires a + f == b + (f + c)
    ensures a == b + c
  {
    assert a == (a + f) - f;
    assert b + c == (b + (f + c)) - f;
  }

  lemma LogSurvives(flows: seq<Flow>, finalised: seq<nat>, i: nat, f: Flow)
    requires GoodLog(flows, finalised) && i < |flows|
    requires flows[i].stage != Finalised && f.stage != Finalised
    ensures GoodLog(flows[i := f], finalised)
  {
  }

  lemma LogExtended(flows: seq<Flow>, finalised: seq<nat>, i: nat, f: Flow)
    requires GoodLog(flows, finalised) && i < |flows|
    requires flows[i].stage != Finalised && f.stage == Finalised
    ensures GoodLog(flows[i := f], finalised + [i])
  {
    forall k | 0 <= k < |flows| && flows[i := f][k].stage == Finalised ensures k in finalised + [i] {
      if k != i { assert flows[k].stage == Finalised; }
    }
  }

  lemma FinaliseKeepsGood(cfg: Config, w: World, s: Step)
    requires Good(cfg, w) && s.Finalise? && CanStep(w, s)
    ensures FlowHandles(w.flows[s.flow]) <= w.dns.holders
    ensures Good(cfg, FinaliseFlow(cfg, w, s))
  {
    hide Inv, Agree, Counted, GiveBack, Enabled, AllHandles, GoodLog, GoodFlow, Closed;
    FlowWithinAll(w.flows, s.flow);
    var f := w.flows[s.flow];
    assert FlowAt(w.flows, w.dns.cache.cells, s.flow);
    FinaliseCache(cfg, w.dns, f, w.flows, s.flow);
    var dns1 := GiveBack(cfg, w.dns, f.client.handle);
    var dns2 := GiveBack(cfg, dns1, f.target.handle);
    ClosedFlow(f, w.dns.cache.cells);
    LogExtended(w.flows, w.finalised, s.flow, Closed(f));
    FlowsSurviveRelease(w.flows, w.flows[s.flow := Closed(f)], s.flow, w.dns.cache, dns1, dns2);
  }

  lemma ClosedFlow(f: Flow, cells: map<Ptr, Cell>)
    requires GoodFlow(f, cells) && f.stage == Queued
    ensures Closed(f).stage == Finalised && FlowHandles(Closed(f)) == multiset{}
    ensures forall more: map<Ptr, Cell> :: GoodFlow(Closed(f), more)
  {
  }

  /** The cache after both handles of a flow came back. */
  lemma FinaliseCache(cfg: Config, dns: History<Ptr>, f: Flow, flows: seq<Flow>, i: nat)
    requires Inv(cfg, dns) && i < |flows| && flows[i] == f && dns.holders == AllHandles(flows)
               && FlowHandles(f) <= dns.holders
    ensures f.client.handle.Some? ==> Enabled(dns, ReleaseOp(f.client.handle.value))
    ensures var dns1 := GiveBack(cfg, dns, f.client.handle);
            && Inv(cfg, dns1) && Counted(dns1.cache, dns1.holders) && Kept(dns.cache, dns1.cache)
            && (f.target.handle.Some? ==> Enabled(dns1, ReleaseOp(f.target.handle.value)))
            && var dns2 := GiveBack(cfg, dns1, f.target.handle);
            && Inv(cfg, dns2) && Counted(dns2.cache, dns2.holders) && Kept(dns1.cache, dns2.cache)
            && dns2.holders == AllHandles(flows[i := Closed(f)]) && dns2.holders <= dns1.holders
  {
    hide Inv, Agree, Counted, GiveBack, Enabled, AllHandles, Kept;
    HandleReleasable(cfg, dns, f.client.handle, SideHandles(f.target));
    var dns1 := GiveBack(cfg, dns, f.client.handle);
    HandleReleasable(cfg, dns1, f.target.handle, multiset{});
    var dns2 := GiveBack(cfg, dns1, f.target.handle);
    GiveBackKeeps(cfg, dns, f.client.handle);
    GiveBackKeeps(cfg, dns1, f.target.handle);
    InvCounts(cfg, dns1);
    InvCounts(cfg, dns2);
    AllHandlesUpdate(flows, i, Closed(f));
    Released(AllHandles(flows), SideHandles(f.client), SideHandles(f.target), AllHandles(flows[i := Closed(f)]));
  }

  lemma Released(all: multiset<Ptr>, c: multiset<Ptr>, t: multiset<Ptr>, rest: multiset<Ptr>)
    requires rest + (c + t) == all + (multiset{} + multiset{})
    ensures all - c - t == rest && all - c - t <= all - c
  {
    assert rest == (rest + (c + t)) - c - t;
  }

  lemma GiveBackKeeps(cfg: Config, dns: History<Ptr>, handle: Option<Ptr>)
    requires Inv(cfg, dns) && (handle.Some? ==> Enabled(dns, ReleaseOp(handle.value)))
    ensures Kept(dns.cache, GiveBack(cfg, dns, handle).cache)
  {
    hide Agree, Counted;
  }

  lemma FlowsSurviveRelease(flows: seq<Flow>, after: seq<Flow>, k: nat, s: State<Ptr>, dns1: History<Ptr>,
      dns2: History<Ptr>)
    requires AllGood(flows, s.cells)
    requires k < |flows| && flows[k].stage == Queued && after == flows[k := Closed(flows[k])]
    requires Kept(s, dns1.cache) && Kept(dns1.cache, dns2.cache)
    requires Counted(dns1.cache, dns1.holders) && Counted(dns2.cache, dns2.holders)
    requires dns2.holders == AllHandles(after) && dns2.holders <= dns1.holders
    ensures AllGood(after, dns2.cache.cells)
  {
    hide Counted, Kept, GoodFlow, FlowHandles, AllHandles, Closed;
    forall i | 0 <= i < |after| ensures FlowAt(after, dns2.cache.cells, i) {
      assert FlowAt(flows, s.cells, i);
      if i != k {
        FlowWithinAll(after, i);
        FlowSurvives(flows[i], s, dns1.cache, dns1.holders);
        FlowSurvives(flows[i], dns1.cache, dns2.cache, dns2.holders);
      } else {
        ClosedFlow(flows[k], s.cells);
      }
    }
  }

  /** Every step of any interleaving keeps the invariant. */
  lemma NextKeepsGood(cfg: Config, w: World, s: Step)
    requires Good(cfg, w) && CanStep(w, s)
    ensures Good(cfg, Next(cfg, w, s))
  {
    hide Good, CanStep;
    match s
    case Issue(_, _, _, _, _) => IssueKeepsGood(cfg, w, s);
    case Answer(_, _, _, _, _) => AnswerKeepsGood(cfg, w, s);
    case Finalise(_) => FinaliseKeepsGood(cfg, w, s);
  }
}
