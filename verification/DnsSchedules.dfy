/** Whole schedules of new flows, answers and finalisations, in any order, and what they keep
    (src/collect.c, src/rb_dns_cache.c). */
module DnsSchedules {
  import opened DnsCacheLaws
  import opened DnsCacheState
  import opened DnsCacheRuns
  import opened DnsFlows

  ghost const START: World := World(Fresh(), [], [])

  /** One step of a schedule; the invariant is no restriction, see `ScheduleGoesOn`. */
  ghost predicate Played(cfg: Config, worlds: seq<World>, steps: seq<Step>, i: nat)
    requires i < |steps| && |worlds| == |steps| + 1
  {
    && Good(cfg, worlds[i]) && CanStep(worlds[i], steps[i])
    && worlds[i + 1] == Next(cfg, worlds[i], steps[i])
  }

  /** `worlds` lists the states of a schedule of steps, in any order in which they can happen. */
  ghost predicate IsSchedule(cfg: Config, worlds: seq<World>, steps: seq<Step>) {
    && |worlds| == |steps| + 1
    && worlds[0] == START
    && (forall i {:trigger Played(cfg, worlds, steps, i)} | 0 <= i < |steps| :: Played(cfg, worlds, steps, i))
  }

  lemma StartIsGood(cfg: Config)
    ensures Good(cfg, START)
  {
    assert LiveBytes(cfg, START.dns.cache.cells) == 0;
  }

  lemma {:induction false} SchedulesKeepGood(cfg: Config, worlds: seq<World>, steps: seq<Step>, k: nat)
    requires IsSchedule(cfg, worlds, steps) && k <= |steps|
    ensures Good(cfg, worlds[k])
  {
    hide Good, CanStep, Next, START;
    if k > 0 {
      SchedulesKeepGood(cfg, worlds, steps, k - 1);
      assert Played(cfg, worlds, steps, k - 1);
      NextKeepsGood(cfg, worlds[k - 1], steps[k - 1]);
    } else {
      StartIsGood(cfg);
    }
  }

  /** A schedule can go on with any step that can happen. */
  lemma ScheduleGoesOn(cfg: Config, worlds: seq<World>, steps: seq<Step>, s: Step)
    requires IsSchedule(cfg, worlds, steps) && CanStep(worlds[|steps|], s)
    ensures Good(cfg, worlds[|steps|]) && IsSchedule(cfg, worlds + [Next(cfg, worlds[|steps|], s)], steps + [s])
  {
    hide Good, CanStep, Next, START;
    SchedulesKeepGood(cfg, worlds, steps, |steps|);
    var t := worlds + [Next(cfg, worlds[|steps|], s)];
    forall i | 0 <= i < |steps| + 1 ensures Played(cfg, t, steps + [s], i) {
      if i < |steps| { assert Played(cfg, worlds, steps, i); }
    }
  }

  /** Handle accounting, at any point of any interleaving of new flows, answers and
      finalisations: an entry is live exactly while it is indexed or some flow holds it, and
      its count is one for the index plus one for every such handle. */
  lemma HandleAccounting(cfg: Config, worlds: seq<World>, steps: seq<Step>, k: nat, h: Ptr)
    requires IsSchedule(cfg, worlds, steps) && k <= |steps|
    ensures var w := worlds[k];
            && (h in w.dns.cache.cells <==> h in w.dns.cache.lru || AllHandles(w.flows)[h] > 0)
            && (h in w.dns.cache.cells ==>
                  w.dns.cache.cells[h].refcnt == (if h in w.dns.cache.lru then 1 else 0) + AllHandles(w.flows)[h])
  {
    SchedulesKeepGood(cfg, worlds, steps, k);
    var w := worlds[k];
    InvCounts(cfg, w.dns);
    LruLive(w.dns.cache);
    if AllHandles(w.flows)[h] > 0 { assert h in w.dns.holders; }
  }

  /** A name taken from the cache stays readable, and belongs to the flow's own address. */
  lemma HandlesReadable(cfg: Config, worlds: seq<World>, steps: seq<Step>, k: nat, i: nat, client: bool)
    requires IsSchedule(cfg, worlds, steps) && k <= |steps| && i < |worlds[k].flows|
    ensures var side := SideOf(worlds[k].flows[i], client);
            var cells := worlds[k].dns.cache.cells;
            side.handle.Some? ==> side.handle.value in cells && cells[side.handle.value].addr == side.addr
  {
    SchedulesKeepGood(cfg, worlds, steps, k);
    assert FlowAt(worlds[k].flows, worlds[k].dns.cache.cells, i);
  }

  /** Each flow is finalised at most once, and only with all its queries answered; until then
      it is never stuck: either its finalisation is queued or one of its answers is due. */
  lemma FinalisedOnce(cfg: Config, worlds: seq<World>, steps: seq<Step>, k: nat, i: nat)
    requires IsSchedule(cfg, worlds, steps) && k <= |steps| && i < |worlds[k].flows|
    ensures var w := worlds[k];
            && (i in w.finalised <==> w.flows[i].stage == Finalised)
            && (forall m, n | 0 <= m < n < |w.finalised| :: w.finalised[m] != w.finalised[n])
            && (w.flows[i].stage != InFlight <==> w.flows[i].answered == w.flows[i].issued)
            && (i !in w.finalised ==>
                  w.flows[i].stage == Queued || w.flows[i].client.waiting || w.flows[i].target.waiting)
  {
    SchedulesKeepGood(cfg, worlds, steps, k);
    assert FlowAt(worlds[k].flows, worlds[k].dns.cache.cells, i);
  }

  ghost predicate Settled(f: Flow) {
    f.stage != Queued && !f.client.waiting && !f.target.waiting
  }

  /** Once every answer has come and every finalisation has run, each flow was finalised
      exactly once, every live entry is indexed and counted once, and the memory in use is
      back within the budget. */
  lemma QuietWorld(cfg: Config, worlds: seq<World>, steps: seq<Step>, k: nat)
    requires IsSchedule(cfg, worlds, steps) && k <= |steps|
    requires forall i | 0 <= i < |worlds[k].flows| :: Settled(worlds[k].flows[i])
    ensures var w := worlds[k];
            && multiset(w.finalised) == multiset(seq(|w.flows|, i => i))
            && (forall h | h in w.dns.cache.cells :: h in w.dns.cache.lru && w.dns.cache.cells[h].refcnt == 1)
            && LiveBytes(cfg, w.dns.cache.cells) <= cfg.maxBytes
  {
    SchedulesKeepGood(cfg, worlds, steps, k);
    var w := worlds[k];
    forall i | 0 <= i < |w.flows| ensures w.flows[i].stage == Finalised && FlowHandles(w.flows[i]) == multiset{} {
      assert FlowAt(w.flows, w.dns.cache.cells, i);
    }
    NoHandles(w.flows);
    hide Agree, Counted;
    QuietMemory(cfg, w.dns);
    SamePermutation(w.finalised, |w.flows|);
  }

  lemma {:induction false} NoHandles(flows: seq<Flow>)
    requires forall i | 0 <= i < |flows| :: FlowHandles(flows[i]) == multiset{}
    ensures AllHandles(flows) == multiset{}
  {
    if flows != [] { NoHandles(flows[1..]); }
  }

  /** A log without repetitions that names each of 0..n is a permutation of them. */
  lemma SamePermutation(log: seq<nat>, n: nat)
    requires forall k | k in log :: k < n
    requires forall i | 0 <= i < n :: i in log
    requires forall j, k | 0 <= j < k < |log| :: log[j] != log[k]
    ensures multiset(log) == multiset(seq(n, i => i))
  {
    var all := seq(n, i => i);
    forall x: nat ensures multiset(log)[x] == multiset(all)[x] {
      OccursOnce(log, x);
      OccursOnce(all, x);
      assert x < n ==> all[x] == x;
      assert x in all <==> x < n;
    }
  }

  lemma {:induction false} OccursOnce(q: seq<nat>, x: nat)
    requires forall j, k | 0 <= j < k < |q| :: q[j] != q[k]
    ensures multiset(q)[x] == if x in q then 1 else 0
  {
    if q != [] {
      assert q == [q[0]] + q[1..];
      OccursOnce(q[1..], x);
    }
  }
}
