/** Packet queues and workers (src/rb_listener.c, src/collect.c, src/rb_sensor.c): listeners push
    each packet to the worker its sensor is bound to; workers pop and dissect. A step system
    over arbitrary interleavings, and what every one of them keeps. */
module Workers {
  import opened Bits
  import opened Bytes
  import opened Dissector
  import opened Wire

  // ---------------------------------------------------------------- one sensor, one packet

  /** A sensor's observation ids, and the one used for ids it does not know. */
  datatype Sensor = Sensor(ids: map<nat, Obs>, fallback: Option<Obs>)

  /** A received packet: the sensor it came from, its storage, and its length. */
  datatype Packet = Packet(sensor: nat, m: bytes, received: nat)

  /** get_sensor_observation_id. */
  function ObservationIdOf(s: Sensor, id: nat): Option<Obs> {
    if id in s.ids then Some(s.ids[id]) else s.fallback
  }

  function WithObservationId(s: Sensor, id: nat, obs: Obs): Sensor {
    if id in s.ids then s.(ids := s.ids[id := obs]) else s.(fallback := Some(obs))
  }

  const NO_STATS: Stats := Stats(0, 0, 0, 0)

  /** What dissecting a v9 or IPFIX packet does to its sensor, and the flow records it yields;
      a packet for an unknown observation id, or of another version, does nothing. None when
      the dissector never ends. */
  function Process(known: set<nat>, s: Sensor, p: Packet): Option<(Sensor, seq<Record>)> {
    if Version(p.m) != 9 && Version(p.m) != 10 then Some((s, []))
    else
      match ObservationIdOf(s, Domain(p.m))
      case None => Some((s, []))
      case Some(obs) =>
        match Dissect(known, St(obs, NO_STATS), p.m, p.received)
        case None => None
        case Some((st, records)) => Some((WithObservationId(s, Domain(p.m), st.obs), records))
  }

  /** A v9 or IPFIX packet changes the tables of one observation id: that of its own number if the
      sensor has it, else the one for all other numbers. They become what dissecting it under them
      leaves. */
  lemma ProcessChanges(known: set<nat>, s: Sensor, p: Packet)
    requires Version(p.m) == 9 || Version(p.m) == 10
    ensures var d := Domain(p.m);
            && (d in s.ids ==>
                  Process(known, s, p)
                  == match Dissect(known, St(s.ids[d], NO_STATS), p.m, p.received)
                     case None => None
                     case Some((st, records)) => Some((Sensor(s.ids[d := st.obs], s.fallback), records)))
            && (d !in s.ids && s.fallback.Some? ==>
                  Process(known, s, p)
                  == match Dissect(known, St(s.fallback.value, NO_STATS), p.m, p.received)
                     case None => None
                     case Some((st, records)) => Some((Sensor(s.ids, Some(st.obs)), records)))
            && (d !in s.ids && s.fallback.None? ==> Process(known, s, p) == Some((s, [])))
  {
    hide Dissect, Version, Domain;
  }

  /** The packet is of a version, or for a number, that leaves the tables for number `d` alone. */
  predicate Elsewhere(s: Sensor, p: Packet, d: nat) {
    || (Version(p.m) != 9 && Version(p.m) != 10)
    || (Domain(p.m) != d && (d in s.ids || Domain(p.m) in s.ids))
  }

  lemma ElsewhereKeeps(known: set<nat>, s: Sensor, p: Packet, d: nat)
    requires Elsewhere(s, p, d) && Process(known, s, p).Some?
    ensures var t := Process(known, s, p).value.0;
            ObservationIdOf(t, d) == ObservationIdOf(s, d) && t.ids.Keys == s.ids.Keys
  {
    hide Dissect, Version, Domain;
    if Version(p.m) == 9 || Version(p.m) == 10 { ProcessChanges(known, s, p); }
  }

  /** A sensor's packets dissected one after the other. */
  function Fold(known: set<nat>, s: Sensor, packets: seq<Packet>): Option<(Sensor, seq<Record>)> {
    if packets == [] then Some((s, []))
    else
      match Fold(known, s, packets[..|packets| - 1])
      case None => None
      case Some((t, records)) =>
        match Process(known, t, packets[|packets| - 1])
        case None => None
        case Some((u, more)) => Some((u, records + more))
  }

  // ---------------------------------------------------------------- the counters do not matter

  lemma {:induction false} TemplatesIgnoreStats(known: set<nat>, s: St, t: St, m: bytes, base: nat, size: nat,
      ipfix: bool, displ: nat)
    requires s.obs == t.obs
    ensures TemplateLoop(known, s, m, base, size, ipfix, displ).obs
              == TemplateLoop(known, t, m, base, size, ipfix, displ).obs
    decreases size - displ
  {
    hide FlowTemplate;
    if displ < size {
      var (s1, used) := FlowTemplateStep(known, s, m, base + displ, size - displ, ipfix);
      var (t1, _) := FlowTemplateStep(known, t, m, base + displ, size - displ, ipfix);
      TemplatesIgnoreStats(known, s1, t1, m, base, size, ipfix, displ + used);
    }
  }

  lemma SetIgnoresStats(known: set<nat>, s: St, t: St, m: bytes, size: nat, displ: nat, ipfix: bool, sequence: nat)
    requires s.obs == t.obs
    ensures var a := DissectSet(known, s, m, size, displ, ipfix, sequence);
            var b := DissectSet(known, t, m, size, displ, ipfix, sequence);
            && (a.None? <==> b.None?)
            && (a.Some? ==> a.value.0.obs == b.value.0.obs && a.value.1 == b.value.1 && a.value.2 == b.value.2)
  {
    hide TemplateLoop, OptionFields, Records, OptionRecords;
    TemplatesIgnoreStats(known, s, t, m, displ, U16(m, displ + 2), ipfix, 4);
  }

  /** The tables and the records that come out of a packet do not depend on the counters of
      the worker that dissects it. */
  lemma {:induction false} DissectIgnoresStats(known: set<nat>, s: St, t: St, m: bytes, size: nat, received: nat,
      displ: nat, left: nat, ipfix: bool, sequence: nat)
    requires s.obs == t.obs
    ensures var a := Sets(known, s, m, size, received, displ, left, ipfix, sequence);
            var b := Sets(known, t, m, size, received, displ, left, ipfix, sequence);
            && (a.None? <==> b.None?)
            && (a.Some? ==> a.value.0.obs == b.value.0.obs && a.value.1 == b.value.1)
    decreases left
  {
    hide DissectSet;
    if left > 0 && displ < received {
      SetIgnoresStats(known, s, t, m, size, displ, ipfix, sequence);
      var a := DissectSet(known, s, m, size, displ, ipfix, sequence);
      var b := DissectSet(known, t, m, size, displ, ipfix, sequence);
      if a.Some? {
        DissectIgnoresStats(known, a.value.0, b.value.0, m, size, received, a.value.2, left - 1, ipfix, sequence);
      }
    }
  }

  lemma ElsewhereOf(s: Sensor, t: Sensor, q: seq<Packet>, d: nat)
    requires s.ids.Keys == t.ids.Keys && forall p | p in q :: Elsewhere(s, p, d)
    ensures forall p | p in q :: Elsewhere(t, p, d)
  {
    hide Version, Domain;
    forall p | p in q ensures Elsewhere(t, p, d) {
      assert Domain(p.m) in t.ids.Keys <==> Domain(p.m) in s.ids.Keys;
      assert d in t.ids.Keys <==> d in s.ids.Keys;
    }
  }

  /** Folding from the front. */
  lemma {:induction false} FoldFirst(known: set<nat>, s: Sensor, p: Packet, q: seq<Packet>)
    requires Process(known, s, p).Some?
    ensures var (t, records) := Process(known, s, p).value;
            Fold(known, s, [p] + q)
            == match Fold(known, t, q) case None => None case Some((u, more)) => Some((u, records + more))
    decreases |q|
  {
    hide Process;
    var (t, records) := Process(known, s, p).value;
    if q == [] {
      assert [p] + q == [p] && [p][..0] == [];
      assert Fold(known, s, []) == Some((s, [])) && [] + records == records + [];
    } else {
      var front, last := q[..|q| - 1], q[|q| - 1];
      FoldFirst(known, s, p, front);
      var all := [p] + q;
      assert all[..|all| - 1] == [p] + front && all[|all| - 1] == last;
      if Fold(known, t, front).Some? {
        var (u, more) := Fold(known, t, front).value;
        if Process(known, u, last).Some? {
          var rest := Process(known, u, last).value.1;
          assert (records + more) + rest == records + (more + rest);
        }
      }
    }
  }

  /** The tables for a number stay through any packets that are not for them. */
  lemma {:induction false} TablesStay(known: set<nat>, s: Sensor, q: seq<Packet>, d: nat)
    requires (forall p | p in q :: Elsewhere(s, p, d)) && Fold(known, s, q).Some?
    ensures var t := Fold(known, s, q).value.0;
            ObservationIdOf(t, d) == ObservationIdOf(s, d) && t.ids.Keys == s.ids.Keys
  {
    hide Process, ObservationIdOf, Version, Domain;
    if q != [] {
      var front, last := q[..|q| - 1], q[|q| - 1];
      TablesStay(known, s, front, d);
      var t := Fold(known, s, front).value.0;
      assert Elsewhere(s, last, d);
      assert d in t.ids <==> d in s.ids;
      assert Domain(last.m) in t.ids <==> Domain(last.m) in s.ids;
      ElsewhereKeeps(known, t, last, d);
    }
  }

  // ---------------------------------------------------------------- the step system

  /** A worker waits for a packet; has popped one and is dissecting it, having read the
      sensor's tables; has found its queue empty and is about to look at its run flag; or has
      left its loop. `seen` is how many packets had been pushed at that empty pop. */
  datatype Worker =
    | Idle
    | Busy(packet: Packet, tables: Sensor)
    | Empty(seen: nat)
    | Exited(seen: nat)

  datatype System = System(
    queues: seq<seq<Packet>>, workers: seq<Worker>, run: seq<bool>,
    sensors: seq<Sensor>, delivered: seq<seq<Record>>,
    pushed: seq<Packet>, processed: seq<seq<Packet>>)

  /** The ids with a printable element, the worker each sensor is bound to, and the tables
      the sensors start with. */
  datatype Setup = Setup(known: set<nat>, worker: seq<nat>, workers: nat, initial: seq<Sensor>)

  datatype Step =
    | Push(packet: Packet) | Pop(w: nat) | Commit(w: nat) | PopNothing(w: nat) | Check(w: nat) | Stop(w: nat)

  ghost predicate Sound(c: Setup) {
    && |c.worker| == |c.initial|
    && forall s | 0 <= s < |c.worker| :: c.worker[s] < c.workers
  }

  /** Every packet is of a configured sensor. */
  ghost predicate Known(c: Setup, q: seq<Packet>) {
    forall p | p in q :: p.sensor < |c.worker|
  }

  ghost predicate KnownAt(c: Setup, y: System, w: nat)
    requires w < |y.queues| && w < |y.workers|
  {
    Known(c, y.queues[w]) && Known(c, InHand(y.workers[w]))
  }

  ghost predicate Shape(c: Setup, y: System) {
    && Sound(c)
    && |y.queues| == |y.workers| == |y.run| == |y.processed| == c.workers
    && |y.sensors| == |y.delivered| == |c.initial|
    && Known(c, y.pushed)
    && forall w {:trigger KnownAt(c, y, w)} | 0 <= w < c.workers :: KnownAt(c, y, w)
  }

  ghost predicate CanStep(c: Setup, y: System, s: Step)
    requires Shape(c, y)
  {
    match s
    case Push(p) => p.sensor < |c.initial|
    case Pop(w) => w < c.workers && y.workers[w].Idle? && y.queues[w] != []
    case Commit(w) =>
      w < c.workers && y.workers[w].Busy? && Process(c.known, y.workers[w].tables, y.workers[w].packet).Some?
    case PopNothing(w) => w < c.workers && y.workers[w].Idle? && y.queues[w] == []
    case Check(w) => w < c.workers && y.workers[w].Empty?
    case Stop(w) => w < c.workers
  }

  ghost function Next(c: Setup, y: System, s: Step): System
    requires Shape(c, y) && CanStep(c, y, s)
  {
    match s
    case Push(p) =>
      var w := c.worker[p.sensor];
      y.(queues := y.queues[w := y.queues[w] + [p]], pushed := y.pushed + [p])
    case Pop(w) =>
      var p := y.queues[w][0];
      assert KnownAt(c, y, w);
      y.(queues := y.queues[w := y.queues[w][1..]], workers := y.workers[w := Busy(p, y.sensors[p.sensor])])
    case Commit(w) =>
      var p := y.workers[w].packet;
      assert KnownAt(c, y, w) && p in InHand(y.workers[w]);
      var (tables, records) := Process(c.known, y.workers[w].tables, p).value;
      y.(workers := y.workers[w := Idle], sensors := y.sensors[p.sensor := tables],
         delivered := y.delivered[p.sensor := y.delivered[p.sensor] + records],
         processed := y.processed[w := y.processed[w] + [p]])
    case PopNothing(w) => y.(workers := y.workers[w := Empty(|y.pushed|)])
    case Check(w) => y.(workers := y.workers[w := if y.run[w] then Idle else Exited(y.workers[w].seen)])
    case Stop(w) => y.(run := y.run[w := false])
  }

  /** Nothing received yet, every worker running. */
  ghost function Start(c: Setup): System {
    System(seq(c.workers, i => []), seq(c.workers, i => Idle), seq(c.workers, i => true),
           c.initial, seq(|c.initial|, i => []), [], seq(c.workers, i => []))
  }

  // ---------------------------------------------------------------- the packets of a sensor, or of a worker

  function InHand(w: Worker): seq<Packet> {
    if w.Busy? then [w.packet] else []
  }

  /** The packets of sensor `s`, in order. */
  function Of(q: seq<Packet>, s: nat): seq<Packet> {
    if q == [] then []
    else Of(q[..|q| - 1], s) + (if q[|q| - 1].sensor == s then [q[|q| - 1]] else [])
  }

  /** The packets for worker `w`, in order. */
  ghost function For(c: Setup, q: seq<Packet>, w: nat): seq<Packet>
    requires Known(c, q)
  {
    if q == [] then []
    else For(c, q[..|q| - 1], w) + (if c.worker[q[|q| - 1].sensor] == w then [q[|q| - 1]] else [])
  }

  lemma {:induction false} OfConcat(a: seq<Packet>, b: seq<Packet>, s: nat)
    ensures Of(a + b, s) == Of(a, s) + Of(b, s)
  {
    if b == [] {
      assert a + b == a;
    } else {
      OfConcat(a, b[..|b| - 1], s);
      var t, last := a + b, b[|b| - 1];
      assert t[..|t| - 1] == a + b[..|b| - 1] && t[|t| - 1] == last;
      assert Of(t, s) == Of(t[..|t| - 1], s) + if last.sensor == s then [last] else [];
    }
  }

  lemma {:induction false} ForConcat(c: Setup, a: seq<Packet>, b: seq<Packet>, w: nat)
    requires Known(c, a) && Known(c, b)
    ensures For(c, a + b, w) == For(c, a, w) + For(c, b, w)
  {
    if b == [] {
      assert a + b == a;
    } else {
      ForConcat(c, a, b[..|b| - 1], w);
      assert (a + b)[..|a + b| - 1] == a + b[..|b| - 1];
    }
  }

  lemma {:induction false} ForMembers(c: Setup, q: seq<Packet>, w: nat, p: Packet)
    requires Known(c, q) && p in For(c, q, w)
    ensures p in q && c.worker[p.sensor] == w
  {
    if q != [] && p in For(c, q[..|q| - 1], w) { ForMembers(c, q[..|q| - 1], w, p); }
  }

  /** All of a sensor's packets, and no others of it, are among those for its worker. */
  lemma {:induction false} OfFor(c: Setup, q: seq<Packet>, w: nat, s: nat)
    requires Known(c, q) && s < |c.worker|
    ensures Of(For(c, q, w), s) == if c.worker[s] == w then Of(q, s) else []
  {
    if q != [] {
      var front, last := q[..|q| - 1], q[|q| - 1];
      OfFor(c, front, w, s);
      OfConcat(For(c, front, w), if c.worker[last.sensor] == w then [last] else [], s);
      assert Of([last], s) == if last.sensor == s then [last] else [] by { assert [last][..0] == []; }
    }
  }

  // ---------------------------------------------------------------- what every step keeps

  /** Worker `w`'s packets: processed, then in hand, then queued, are those pushed for it, in
      order. A packet in hand was read with its sensor's current tables. Everything pushed
      before the worker's last empty pop has been processed, and it leaves only when stopped. */
  ghost predicate WorkerKeeps(c: Setup, y: System, w: nat)
    requires Shape(c, y) && w < c.workers
  {
    && For(c, y.pushed, w) == y.processed[w] + InHand(y.workers[w]) + y.queues[w]
    && (y.workers[w].Busy? ==> ReadsCurrent(c, y, w, y.workers[w].packet, y.workers[w].tables))
    && (y.workers[w].Empty? ==> UpToDate(c, y, w, y.workers[w].seen))
    && (y.workers[w].Exited? ==> UpToDate(c, y, w, y.workers[w].seen) && !y.run[w])
  }

  ghost predicate ReadsCurrent(c: Setup, y: System, w: nat, p: Packet, tables: Sensor)
    requires Shape(c, y)
  {
    p.sensor < |c.worker| && c.worker[p.sensor] == w && tables == y.sensors[p.sensor]
  }

  ghost predicate UpToDate(c: Setup, y: System, w: nat, seen: nat)
    requires Shape(c, y) && w < c.workers
  {
    seen <= |y.pushed| && For(c, y.pushed[..seen], w) == y.processed[w]
  }

  /** Sensor `s`'s tables and records are those of its processed packets, one after another. */
  ghost predicate SensorKeeps(c: Setup, y: System, s: nat)
    requires Shape(c, y) && s < |c.initial|
  {
    Fold(c.known, c.initial[s], Of(y.processed[c.worker[s]], s)) == Some((y.sensors[s], y.delivered[s]))
  }

  ghost predicate Good(c: Setup, y: System) {
    && Shape(c, y)
    && (forall w {:trigger WorkerKeeps(c, y, w)} | 0 <= w < c.workers :: WorkerKeeps(c, y, w))
    && (forall s {:trigger SensorKeeps(c, y, s)} | 0 <= s < |c.initial| :: SensorKeeps(c, y, s))
  }

  lemma NextKeepsShape(c: Setup, y: System, s: Step)
    requires Shape(c, y) && CanStep(c, y, s)
    ensures Shape(c, Next(c, y, s))
  {
    hide Process;
    var z := Next(c, y, s);
    if s.Commit? { assert KnownAt(c, y, s.w) && y.workers[s.w].packet in InHand(y.workers[s.w]); }
    forall w | 0 <= w < c.workers ensures KnownAt(c, z, w) {
      assert KnownAt(c, y, w);
    }
  }

  lemma PushKeepsWorker(c: Setup, y: System, p: Packet, w: nat)
    requires Shape(c, y) && CanStep(c, y, Push(p)) && w < c.workers && WorkerKeeps(c, y, w)
    requires Shape(c, Next(c, y, Push(p)))
    ensures WorkerKeeps(c, Next(c, y, Push(p)), w)
  {
    var z := Next(c, y, Push(p));
    assert Known(c, [p]) && [p][..0] == [];
    ForConcat(c, y.pushed, [p], w);
    if y.workers[w].Empty? || y.workers[w].Exited? {
      assert z.pushed[..y.workers[w].seen] == y.pushed[..y.workers[w].seen];
    }
  }

  lemma PopKeepsWorker(c: Setup, y: System, v: nat, w: nat)
    requires Shape(c, y) && CanStep(c, y, Pop(v)) && w < c.workers && WorkerKeeps(c, y, w)
    requires Shape(c, Next(c, y, Pop(v)))
    ensures WorkerKeeps(c, Next(c, y, Pop(v)), w)
  {
    if w == v {
      var p := y.queues[w][0];
      assert y.queues[w] == [p] + y.queues[w][1..];
      ForMembers(c, y.pushed, w, p);
    }
  }

  lemma CommitKeepsWorker(c: Setup, y: System, v: nat, w: nat)
    requires Shape(c, y) && CanStep(c, y, Commit(v)) && w < c.workers && WorkerKeeps(c, y, v) && WorkerKeeps(c, y, w)
    requires Shape(c, Next(c, y, Commit(v)))
    ensures WorkerKeeps(c, Next(c, y, Commit(v)), w)
  {
    hide Process;
  }

  lemma NextKeepsWorker(c: Setup, y: System, s: Step, w: nat)
    requires Good(c, y) && CanStep(c, y, s) && w < c.workers && Shape(c, Next(c, y, s))
    ensures WorkerKeeps(c, Next(c, y, s), w)
  {
    hide Process;
    assert WorkerKeeps(c, y, w);
    match s
    case Push(p) => PushKeepsWorker(c, y, p, w);
    case Pop(v) => PopKeepsWorker(c, y, v, w);
    case Commit(v) =>
      assert WorkerKeeps(c, y, v);
      CommitKeepsWorker(c, y, v, w);
    case PopNothing(v) => assert y.pushed[..|y.pushed|] == y.pushed;
    case Check(v) =>
    case Stop(v) =>
  }

  lemma FoldMore(known: set<nat>, s: Sensor, q: seq<Packet>, p: Packet)
    requires Fold(known, s, q).Some? && Process(known, Fold(known, s, q).value.0, p).Some?
    ensures var (t, records) := Fold(known, s, q).value;
            var (u, more) := Process(known, t, p).value;
            Fold(known, s, q + [p]) == Some((u, records + more))
  {
    hide Process;
    assert (q + [p])[..|q|] == q;
  }

  lemma NextKeepsSensor(c: Setup, y: System, step: Step, s: nat)
    requires Good(c, y) && CanStep(c, y, step) && s < |c.initial| && Shape(c, Next(c, y, step))
    ensures SensorKeeps(c, Next(c, y, step), s)
  {
    hide Process, Fold;
    assert SensorKeeps(c, y, s);
    if step.Commit? {
      var w := step.w;
      assert WorkerKeeps(c, y, w);
      var p := y.workers[w].packet;
      OfConcat(y.processed[w], [p], s);
      assert [p][..0] == [];
      assert Of([p], s) == if p.sensor == s then [p] else [];
      assert Next(c, y, step).processed[w] == y.processed[w] + [p];
      if p.sensor == s {
        FoldMore(c.known, c.initial[s], Of(y.processed[w], s), p);
        assert Of(y.processed[w] + [p], s) == Of(y.processed[w], s) + [p];
        assert y.workers[w].tables == y.sensors[s];
        assert Next(c, y, step).delivered[s] == y.delivered[s] + Process(c.known, y.workers[w].tables, p).value.1;
      } else {
        assert Of(y.processed[w] + [p], s) == Of(y.processed[w], s);
      }
    }
  }

  lemma NextKeepsGood(c: Setup, y: System, s: Step)
    requires Good(c, y) && CanStep(c, y, s)
    ensures Good(c, Next(c, y, s))
  {
    hide Process, Fold, WorkerKeeps, SensorKeeps, Next, CanStep, Shape;
    NextKeepsShape(c, y, s);
    forall w | 0 <= w < c.workers ensures WorkerKeeps(c, Next(c, y, s), w) { NextKeepsWorker(c, y, s, w); }
    forall k | 0 <= k < |c.initial| ensures SensorKeeps(c, Next(c, y, s), k) { NextKeepsSensor(c, y, s, k); }
  }

  lemma StartIsGood(c: Setup)
    requires Sound(c)
    ensures Good(c, Start(c))
  {
    var y := Start(c);
    forall w | 0 <= w < c.workers ensures KnownAt(c, y, w) {}
    assert Shape(c, y);
    forall w | 0 <= w < c.workers ensures WorkerKeeps(c, y, w) {}
    forall s | 0 <= s < |c.initial| ensures SensorKeeps(c, y, s) {}
  }

  // ---------------------------------------------------------------- whole runs

  ghost predicate Played(c: Setup, ys: seq<System>, steps: seq<Step>, i: nat)
    requires |ys| == |steps| + 1 && i < |steps|
  {
    Shape(c, ys[i]) && CanStep(c, ys[i], steps[i]) && ys[i + 1] == Next(c, ys[i], steps[i])
  }

  /** `ys` lists the states of a run of listeners and workers, interleaved in any way. */
  ghost predicate IsRun(c: Setup, ys: seq<System>, steps: seq<Step>) {
    && Sound(c) && |ys| == |steps| + 1 && ys[0] == Start(c)
    && forall i {:trigger Played(c, ys, steps, i)} | 0 <= i < |steps| :: Played(c, ys, steps, i)
  }

  lemma {:induction false} RunsKeepGood(c: Setup, ys: seq<System>, steps: seq<Step>, k: nat)
    requires IsRun(c, ys, steps) && k <= |steps|
    ensures Good(c, ys[k])
  {
    hide Good, CanStep, Next, Start, Shape;
    if k > 0 {
      RunsKeepGood(c, ys, steps, k - 1);
      assert Played(c, ys, steps, k - 1);
      NextKeepsGood(c, ys[k - 1], steps[k - 1]);
    } else {
      StartIsGood(c);
    }
  }

  /** A run can go on with any step that can happen. */
  lemma RunGoesOn(c: Setup, ys: seq<System>, steps: seq<Step>, s: Step)
    requires IsRun(c, ys, steps) && Shape(c, ys[|steps|]) && CanStep(c, ys[|steps|], s)
    ensures IsRun(c, ys + [Next(c, ys[|steps|], s)], steps + [s])
  {
    hide CanStep, Next, Start, Shape;
    var zs := ys + [Next(c, ys[|steps|], s)];
    forall i | 0 <= i < |steps| + 1 ensures Played(c, zs, steps + [s], i) {
      if i < |steps| { assert Played(c, ys, steps, i); }
    }
  }

  /** At every moment of every interleaving a sensor sees sequential behaviour: its packets
      processed, in hand and queued, in that order and all at its own worker, are exactly those
      pushed for it; no other worker ever has any; and its tables and records are the ones the
      dissector gives for the processed packets taken one after the other. */
  lemma SensorSeesSequence(c: Setup, ys: seq<System>, steps: seq<Step>, k: nat, s: nat)
    requires IsRun(c, ys, steps) && k <= |steps| && s < |c.initial|
    ensures var y := ys[k];
            && Shape(c, y)
            && var home := c.worker[s];
            && Of(y.processed[home], s) + Of(InHand(y.workers[home]), s) + Of(y.queues[home], s) == Of(y.pushed, s)
            && (forall w | 0 <= w < c.workers && w != home ::
                  Of(y.processed[w], s) + Of(InHand(y.workers[w]), s) + Of(y.queues[w], s) == [])
            && Fold(c.known, c.initial[s], Of(y.processed[home], s)) == Some((y.sensors[s], y.delivered[s]))
  {
    hide Fold;
    RunsKeepGood(c, ys, steps, k);
    var y := ys[k];
    assert SensorKeeps(c, y, s);
    forall w | 0 <= w < c.workers
      ensures Of(y.processed[w], s) + Of(InHand(y.workers[w]), s) + Of(y.queues[w], s)
              == if c.worker[s] == w then Of(y.pushed, s) else []
    {
      assert WorkerKeeps(c, y, w);
      OfFor(c, y.pushed, w, s);
      OfConcat(y.processed[w] + InHand(y.workers[w]), y.queues[w], s);
      OfConcat(y.processed[w], InHand(y.workers[w]), s);
    }
  }

  /** No two workers ever have packets of the same sensor in hand: its tables are never read
      by one worker while another one is changing them. */
  lemma NoTwoHandsOnASensor(c: Setup, ys: seq<System>, steps: seq<Step>, k: nat, v: nat, w: nat)
    requires IsRun(c, ys, steps) && k <= |steps| && v < |ys[k].workers| && w < |ys[k].workers| && v != w
    ensures ys[k].workers[v].Busy? && ys[k].workers[w].Busy? ==>
              ys[k].workers[v].packet.sensor != ys[k].workers[w].packet.sensor
  {
    RunsKeepGood(c, ys, steps, k);
    assert WorkerKeeps(c, ys[k], v) && WorkerKeeps(c, ys[k], w);
  }

  /** A worker leaves only once stopped, and what it leaves in its queue was all pushed after
      its last empty pop; everything pushed for it before was processed. */
  lemma LeftoversCameLate(c: Setup, ys: seq<System>, steps: seq<Step>, k: nat, w: nat)
    requires IsRun(c, ys, steps) && k <= |steps| && w < |ys[k].workers| && ys[k].workers[w].Exited?
    ensures var y := ys[k];
            && Shape(c, y)
            && var seen := y.workers[w].seen;
            && !y.run[w] && seen <= |y.pushed|
            && y.processed[w] == For(c, y.pushed[..seen], w)
            && y.queues[w] == For(c, y.pushed[seen..], w)
  {
    RunsKeepGood(c, ys, steps, k);
    var y := ys[k];
    assert WorkerKeeps(c, y, w);
    var seen := y.workers[w].seen;
    ForConcat(c, y.pushed[..seen], y.pushed[seen..], w);
    assert y.pushed == y.pushed[..seen] + y.pushed[seen..];
    assert y.processed[w] + [] == y.processed[w];
    assert y.queues[w] == (y.processed[w] + y.queues[w])[|y.processed[w]|..];
  }

  /** Once a worker has caught up, each of its sensors has the tables and records of all the
      packets ever pushed for it, taken one after the other. */
  lemma CaughtUp(c: Setup, ys: seq<System>, steps: seq<Step>, k: nat, s: nat)
    requires IsRun(c, ys, steps) && k <= |steps| && s < |c.initial| && Shape(c, ys[k])
    requires ys[k].queues[c.worker[s]] == [] && !ys[k].workers[c.worker[s]].Busy?
    ensures Fold(c.known, c.initial[s], Of(ys[k].pushed, s)) == Some((ys[k].sensors[s], ys[k].delivered[s]))
  {
    hide Fold;
    SensorSeesSequence(c, ys, steps, k, s);
    var done := Of(ys[k].processed[c.worker[s]], s);
    assert done + [] + [] == done;
  }

  // ---------------------------------------------------------------- binding sensors to workers

  /** read_sensors_config_networks hands out workers in turn: the k-th sensor that parses gets
      worker k mod n. `parses` says, entry by entry, whether the configuration yields a sensor. */
  method BindWorkers(parses: seq<bool>, workers: nat) returns (bound: seq<nat>)
    requires workers > 0
    ensures |bound| == Accepted(parses)
    ensures forall k | 0 <= k < |bound| :: bound[k] == k % workers
  {
    bound := [];
    var next := 0;
    for i := 0 to |parses|
      invariant |bound| == Accepted(parses[..i])
      invariant forall k | 0 <= k < |bound| :: bound[k] == k % workers
      invariant next == |bound| % workers
    {
      assert parses[..i + 1][..i] == parses[..i];
      if parses[i] {
        NextWorker(|bound|, workers);
        bound := bound + [next];
        next := next + 1;
        if next >= workers { next := 0; }
      }
    }
    assert parses[..|parses|] == parses;
  }

  function Accepted(parses: seq<bool>): nat {
    if parses == [] then 0 else Accepted(parses[..|parses| - 1]) + if parses[|parses| - 1] then 1 else 0
  }

  lemma NextWorker(k: nat, n: nat)
    requires n > 0
    ensures (k + 1) % n == if k % n + 1 >= n then 0 else k % n + 1
  {
    var q, r := k / n, k % n;
    assert k == n * q + r;
    if r + 1 >= n {
      assert k + 1 == n * (q + 1);
      Remainder(k + 1, n, q + 1, 0);
    } else {
      Remainder(k + 1, n, q, r + 1);
    }
  }
}
