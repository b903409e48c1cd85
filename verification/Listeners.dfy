/** Merging the lists of listeners when the configuration is read again (src/rb_listener.c). */
module Listeners {

  /** A listener on a port. A closed one has no socket any more. */
  class Collector {
    const proto: int
    const port: nat
    var closed: bool

    constructor (proto: int, port: nat)
      ensures this.proto == proto && this.port == port && !closed
    {
      this.proto, this.port, closed := proto, port, false;
    }

    /** closeNetFlowListener. */
    method Close()
      modifies this
      ensures closed
    {
      closed := true;
    }
  }

  /** What a listener is told apart by. */
  function Address(c: Collector): (int, nat) {
    (c.proto, c.port)
  }

  predicate Present(c: Collector, list: seq<Collector>) {
    exists k :: 0 <= k < |list| && Address(list[k]) == Address(c)
  }

  /** The listeners of a list that are present in the other list, or not, in order. */
  ghost function Filtered(list: seq<Collector>, other: seq<Collector>, present: bool): seq<Collector> {
    if list == [] then []
    else Filtered(list[..|list| - 1], other, present)
         + if Present(list[|list| - 1], other) == present then [list[|list| - 1]] else []
  }

  /** No listener object is in the list twice. */
  ghost predicate Distinct(list: seq<Collector>) {
    forall i, j | 0 <= i < j < |list| :: list[i] != list[j]
  }

  /** No two listeners of the list have the same address. */
  ghost predicate NoDuplicates(list: seq<Collector>) {
    forall i, j | 0 <= i < j < |list| :: Address(list[i]) != Address(list[j])
  }

  ghost function Addresses(list: seq<Collector>): set<(int, nat)> {
    set k | 0 <= k < |list| :: Address(list[k])
  }

  // ---------------------------------------------------------------- the lists

  class ListenerList {
    var listeners: seq<Collector>

    constructor ()
      ensures listeners == []
    {
      listeners := [];
    }

    /** is_present. */
    method IsPresent(c: Collector) returns (r: bool)
      ensures r == Present(c, listeners)
    {
      for k := 0 to |listeners|
        invariant forall j | 0 <= j < k :: Address(listeners[j]) != Address(c)
      {
        if listeners[k].proto == c.proto && listeners[k].port == c.port { return true; }
      }
      return false;
    }

    /** listener_list_remove, while the list is being walked. */
    method Remove(i: nat)
      requires i < |listeners|
      modifies this
      ensures listeners == old(listeners)[..i] + old(listeners)[i + 1..]
    {
      listeners := listeners[..i] + listeners[i + 1..];
    }
  }

  /** purgeListeners: walks the list, taking out and closing the listeners that are present in
      the other list, or those that are not. */
  method PurgeListeners(original: ListenerList, compare: ListenerList, present: bool)
    requires original != compare
    requires Distinct(original.listeners) && forall c | c in original.listeners :: c !in compare.listeners
    modifies original, original.listeners
    ensures original.listeners == Filtered(old(original.listeners), compare.listeners, !present)
    ensures forall c | c in old(original.listeners) ::
              c.closed == (old(c.closed) || Present(c, compare.listeners) == present)
  {
    hide Present, Filtered;
    ghost var all, other := original.listeners, compare.listeners;
    ghost var done := 0;
    var i := 0;
    WalkBegins(all, other, !present);
    while i < |original.listeners|
      invariant done <= |all| && i <= |original.listeners|
      invariant compare.listeners == other
      invariant original.listeners[..i] == Filtered(all[..done], other, !present)
      invariant original.listeners[i..] == all[done..]
      invariant forall k | 0 <= k < done :: all[k].closed == (old(all[k].closed) || Present(all[k], other) == present)
      invariant forall k | done <= k < |all| :: all[k].closed == old(all[k].closed)
      decreases |all| - done
    {
      var c := original.listeners[i];
      assert c == original.listeners[i..][0] == all[done];
      WalkGoesOn(all, other, !present, done);
      ghost var was := original.listeners;
      var found := compare.IsPresent(c);
      if (!present && !found) || (present && found) {
        original.Remove(i);
        c.Close();
        assert original.listeners[..i] == was[..i];
        assert original.listeners[i..] == was[i..][1..];
      } else {
        i := i + 1;
        assert original.listeners[..i] == was[..i - 1] + [c];
        assert original.listeners[i..] == was[i - 1..][1..];
      }
      done := done + 1;
    }
    assert original.listeners[i..] == [] && done == |all|;
    assert original.listeners[..i] == original.listeners && all[..done] == all;
  }

  lemma WalkBegins(all: seq<Collector>, other: seq<Collector>, present: bool)
    ensures Filtered(all[..0], other, present) == []
  {
  }

  lemma WalkGoesOn(all: seq<Collector>, other: seq<Collector>, present: bool, k: nat)
    requires k < |all|
    ensures Filtered(all[..k + 1], other, present)
            == Filtered(all[..k], other, present) + if Present(all[k], other) == present then [all[k]] else []
  {
    assert all[..k + 1][..k] == all[..k];
  }

  /** What a merge leaves: the running listeners that are wanted, then the wanted ones that are
      not running yet. */
  ghost function Merged(running: seq<Collector>, wanted: seq<Collector>): seq<Collector> {
    Filtered(running, wanted, true) + Filtered(wanted, running, false)
  }

  /** mergeNetFlowListenerList: brings the running listeners into line with the configuration.
      Those that stay keep their place and stay open; a running listener is closed exactly if it
      is not wanted, and a new one exactly if it is running already. */
  method MergeNetFlowListenerList(l1: ListenerList, l2: ListenerList)
    requires l1 != l2 && Distinct(l1.listeners) && Distinct(l2.listeners)
    requires forall c | c in l1.listeners :: c !in l2.listeners
    modifies l1, l2, l1.listeners, l2.listeners
    ensures l1.listeners == Merged(old(l1.listeners), old(l2.listeners)) && l2.listeners == []
    ensures forall c | c in old(l1.listeners) :: c.closed == (old(c.closed) || !Present(c, old(l2.listeners)))
    ensures forall c | c in old(l2.listeners) :: c.closed == (old(c.closed) || Present(c, old(l1.listeners)))
  {
    ghost var running, wanted := l1.listeners, l2.listeners;
    PurgeListeners(l1, l2, false);
    FilteredMembers(running, wanted, true);
    forall c | c in l2.listeners ensures Present(c, l1.listeners) == Present(c, running) {
      PresentInKept(c, running, wanted);
    }
    FilteredBySame(wanted, l1.listeners, running, false);
    PurgeListeners(l2, l1, true);
    l1.listeners := l1.listeners + l2.listeners;
    l2.listeners := [];
  }

  // ---------------------------------------------------------------- what the merged list is like

  lemma {:induction false} FilteredMembers(list: seq<Collector>, other: seq<Collector>, present: bool)
    ensures forall c :: c in Filtered(list, other, present) <==> c in list && Present(c, other) == present
  {
    if list != [] {
      FilteredMembers(list[..|list| - 1], other, present);
      assert list == list[..|list| - 1] + [list[|list| - 1]];
    }
  }

  lemma {:induction false} FilteredMember(list: seq<Collector>, other: seq<Collector>, present: bool, c: Collector)
    requires c in Filtered(list, other, present)
    ensures c in list && Present(c, other) == present
  {
    if list != [] && c in Filtered(list[..|list| - 1], other, present) {
      FilteredMember(list[..|list| - 1], other, present, c);
    }
  }

  /** A wanted listener is running exactly if it is among the running ones that were kept. */
  lemma PresentInKept(c: Collector, running: seq<Collector>, wanted: seq<Collector>)
    requires c in wanted
    ensures Present(c, Filtered(running, wanted, true)) == Present(c, running)
  {
    FilteredMembers(running, wanted, true);
    var kept := Filtered(running, wanted, true);
    if Present(c, running) {
      var k :| 0 <= k < |running| && Address(running[k]) == Address(c);
      var m :| 0 <= m < |wanted| && wanted[m] == c;
      assert Present(running[k], wanted);
      assert running[k] in kept;
    }
    if Present(c, kept) {
      var k :| 0 <= k < |kept| && Address(kept[k]) == Address(c);
      assert kept[k] in running;
    }
  }

  lemma {:induction false} FilteredBySame(list: seq<Collector>, a: seq<Collector>, b: seq<Collector>, present: bool)
    requires forall c | c in list :: Present(c, a) == Present(c, b)
    ensures Filtered(list, a, present) == Filtered(list, b, present)
  {
    if list != [] {
      FilteredBySame(list[..|list| - 1], a, b, present);
    }
  }

  /** After a merge the ports listened on are exactly those of the new configuration. */
  lemma MergedAddresses(running: seq<Collector>, wanted: seq<Collector>)
    ensures Addresses(Merged(running, wanted)) == Addresses(wanted)
  {
    var merged := Merged(running, wanted);
    FilteredMembers(running, wanted, true);
    FilteredMembers(wanted, running, false);
    forall a | a in Addresses(merged) ensures a in Addresses(wanted) {
      var k :| 0 <= k < |merged| && Address(merged[k]) == a;
      assert merged[k] in Filtered(running, wanted, true) || merged[k] in Filtered(wanted, running, false);
    }
    forall a | a in Addresses(wanted) ensures a in Addresses(merged) {
      var k :| 0 <= k < |wanted| && Address(wanted[k]) == a;
      if Present(wanted[k], running) {
        var j :| 0 <= j < |running| && Address(running[j]) == a;
        assert Present(running[j], wanted);
        assert running[j] in Filtered(running, wanted, true);
        assert running[j] in merged;
      } else {
        assert wanted[k] in Filtered(wanted, running, false);
        assert wanted[k] in merged;
      }
    }
  }

  /** Some listener of the list has this protocol and this port. */
  ghost predicate Serves(list: seq<Collector>, proto: int, port: nat) {
    exists k :: 0 <= k < |list| && list[k].proto == proto && list[k].port == port
  }

  /** That is: a port is served over a protocol after a merge exactly if the new configuration
      wants it, whatever else is served on the port over other protocols. */
  lemma MergedServes(running: seq<Collector>, wanted: seq<Collector>, proto: int, port: nat)
    ensures Serves(Merged(running, wanted), proto, port) <==> Serves(wanted, proto, port)
    ensures forall c: Collector :: Present(c, wanted) <==> Serves(wanted, c.proto, c.port)
  {
    hide Merged;
    MergedAddresses(running, wanted);
    AddressServed(Merged(running, wanted), proto, port);
    AddressServed(wanted, proto, port);
  }

  lemma AddressServed(list: seq<Collector>, proto: int, port: nat)
    ensures (proto, port) in Addresses(list) <==> Serves(list, proto, port)
  {
    if Serves(list, proto, port) {
      var k :| 0 <= k < |list| && list[k].proto == proto && list[k].port == port;
      assert Address(list[k]) == (proto, port);
    }
  }

  /** `part` is what is left of `list` after taking out some of it. */
  ghost predicate LeftOf(part: seq<Collector>, list: seq<Collector>) {
    part == [] ||
    (list != [] &&
     (LeftOf(part, list[..|list| - 1])
      || (part[|part| - 1] == list[|list| - 1] && LeftOf(part[..|part| - 1], list[..|list| - 1]))))
  }

  lemma {:induction false} FilteredIsLeft(list: seq<Collector>, other: seq<Collector>, present: bool)
    ensures LeftOf(Filtered(list, other, present), list)
  {
    if list != [] {
      var front, last := list[..|list| - 1], list[|list| - 1];
      FilteredIsLeft(front, other, present);
      var kept := Filtered(front, other, present);
      assert kept + [] == kept && (kept + [last])[..|kept|] == kept;
    }
  }

  /** The merged list starts with running listeners in the order they had, as many as stay, and
      goes on with new ones in the order of the configuration. */
  lemma MergedInOrder(running: seq<Collector>, wanted: seq<Collector>)
    ensures var merged := Merged(running, wanted);
            exists n :: 0 <= n <= |merged| && LeftOf(merged[..n], running) && LeftOf(merged[n..], wanted)
  {
    var kept, added := Filtered(running, wanted, true), Filtered(wanted, running, false);
    FilteredIsLeft(running, wanted, true);
    FilteredIsLeft(wanted, running, false);
    assert Merged(running, wanted)[..|kept|] == kept && Merged(running, wanted)[|kept|..] == added;
  }

  lemma {:induction false} FilteredNoDuplicates(list: seq<Collector>, other: seq<Collector>, present: bool)
    requires NoDuplicates(list)
    ensures NoDuplicates(Filtered(list, other, present))
  {
    if list != [] {
      var front, last := list[..|list| - 1], list[|list| - 1];
      FilteredNoDuplicates(front, other, present);
      var kept := Filtered(front, other, present);
      forall i | 0 <= i < |kept| ensures Address(kept[i]) != Address(last) {
        FilteredMember(front, other, present, kept[i]);
      }
    }
  }

  /** Merging lists without duplicates gives one without duplicates. */
  lemma MergedNoDuplicates(running: seq<Collector>, wanted: seq<Collector>)
    requires NoDuplicates(running) && NoDuplicates(wanted)
    ensures NoDuplicates(Merged(running, wanted))
  {
    var kept, added := Filtered(running, wanted, true), Filtered(wanted, running, false);
    FilteredNoDuplicates(running, wanted, true);
    FilteredNoDuplicates(wanted, running, false);
    forall i, j | 0 <= i < |kept| && 0 <= j < |added| ensures Address(kept[i]) != Address(added[j]) {
      FilteredMember(running, wanted, true, kept[i]);
      FilteredMember(wanted, running, false, added[j]);
      assert !Present(added[j], running);
    }
  }

  /** Reading the same configuration again changes nothing that runs. */
  lemma {:induction false} MergedUnchanged(running: seq<Collector>, wanted: seq<Collector>)
    requires Addresses(running) == Addresses(wanted)
    ensures Merged(running, wanted) == running
  {
    AllFiltered(running, wanted);
    NoneFiltered(wanted, running);
  }

  lemma {:induction false} AllFiltered(list: seq<Collector>, other: seq<Collector>)
    requires Addresses(list) <= Addresses(other)
    ensures Filtered(list, other, true) == list
  {
    if list != [] {
      var front, last := list[..|list| - 1], list[|list| - 1];
      assert Address(last) in Addresses(list);
      forall a | a in Addresses(front) ensures a in Addresses(list) {
        var k :| 0 <= k < |front| && Address(front[k]) == a;
        assert list[k] == front[k];
      }
      AllFiltered(front, other);
      assert list == front + [last];
    }
  }

  lemma {:induction false} NoneFiltered(list: seq<Collector>, other: seq<Collector>)
    requires Addresses(list) <= Addresses(other)
    ensures Filtered(list, other, false) == []
  {
    if list != [] {
      var front, last := list[..|list| - 1], list[|list| - 1];
      assert Address(last) in Addresses(list);
      forall a | a in Addresses(front) ensures a in Addresses(list) {
        var k :| 0 <= k < |front| && Address(front[k]) == a;
        assert list[k] == front[k];
      }
      NoneFiltered(front, other);
    }
  }
}
