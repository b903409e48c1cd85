/** From the networks of the configuration file to the lookup of an address (src/util.c,
    src/rb_sensor.c, src/dynamic-sensors/src/database/mod.rs). */
module Configured {
  import opened Bits
  import opened Bytes
  import opened Cidr
  import opened SensorsDb

  /** A network of the configuration: an address of either family, and what follows it. */
  datatype Config = Config(address: Parsed, mask: MaskText, name: nat)

  predicate Accepted(c: Config) {
    ProperText(c.address) && PrefixBits(c.address, c.mask).Some?
  }

  function Base(c: Config): IpAddr
    requires Accepted(c)
  {
    BaseOf(c.address)
  }

  function Free(c: Config): nat
    requires Accepted(c)
  {
    FreeOf(c.address, c.mask)
  }

  /** The net a configured network becomes. */
  function NetOf(c: Config): (s: Net)
    requires Accepted(c)
    ensures s.name == c.name && s.network == Address(c)
    ensures SameFamily(Base(c), s.netmask) && LeavesFree(s.netmask, Free(c))
  {
    ConfiguredNet(c.address, c.mask, 0, c.name);
    var (network, mask) := AddressOf(c.address, c.mask, 0).value;
    NewNet(V6(network), V6(mask), c.name).value
  }

  /** The address a configured network is stored under. */
  function Address(c: Config): IpAddr
    requires Accepted(c)
  {
    Clear(Base(c), Free(c))
  }

  /** The address shares the prefix of a configured network. */
  predicate SharesPrefix(c: Config, ip: IpAddr)
    requires Accepted(c)
  {
    SameFamily(ip, Base(c)) && ip.value / Pow2(Free(c)) == Base(c).value / Pow2(Free(c))
  }

  // ---------------------------------------------------------------- one network

  lemma BaseIsProper(c: Config)
    requires Accepted(c)
    ensures Proper(Base(c)) && Free(c) <= Width(Base(c))
  {
    BaseIsShort(c.address);
  }

  lemma NetIsGood(c: Config)
    requires Accepted(c)
    ensures GoodNet(NetOf(c))
  {
    hide Pow2, And;
    var s := NetOf(c);
    BaseIsProper(c);
    MaskedFacts(Base(c).value, Free(c));
    MaskedTwice(Base(c).value, Free(c));
    MaskClears(s.network, s.netmask, Free(c));
  }

  lemma MaskedTwice(x: nat, k: nat)
    ensures Masked(Masked(x, k), k) == Masked(x, k)
  {
    hide Pow2;
    MaskedFacts(x, k);
  }

  /** A configured network contains exactly the addresses that share its prefix. */
  lemma ContainsIsSharing(c: Config, ip: IpAddr)
    requires Accepted(c) && Proper(ip)
    ensures Contains(NetOf(c), ip) <==> SharesPrefix(c, ip)
  {
    hide Pow2, And, NetOf, Base, Free;
    if SameFamily(ip, Base(c)) {
      MaskClears(ip, NetOf(c).netmask, Free(c));
      SamePrefix(ip.value, Base(c).value, Free(c));
    }
  }

  /** The address a configured network is kept under: an IPv4 address itself, and an IPv6 address,
      which becomes IPv4 exactly if its upper 96 bits are all zeros, or 0xffff. */
  lemma BaseExactly(c: Config)
    requires Accepted(c)
    ensures c.address.Four? ==> Base(c) == V4(c.address.value)
    ensures c.address.Six? ==>
              var a := c.address.value;
              Base(c) == if a < 0x1_0000_0000 then V4(a)
                         else if 0xffff_0000_0000 <= a < 0x1_0000_0000_0000 then V4(a - 0xffff_0000_0000)
                         else V6(a)
  {
    hide Pow2;
    SmallPowers();
    if c.address.Six? { UpperBits(c.address.value); }
  }

  lemma UpperBits(a: nat)
    ensures a / 0x1_0000_0000 == 0 <==> a < 0x1_0000_0000
    ensures a / 0x1_0000_0000 == 0xffff <==> 0xffff_0000_0000 <= a < 0x1_0000_0000_0000
    ensures a < 0x1_0000_0000 ==> a % 0x1_0000_0000 == a
    ensures 0xffff_0000_0000 <= a < 0x1_0000_0000_0000 ==> a % 0x1_0000_0000 == a - 0xffff_0000_0000
  {
  }

  /** A network configured without a prefix is the one address itself, in both families. */
  lemma HostContains(c: Config, ip: IpAddr)
    requires Accepted(c) && c.mask.NoMask? && Proper(ip)
    ensures Contains(NetOf(c), ip) <==> ip == Base(c)
  {
    hide NetOf, Contains, Accepted, Base, Pow2;
    ContainsIsSharing(c, ip);
    NoneOfHostFree(c);
    assert Pow2(0) == 1 by { PowerOfZero(); }
  }

  lemma NoneOfHostFree(c: Config)
    requires Accepted(c) && c.mask.NoMask?
    ensures Free(c) == 0
  {
  }

  /** An IPv4 network a/n contains the IPv4 addresses that agree with a in the first n bits, all of
      them if n is negative. */
  lemma Ipv4Contains(c: Config, ip: IpAddr)
    requires Accepted(c) && c.address.Four? && c.mask.Prefix? && Proper(ip)
    ensures var n := c.mask.n;
            && -96 <= n <= 32
            && (Contains(NetOf(c), ip)
                <==> ip.V4? && (n <= 0 || ip.value / Pow2(32 - n) == c.address.value / Pow2(32 - n)))
  {
    hide NetOf, Contains, Pow2;
    Ipv4Config(c.address.value, c.mask.n);
    ContainsIsSharing(c, ip);
    if c.mask.n <= 0 && ip.V4? {
      NoPrefix(ip.value, Pow2(32));
      NoPrefix(c.address.value, Pow2(32));
    }
  }

  lemma NoPrefix(x: nat, p: nat)
    requires x < p
    ensures x / p == 0
  {
  }

  /** An IPv6 network a/n that does not stand for IPv4 contains the IPv6 addresses that agree with a
      in the first n bits. */
  lemma Ipv6Contains(c: Config, ip: IpAddr)
    requires Accepted(c) && c.address.Six? && c.mask.Prefix? && Base(c).V6? && Proper(ip)
    ensures var n := c.mask.n;
            && 0 <= n <= 128
            && (Contains(NetOf(c), ip)
                <==> ip.V6? && ip.value / Pow2(128 - n) == c.address.value / Pow2(128 - n))
  {
    hide NetOf, Contains, Pow2, Base, Free;
    Ipv6Config(c.address.value, c.mask.n);
    ContainsIsSharing(c, ip);
    Ipv6Parts(c);
  }

  lemma Ipv6Parts(c: Config)
    requires Accepted(c) && c.address.Six? && c.mask.Prefix? && Base(c).V6?
    ensures Base(c) == V6(c.address.value) && Free(c) == 128 - c.mask.n
  {
    Ipv6Config(c.address.value, c.mask.n);
  }

  // ---------------------------------------------------------------- the table

  ghost predicate AllAccepted(configs: seq<Config>) {
    forall i | 0 <= i < |configs| :: Accepted(configs[i])
  }

  /** The table after adding all configured networks in order. */
  function Registered(configs: seq<Config>): Table
    requires AllAccepted(configs)
  {
    if configs == [] then map[]
    else
      var net := NetOf(configs[|configs| - 1]);
      NetIsGood(configs[|configs| - 1]);
      Added(Registered(configs[..|configs| - 1]), net)
  }

  lemma {:induction false} RegisteredIsStored(configs: seq<Config>)
    requires AllAccepted(configs)
    ensures Stored(Registered(configs))
  {
    hide NetOf, Address, GoodNet, Accepted;
    if configs != [] {
      var front, last := configs[..|configs| - 1], configs[|configs| - 1];
      RegisteredIsStored(front);
      NetIsGood(last);
      AddedKeepsStored(Registered(front), NetOf(last));
    }
  }

  lemma RegisteredGrows(configs: seq<Config>)
    requires AllAccepted(configs) && configs != []
    ensures var net := NetOf(configs[|configs| - 1]);
            Registered(configs) == Registered(configs[..|configs| - 1])[net.network := net]
  {
    hide NetOf, Address, GoodNet, Stored, Accepted;
    RegisteredIsStored(configs[..|configs| - 1]);
    NetIsGood(configs[|configs| - 1]);
    AddedKeepsStored(Registered(configs[..|configs| - 1]), NetOf(configs[|configs| - 1]));
  }

  lemma NothingRegistered()
    ensures Registered([]) == map[]
  {
  }

  /** Some configured network has this address. */
  ghost predicate IsConfigured(configs: seq<Config>, network: IpAddr)
    requires AllAccepted(configs)
  {
    exists i :: 0 <= i < |configs| && Address(configs[i]) == network
  }

  /** The last configured network with the address of the `i`-th. */
  ghost function LastAt(configs: seq<Config>, i: nat): (j: nat)
    requires AllAccepted(configs) && i < |configs|
    ensures i <= j < |configs|
  {
    var last := |configs| - 1;
    if i == last || Address(configs[last]) == Address(configs[i]) then last else LastAt(configs[..last], i)
  }

  lemma {:induction false} LastAtIsLast(configs: seq<Config>, i: nat)
    requires AllAccepted(configs) && i < |configs|
    ensures Address(configs[LastAt(configs, i)]) == Address(configs[i])
    ensures forall m | LastAt(configs, i) < m < |configs| :: Address(configs[m]) != Address(configs[i])
  {
    hide Address, Accepted;
    var last := |configs| - 1;
    if i != last && Address(configs[last]) != Address(configs[i]) {
      var front := configs[..last];
      LastAtIsLast(front, i);
      forall m | LastAt(configs, i) < m < |configs| ensures Address(configs[m]) != Address(configs[i]) {
        if m < last { assert configs[m] == front[m]; }
      }
    }
  }

  /** The table has an entry at the address of each configured network: the last one there. */
  lemma {:induction false} LastOneStays(configs: seq<Config>, i: nat)
    requires AllAccepted(configs) && i < |configs|
    ensures Address(configs[i]) in Registered(configs)
    ensures Registered(configs)[Address(configs[i])] == NetOf(configs[LastAt(configs, i)])
  {
    hide NetOf, Address, Registered, Accepted;
    RegisteredGrows(configs);
    if Address(configs[|configs| - 1]) != Address(configs[i]) {
      LastOneStays(configs[..|configs| - 1], i);
    }
  }

  /** And no other entries. */
  lemma {:induction false} RegisteredIsConfigured(configs: seq<Config>, k: IpAddr) returns (i: nat)
    requires AllAccepted(configs) && k in Registered(configs)
    ensures i < |configs| && LastAt(configs, i) == i && Address(configs[i]) == k
    ensures Registered(configs)[k] == NetOf(configs[i])
  {
    hide NetOf, Address, Registered, Accepted;
    if configs == [] {
      NothingRegistered();
      assert false;
    } else {
      RegisteredGrows(configs);
      if k == Address(configs[|configs| - 1]) {
        i := |configs| - 1;
      } else {
        i := RegisteredIsConfigured(configs[..|configs| - 1], k);
      }
    }
  }

  ghost predicate FromConfig(configs: seq<Config>, s: Net)
    requires AllAccepted(configs)
  {
    exists i :: 0 <= i < |configs| && s == NetOf(configs[i])
  }

  // ---------------------------------------------------------------- does a configured network keep its addresses

  /** A network with the same address and no longer a prefix contains whatever the other does. */
  lemma WiderContains(c: Config, d: Config, ip: IpAddr)
    requires Accepted(c) && Accepted(d) && Proper(ip) && SharesPrefix(c, ip)
    requires Address(d) == Address(c) && Free(d) >= Free(c)
    ensures Contains(NetOf(d), ip)
  {
    hide Pow2, And, NetOf, Base, Free;
    SamePrefix(ip.value, Base(c).value, Free(c));
    MaskClears(ip, NetOf(d).netmask, Free(d));
    MaskedTwice(Base(d).value, Free(d));
    BitsBetween(ip.value, Free(c), Free(d));
  }

  /** One with the same address and a longer prefix does not contain all that the other does. */
  lemma NarrowerLosesAddresses(c: Config, d: Config) returns (ip: IpAddr)
    requires Accepted(c) && Accepted(d)
    requires Address(d) == Address(c) && Free(d) < Free(c)
    ensures Proper(ip) && SharesPrefix(c, ip) && !Contains(NetOf(d), ip)
  {
    hide Pow2, And, NetOf, Base, Free;
    BaseIsProper(c);
    BaseIsProper(d);
    var width, start := Width(Base(c)), Masked(Base(c).value, Free(c));
    assert Masked(Base(d).value, Free(d)) == start;
    NextNetwork(Base(c).value, Free(c), Free(d), width);
    var x := start + Pow2(Free(d));
    ip := if Base(c).V4? then V4(x) else V6(x);
    ContainsIsSharing(d, ip);
    SamePrefix(x, Base(d).value, Free(d));
    MaskedFacts(x, Free(d));
  }

  /** The first address after a narrower prefix is still in the wider one. */
  lemma NextNetwork(a: nat, free: nat, own: nat, width: nat)
    requires a < Pow2(width) && own < free <= width
    ensures var x := Masked(a, free) + Pow2(own);
            x < Pow2(width) && x / Pow2(free) == a / Pow2(free)
  {
    hide *;
    MaskedFacts(a, free);
    SmallerPower(own, free);
    Pow2Adds(width - free, free);
    assert width - free + free == width;
    NextBlock(a, Pow2(free), Pow2(own), Pow2(width - free));
  }

  lemma SmallerPower(own: nat, free: nat)
    requires own < free
    ensures Pow2(own) < Pow2(free)
  {
    hide Pow2;
    Pow2Grows(own + 1, free);
    Doubles(own);
    Positive(own);
  }

  lemma NextBlock(a: nat, f: nat, p: nat, t: nat)
    requires p < f && a < t * f
    ensures var x := a / f * f + p;
            x < t * f && x / f == a / f
  {
    var q := a / f;
    assert a == f * q + a % f;
    assert q * f == f * q;
    RoomForOneMore(q, t, f);
    Remainder(q * f + p, f, q, p);
  }

  lemma RoomForOneMore(q: nat, t: nat, f: nat)
    requires q * f < t * f
    ensures q * f + f <= t * f
  {
    Increasing(t, q, f);
    Increasing(q + 1, t, f);
    assert (q + 1) * f == q * f + f;
  }

  /** The entry at a configured network's address contains every address of that network exactly
      when the last network configured there has no longer a prefix. */
  lemma KeepsItsAddresses(configs: seq<Config>, i: nat)
    requires AllAccepted(configs) && i < |configs|
    ensures Address(configs[i]) in Registered(configs)
    ensures (forall ip | Proper(ip) && SharesPrefix(configs[i], ip) ::
               Contains(Registered(configs)[Address(configs[i])], ip))
            <==> Free(configs[LastAt(configs, i)]) >= Free(configs[i])
  {
    hide Pow2, Registered, NetOf, Address, Contains, SharesPrefix, Accepted, Proper;
    LastOneStays(configs, i);
    LastAtIsLast(configs, i);
    var c, d := configs[i], configs[LastAt(configs, i)];
    if Free(d) >= Free(c) {
      forall ip | Proper(ip) && SharesPrefix(c, ip) ensures Contains(NetOf(d), ip) {
        WiderContains(c, d, ip);
      }
    } else {
      var ip := NarrowerLosesAddresses(c, d);
    }
  }

  // ---------------------------------------------------------------- what a lookup returns

  /** Some configured network is of the other family. */
  ghost predicate OtherFamily(configs: seq<Config>, ip: IpAddr)
    requires AllAccepted(configs)
  {
    exists m :: 0 <= m < |configs| && !SameFamily(ip, Base(configs[m]))
  }

  /** Networks of one address are of one family. */
  lemma FamilyOfLast(configs: seq<Config>, i: nat)
    requires AllAccepted(configs) && i < |configs|
    ensures SameFamily(Base(configs[LastAt(configs, i)]), Base(configs[i]))
  {
    hide Pow2, Base, Free;
    LastAtIsLast(configs, i);
  }

  /** The lookup of sensors can panic on an address, in some order, exactly when some configured
      network is of the other family; the guarded lookup never does. */
  lemma PanicsExactly(configs: seq<Config>, ip: IpAddr, guarded: bool)
    requires AllAccepted(configs)
    ensures MayReturn(Registered(configs), ip, guarded, Panic) <==> !guarded && OtherFamily(configs, ip)
  {
    hide Registered, NetOf, Address, Base, LastAt, Accepted;
    var db := Registered(configs);
    MayReturnExactly(db, ip, guarded, Panic);
    if !guarded && Explained(db, ip, guarded, Panic) {
      var k :| k in db && !SameFamily(ip, db[k].netmask);
      var m := RegisteredIsConfigured(configs, k);
    }
    if !guarded && OtherFamily(configs, ip) {
      var m :| 0 <= m < |configs| && !SameFamily(ip, Base(configs[m]));
      LastOneStays(configs, m);
      FamilyOfLast(configs, m);
      assert !SameFamily(ip, db[Address(configs[m])].netmask);
    }
  }

  /** The mask of the `m`-th network does not lead from the address to any configured one. */
  ghost predicate MaskMisses(configs: seq<Config>, ip: IpAddr, m: nat)
    requires AllAccepted(configs) && m < |configs|
  {
    !IsConfigured(configs, Clear(ip, Free(configs[m])))
  }

  /** No mask that is still in the table leads to a configured network. */
  ghost predicate AllMasksMiss(configs: seq<Config>, ip: IpAddr)
    requires AllAccepted(configs)
  {
    forall m {:trigger MaskMisses(configs, ip, m)} |
      0 <= m < |configs| && LastAt(configs, m) == m && SameFamily(ip, Base(configs[m])) :: MaskMisses(configs, ip, m)
  }

  /** A lookup can miss exactly when no mask that is still in the table leads from the address to
      a configured network, and no mask of the other family stops it. */
  lemma MissesExactly(configs: seq<Config>, ip: IpAddr, guarded: bool)
    requires AllAccepted(configs) && Proper(ip)
    ensures MayReturn(Registered(configs), ip, guarded, Miss)
            <==> (guarded || !OtherFamily(configs, ip)) && AllMasksMiss(configs, ip)
  {
    hide Registered, NetOf, Address, Base, Free, LastAt, Accepted, MaskMisses, Proper, LeadsNowhere, OtherFamily,
      MayReturn;
    var db := Registered(configs);
    MayReturnExactly(db, ip, guarded, Miss);
    PanicsExactly(configs, ip, false);
    MayReturnExactly(db, ip, false, Panic);
    if Explained(db, ip, guarded, Miss) {
      forall k | k in db && !SameFamily(ip, db[k].netmask) ensures guarded {
        if LeadsNowhere(db, ip, k) { NowhereIsSame(db, ip, k); }
      }
      forall m | 0 <= m < |configs| && LastAt(configs, m) == m && SameFamily(ip, Base(configs[m]))
        ensures MaskMisses(configs, ip, m)
      {
        EntryMisses(configs, ip, m);
      }
    }
    if (guarded || !OtherFamily(configs, ip)) && AllMasksMiss(configs, ip) {
      forall k | k in db ensures LeadsNowhere(db, ip, k) || (guarded && !SameFamily(ip, db[k].netmask)) {
        var m := RegisteredIsConfigured(configs, k);
        if SameFamily(ip, Base(configs[m])) { EntryMisses(configs, ip, m); }
      }
    }
  }

  lemma NowhereIsSame(db: Table, ip: IpAddr, k: IpAddr)
    requires k in db && LeadsNowhere(db, ip, k)
    ensures SameFamily(ip, db[k].netmask)
  {
  }

  lemma EntryMisses(configs: seq<Config>, ip: IpAddr, m: nat)
    requires AllAccepted(configs) && Proper(ip) && m < |configs| && LastAt(configs, m) == m
    requires SameFamily(ip, Base(configs[m]))
    ensures var db, k := Registered(configs), Address(configs[m]);
            k in db && SameFamily(ip, db[k].netmask) && (LeadsNowhere(db, ip, k) <==> MaskMisses(configs, ip, m))
  {
    hide Registered, NetOf, Address, Base, Free, LastAt, Accepted, And, Pow2, Clear;
    var db := Registered(configs);
    LastOneStays(configs, m);
    var network := Clear(ip, Free(configs[m]));
    MaskClears(ip, NetOf(configs[m]).netmask, Free(configs[m]));
    if network in db { var i := RegisteredIsConfigured(configs, network); }
    if IsConfigured(configs, network) {
      var i :| 0 <= i < |configs| && Address(configs[i]) == network;
      LastOneStays(configs, i);
    }
  }

  /** From the configuration file to the lookup: an address of a configured network finds a
      configured network, in whatever order the masks are tried, if the last network configured
      at its address has no longer a prefix. Only a network of the other family can get in the
      way, and only of the lookup of sensors. */
  lemma ConfiguredIsFound(configs: seq<Config>, i: nat, ip: IpAddr, guarded: bool, r: Lookup)
    requires AllAccepted(configs) && i < |configs| && Proper(ip) && SharesPrefix(configs[i], ip)
    requires Free(configs[LastAt(configs, i)]) >= Free(configs[i])
    requires MayReturn(Registered(configs), ip, guarded, r)
    ensures if r.Hit? then FromConfig(configs, r.net) else r.Panic? && !guarded && OtherFamily(configs, ip)
  {
    hide Pow2, And, GoodNet, Registered, NetOf, Address, Base, Free, Contains, SharesPrefix, Accepted, OtherFamily,
      MayReturn;
    var db := Registered(configs);
    RegisteredIsStored(configs);
    LastOneStays(configs, i);
    LastAtIsLast(configs, i);
    WiderContains(configs[i], configs[LastAt(configs, i)], ip);
    MembersAreFound(db, ip, guarded, Address(configs[i]), r);
    if r.Hit? {
      HitIsConfigured(configs, ip, guarded, r.net);
    } else {
      PanicsExactly(configs, ip, guarded);
    }
  }

  lemma HitIsConfigured(configs: seq<Config>, ip: IpAddr, guarded: bool, s: Net)
    requires AllAccepted(configs) && MayReturn(Registered(configs), ip, guarded, Hit(s))
    ensures FromConfig(configs, s)
  {
    hide Registered, NetOf, Address, MayReturn, ApplyNetmask, Accepted;
    var db := Registered(configs);
    MayReturnExactly(db, ip, guarded, Hit(s));
    var k :| LeadsTo(db, ip, k, s);
    var i := RegisteredIsConfigured(configs, ApplyNetmask(ip, db[k].netmask).value);
  }

  // ---------------------------------------------------------------- exporters

  /** The address of an exporter, as the listener passes it. */
  function ExporterAddress(ip: nat): IpAddr {
    Shorten(V6(Mapped(ip % Pow2(32))))
  }

  lemma ExporterIsIpv4(ip: nat)
    requires ip < Pow2(32)
    ensures ExporterAddress(ip) == V4(ip) && Proper(V4(ip))
  {
    hide Pow2;
    MappedIsIpv4(ip);
    Remainder(ip, Pow2(32), 0, ip);
  }

  /** Exporters have IPv4 addresses: looking one up can panic exactly when some configured sensor
      network is IPv6 that does not stand for IPv4. */
  lemma ExporterMayPanic(configs: seq<Config>, ip: nat)
    requires AllAccepted(configs) && ip < Pow2(32)
    ensures MayReturn(Registered(configs), ExporterAddress(ip), false, Panic)
            <==> exists m :: 0 <= m < |configs| && Base(configs[m]).V6?
  {
    hide MayReturn, Registered, ExporterAddress, Accepted, Base;
    ExporterIsIpv4(ip);
    PanicsExactly(configs, V4(ip), false);
  }

  // ---------------------------------------------------------------- two networks

  lemma TwoAccepted(c: Config, d: Config)
    requires Accepted(c) && Accepted(d)
    ensures AllAccepted([c, d])
  {
  }

  lemma TwoRegistered(c: Config, d: Config)
    requires Accepted(c) && Accepted(d)
    ensures AllAccepted([c, d])
    ensures Registered([c, d]) == map[Address(c) := NetOf(c)][Address(d) := NetOf(d)]
  {
    hide NetOf, Address, Registered, Accepted;
    assert [c, d][..1] == [c] && [c][..0] == [];
    RegisteredGrows([c, d]);
    RegisteredGrows([c]);
    NothingRegistered();
  }

  /** When a network takes the place of another, a lookup returns it for the addresses it
      contains, and misses on all others. */
  lemma OnlyTheLast(c: Config, d: Config, ip: IpAddr, guarded: bool, r: Lookup)
    requires Accepted(c) && Accepted(d) && Proper(ip) && SameFamily(ip, Base(d))
    requires Address(d) == Address(c)
    ensures AllAccepted([c, d])
    ensures MayReturn(Registered([c, d]), ip, guarded, r)
            <==> r == if Contains(NetOf(d), ip) then Hit(NetOf(d)) else Miss
  {
    hide NetOf, Address, Registered, Accepted, And, Pow2;
    TwoRegistered(c, d);
    OneEntry(Address(c), NetOf(c), NetOf(d), ip, guarded, r);
  }

  lemma OneEntry(k: IpAddr, s: Net, t: Net, ip: IpAddr, guarded: bool, r: Lookup)
    requires SameFamily(ip, t.netmask) && t.network == k
    ensures MayReturn(map[k := s][k := t], ip, guarded, r) <==> r == if Contains(t, ip) then Hit(t) else Miss
  {
    hide MayReturn;
    assert ApplyNetmask(ip, t.netmask).Some?;
    hide ApplyNetmask;
    var db: Table := map[k := s][k := t];
    MayReturnExactly(db, ip, guarded, r);
    assert k in db && db[k] == t;
    assert forall j | j in db :: j == k;
    if Contains(t, ip) { assert LeadsTo(db, ip, k, t); }
  }

  /** With one network configured, without a prefix, a lookup in its family finds that network for
      its own address, and nothing for any other. */
  lemma OnlyTheHost(c: Config, ip: IpAddr, guarded: bool, r: Lookup)
    requires Accepted(c) && c.mask.NoMask? && Proper(ip) && SameFamily(ip, Base(c))
    ensures AllAccepted([c])
    ensures MayReturn(Registered([c]), ip, guarded, r) <==> r == if ip == Base(c) then Hit(NetOf(c)) else Miss
  {
    hide NetOf, Address, Registered, Accepted, Contains, MayReturn;
    HostContains(c, ip);
    OnlyTheLast(c, c, ip, guarded, r);
    OneRegistered(c);
  }

  lemma OneRegistered(c: Config)
    requires Accepted(c)
    ensures AllAccepted([c]) && AllAccepted([c, c]) && Registered([c, c]) == Registered([c])
  {
    hide NetOf, Address, Registered, Accepted;
    assert [c][..0] == [];
    RegisteredGrows([c]);
    NothingRegistered();
    TwoRegistered(c, c);
  }

  /** A narrower network that takes the place of a wider one makes the lookup miss addresses of
      the wider one. */
  lemma NarrowedMisses(c: Config, d: Config, guarded: bool) returns (ip: IpAddr)
    requires Accepted(c) && Accepted(d)
    requires Address(d) == Address(c) && Free(d) < Free(c)
    ensures AllAccepted([c, d]) && Proper(ip) && SharesPrefix(c, ip)
    ensures forall r :: MayReturn(Registered([c, d]), ip, guarded, r) <==> r == Miss
  {
    hide MayReturn, Registered, NetOf, Address, Free, Contains, Accepted, Proper, Pow2;
    TwoAccepted(c, d);
    ip := NarrowerLosesAddresses(c, d);
    SameBaseFamily(c, d);
    forall r: Lookup ensures MayReturn(Registered([c, d]), ip, guarded, r) <==> r == Miss {
      OnlyTheLast(c, d, ip, guarded, r);
    }
  }

  lemma SameBaseFamily(c: Config, d: Config)
    requires Accepted(c) && Accepted(d) && Address(d) == Address(c)
    ensures SameFamily(Base(c), Base(d))
  {
    hide Base, Free;
  }

  // ---------------------------------------------------------------- for instance

  const WIDE := Config(Four(0x0a00_0000), Prefix(8), 1)
  const NARROW := Config(Four(0x0a00_0000), Prefix(24), 2)
  const OTHER := Config(Four(0x0b00_0000), Prefix(8), 3)
  const MODERN := Config(Six(0x2001_0db8_0000_0000_0000_0000_0000_0000), Prefix(32), 4)
  const EXPORTER: nat := 0x0a01_0203

  lemma SmallPowers()
    ensures Pow2(8) == 0x100 && Pow2(24) == 0x100_0000 && Pow2(32) == 0x1_0000_0000
  {
    Pow2Four(0);
    Pow2Four(4);
    Pow2Four(8);
    Pow2Four(12);
    Pow2Four(16);
    Pow2Four(20);
    Pow2Four(24);
    Pow2Four(28);
  }

  lemma LargePowers()
    ensures Pow2(128) == 0x1_0000_0000_0000_0000_0000_0000_0000_0000
  {
    SmallPowers();
    Pow2Adds(32, 32);
    Pow2Adds(64, 64);
  }

  lemma Examples()
    ensures Accepted(WIDE) && Accepted(NARROW) && Accepted(OTHER) && Accepted(MODERN)
    ensures Base(WIDE) == Base(NARROW) == V4(0x0a00_0000) && Base(OTHER) == V4(0x0b00_0000) && Base(MODERN).V6?
    ensures Free(WIDE) == Free(OTHER) == 24 && Free(NARROW) == 8
  {
    hide Pow2;
    SmallPowers();
    LargePowers();
    Ipv4Config(0x0a00_0000, 8);
    Ipv4Config(0x0a00_0000, 24);
    Ipv4Config(0x0b00_0000, 8);
    Ipv6Config(0x2001_0db8_0000_0000_0000_0000_0000_0000, 32);
  }

  /** With 10.0.0.0/8 and then 10.0.0.0/24 configured, 10.1.2.3 is not found. */
  lemma NarrowedIsMissed()
    ensures AllAccepted([WIDE, NARROW]) && Accepted(WIDE) && SharesPrefix(WIDE, V4(EXPORTER))
    ensures forall r :: MayReturn(Registered([WIDE, NARROW]), V4(EXPORTER), false, r) <==> r == Miss
  {
    hide And, NetOf, Registered, MayReturn, Pow2, Base, Free, Contains, Accepted;
    SmallPowers();
    Examples();
    TwoAccepted(WIDE, NARROW);
    ContainsIsSharing(NARROW, V4(EXPORTER));
    forall r: Lookup ensures MayReturn(Registered([WIDE, NARROW]), V4(EXPORTER), false, r) <==> r == Miss {
      OnlyTheLast(WIDE, NARROW, V4(EXPORTER), false, r);
    }
  }

  /** With 10.0.0.0/24 and 11.0.0.0/8 configured, 10.1.2.3 may be given the network 10.0.0.0/24,
      to which it does not belong. */
  lemma LongerMaskMayAnswer()
    ensures AllAccepted([NARROW, OTHER]) && Accepted(NARROW) && !SharesPrefix(NARROW, V4(EXPORTER))
    ensures MayReturn(Registered([NARROW, OTHER]), V4(EXPORTER), false, Hit(NetOf(NARROW)))
  {
    hide And, NetOf, Registered, MayReturn, Pow2, Base, Free, Accepted;
    SmallPowers();
    Examples();
    TwoRegistered(NARROW, OTHER);
    var db := Registered([NARROW, OTHER]);
    MaskClears(V4(EXPORTER), NetOf(OTHER).netmask, 24);
    assert LeadsTo(db, V4(EXPORTER), Address(OTHER), NetOf(NARROW));
    MayReturnExactly(db, V4(EXPORTER), false, Hit(NetOf(NARROW)));
  }

  /** With 10.0.0.0/8 and 2001:db8::/32 configured, looking 10.1.2.3 up may panic, or may find
      10.0.0.0/8; the guarded lookup always finds it. */
  lemma MixedMayPanic(r: Lookup)
    ensures AllAccepted([WIDE, MODERN]) && Accepted(WIDE)
    ensures MayReturn(Registered([WIDE, MODERN]), V4(EXPORTER), false, r) <==> r == Panic || r == Hit(NetOf(WIDE))
    ensures MayReturn(Registered([WIDE, MODERN]), V4(EXPORTER), true, r) <==> r == Hit(NetOf(WIDE))
  {
    hide And, NetOf, Registered, MayReturn, Pow2, Base, Free, Accepted;
    SmallPowers();
    Examples();
    TwoRegistered(WIDE, MODERN);
    MaskClears(V4(EXPORTER), NetOf(WIDE).netmask, 24);
    TwoFamilies(Address(WIDE), NetOf(WIDE), Address(MODERN), NetOf(MODERN), V4(EXPORTER), r);
  }

  lemma TwoFamilies(k: IpAddr, s: Net, j: IpAddr, t: Net, ip: IpAddr, r: Lookup)
    requires k != j && ApplyNetmask(ip, s.netmask) == Some(k) && !SameFamily(ip, t.netmask)
    ensures MayReturn(map[k := s][j := t], ip, false, r) <==> r == Panic || r == Hit(s)
    ensures MayReturn(map[k := s][j := t], ip, true, r) <==> r == Hit(s)
  {
    hide MayReturn;
    assert SameFamily(ip, s.netmask) && ApplyNetmask(ip, t.netmask).None?;
    hide ApplyNetmask;
    var db: Table := map[k := s][j := t];
    assert db[k] == s && db[j] == t && forall i | i in db :: i == k || i == j;
    assert LeadsTo(db, ip, k, s);
    MayReturnExactly(db, ip, false, r);
    MayReturnExactly(db, ip, true, r);
  }
}
