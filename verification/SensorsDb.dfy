/** Looking up a sensor or a home network by address (src/dynamic-sensors/src/database/mod.rs,
    observation_id/mod.rs). The map's own iteration order is arbitrary. */
module SensorsDb {
  import opened Bits
  import opened Bytes
  import opened Cidr

  type Table = map<IpAddr, Net>

  datatype Lookup = Hit(net: Net) | Miss | Panic

  // ---------------------------------------------------------------- the two tables

  /** The table with a net added under its masked network. */
  function Added(db: Table, net: Net): Table
    requires ApplyNetmask(net.network, net.netmask).Some?
  {
    db[ApplyNetmask(net.network, net.netmask).value := net]
  }

  /** What the mask stored under `k` decides, if anything. `guarded` skips masks of the other
      family, on which the other lookup panics. */
  function Try(db: Table, ip: IpAddr, guarded: bool, k: IpAddr): Option<Lookup>
    requires k in db
  {
    match ApplyNetmask(ip, db[k].netmask)
    case None => if guarded then None else Some(Panic)
    case Some(network) => if network in db then Some(Hit(db[network])) else None
  }

  /** The lookup, for the order in which the map lists its entries. */
  function InOrder(db: Table, ip: IpAddr, guarded: bool, order: seq<IpAddr>): Lookup
    requires forall k | k in order :: k in db
  {
    if order == [] then Miss
    else
      match Try(db, ip, guarded, order[0])
      case Some(r) => r
      case None => InOrder(db, ip, guarded, order[1..])
  }

  /** The order lists every entry once. */
  ghost predicate IsOrder(db: Table, order: seq<IpAddr>)
    ensures IsOrder(db, order) ==> forall k | k in order :: k in db
  {
    assert forall k | k in order :: k in multiset(order);
    multiset(order) == multiset(db.Keys)
  }

  /** What a lookup may return: what it does return in some order. */
  ghost predicate MayReturn(db: Table, ip: IpAddr, guarded: bool, r: Lookup) {
    exists order :: IsOrder(db, order) && InOrder(db, ip, guarded, order) == r
  }

  /** Applying the mask stored under `k` leads to the entry `s`. */
  ghost predicate LeadsTo(db: Table, ip: IpAddr, k: IpAddr, s: Net) {
    && k in db && ApplyNetmask(ip, db[k].netmask).Some?
    && var network := ApplyNetmask(ip, db[k].netmask).value;
       network in db && s == db[network]
  }

  /** No entry is reached with the mask stored under `k`. */
  ghost predicate LeadsNowhere(db: Table, ip: IpAddr, k: IpAddr)
    requires k in db
  {
    ApplyNetmask(ip, db[k].netmask).Some? && ApplyNetmask(ip, db[k].netmask).value !in db
  }

  /** The same, said of the masks and not of their order. */
  ghost predicate Explained(db: Table, ip: IpAddr, guarded: bool, r: Lookup) {
    match r
    case Hit(s) => exists k :: LeadsTo(db, ip, k, s)
    case Miss => forall k | k in db :: LeadsNowhere(db, ip, k) || (guarded && !SameFamily(ip, db[k].netmask))
    case Panic => !guarded && exists k :: k in db && !SameFamily(ip, db[k].netmask)
  }

  /** Any set can be listed. */
  lemma {:induction false} Listing(s: set<IpAddr>) returns (order: seq<IpAddr>)
    ensures multiset(order) == multiset(s)
  {
    if s == {} {
      order := [];
    } else {
      var k :| k in s;
      var rest := Listing(s - {k});
      order := [k] + rest;
      assert s == (s - {k}) + {k};
    }
  }

  /** An order that starts with a given entry. */
  lemma OrderFrom(db: Table, k: IpAddr) returns (order: seq<IpAddr>)
    requires k in db
    ensures IsOrder(db, order) && order != [] && order[0] == k
  {
    var rest := Listing(db.Keys - {k});
    order := [k] + rest;
    assert db.Keys == (db.Keys - {k}) + {k};
  }

  lemma {:induction false} NothingInOrder(db: Table, ip: IpAddr, guarded: bool, order: seq<IpAddr>)
    requires (forall k | k in order :: k in db) && Explained(db, ip, guarded, Miss)
    ensures InOrder(db, ip, guarded, order) == Miss
  {
    if order != [] {
      assert order[0] in order;
      NothingInOrder(db, ip, guarded, order[1..]);
    }
  }

  /** Each result that the masks explain is returned in some order. */
  lemma ExplainedHappens(db: Table, ip: IpAddr, guarded: bool, r: Lookup)
    requires Explained(db, ip, guarded, r)
    ensures MayReturn(db, ip, guarded, r)
  {
    var order;
    match r
    case Hit(s) =>
      var k :| LeadsTo(db, ip, k, s);
      order := OrderFrom(db, k);
    case Panic =>
      var k :| k in db && !SameFamily(ip, db[k].netmask);
      order := OrderFrom(db, k);
    case Miss =>
      order := Listing(db.Keys);
      assert IsOrder(db, order);
      NothingInOrder(db, ip, guarded, order);
  }

  lemma {:induction false} OrderExplains(db: Table, ip: IpAddr, guarded: bool, order: seq<IpAddr>)
    requires forall k | k in order :: k in db
    ensures var r := InOrder(db, ip, guarded, order);
            if r.Miss? then
              forall k | k in order :: LeadsNowhere(db, ip, k) || (guarded && !SameFamily(ip, db[k].netmask))
            else Explained(db, ip, guarded, r)
  {
    if order != [] {
      assert order[0] in order;
      match Try(db, ip, guarded, order[0])
      case Some(Hit(s)) => assert LeadsTo(db, ip, order[0], s);
      case Some(_) =>
      case None =>
        OrderExplains(db, ip, guarded, order[1..]);
        assert forall k | k in order :: k == order[0] || k in order[1..];
    }
  }

  /** A lookup may return exactly what the masks explain. */
  lemma MayReturnExactly(db: Table, ip: IpAddr, guarded: bool, r: Lookup)
    ensures MayReturn(db, ip, guarded, r) <==> Explained(db, ip, guarded, r)
  {
    if Explained(db, ip, guarded, r) { ExplainedHappens(db, ip, guarded, r); }
    if MayReturn(db, ip, guarded, r) {
      var order :| IsOrder(db, order) && InOrder(db, ip, guarded, order) == r;
      OrderExplains(db, ip, guarded, order);
      forall k | k in db ensures k in order {
        assert k in multiset(order);
      }
    }
  }

  class SensorsDB {
    var database: Table

    constructor ()
      ensures database == map[]
    {
      database := map[];
    }

    method AddSensor(sensor: Net)
      requires ApplyNetmask(sensor.network, sensor.netmask).Some?
      modifies this
      ensures database == Added(old(database), sensor)
    {
      var network := ApplyNetmask(sensor.network, sensor.netmask).value;
      database := database[network := sensor];
    }

    method GetSensor(ip: IpAddr) returns (r: Lookup)
      ensures MayReturn(database, Shorten(ip), false, r)
    {
      var short := Shorten(ip);
      var todo := database.Keys;
      while todo != {}
        invariant todo <= database.Keys
        invariant forall k | k in database && k !in todo :: LeadsNowhere(database, short, k)
      {
        var k :| k in todo;
        if !SameFamily(short, database[k].netmask) {
          ExplainedHappens(database, short, false, Panic);
          return Panic;
        }
        var network := ApplyNetmask(short, database[k].netmask).value;
        if network in database {
          assert LeadsTo(database, short, k, database[network]);
          ExplainedHappens(database, short, false, Hit(database[network]));
          return Hit(database[network]);
        }
        todo := todo - {k};
      }
      ExplainedHappens(database, short, false, Miss);
      return Miss;
    }
  }

  class HomeNetworks {
    var networks: Table

    constructor ()
      ensures networks == map[]
    {
      networks := map[];
    }

    method AddNetwork(network: Net)
      modifies this
      ensures networks == old(networks)[network.network := network]
    {
      networks := networks[network.network := network];
    }

    method GetNetwork(ip: IpAddr) returns (r: Lookup)
      ensures MayReturn(networks, Shorten(ip), true, r)
    {
      var short := Shorten(ip);
      var todo := networks.Keys;
      while todo != {}
        invariant todo <= networks.Keys
        invariant forall k | k in networks && k !in todo ::
                    LeadsNowhere(networks, short, k) || !SameFamily(short, networks[k].netmask)
      {
        var k :| k in todo;
        if (short.V4? && networks[k].netmask.V4?) || (short.V6? && networks[k].netmask.V6?) {
          var network := ApplyNetmask(short, networks[k].netmask).value;
          if network in networks {
            assert LeadsTo(networks, short, k, networks[network]);
            ExplainedHappens(networks, short, true, Hit(networks[network]));
            return Hit(networks[network]);
          }
        }
        todo := todo - {k};
      }
      ExplainedHappens(networks, short, true, Miss);
      return Miss;
    }
  }

  // ---------------------------------------------------------------- what the tables keep

  /** A net with the mask of a prefix, whose network has the free bits clear. */
  ghost predicate GoodNet(s: Net) {
    && Proper(s.network) && SameFamily(s.network, s.netmask)
    && ApplyNetmask(s.network, s.netmask) == Some(s.network)
    && exists k :: LeavesFree(s.netmask, k)
  }

  /** Every net is stored under its own network. */
  ghost predicate Stored(db: Table) {
    forall k | k in db :: db[k].network == k && GoodNet(db[k])
  }

  /** Both tables store a good net under its own network, replacing one with the same network. */
  lemma AddedKeepsStored(db: Table, net: Net)
    requires Stored(db) && GoodNet(net)
    ensures Stored(Added(db, net)) && Added(db, net) == db[net.network := net]
  {
  }

  /** `ip` belongs to the net. */
  predicate Contains(s: Net, ip: IpAddr) {
    ApplyNetmask(ip, s.netmask) == Some(s.network)
  }

  // ---------------------------------------------------------------- lookups

  /** Whichever stored mask leads to a net, that net contains the address exactly when its own
      prefix is no longer than the mask's, or the address has no bits set between the two. */
  lemma HitContains(db: Table, ip: IpAddr, s: Net, k: IpAddr, free: nat, own: nat)
    requires Stored(db) && Proper(ip) && LeadsTo(db, ip, k, s)
    requires LeavesFree(db[k].netmask, free) && LeavesFree(s.netmask, own)
    ensures Contains(s, ip) <==> own >= free || ip.value % Pow2(free) / Pow2(own) == 0
  {
    hide Pow2, And;
    assert GoodNet(db[k]) && GoodNet(s);
    MaskClears(ip, db[k].netmask, free);
    MaskClears(ip, s.netmask, own);
    MaskClears(s.network, s.netmask, own);
    BitsBetween(ip.value, free, own);
  }

  /** Clearing `own` bits of a number gives the same as clearing `free` bits of it. */
  lemma BitsBetween(x: nat, free: nat, own: nat)
    requires Masked(Masked(x, free), own) == Masked(x, free)
    ensures Masked(x, own) == Masked(x, free) <==> own >= free || x % Pow2(free) / Pow2(own) == 0
  {
    hide Pow2;
    MaskedFacts(x, free);
    MaskedFacts(Masked(x, free), own);
    Aligned(Masked(x, free), x % Pow2(free), Pow2(own));
    if own >= free {
      Pow2Grows(free, own);
      SmallQuotient(x % Pow2(free), Pow2(own));
    }
  }

  lemma Aligned(y: nat, r: nat, o: nat)
    requires o > 0 && y % o == 0
    ensures y + r - (y + r) % o == y <==> r / o == 0
  {
    assert y == o * (y / o);
    assert r == o * (r / o) + r % o;
    assert y + r == o * (y / o + r / o) + r % o;
    Remainder(y + r, o, y / o + r / o, r % o);
    ZeroQuotient(r, o);
  }

  lemma ZeroQuotient(r: nat, o: nat)
    requires o > 0
    ensures r / o == 0 <==> r % o == r
  {
  }

  lemma SmallQuotient(r: nat, o: nat)
    requires r < o
    ensures r / o == 0
  {
  }

  /** An address that belongs to a stored net is found, whatever the order; only a mask of the
      other family can get in the way, and only of the lookup without the guard. */
  lemma MembersAreFound(db: Table, ip: IpAddr, guarded: bool, k: IpAddr, r: Lookup)
    requires Stored(db) && k in db && Contains(db[k], ip) && MayReturn(db, ip, guarded, r)
    ensures r.Hit? || (r.Panic? && !guarded && exists j :: j in db && !SameFamily(ip, db[j].netmask))
  {
    MayReturnExactly(db, ip, guarded, r);
    if r.Miss? {
      assert !LeadsNowhere(db, ip, k);
    }
  }

  ghost predicate OneMask(db: Table, m: IpAddr) {
    forall k | k in db :: db[k].netmask == m
  }

  /** With one mask for all nets the lookup is exact: it finds the net that contains the address,
      and nothing when there is none. */
  lemma OneMaskIsExact(db: Table, m: IpAddr, ip: IpAddr, guarded: bool, r: Lookup)
    requires Stored(db) && OneMask(db, m) && SameFamily(ip, m) && MayReturn(db, ip, guarded, r)
    ensures match r
            case Hit(s) => Contains(s, ip) && s.network in db && s == db[s.network]
            case Miss => forall k | k in db :: !Contains(db[k], ip)
            case Panic => false
  {
    MayReturnExactly(db, ip, guarded, r);
    match r
    case Hit(s) =>
      var k :| LeadsTo(db, ip, k, s);
      assert db[k].netmask == m && s.netmask == m;
    case Miss =>
      forall k | k in db ensures !Contains(db[k], ip) {
        assert db[k].netmask == m;
        assert LeadsNowhere(db, ip, k);
      }
    case Panic =>
  }
}
