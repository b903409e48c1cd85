/** Network masks and addresses (src/util.c; src/dynamic-sensors/src/util.rs, sensor/mod.rs and
    network/mod.rs). */
module Cidr {
  import opened Bits
  import opened Bytes
  import opened Wire

  // ---------------------------------------------------------------- building a mask

  /** Ones everywhere but in the low `k` bits of a word of `w`. */
  function HighMask(w: nat, k: nat): nat
    requires k <= w
  {
    Pow2Grows(k, w);
    Pow2(w) - Pow2(k)
  }

  const INVALID_NETMASK: int := -1

  /** One shift to the left of a word of 64 bits. */
  function ShiftWord(x: nat): nat {
    2 * x % Pow2(64)
  }

  lemma ShiftMask(k: nat)
    requires k < 64
    ensures HighMask(64, k) > 0 && ShiftWord(HighMask(64, k)) == HighMask(64, k + 1)
  {
    Pow2Grows(k + 1, 64);
    Doubles(k);
    hide Pow2;
    var w, p := Pow2(64), Pow2(k);
    Remainder(2 * (w - p), w, 1, w - 2 * p);
  }

  lemma Doubles(k: nat)
    ensures Pow2(k + 1) == 2 * Pow2(k)
  {
  }

  function Words(high: nat, low: nat): nat {
    high * Pow2(64) + low
  }

  /** int2bits: fills the mask with ones and shifts the low word, and once that is empty the
      high word, until only the prefix is left. Out of range the mask is all ones. */
  method Int2Bits(number: int) returns (rc: int, high: nat, low: nat)
    ensures if 0 <= number <= 128
            then rc == number && Words(high, low) == HighMask(128, 128 - number)
            else rc == INVALID_NETMASK && Words(high, low) == HighMask(128, 0)
  {
    hide Pow2, ShiftWord;
    high, low := HighMask(64, 0), HighMask(64, 0);
    TwoWords(0);
    if number > 128 || number < 0 { return INVALID_NETMASK, high, low; }
    var n := number;
    while n < 128
      invariant number <= n <= 128
      invariant high == HighMask(64, if n - number < 64 then 0 else n - number - 64)
      invariant low == HighMask(64, if n - number < 64 then n - number else 64)
    {
      var k := n - number;
      NoneLeft();
      ShiftMask(if k < 64 then k else k - 64);
      if low == 0 { high := ShiftWord(high); } else { low := ShiftWord(low); }
      n := n + 1;
    }
    rc := number;
    TwoWords(128 - number);
  }

  lemma NoneLeft()
    ensures HighMask(64, 64) == 0
  {
  }

  /** The two words of a mask. */
  lemma TwoWords(k: nat)
    requires k <= 128
    ensures Words(HighMask(64, if k < 64 then 0 else k - 64), HighMask(64, if k < 64 then k else 64))
            == HighMask(128, k)
  {
    hide Pow2;
    Pow2Adds(64, 64);
    var w := Pow2(64);
    assert Pow2(0) == 1 by { PowerOfZero(); }
    if k < 64 {
      assert (w - 1) * w == w * w - w;
    } else {
      Pow2Adds(k - 64, 64);
      assert (w - Pow2(k - 64)) * w == w * w - Pow2(k - 64) * w;
    }
  }

  lemma PowerOfZero()
    ensures Pow2(0) == 1
  {
  }

  // ---------------------------------------------------------------- reading an address

  /** What inet_pton makes of the text before the slash. */
  datatype Parsed = Six(value: nat) | Four(value: nat) | Neither

  /** What sscanf makes of the text after the slash, if there is any. */
  datatype MaskText = NoMask | Prefix(n: int) | NotANumber

  /** An IPv4 address inside IPv6. */
  function Mapped(a: nat): nat {
    0xffff * Pow2(32) + a
  }

  /** parseAddress: the network and mask as 128 bits, or a failure. Text that is no address
      leaves the network as it was. */
  method ParseAddress(address: Parsed, mask: MaskText, before: nat) returns (r: Option<(nat, nat)>)
    ensures r == AddressOf(address, mask, before)
  {
    hide Pow2, HighMask, Words;
    var bits, networkMask := INVALID_NETMASK, 0;
    if mask.NoMask? {
      var _, high, low := Int2Bits(128);
      networkMask := Words(high, low);
      bits := 128;
    } else if mask.Prefix? {
      var number := if address.Four? then mask.n + 128 - 32 else mask.n;
      var rc, high, low := Int2Bits(number);
      bits, networkMask := rc, Words(high, low);
    }
    if bits == INVALID_NETMASK { return None; }
    var network := match address case Six(a) => a case Four(a) => Mapped(a) case Neither => before;
    return Some((network, networkMask));
  }

  /** The prefix length in bits of 128. */
  function PrefixBits(address: Parsed, mask: MaskText): Option<nat> {
    match mask
    case NoMask => Some(128)
    case NotANumber => None
    case Prefix(n) =>
      var number := if address.Four? then n + 96 else n;
      if 0 <= number <= 128 then Some(number) else None
  }

  function AddressOf(address: Parsed, mask: MaskText, before: nat): Option<(nat, nat)> {
    match PrefixBits(address, mask)
    case None => None
    case Some(n) =>
      var network := match address case Six(a) => a case Four(a) => Mapped(a) case Neither => before;
      Some((network, HighMask(128, 128 - n)))
  }

  /** Which texts are accepted, and the network read from them. Text that is no address is
      accepted too, and leaves the network as it was. */
  lemma ParsedExactly(address: Parsed, mask: MaskText, before: nat)
    ensures var r := AddressOf(address, mask, before);
            && (r.Some? <==>
                  mask.NoMask? || (mask.Prefix? && if address.Four? then -96 <= mask.n <= 32 else 0 <= mask.n <= 128))
            && (r.Some? ==>
                  r.value.0 == match address
                               case Six(a) => a
                               case Four(a) => 0xffff_0000_0000 + a
                               case Neither => before)
            && (r.Some? && mask.NoMask? ==> r.value.1 == Pow2(128) - 1)
  {
    hide Pow2;
    assert Pow2(0) == 1 by { PowerOfZero(); }
    assert Pow2(32) == 0x1_0000_0000 by { WordSize(); }
  }

  lemma WordSize()
    ensures Pow2(32) == 0x1_0000_0000
  {
    Pow2Four(0);
    Pow2Four(4);
    Pow2Four(8);
    Pow2Four(12);
    Pow2Four(16);
    Pow2Four(20);
    Pow2Four(24);
    Pow2Four(28);
  }

  // ---------------------------------------------------------------- addresses on the Rust side

  datatype IpAddr = V4(value: nat) | V6(value: nat)

  predicate Proper(ip: IpAddr) {
    ip.value < Pow2(Width(ip))
  }

  function Width(ip: IpAddr): nat {
    if ip.V4? then 32 else 128
  }

  /** ipv4_to_u32. */
  method Ipv4ToU32(octets: bytes) returns (n: nat)
    requires |octets| == 4
    ensures n == BigEndian(octets)
  {
    n := 0;
    for i := 0 to 4
      invariant n == Shifted(BigEndian(octets[..i]), 32 - 8 * i)
    {
      PlaceOctet(octets, i, 32);
      n := n + Shifted(octets[i], 24 - 8 * i);
    }
    assert octets[..4] == octets;
  }

  /** ipv6_to_u128. */
  method Ipv6ToU128(octets: bytes) returns (n: nat)
    requires |octets| == 16
    ensures n == BigEndian(octets)
  {
    n := 0;
    for i := 0 to 16
      invariant n == Shifted(BigEndian(octets[..i]), 128 - 8 * i)
    {
      PlaceOctet(octets, i, 128);
      n := n + Shifted(octets[i], 120 - 8 * i);
    }
    assert octets[..16] == octets;
  }

  /** An octet placed below the octets before it. */
  lemma PlaceOctet(octets: bytes, i: nat, width: nat)
    requires i < |octets| && 8 * i + 8 <= width
    ensures Shifted(BigEndian(octets[..i]), width - 8 * i) + Shifted(octets[i], width - 8 - 8 * i)
            == Shifted(BigEndian(octets[..i + 1]), width - 8 - 8 * i)
  {
    hide Pow2, BigEndian;
    var k := width - 8 - 8 * i;
    var p, v, o := Pow2(k), BigEndian(octets[..i]), octets[i];
    Pow2Four(k);
    Pow2Four(k + 4);
    BigEndianMore(octets, i);
    assert v * (16 * (16 * p)) + o * p == (v * 0x100 + o) * p;
  }

  lemma BigEndianMore(octets: bytes, i: nat)
    requires i < |octets|
    ensures BigEndian(octets[..i + 1]) == BigEndian(octets[..i]) * 0x100 + octets[i]
  {
    assert octets[..i + 1][..i] == octets[..i];
  }

  /** Ipv6Addr::to_ipv4: an address that is all zeros, or mapped, above its last four octets. */
  function ToIpv4(value: nat): Option<nat> {
    if value / Pow2(32) == 0 || value / Pow2(32) == 0xffff then Some(value % Pow2(32)) else None
  }

  function Shorten(ip: IpAddr): IpAddr {
    match ip
    case V4(_) => ip
    case V6(v) => match ToIpv4(v) case Some(a) => V4(a) case None => ip
  }

  /** v6_to_v4: the last four octets. */
  function V6ToV4(netmask: IpAddr): IpAddr {
    match netmask
    case V4(_) => netmask
    case V6(v) => V4(v % Pow2(32))
  }

  predicate SameFamily(ip: IpAddr, netmask: IpAddr) {
    ip.V4? == netmask.V4?
  }

  /** apply_netmask; None where it panics. */
  function ApplyNetmask(ip: IpAddr, netmask: IpAddr): Option<IpAddr> {
    match (ip, netmask)
    case (V4(a), V4(m)) => Some(V4(And(a, m)))
    case (V6(a), V6(m)) => Some(V6(And(a, m)))
    case (_, _) => None
  }

  /** A configured network: a sensor, or a home network. */
  datatype Net = Net(network: IpAddr, netmask: IpAddr, name: nat)

  /** Sensor::new and Network::new; None where they panic. */
  function NewNet(network: IpAddr, netmask: IpAddr, name: nat): Option<Net> {
    var short := Shorten(network);
    var mask := if short.V4? then V6ToV4(netmask) else netmask;
    match ApplyNetmask(short, mask)
    case None => None
    case Some(masked) => Some(Net(masked, mask, name))
  }

  // ---------------------------------------------------------------- prefixes

  /** `m` is the mask of a prefix that leaves `k` bits of its width free. */
  ghost predicate LeavesFree(m: IpAddr, k: nat) {
    k <= Width(m) && m.value == HighMask(Width(m), k)
  }

  /** The number without its low `k` bits. */
  function Masked(x: nat, k: nat): nat {
    RemainderSmall(x, Pow2(k));
    x - x % Pow2(k)
  }

  lemma RemainderSmall(x: nat, p: nat)
    requires p > 0
    ensures x % p <= x
  {
    var q := x / p;
    assert x == p * q + x % p;
    assert p * q >= 0;
  }

  /** Applying the mask of a prefix clears the free bits. */
  lemma MaskClears(ip: IpAddr, m: IpAddr, k: nat)
    requires Proper(ip) && SameFamily(ip, m) && LeavesFree(m, k)
    ensures ApplyNetmask(ip, m) == Some(Clear(ip, k))
  {
    hide And, Pow2;
    AndHighMask(ip.value, k, Width(m));
  }

  lemma MaskedFacts(x: nat, k: nat)
    ensures Masked(x, k) <= x < Masked(x, k) + Pow2(k) && Masked(x, k) % Pow2(k) == 0
    ensures Masked(x, k) == x / Pow2(k) * Pow2(k)
  {
    hide Pow2;
    var p := Pow2(k);
    assert x == p * (x / p) + x % p;
    Remainder(Masked(x, k), p, x / p, 0);
    assert p * (x / p) == x / p * p;
  }

  /** Clearing bits of two numbers gives the same exactly when they share the bits above. */
  lemma SamePrefix(x: nat, y: nat, k: nat)
    ensures Masked(x, k) == Masked(y, k) <==> x / Pow2(k) == y / Pow2(k)
  {
    hide Pow2;
    MaskedFacts(x, k);
    MaskedFacts(y, k);
    var p := Pow2(k);
    if Masked(x, k) == Masked(y, k) { Remainder(x, p, y / p, x - y / p * p); }
  }

  lemma LowBits(k: nat, w: nat, v: nat)
    requires k <= w && v >= w
    ensures HighMask(v, k) % Pow2(w) == HighMask(w, k)
  {
    hide Pow2;
    Pow2Adds(v - w, w);
    Pow2Grows(k, w);
    var p, q := Pow2(w), Pow2(v - w);
    Positive(k);
    Positive(v - w);
    assert (q - 1) * p == q * p - p;
    assert HighMask(v, k) == p * (q - 1) + HighMask(w, k);
    Remainder(HighMask(v, k), p, q - 1, HighMask(w, k));
  }

  lemma Positive(k: nat)
    ensures Pow2(k) >= 1
  {
  }

  lemma NoLowBits(k: nat, w: nat, v: nat)
    requires w <= k <= v
    ensures HighMask(v, k) % Pow2(w) == 0
  {
    hide *;
    Pow2Grows(k - w, v - w);
    HighMaskFactor(k, w, v);
    Positive(w);
    Remainder(HighMask(v, k), Pow2(w), Pow2(v - w) - Pow2(k - w), 0);
  }

  lemma HighMaskFactor(k: nat, w: nat, v: nat)
    requires w <= k <= v && Pow2(k - w) <= Pow2(v - w)
    ensures HighMask(v, k) == Pow2(w) * (Pow2(v - w) - Pow2(k - w))
  {
    hide Pow2;
    Pow2Adds(v - w, w);
    Pow2Adds(k - w, w);
    Distribute(Pow2(v - w), Pow2(k - w), Pow2(w));
  }

  lemma Distribute(a: nat, b: nat, p: nat)
    ensures a * p - b * p == p * (a - b)
  {
  }

  // ---------------------------------------------------------------- configured networks

  /** `ip` without its low `k` bits. */
  function Clear(ip: IpAddr, k: nat): IpAddr {
    match ip
    case V4(v) => V4(Masked(v, k))
    case V6(v) => V6(Masked(v, k))
  }

  /** An address text whose value fits its family. */
  predicate ProperText(address: Parsed) {
    match address
    case Six(a) => a < Pow2(128)
    case Four(a) => a < Pow2(32)
    case Neither => false
  }

  /** The address a configured network is kept under, before masking. */
  function BaseOf(address: Parsed): IpAddr
    requires !address.Neither?
  {
    match address
    case Four(a) => V4(a)
    case Six(a) => Shorten(V6(a))
  }

  /** The bits a configured prefix leaves free: of an IPv4 network at most all 32. */
  function FreeOf(address: Parsed, mask: MaskText): nat
    requires !address.Neither? && PrefixBits(address, mask).Some?
  {
    var k := 128 - PrefixBits(address, mask).value;
    if BaseOf(address).V4? && k > 32 then 32 else k
  }

  /** From the text of a network to the net that is stored, for both families. */
  lemma ConfiguredNet(address: Parsed, mask: MaskText, before: nat, name: nat)
    requires ProperText(address) && PrefixBits(address, mask).Some?
    ensures Proper(BaseOf(address)) && AddressOf(address, mask, before).Some?
    ensures var (network, netmask) := AddressOf(address, mask, before).value;
            var net := NewNet(V6(network), V6(netmask), name);
            && net.Some? && net.value.name == name
            && net.value.network == Clear(BaseOf(address), FreeOf(address, mask))
            && SameFamily(BaseOf(address), net.value.netmask)
            && LeavesFree(net.value.netmask, FreeOf(address, mask))
  {
    hide Pow2, And, HighMask;
    var base, k := BaseOf(address), 128 - PrefixBits(address, mask).value;
    BaseIsShort(address);
    if base.V4? {
      if k <= 32 { LowBits(k, 32, 128); } else { NoLowBits(k, 32, 128); NoneFree(); }
      MaskClears(base, V4(HighMask(128, k) % Pow2(32)), FreeOf(address, mask));
    } else {
      MaskClears(base, V6(HighMask(128, k)), k);
    }
  }

  lemma BaseIsShort(address: Parsed)
    requires ProperText(address)
    ensures Proper(BaseOf(address))
    ensures BaseOf(address) == Shorten(V6(if address.Four? then Mapped(address.value) else address.value))
  {
    hide Pow2;
    if address.Four? { MappedIsIpv4(address.value); }
    Positive(32);
  }

  /** An IPv4 network a/n is accepted from -96 up, and has n bits of prefix, or none. */
  lemma Ipv4Config(a: nat, n: int)
    requires a < Pow2(32)
    ensures PrefixBits(Four(a), Prefix(n)).Some? <==> -96 <= n <= 32
    ensures -96 <= n <= 32 ==> BaseOf(Four(a)) == V4(a) && FreeOf(Four(a), Prefix(n)) == if n < 0 then 32 else 32 - n
  {
  }

  /** An IPv6 network a/n has n bits of prefix, unless its address stands for an IPv4 address:
      then it becomes an IPv4 network with what is left of n beyond 96. */
  lemma Ipv6Config(a: nat, n: int)
    requires a < Pow2(128)
    ensures PrefixBits(Six(a), Prefix(n)).Some? <==> 0 <= n <= 128
    ensures 0 <= n <= 128 ==>
              match ToIpv4(a)
              case None => BaseOf(Six(a)) == V6(a) && FreeOf(Six(a), Prefix(n)) == 128 - n
              case Some(x) => BaseOf(Six(a)) == V4(x) && FreeOf(Six(a), Prefix(n)) == if n < 96 then 32 else 128 - n
  {
  }

  lemma NoneFree()
    ensures HighMask(32, 32) == 0
  {
  }

  lemma MappedIsIpv4(a: nat)
    requires a < Pow2(32)
    ensures ToIpv4(Mapped(a)) == Some(a)
  {
    hide Pow2;
    Remainder(Mapped(a), Pow2(32), 0xffff, a);
  }
}
