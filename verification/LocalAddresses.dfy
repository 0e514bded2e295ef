/** Which addresses a machine announces, and which announced address a joining machine dials. */
module LocalAddresses {
  import opened Wrappers

  // ----- addresses and interfaces

  const LIMIT32: nat := 0x1_0000_0000
  const LIMIT128: nat := 0x1_0000_0000_0000_0000_0000_0000_0000_0000

  type Word32 = n: nat | n < LIMIT32 witness 0
  type Word128 = n: nat | n < LIMIT128 witness 0

  /** An address by its number; one mapped into the other family is V4. */
  datatype IP = V4(bits: Word32) | V6(wide: Word128)

  function ShiftRight(n: nat, places: nat): nat {
    if places == 0 then n else ShiftRight(n / 2, places - 1)
  }

  /** The leading bits of an address that a prefix of that length keeps. */
  function Leading(ip: IP, length: nat): nat {
    match ip
    case V4(n) => ShiftRight(n, if length <= 32 then 32 - length else 0)
    case V6(n) => ShiftRight(n, if length <= 128 then 128 - length else 0)
  }

  /** An address of this machine with its prefix length. */
  datatype Net = Net(ip: IP, length: nat) {
    predicate Contains(other: IP) {
      ip.V4? == other.V4? && Leading(ip, length) == Leading(other, length)
    }
  }

  /** Section 3 of RFC 1918; section 3 of RFC 4193. */
  const PRIVATE: seq<Net> := [
    Net(V4(0x0A00_0000), 8), Net(V4(0xAC10_0000), 12), Net(V4(0xC0A8_0000), 16),
    Net(V6(0xFC00_0000_0000_0000_0000_0000_0000_0000), 7)]
  /** RFC 3927; section 2.5.6 of RFC 4291. */
  const LINK_LOCAL: seq<Net> := [
    Net(V4(0xA9FE_0000), 16), Net(V6(0xFE80_0000_0000_0000_0000_0000_0000_0000), 10)]
  const LOOPBACK: seq<Net> := [Net(V4(0x7F00_0000), 8), Net(V6(1), 128)]
  const TAILNET: seq<Net> := [
    Net(V4(0x6440_0000), 10), Net(V6(0xFD7A_115C_A1E0_0000_0000_0000_0000_0000), 48)]

  predicate Within(ranges: seq<Net>, ip: IP) {
    exists i :: 0 <= i < |ranges| && ranges[i].Contains(ip)
  }

  predicate IsUnspecified(ip: IP) {
    ip == V4(0) || ip == V6(0)
  }

  predicate LinkLocalOrPrivate(ip: IP) {
    if Within(TAILNET, ip) || Within(LOOPBACK, ip) then false
    else Within(PRIVATE, ip) || Within(LINK_LOCAL, ip)
  }

  predicate ZonedLinkLocal(ip: IP) {
    ip.V6? && Within(LINK_LOCAL, ip)
  }

  datatype Iface = Iface(name: string, up: bool, running: bool, loopback: bool, multicast: bool, nets: seq<Net>)

  const VIRTUAL: seq<string> := [
    "docker", "br-", "veth", "virbr", "vnet", "podman", "cni", "flannel",
    "kube", "lxcbr", "lxdbr", "vboxnet", "vmnet", "mpqemubr", "tap", "dummy"]

  predicate HasPrefix(s: string, prefix: string) {
    prefix <= s
  }

  predicate IsVirtual(name: string) {
    exists i :: 0 <= i < |VIRTUAL| && HasPrefix(name, VIRTUAL[i])
  }

  /** Why an interface is passed over, if it is. */
  function WhyNot(i: Iface): Option<string> {
    if !i.up then Some("down")
    else if !i.running then Some("up but not running")
    else if i.loopback then Some("loopback")
    else if !i.multicast then Some("no multicast")
    else if IsVirtual(i.name) then Some("a container or virtual machine interface")
    else if HasPrefix(i.name, "tailscale") then Some("a tailnet interface")
    else if exists k :: 0 <= k < |i.nets| && Within(TAILNET, i.nets[k].ip) then Some("a tailnet interface")
    else None
  }

  predicate Eligible(i: Iface) {
    WhyNot(i) == None
  }

  // ----- what the ranges are, in numbers

  function Pow2(n: nat): (r: nat)
    ensures r > 0
  {
    if n == 0 then 1 else 2 * Pow2(n - 1)
  }

  predicate Between(n: nat, low: nat, size: nat) {
    low <= n < low + size
  }

  lemma Doubles(q: nat, p: nat)
    ensures q * (2 * p) == 2 * (q * p)
  {
  }

  /** Shifting right is dividing: what is left counts whole blocks. */
  lemma {:induction false} ShiftRightIs(n: nat, places: nat)
    ensures Between(n, ShiftRight(n, places) * Pow2(places), Pow2(places))
  {
    if places > 0 {
      ShiftRightIs(n / 2, places - 1);
      Doubles(ShiftRight(n, places), Pow2(places - 1));
    }
  }

  lemma NextBlock(q: nat, size: nat)
    ensures (q + 1) * size == q * size + size
  {
  }

  lemma {:induction false} BlocksApart(q: nat, r: nat, size: nat)
    ensures q < r ==> q * size + size <= r * size
    decreases r
  {
    if q < r {
      NextBlock(r - 1, size);
      BlocksApart(q, r - 1, size);
    }
  }

  lemma OneBlock(q: nat, r: nat, size: nat, n: nat)
    requires Between(n, q * size, size) && Between(n, r * size, size)
    ensures q == r
  {
    BlocksApart(q, r, size);
    BlocksApart(r, q, size);
  }

  /** Two numbers agree in their leading bits exactly if one block holds both. */
  lemma SameBlock(m: nat, n: nat, places: nat, q: nat)
    requires Between(m, q * Pow2(places), Pow2(places))
    ensures ShiftRight(m, places) == ShiftRight(n, places) <==> Between(n, q * Pow2(places), Pow2(places))
  {
    ShiftRightIs(m, places);
    ShiftRightIs(n, places);
    OneBlock(ShiftRight(m, places), q, Pow2(places), m);
    hide Pow2, ShiftRight;
    if Between(n, q * Pow2(places), Pow2(places)) {
      OneBlock(ShiftRight(n, places), q, Pow2(places), n);
    }
  }

  lemma {:induction false} Pow2Sum(a: nat, b: nat)
    ensures Pow2(a + b) == Pow2(a) * Pow2(b)
  {
    if a > 0 {
      Pow2Sum(a - 1, b);
      MulAssociates(2, Pow2(a - 1), Pow2(b));
    }
  }

  lemma MulAssociates(a: nat, b: nat, c: nat)
    ensures a * b * c == a * (b * c)
  {
  }

  lemma Nibble()
    ensures Pow2(0) == 1 && Pow2(1) == 2 && Pow2(2) == 4 && Pow2(4) == 16
  {
    assert Pow2(3) == 8;
  }

  lemma PowersV4()
    ensures Pow2(16) == 0x1_0000 && Pow2(20) == 0x10_0000 && Pow2(22) == 0x40_0000 && Pow2(24) == 0x100_0000
    ensures Pow2(32) == 0x1_0000_0000
  {
    Nibble();
    hide Pow2;
    Pow2Sum(4, 4);
    Pow2Sum(8, 8);
    Pow2Sum(16, 4);
    Pow2Sum(20, 2);
    Pow2Sum(20, 4);
    Pow2Sum(16, 16);
  }

  lemma PowersV6()
    ensures Pow2(80) == 0x1_0000_0000_0000_0000_0000
    ensures Pow2(118) == 0x40_0000_0000_0000_0000_0000_0000_0000 && Pow2(121) == 0x200_0000_0000_0000_0000_0000_0000_0000
  {
    Nibble();
    PowersV4();
    hide Pow2;
    Pow2Sum(32, 32);
    Pow2Sum(64, 16);
    Pow2Sum(64, 32);
    Pow2Sum(96, 22);
    Pow2Sum(96, 24);
    Pow2Sum(120, 1);
  }

  lemma PrefixV4(base: Word32, length: nat, size: nat, q: nat, n: Word32)
    requires length <= 32 && size == Pow2(32 - length) && base == q * size
    ensures Net(V4(base), length).Contains(V4(n)) <==> Between(n, base, size)
  {
    SameBlock(base, n, 32 - length, q);
  }

  lemma PrefixV6(base: Word128, length: nat, size: nat, q: nat, n: Word128)
    requires length <= 128 && size == Pow2(128 - length) && base == q * size
    ensures Net(V6(base), length).Contains(V6(n)) <==> Between(n, base, size)
  {
    SameBlock(base, n, 128 - length, q);
  }

  /** 10/8, 172.16/12, 192.168/16 and 169.254/16, and nothing else. */
  lemma LocalV4(n: Word32)
    ensures Within(PRIVATE, V4(n)) <==>
              Between(n, 0x0A00_0000, 0x100_0000) || Between(n, 0xAC10_0000, 0x10_0000) || Between(n, 0xC0A8_0000, 0x1_0000)
    ensures Within(LINK_LOCAL, V4(n)) <==> Between(n, 0xA9FE_0000, 0x1_0000)
    ensures Within(LOOPBACK, V4(n)) <==> Between(n, 0x7F00_0000, 0x100_0000)
    ensures Within(TAILNET, V4(n)) <==> Between(n, 0x6440_0000, 0x40_0000)
    ensures LinkLocalOrPrivate(V4(n)) <==>
              || Between(n, 0x0A00_0000, 0x100_0000) || Between(n, 0xAC10_0000, 0x10_0000)
              || Between(n, 0xC0A8_0000, 0x1_0000) || Between(n, 0xA9FE_0000, 0x1_0000)
  {
    PowersV4();
    hide Pow2, Leading, Between;
    PrefixV4(0x0A00_0000, 8, 0x100_0000, 0x0A, n);
    PrefixV4(0xAC10_0000, 12, 0x10_0000, 0xAC1, n);
    PrefixV4(0xC0A8_0000, 16, 0x1_0000, 0xC0A8, n);
    PrefixV4(0xA9FE_0000, 16, 0x1_0000, 0xA9FE, n);
    PrefixV4(0x7F00_0000, 8, 0x100_0000, 0x7F, n);
    PrefixV4(0x6440_0000, 10, 0x40_0000, 0x191, n);
    assert PRIVATE[0].Contains(V4(n)) <==> Between(n, 0x0A00_0000, 0x100_0000);
    assert PRIVATE[1].Contains(V4(n)) <==> Between(n, 0xAC10_0000, 0x10_0000);
    assert PRIVATE[2].Contains(V4(n)) <==> Between(n, 0xC0A8_0000, 0x1_0000);
    assert LINK_LOCAL[0].Contains(V4(n)) <==> Between(n, 0xA9FE_0000, 0x1_0000);
    assert LOOPBACK[0].Contains(V4(n)) <==> Between(n, 0x7F00_0000, 0x100_0000);
    assert TAILNET[0].Contains(V4(n)) <==> Between(n, 0x6440_0000, 0x40_0000);
    NoOverlap(n);
  }

  lemma NoOverlap(n: nat)
    ensures Between(n, 0x7F00_0000, 0x100_0000) || Between(n, 0x6440_0000, 0x40_0000) ==>
              && !Between(n, 0x0A00_0000, 0x100_0000) && !Between(n, 0xAC10_0000, 0x10_0000)
              && !Between(n, 0xC0A8_0000, 0x1_0000) && !Between(n, 0xA9FE_0000, 0x1_0000)
  {
  }

  /** fc00::/7 without fd7a:115c:a1e0::/48, and fe80::/10, and nothing else. */
  lemma LocalV6(n: Word128)
    ensures Within(PRIVATE, V6(n)) <==>
              Between(n, 0xFC00_0000_0000_0000_0000_0000_0000_0000, 0x200_0000_0000_0000_0000_0000_0000_0000)
    ensures ZonedLinkLocal(V6(n)) <==>
              Between(n, 0xFE80_0000_0000_0000_0000_0000_0000_0000, 0x40_0000_0000_0000_0000_0000_0000_0000)
    ensures Within(LOOPBACK, V6(n)) <==> n == 1
    ensures Within(TAILNET, V6(n)) <==>
              Between(n, 0xFD7A_115C_A1E0_0000_0000_0000_0000_0000, 0x1_0000_0000_0000_0000_0000)
    ensures LinkLocalOrPrivate(V6(n)) <==>
              || ZonedLinkLocal(V6(n))
              || (Between(n, 0xFC00_0000_0000_0000_0000_0000_0000_0000, 0x200_0000_0000_0000_0000_0000_0000_0000)
                  && !Between(n, 0xFD7A_115C_A1E0_0000_0000_0000_0000_0000, 0x1_0000_0000_0000_0000_0000))
  {
    Nibble();
    PowersV6();
    hide Pow2, Leading;
    PrefixV6(0xFC00_0000_0000_0000_0000_0000_0000_0000, 7, 0x200_0000_0000_0000_0000_0000_0000_0000, 0x7E, n);
    PrefixV6(0xFE80_0000_0000_0000_0000_0000_0000_0000, 10, 0x40_0000_0000_0000_0000_0000_0000_0000, 0x3FA, n);
    PrefixV6(1, 128, 1, 1, n);
    PrefixV6(0xFD7A_115C_A1E0_0000_0000_0000_0000_0000, 48, 0x1_0000_0000_0000_0000_0000, 0xFD7A_115C_A1E0, n);
    assert PRIVATE[3].Contains(V6(n)) <==>
           Between(n, 0xFC00_0000_0000_0000_0000_0000_0000_0000, 0x200_0000_0000_0000_0000_0000_0000_0000);
    assert LINK_LOCAL[1].Contains(V6(n)) <==>
           Between(n, 0xFE80_0000_0000_0000_0000_0000_0000_0000, 0x40_0000_0000_0000_0000_0000_0000_0000);
    assert LOOPBACK[1].Contains(V6(n)) <==> n == 1;
    assert TAILNET[1].Contains(V6(n)) <==>
           Between(n, 0xFD7A_115C_A1E0_0000_0000_0000_0000_0000, 0x1_0000_0000_0000_0000_0000);
  }

  /** A subnet holds an address exactly if they are of one family and in one block. */
  lemma ContainsExactly(net: Net, q: nat, ip: IP)
    requires match net.ip
             case V4(n) => net.length <= 32 && Between(n, q * Pow2(32 - net.length), Pow2(32 - net.length))
             case V6(n) => net.length <= 128 && Between(n, q * Pow2(128 - net.length), Pow2(128 - net.length))
    ensures net.Contains(ip) <==>
              match ip
              case V4(n) => net.ip.V4? && net.length <= 32 && Between(n, q * Pow2(32 - net.length), Pow2(32 - net.length))
              case V6(n) => net.ip.V6? && net.length <= 128 && Between(n, q * Pow2(128 - net.length), Pow2(128 - net.length))
  {
    hide Pow2, ShiftRight, Between;
    match net.ip
    case V4(m) => if ip.V4? { SameBlock(m, ip.bits, 32 - net.length, q); }
    case V6(m) => if ip.V6? { SameBlock(m, ip.wide, 128 - net.length, q); }
  }

  lemma VirtualIff(name: string)
    ensures IsVirtual(name) <==> exists prefix :: prefix in VIRTUAL && prefix <= name
  {
    if k :| 0 <= k < |VIRTUAL| && HasPrefix(name, VIRTUAL[k]) {
      assert VIRTUAL[k] in VIRTUAL;
    }
    if prefix :| prefix in VIRTUAL && prefix <= name {
      var k :| 0 <= k < |VIRTUAL| && VIRTUAL[k] == prefix;
      assert HasPrefix(name, VIRTUAL[k]);
    }
  }

  /** An interface is passed over for its flags, its name or a tailnet address, and for nothing
      else. */
  lemma EligibleExactly(i: Iface)
    ensures Eligible(i) <==>
              && i.up && i.running && !i.loopback && i.multicast
              && !("tailscale" <= i.name) && !(exists prefix :: prefix in VIRTUAL && prefix <= i.name)
              && forall net :: net in i.nets ==>
                   match net.ip
                   case V4(n) => !Between(n, 0x6440_0000, 0x40_0000)
                   case V6(n) => !Between(n, 0xFD7A_115C_A1E0_0000_0000_0000_0000_0000, 0x1_0000_0000_0000_0000_0000)
  {
    forall net | net in i.nets
      ensures Within(TAILNET, net.ip) <==>
                match net.ip
                case V4(n) => Between(n, 0x6440_0000, 0x40_0000)
                case V6(n) => Between(n, 0xFD7A_115C_A1E0_0000_0000_0000_0000_0000, 0x1_0000_0000_0000_0000_0000)
    {
      match net.ip
      case V4(n) => LocalV4(n);
      case V6(n) => LocalV6(n);
    }
    VirtualIff(i.name);
    hide Within, Between, IsVirtual;
    if k :| 0 <= k < |i.nets| && Within(TAILNET, i.nets[k].ip) {
      assert i.nets[k] in i.nets;
    }
  }

  // ----- what to announce

  datatype Host = NoHost | NotAnAddress | Numeric(ip: IP)

  /** What the listener bound, as taken apart; None is a port that is not a number. */
  datatype Bound = Unsplit | Split(host: Host, port: Option<int>)

  datatype Target = Target(ifaces: seq<string>, ips: seq<IP>, port: int)

  predicate Valid(b: Bound) {
    b.Split? && b.port.Some? && 0 < b.port.value <= 65535 && b.host != NotAnAddress
  }

  predicate IsFirstPort(bound: seq<Bound>, port: int) {
    exists i :: 0 <= i < |bound| && Valid(bound[i]) && bound[i].port.value == port
                && forall j :: 0 <= j < i ==> !Valid(bound[j])
  }

  predicate AnyHost(host: Host) {
    host == NoHost || (host.Numeric? && IsUnspecified(host.ip))
  }

  predicate OnPort(b: Bound, port: int) {
    Valid(b) && b.port.value == port
  }

  predicate Everywhere(bound: seq<Bound>, port: int) {
    exists i :: 0 <= i < |bound| && OnPort(bound[i], port) && AnyHost(bound[i].host)
  }

  predicate Explicitly(bound: seq<Bound>, port: int, ip: IP) {
    exists i :: 0 <= i < |bound| && OnPort(bound[i], port) && !AnyHost(bound[i].host) && bound[i].host == Numeric(ip)
  }

  /** The listener can be reached at the address, and it is one to tell others about. */
  predicate Reaches(bound: seq<Bound>, port: int, ip: IP) {
    && LinkLocalOrPrivate(ip)
    && (Everywhere(bound, port) || (Explicitly(bound, port, ip) && !ZonedLinkLocal(ip)))
  }

  /** What one interface gives, in the order of its addresses. */
  function AnnouncedOn(bound: seq<Bound>, port: int, nets: seq<Net>): (r: seq<IP>)
    ensures forall ip :: ip in r <==> exists k :: 0 <= k < |nets| && nets[k].ip == ip && Reaches(bound, port, ip)
  {
    if nets == [] then []
    else
      var n := |nets| - 1;
      AnnouncedOn(bound, port, nets[..n]) + if Reaches(bound, port, nets[n].ip) then [nets[n].ip] else []
  }

  function IpsFor(bound: seq<Bound>, port: int, interfaces: seq<Iface>): seq<IP> {
    if interfaces == [] then []
    else
      var n := |interfaces| - 1;
      IpsFor(bound, port, interfaces[..n])
      + if Eligible(interfaces[n]) then AnnouncedOn(bound, port, interfaces[n].nets) else []
  }

  function NamesFor(bound: seq<Bound>, port: int, interfaces: seq<Iface>): seq<string> {
    if interfaces == [] then []
    else
      var n := |interfaces| - 1;
      NamesFor(bound, port, interfaces[..n])
      + if Eligible(interfaces[n]) && AnnouncedOn(bound, port, interfaces[n].nets) != [] then [interfaces[n].name]
        else []
  }

  /** An eligible interface that has the address, and the listener reached there. */
  ghost predicate AnnouncedVia(bound: seq<Bound>, port: int, i: Iface, ip: IP) {
    Eligible(i) && Reaches(bound, port, ip) && exists k :: 0 <= k < |i.nets| && i.nets[k].ip == ip
  }

  /** The target: the first valid port, and everything to announce on it. */
  ghost predicate IsTarget(bound: seq<Bound>, interfaces: seq<Iface>, t: Option<Target>) {
    match t
    case Some(found) =>
      && IsFirstPort(bound, found.port) && found.ifaces != []
      && found.ips == IpsFor(bound, found.port, interfaces)
      && found.ifaces == NamesFor(bound, found.port, interfaces)
    case None => forall port :: IsFirstPort(bound, port) ==> NamesFor(bound, port, interfaces) == []
  }

  method AnnounceTarget(bound: seq<Bound>, interfaces: seq<Iface>) returns (t: Option<Target>)
    ensures IsTarget(bound, interfaces, t)
  {
    hide LinkLocalOrPrivate, ZonedLinkLocal, Eligible, IsUnspecified;
    var port := 0;
    var wildcard := false;
    var explicit: set<IP> := {};
    for k := 0 to |bound|
      invariant port == 0 <==> forall j :: 0 <= j < k ==> !Valid(bound[j])
      invariant port != 0 ==> 0 < port && IsFirstPort(bound[..k], port)
      invariant wildcard == Everywhere(bound[..k], port)
      invariant forall ip :: ip in explicit <==> Explicitly(bound[..k], port, ip)
    {
      BoundOneMore(bound, k, if port == 0 && Valid(bound[k]) then bound[k].port.value else port);
      NothingOnPort(bound[..k], if Valid(bound[k]) then bound[k].port.value else 0);
      var b := bound[k];
      if !Valid(b) {
        continue;
      }
      if port == 0 {
        port := b.port.value;
      }
      if b.port.value != port {
        continue;
      }
      if AnyHost(b.host) {
        wildcard := true;
        continue;
      }
      explicit := explicit + {b.host.ip};
    }
    assert bound[..|bound|] == bound;
    if port == 0 {
      return None;
    }
    OneFirstPort(bound, port);
    var names: seq<string> := [];
    var ips: seq<IP> := [];
    for k := 0 to |interfaces|
      invariant names == NamesFor(bound, port, interfaces[..k]) && ips == IpsFor(bound, port, interfaces[..k])
    {
      assert interfaces[..k + 1][..k] == interfaces[..k];
      var candidate := interfaces[k];
      if !Eligible(candidate) {
        continue;
      }
      var found := FoundOn(bound, port, wildcard, explicit, candidate.nets);
      if found == [] {
        continue;
      }
      names := names + [candidate.name];
      ips := ips + found;
    }
    assert interfaces[..|interfaces|] == interfaces;
    if names == [] {
      return None;
    }
    return Some(Target(names, ips, port));
  }

  /** The inner loop: the addresses of one interface. */
  method FoundOn(ghost bound: seq<Bound>, ghost port: int, wildcard: bool, explicit: set<IP>, nets: seq<Net>)
      returns (found: seq<IP>)
    requires wildcard == Everywhere(bound, port)
    requires forall ip :: ip in explicit <==> Explicitly(bound, port, ip)
    ensures found == AnnouncedOn(bound, port, nets)
  {
    hide LinkLocalOrPrivate, ZonedLinkLocal, Everywhere, Explicitly;
    found := [];
    for k := 0 to |nets|
      invariant found == AnnouncedOn(bound, port, nets[..k])
    {
      assert nets[..k + 1][..k] == nets[..k];
      var ip := nets[k].ip;
      if !LinkLocalOrPrivate(ip) {
        continue;
      }
      if !wildcard && ip !in explicit {
        continue;
      }
      if ZonedLinkLocal(ip) && !wildcard {
        continue;
      }
      found := found + [ip];
    }
    assert nets[..|nets|] == nets;
  }

  lemma BoundOneMore(bound: seq<Bound>, k: nat, port: int)
    requires k < |bound|
    ensures IsFirstPort(bound[..k], port) ==> IsFirstPort(bound[..k + 1], port)
    ensures (forall j :: 0 <= j < k ==> !Valid(bound[j])) && OnPort(bound[k], port) ==> IsFirstPort(bound[..k + 1], port)
    ensures Everywhere(bound[..k + 1], port) <==>
              Everywhere(bound[..k], port) || (OnPort(bound[k], port) && AnyHost(bound[k].host))
    ensures forall ip :: Explicitly(bound[..k + 1], port, ip) <==>
              Explicitly(bound[..k], port, ip)
              || (OnPort(bound[k], port) && !AnyHost(bound[k].host) && bound[k].host == Numeric(ip))
  {
    hide AnyHost;
    var less, more := bound[..k], bound[..k + 1];
    assert forall j :: 0 <= j < k ==> less[j] == more[j];
    assert more[k] == bound[k];
    if i :| 0 <= i < k && Valid(less[i]) && less[i].port.value == port && forall j :: 0 <= j < i ==> !Valid(less[j]) {
      assert Valid(more[i]);
    }
    if i :| 0 <= i < k && OnPort(less[i], port) && AnyHost(less[i].host) {
      assert OnPort(more[i], port);
    }
    forall ip | Explicitly(less, port, ip)
      ensures Explicitly(more, port, ip)
    {
      var i :| 0 <= i < k && OnPort(less[i], port) && !AnyHost(less[i].host) && less[i].host == Numeric(ip);
      assert OnPort(more[i], port);
    }
  }

  lemma NothingOnPort(bound: seq<Bound>, port: int)
    ensures (forall j :: 0 <= j < |bound| ==> !Valid(bound[j])) ==>
              !Everywhere(bound, port) && forall ip :: !Explicitly(bound, port, ip)
    ensures !Everywhere(bound, 0) && forall ip :: !Explicitly(bound, 0, ip)
  {
  }

  lemma OneFirstPort(bound: seq<Bound>, port: int)
    requires IsFirstPort(bound, port)
    ensures forall other :: IsFirstPort(bound, other) ==> other == port
  {
  }

  /** Exactly the addresses of eligible interfaces that the listener is reached at. */
  lemma {:induction false} AnnouncesExactly(bound: seq<Bound>, port: int, interfaces: seq<Iface>, ip: IP)
    ensures ip in IpsFor(bound, port, interfaces) <==>
              exists k :: 0 <= k < |interfaces| && AnnouncedVia(bound, port, interfaces[k], ip)
  {
    hide Reaches, Eligible;
    if interfaces != [] {
      var n := |interfaces| - 1;
      AnnouncesExactly(bound, port, interfaces[..n], ip);
      assert forall k :: 0 <= k < n ==> interfaces[..n][k] == interfaces[k];
    }
  }

  /** An interface is named exactly when it gave an address. */
  /** A listening address that stands for every address of the machine. */
  predicate IsWildcard(b: Bound, port: int) {
    0 < port <= 65535 && (b == Split(NoHost, Some(port)) || b == Split(Numeric(V4(0)), Some(port))
                          || b == Split(Numeric(V6(0)), Some(port)))
  }

  /** The same, from what was bound: a wildcard on the port announces every local address of an
      eligible interface, a bound address itself, if it is local and no zoned one. */
  lemma AnnouncesWhatIsBound(bound: seq<Bound>, port: int, interfaces: seq<Iface>, ip: IP)
    ensures ip in IpsFor(bound, port, interfaces) <==>
              && (exists i, net :: i in interfaces && Eligible(i) && net in i.nets && net.ip == ip)
              && LinkLocalOrPrivate(ip)
              && ((exists b :: b in bound && IsWildcard(b, port))
                  || (0 < port <= 65535 && Split(Numeric(ip), Some(port)) in bound && !ZonedLinkLocal(ip)
                      && ip != V4(0) && ip != V6(0)))
  {
    AnnouncesExactly(bound, port, interfaces, ip);
    EverywhereIff(bound, port);
    ExplicitlyIff(bound, port, ip);
    hide Eligible, LinkLocalOrPrivate, ZonedLinkLocal, Everywhere, Explicitly, IsWildcard;
    if k :| 0 <= k < |interfaces| && AnnouncedVia(bound, port, interfaces[k], ip) {
      var m :| 0 <= m < |interfaces[k].nets| && interfaces[k].nets[m].ip == ip;
      assert interfaces[k] in interfaces && interfaces[k].nets[m] in interfaces[k].nets;
    }
    if i, net :| i in interfaces && Eligible(i) && net in i.nets && net.ip == ip && Reaches(bound, port, ip) {
      var k :| 0 <= k < |interfaces| && interfaces[k] == i;
      var m :| 0 <= m < |i.nets| && i.nets[m] == net;
      assert AnnouncedVia(bound, port, interfaces[k], ip);
    }
  }

  lemma EverywhereIff(bound: seq<Bound>, port: int)
    ensures Everywhere(bound, port) <==> exists b :: b in bound && IsWildcard(b, port)
  {
    if i :| 0 <= i < |bound| && OnPort(bound[i], port) && AnyHost(bound[i].host) {
      assert bound[i] in bound && IsWildcard(bound[i], port);
    }
    if b :| b in bound && IsWildcard(b, port) {
      var i :| 0 <= i < |bound| && bound[i] == b;
      assert OnPort(bound[i], port) && AnyHost(bound[i].host);
    }
  }

  lemma ExplicitlyIff(bound: seq<Bound>, port: int, ip: IP)
    ensures Explicitly(bound, port, ip) <==>
              0 < port <= 65535 && Split(Numeric(ip), Some(port)) in bound && ip != V4(0) && ip != V6(0)
  {
    if i :| 0 <= i < |bound| && OnPort(bound[i], port) && !AnyHost(bound[i].host) && bound[i].host == Numeric(ip) {
      assert bound[i] == Split(Numeric(ip), Some(port));
    }
    if 0 < port <= 65535 && Split(Numeric(ip), Some(port)) in bound && ip != V4(0) && ip != V6(0) {
      var i :| 0 <= i < |bound| && bound[i] == Split(Numeric(ip), Some(port));
      assert OnPort(bound[i], port) && !AnyHost(bound[i].host);
    }
  }

  /** An interface is named exactly when it gives an address. */
  lemma {:induction false} NamesExactly(bound: seq<Bound>, port: int, interfaces: seq<Iface>, name: string)
    ensures name in NamesFor(bound, port, interfaces) <==>
              exists k :: 0 <= k < |interfaces| && interfaces[k].name == name && GivesSome(bound, port, interfaces[k])
  {
    hide Reaches, Eligible, GivesSome;
    if interfaces != [] {
      var n := |interfaces| - 1;
      NamesExactly(bound, port, interfaces[..n], name);
      assert forall k :: 0 <= k < n ==> interfaces[..n][k] == interfaces[k];
      GivesSomeExactly(bound, port, interfaces[n]);
    }
  }

  ghost predicate GivesSome(bound: seq<Bound>, port: int, i: Iface) {
    exists ip :: AnnouncedVia(bound, port, i, ip)
  }

  lemma GivesSomeExactly(bound: seq<Bound>, port: int, i: Iface)
    ensures GivesSome(bound, port, i) <==> Eligible(i) && AnnouncedOn(bound, port, i.nets) != []
  {
    hide Reaches, Eligible;
    var found := AnnouncedOn(bound, port, i.nets);
    if ip :| AnnouncedVia(bound, port, i, ip) {
      assert ip in found;
    }
    if found != [] && Eligible(i) {
      assert found[0] in found;
      assert AnnouncedVia(bound, port, i, found[0]);
    }
  }

  // ----- what to dial

  /** The address with its zone, if it needs one, and the port. */
  datatype Dial = Dial(ip: IP, zone: Option<string>, port: int)

  predicate InSubnet(ip: IP, nets: seq<Net>) {
    exists k :: 0 <= k < |nets| && nets[k].Contains(ip)
  }

  predicate Usable(ip: IP, heardOn: Iface) {
    LinkLocalOrPrivate(ip) && (ZonedLinkLocal(ip) || InSubnet(ip, heardOn.nets))
  }

  function OfFamily(ips: seq<IP>, v4: bool): seq<IP> {
    if ips == [] then []
    else if ips[0].V4? == v4 then [ips[0]] + OfFamily(ips[1..], v4)
    else OfFamily(ips[1..], v4)
  }

  lemma {:induction false} InFamily(ips: seq<IP>, v4: bool, ip: IP)
    ensures ip in OfFamily(ips, v4) <==> ip in ips && ip.V4? == v4
  {
    if ips != [] {
      InFamily(ips[1..], v4, ip);
      assert ip in ips <==> ip == ips[0] || ip in ips[1..];
    }
  }

  /** Sorted by family, otherwise in the order they came. */
  function V4First(ips: seq<IP>): seq<IP> {
    OfFamily(ips, true) + OfFamily(ips, false)
  }

  /** The i-th address is the one wanted: usable, none of its family before it is, and if it
      is not IPv4 then no IPv4 address is. */
  predicate FirstUsable(ips: seq<IP>, i: nat, heardOn: Iface)
    requires i < |ips|
  {
    && Usable(ips[i], heardOn)
    && (forall j :: 0 <= j < i && ips[j].V4? == ips[i].V4? ==> !Usable(ips[j], heardOn))
    && (ips[i].V6? ==> forall j :: 0 <= j < |ips| && ips[j].V4? ==> !Usable(ips[j], heardOn))
  }

  lemma {:induction false} FirstOfFamily(ips: seq<IP>, v4: bool, k: nat, heardOn: Iface) returns (i: nat)
    requires k < |OfFamily(ips, v4)| && Usable(OfFamily(ips, v4)[k], heardOn)
    requires forall j :: 0 <= j < k ==> !Usable(OfFamily(ips, v4)[j], heardOn)
    ensures i < |ips| && ips[i] == OfFamily(ips, v4)[k]
    ensures forall j :: 0 <= j < i && ips[j].V4? == v4 ==> !Usable(ips[j], heardOn)
  {
    hide Usable;
    var mine := ips[0].V4? == v4;
    var all, rest := OfFamily(ips, v4), OfFamily(ips[1..], v4);
    if mine {
      assert all == [ips[0]] + rest;
      hide OfFamily;
      if k == 0 {
        return 0;
      }
      forall j | 0 <= j < k - 1
        ensures rest[j] == all[j + 1]
      {
      }
    }
    var m := FirstOfFamily(ips[1..], v4, if mine then k - 1 else k, heardOn);
    forall j | 0 <= j < m + 1 && ips[j].V4? == v4
      ensures !Usable(ips[j], heardOn)
    {
      assert if j == 0 then ips[j] == all[0] else ips[j] == ips[1..][j - 1];
    }
    return m + 1;
  }

  /** What is picked: nothing without a port or a usable address, and else the first usable
      one, with the interface it was heard on as its zone if it needs one. */
  ghost predicate IsPick(ips: seq<IP>, port: int, heardOn: Iface, r: Option<Dial>) {
    match r
    case None => !(0 < port <= 65535) || forall i :: 0 <= i < |ips| ==> !Usable(ips[i], heardOn)
    case Some(dial) =>
      && 0 < port <= 65535 && dial.port == port
      && dial.zone == (if ZonedLinkLocal(dial.ip) then Some(heardOn.name) else None)
      && exists i :: 0 <= i < |ips| && FirstUsable(ips, i, heardOn) && dial.ip == ips[i]
  }

  method PickAddress(ips: seq<IP>, port: int, heardOn: Iface) returns (r: Option<Dial>)
    ensures IsPick(ips, port, heardOn, r)
  {
    hide LinkLocalOrPrivate, ZonedLinkLocal, InSubnet;
    if port <= 0 || port > 65535 {
      return None;
    }
    var ordered := V4First(ips);
    for k := 0 to |ordered|
      invariant forall j :: 0 <= j < k ==> !Usable(ordered[j], heardOn)
    {
      var ip := ordered[k];
      if !LinkLocalOrPrivate(ip) {
        continue;
      }
      if ZonedLinkLocal(ip) {
        FirstInOrder(ips, k, heardOn);
        return Some(Dial(ip, Some(heardOn.name), port));
      }
      if InSubnet(ip, heardOn.nets) {
        FirstInOrder(ips, k, heardOn);
        return Some(Dial(ip, None, port));
      }
    }
    NoneInOrder(ips, heardOn);
    return None;
  }

  lemma FirstInOrder(ips: seq<IP>, k: nat, heardOn: Iface)
    requires k < |V4First(ips)| && Usable(V4First(ips)[k], heardOn)
    requires forall j :: 0 <= j < k ==> !Usable(V4First(ips)[j], heardOn)
    ensures exists i :: 0 <= i < |ips| && FirstUsable(ips, i, heardOn) && V4First(ips)[k] == ips[i]
  {
    hide Usable, OfFamily;
    var ordered, four, six := V4First(ips), OfFamily(ips, true), OfFamily(ips, false);
    if k < |four| {
      assert forall j :: 0 <= j <= k ==> ordered[j] == four[j];
      InFamily(ips, true, four[k]);
      var i := FirstOfFamily(ips, true, k, heardOn);
      assert FirstUsable(ips, i, heardOn);
    } else {
      assert forall j :: 0 <= j <= k - |four| ==> ordered[|four| + j] == six[j];
      InFamily(ips, false, six[k - |four|]);
      var i := FirstOfFamily(ips, false, k - |four|, heardOn);
      NoneOfFour(ips, heardOn);
      assert FirstUsable(ips, i, heardOn);
    }
  }

  lemma NoneOfFour(ips: seq<IP>, heardOn: Iface)
    requires var four := OfFamily(ips, true);
             forall j :: 0 <= j < |four| ==> !Usable(V4First(ips)[j], heardOn)
    ensures forall j :: 0 <= j < |ips| && ips[j].V4? ==> !Usable(ips[j], heardOn)
  {
    hide Usable, OfFamily;
    var four := OfFamily(ips, true);
    forall j | 0 <= j < |ips| && ips[j].V4?
      ensures !Usable(ips[j], heardOn)
    {
      InFamily(ips, true, ips[j]);
      var m :| 0 <= m < |four| && four[m] == ips[j];
      assert V4First(ips)[m] == four[m];
    }
  }

  lemma NoneInOrder(ips: seq<IP>, heardOn: Iface)
    requires forall j :: 0 <= j < |V4First(ips)| ==> !Usable(V4First(ips)[j], heardOn)
    ensures forall i :: 0 <= i < |ips| ==> !Usable(ips[i], heardOn)
  {
    hide Usable;
    forall i | 0 <= i < |ips|
      ensures !Usable(ips[i], heardOn)
    {
      InFamily(ips, ips[i].V4?, ips[i]);
      assert ips[i] in V4First(ips);
    }
  }

  /** There is one target and one pick. */
  lemma OnlyOneAnswer(bound: seq<Bound>, interfaces: seq<Iface>, t: Option<Target>, u: Option<Target>,
                      ips: seq<IP>, port: int, heardOn: Iface, r: Option<Dial>, q: Option<Dial>)
    ensures IsTarget(bound, interfaces, t) && IsTarget(bound, interfaces, u) ==> t == u
    ensures IsPick(ips, port, heardOn, r) && IsPick(ips, port, heardOn, q) ==> r == q
  {
    hide Usable, Valid, NamesFor, IpsFor;
    if r.Some? && q.Some? && IsPick(ips, port, heardOn, r) && IsPick(ips, port, heardOn, q) {
      var i :| 0 <= i < |ips| && FirstUsable(ips, i, heardOn) && r.value.ip == ips[i];
      var j :| 0 <= j < |ips| && FirstUsable(ips, j, heardOn) && q.value.ip == ips[j];
    }
    if t.Some? && IsTarget(bound, interfaces, t) {
      OneFirstPort(bound, t.value.port);
    }
  }

  // ----- from the one machine to the other

  /** Of announced addresses the browser can use exactly those it has a subnet for and the
      zoned ones, so it finds one to dial unless there is none; and whatever it dials was
      announced, belongs to the link, and is never a tailnet or loopback address. */
  lemma DialsWhatWasAnnounced(bound: seq<Bound>, interfaces: seq<Iface>, t: Target, heardOn: Iface, r: Option<Dial>)
    requires IsTarget(bound, interfaces, Some(t)) && IsPick(t.ips, t.port, heardOn, r)
    ensures r == None <==> forall ip :: ip in t.ips ==> !ZonedLinkLocal(ip) && !InSubnet(ip, heardOn.nets)
    ensures r.Some? ==>
              && r.value.port == t.port
              && (exists k :: 0 <= k < |interfaces| && AnnouncedVia(bound, t.port, interfaces[k], r.value.ip))
              && (ZonedLinkLocal(r.value.ip) || InSubnet(r.value.ip, heardOn.nets))
              && !Within(TAILNET, r.value.ip) && !Within(LOOPBACK, r.value.ip)
  {
    hide Within, ZonedLinkLocal, InSubnet, Everywhere, Explicitly, Eligible;
    forall ip | ip in t.ips
      ensures exists k :: 0 <= k < |interfaces| && AnnouncedVia(bound, t.port, interfaces[k], ip)
    {
      AnnouncesExactly(bound, t.port, interfaces, ip);
    }
    assert forall ip :: ip in t.ips ==> LinkLocalOrPrivate(ip);
    if r == None {
      forall ip | ip in t.ips
        ensures !ZonedLinkLocal(ip) && !InSubnet(ip, heardOn.nets)
      {
        var i :| 0 <= i < |t.ips| && t.ips[i] == ip;
      }
    } else {
      var i :| 0 <= i < |t.ips| && FirstUsable(t.ips, i, heardOn) && r.value.ip == t.ips[i];
      assert t.ips[i] in t.ips;
    }
  }
}
