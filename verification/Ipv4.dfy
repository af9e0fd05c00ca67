/**
 Netmasks, networks, and the addresses a host may have, as the module's page
 checks them with Python's `ipaddress`. The rules are stated a second time in
 the terms of RFC 4632, section 3.1 (the addresses that share their first `p`
 bits), and the two are proved to agree.
 */
module Ipv4 {
  import opened Wrappers
  import opened Bits

  const ADDRESS_BITS: nat := 32

  type Address = a: nat | a < 0x1_0000_0000 witness 0

  const UNSET: Address := 0

  // ------------------------------------------------------- host addresses

  /** Outside the blocks that RFC 1122, section 3.2.1.3, keeps from hosts. */
  predicate IsHostAddress(a: Address) {
    var first := a / 0x100_0000;
    && first != 0                      // "this network"
    && first != 127                    // loopback
    && !(224 <= first < 240)           // multicast
    && a / 0x1_0000 != 0xA9FE          // link-local, 169.254.0.0/16
    && first < 240                     // reserved
  }

  // ------------------------------------------------------------- netmasks

  lemma AddressCount()
    ensures Pow2(32) == 0x1_0000_0000
  {
    assert Pow2(8) == 256;
    Pow2Add(8, 8);
    Pow2Add(16, 16);
  }

  /** The netmask of a prefix of `p` bits. */
  function Mask(p: nat): Address
    requires p <= ADDRESS_BITS
  {
    AddressCount();
    Ones(p, ADDRESS_BITS)
  }

  /** Reads a netmask: ones followed by zeros, or nothing. */
  function PrefixOf(mask: Address): Option<nat> {
    var zeros := if mask == 0 then 32 else TrailingZeros(mask);
    if zeros > 32 then None
    else
      var prefix := 32 - zeros;
      if mask / Pow2(zeros) == Pow2(prefix) - 1 then Some(prefix) else None
  }

  lemma ReadIsMask(mask: Address, p: nat)
    requires PrefixOf(mask) == Some(p)
    ensures p <= 32 && mask == Mask(p)
  {
    AddressCount();
    PowZero();
    if mask > 0 {
      TrailingZerosDivide(mask);
      hide Pow2, TrailingZeros;
      OnesOfTrailingZeros(mask, 32 - p, 32);
    }
  }

  lemma MaskIsRead(p: nat)
    requires p <= 32
    ensures PrefixOf(Mask(p)) == Some(p)
  {
    AddressCount();
    PowZero();
    hide Pow2, TrailingZeros;
    if p > 0 {
      MaskDivides(p);
    }
  }

  lemma MaskDivides(p: nat)
    requires 0 < p <= 32
    ensures Mask(p) > 0 && TrailingZeros(Mask(p)) == 32 - p && Mask(p) / Pow2(32 - p) == Pow2(p) - 1
  {
    TrailingZerosOfOnes(p, 32);
    hide Pow2, TrailingZeros, Ones;
    DivModUnique(Mask(p), Pow2(32 - p), Pow2(p) - 1, 0);
  }

  /** A mask is read as prefix `p` exactly when it is that prefix's netmask. */
  lemma PrefixOfExact(mask: Address, p: nat)
    ensures PrefixOf(mask) == Some(p) <==> p <= 32 && mask == Mask(p)
  {
    if PrefixOf(mask) == Some(p) {
      ReadIsMask(mask, p);
    }
    if p <= 32 {
      MaskIsRead(p);
    }
  }

  /** Reads a netmask or, failing that, a host mask (zeros followed by ones). */
  function PrefixOfEither(mask: Address): Option<nat> {
    match PrefixOf(mask)
    case Some(p) => Some(p)
    case None => PrefixOf(0xFFFF_FFFF - mask)
  }

  // What leaves a host an address besides the network's two edges.
  const PREFIX_MIN: nat := 1
  const PREFIX_MAX: nat := 30

  /** The prefix length the page takes a netmask for, if any: the reading above
      takes host masks too, the page only the canonical form, as typed. */
  function Interface(mask: Address): Option<nat> {
    match PrefixOfEither(mask)
    case Some(p) => if p <= 32 && Mask(p) == mask && PREFIX_MIN <= p <= PREFIX_MAX then Some(p) else None
    case None => None
  }

  /** Exactly the 30 netmasks of /1 to /30 pass, and none as another prefix. */
  lemma InterfaceExact(mask: Address, p: nat)
    ensures Interface(mask) == Some(p) <==> IsMask(mask, p)
  {
    PrefixOfExact(mask, p);
    AddressCount();
  }

  // ------------------------------------------------------------- networks

  function NetworkAddress(host: Address, p: nat): nat
    requires p <= 32
  {
    And(host, Mask(p), 32)
  }

  function BroadcastAddress(host: Address, p: nat): nat
    requires p <= 32
  {
    Or(NetworkAddress(host, p), Pow2(32 - p) - 1, 32)
  }

  predicate IsEdge(a: Address, host: Address, p: nat)
    requires p <= 32
  {
    a == NetworkAddress(host, p) || a == BroadcastAddress(host, p)
  }

  predicate InNetwork(a: Address, host: Address, p: nat)
    requires p <= 32
  {
    And(a, Mask(p), 32) == NetworkAddress(host, p)
  }

  /** The blocks by their prefixes: 0.0.0.0/8, 127.0.0.0/8, 224.0.0.0/4,
      169.254.0.0/16 and 240.0.0.0/4. */
  lemma HostAddressExact(a: Address)
    ensures IsHostAddress(a) <==>
            && !InNetwork(a, 0x0000_0000, 8) && !InNetwork(a, 0x7F00_0000, 8) && !InNetwork(a, 0xE000_0000, 4)
            && !InNetwork(a, 0xA9FE_0000, 16) && !InNetwork(a, 0xF000_0000, 4)
  {
    PrefixSizes();
    hide And, Mask, Pow2, InNetwork;
    InNetworkIsShared(a, 0x0000_0000, 8);
    InNetworkIsShared(a, 0x7F00_0000, 8);
    InNetworkIsShared(a, 0xE000_0000, 4);
    InNetworkIsShared(a, 0xA9FE_0000, 16);
    InNetworkIsShared(a, 0xF000_0000, 4);
  }

  lemma PrefixSizes()
    ensures Pow2(32 - 8) == 0x100_0000 && Pow2(32 - 4) == 0x1000_0000 && Pow2(32 - 16) == 0x1_0000
  {
    assert Pow2(8) == 256 && Pow2(4) == 16;
    Pow2Add(8, 8);
    Pow2Add(16, 8);
    Pow2Add(24, 4);
  }

  datatype NetworkError = InvalidNetmask | InvalidAddress | GatewayOutsideNetwork

  /** What is wrong with a fixed address in its network, if anything. */
  function CheckNetwork(host: Address, mask: Address, gateway: Address): Option<NetworkError> {
    match Interface(mask)
    case None => Some(InvalidNetmask)
    case Some(p) =>
      if p > 32 then Some(InvalidNetmask)
      else if !IsHostAddress(host) || IsEdge(host, host, p) then Some(InvalidAddress)
      else if gateway == UNSET then None
      else
        var usable := IsHostAddress(gateway) && !IsEdge(gateway, host, p);
        if !usable || !InNetwork(gateway, host, p) || gateway == host then Some(GatewayOutsideNetwork) else None
  }

  /** `a` is an address a host can have in the network that shares the first
      `p` bits of `host` (RFC 4632, section 3.1), other than its first and its
      last. */
  ghost predicate UsableIn(a: Address, host: Address, p: nat)
    requires p <= 32
  {
    var size := Pow2(32 - p);
    IsHostAddress(a) && a / size == host / size && 0 < a % size < size - 1
  }

  ghost predicate IsMask(mask: Address, p: nat) {
    1 <= p <= 30 && mask == 0x1_0000_0000 - Pow2(32 - p)
  }

  /** One of the 30 netmasks that leave a host an address. */
  ghost predicate UsableMask(mask: Address) {
    exists p: nat :: IsMask(mask, p)
  }

  /** A fixed address, netmask and gateway that can work together. */
  ghost predicate GoodNetwork(host: Address, mask: Address, gateway: Address) {
    exists p: nat :: IsMask(mask, p) && GoodIn(host, gateway, p)
  }

  ghost predicate GoodIn(host: Address, gateway: Address, p: nat)
    requires p <= 32
  {
    UsableIn(host, host, p) && (gateway != UNSET ==> gateway != host && UsableIn(gateway, host, p))
  }

  lemma NetworkAddressIsFirst(host: Address, p: nat)
    requires p <= 32
    ensures NetworkAddress(host, p) == Pow2(32 - p) * (host / Pow2(32 - p))
  {
    AddressCount();
    AndOnes(host, p, 32);
    FloorMultiple(host, Pow2(32 - p));
  }

  lemma BroadcastAddressIsLast(host: Address, p: nat)
    requires p <= 32
    ensures BroadcastAddress(host, p) == Pow2(32 - p) * (host / Pow2(32 - p)) + (Pow2(32 - p) - 1)
  {
    hide And, Or, Pow2;
    var size := Pow2(32 - p);
    var net := NetworkAddress(host, p);
    NetworkAddressIsFirst(host, p);
    AddressCount();
    AndOnes(host, p, 32);
    DivModUnique(net, size, host / size, 0);
    OrOnes(net, 32 - p, 32);
  }

  lemma InNetworkIsShared(a: Address, host: Address, p: nat)
    requires p <= 32
    ensures InNetwork(a, host, p) <==> a / Pow2(32 - p) == host / Pow2(32 - p)
  {
    hide And, Pow2;
    var size := Pow2(32 - p);
    NetworkAddressIsFirst(a, p);
    NetworkAddressIsFirst(host, p);
    if InNetwork(a, host, p) {
      DivModUnique(size * (a / size), size, a / size, 0);
      DivModUnique(size * (host / size), size, host / size, 0);
    }
  }

  /** The edges of a network are the first and the last address of the block
      that shares its prefix. */
  lemma EdgeIsEnd(a: Address, host: Address, p: nat)
    requires p <= 32 && a / Pow2(32 - p) == host / Pow2(32 - p)
    ensures IsEdge(a, host, p) <==> !(0 < a % Pow2(32 - p) < Pow2(32 - p) - 1)
  {
    FloorMultiple(a, Pow2(32 - p));
    NetworkAddressIsFirst(host, p);
    BroadcastAddressIsLast(host, p);
  }

  lemma MaskDecidesPrefix(p: nat, q: nat)
    requires p <= 32 && q <= 32 && Pow2(32 - p) == Pow2(32 - q)
    ensures p == q
  {
    if p < q {
      Pow2Increasing(32 - q, 32 - p);
    } else if q < p {
      Pow2Increasing(32 - p, 32 - q);
    }
  }

  lemma InterfaceAccepts(mask: Address)
    ensures Interface(mask).Some? <==> UsableMask(mask)
    ensures Interface(mask).Some? ==>
              IsMask(mask, Interface(mask).value)
  {
    match Interface(mask) {
      case Some(p) => InterfaceExact(mask, p);
      case None =>
        if UsableMask(mask) {
          var p: nat :| IsMask(mask, p);
          InterfaceExact(mask, p);
        }
    }
  }

  /** The check accepts exactly the fixed settings that can work, and each
      refusal names what is wrong. */
  lemma CheckNetworkExact(host: Address, mask: Address, gateway: Address)
    ensures CheckNetwork(host, mask, gateway) == None <==> GoodNetwork(host, mask, gateway)
    ensures CheckNetwork(host, mask, gateway) == Some(InvalidNetmask) <==> !UsableMask(mask)
    ensures CheckNetwork(host, mask, gateway) == Some(InvalidAddress) <==>
              UsableMask(mask) && !GoodNetwork(host, mask, UNSET)
  {
    InterfaceAccepts(mask);
    if Interface(mask).Some? {
      var p := Interface(mask).value;
      forall q: nat | IsMask(mask, q) ensures q == p {
        MaskDecidesPrefix(p, q);
      }
      EdgeIsEnd(host, host, p);
      InNetworkIsShared(gateway, host, p);
      if InNetwork(gateway, host, p) {
        EdgeIsEnd(gateway, host, p);
      }
      assert GoodNetwork(host, mask, gateway) <==> GoodIn(host, gateway, p);
      assert GoodNetwork(host, mask, UNSET) <==> GoodIn(host, UNSET, p);
    }
  }
}
