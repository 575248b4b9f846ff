/**
  The ns-3 IPv4 value types the ingress filter and the attack generator work on:
  32-bit addresses and masks, interface addresses, the IPv4 header, and packets
  as a stack of headers in front of a payload.
 */
module Ipv4 {
  import opened Wrappers

  type uint8 = x: int | 0 <= x < 0x100
  type uint16 = x: int | 0 <= x < 0x1_0000
  type uint32 = x: int | 0 <= x < 0x1_0000_0000

  /** An IPv4 address as ns-3 stores it: one 32-bit word, first octet most significant. */
  type Addr = bv32

  /** A subnet mask, also one 32-bit word. */
  type Mask = bv32

  /** The address written a.b.c.d in dotted-quad notation. */
  function Dotted(a: bv8, b: bv8, c: bv8, d: bv8): (r: Addr)
    ensures Octet(r, 0) == a && Octet(r, 1) == b && Octet(r, 2) == c && Octet(r, 3) == d
  {
    (a as bv32 << 24) | (b as bv32 << 16) | (c as bv32 << 8) | d as bv32
  }

  /** Octet i of an address, counting from the most significant one. */
  function Octet(x: Addr, i: nat): bv8
    requires i < 4
  {
    if i == 0 then (x >> 24) as bv8
    else if i == 1 then ((x >> 16) & 0xFF) as bv8
    else if i == 2 then ((x >> 8) & 0xFF) as bv8
    else (x & 0xFF) as bv8
  }

  /** An address is determined by its four octets, so Dotted inverts Octet. */
  lemma DottedOfOctets(x: Addr)
    ensures Dotted(Octet(x, 0), Octet(x, 1), Octet(x, 2), Octet(x, 3)) == x
  {
  }

  /**
    Ipv4Address::CombineMask: the network part of an address. The result keeps
    exactly the bits of `a` that the mask selects and clears every host bit.
   */
  function CombineMask(a: Addr, m: Mask): (r: Addr)
    ensures r & !m == 0
    ensures (r ^ a) & m == 0
  {
    a & m
  }

  /** The two clauses of CombineMask's contract determine its result. */
  lemma CombineMaskUnique(a: Addr, m: Mask, r: Addr)
    requires r & !m == 0 && (r ^ a) & m == 0
    ensures r == CombineMask(a, m)
  {
  }

  /** Ipv4InterfaceAddress: the local address of an interface and its subnet mask. */
  datatype InterfaceAddress = InterfaceAddress(local: Addr, mask: Mask)

  /** The subnet an interface sits on, as the filter computes it. */
  function InterfaceSubnet(ifAddr: InterfaceAddress): (r: Addr)
    ensures r & !ifAddr.mask == 0
  {
    CombineMask(ifAddr.local, ifAddr.mask)
  }

  /** `a` lies on the subnet of interface address `ifAddr`. */
  predicate InSubnet(a: Addr, ifAddr: InterfaceAddress)
  {
    CombineMask(a, ifAddr.mask) == InterfaceSubnet(ifAddr)
  }

  /** The fields of an ns-3 Ipv4Header that the core reads or sets. */
  datatype Ipv4Header = Ipv4Header(
    source: Addr,
    destination: Addr,
    protocol: uint8,
    payloadSize: uint16,
    ttl: uint8)

  /** Bytes an option-less IPv4 header occupies on the wire (RFC 791, section 3.1). */
  const Ipv4HeaderSize: nat := 20

  /** A header in a packet: an IPv4 header, or bytes that do not read as one. */
  datatype Header = Ip(ip: Ipv4Header) | Foreign(size: nat)

  /** An ns-3 packet: its headers, outermost first, in front of `payloadSize` bytes. */
  datatype Packet = Packet(headers: seq<Header>, payloadSize: nat)

  function HeaderSize(h: Header): nat
  {
    match h
    case Ip(_) => Ipv4HeaderSize
    case Foreign(n) => n
  }

  function HeadersSize(hs: seq<Header>): nat
  {
    if hs == [] then 0 else HeaderSize(hs[0]) + HeadersSize(hs[1..])
  }

  /** Packet::GetSize: every header byte plus the payload. */
  function Size(p: Packet): nat
  {
    HeadersSize(p.headers) + p.payloadSize
  }

  /** Create<Packet> (n): a packet of n payload bytes and no header. */
  function CreatePacket(n: nat): (p: Packet)
    ensures Size(p) == n
    ensures PeekHeader(p) == None
  {
    Packet([], n)
  }

  /**
    Packet::AddHeader: pushes an IPv4 header in front. The header is then the one
    PeekHeader reads back, the packet grows by one header, and the headers and
    payload behind it are kept.
   */
  function AddHeader(p: Packet, h: Ipv4Header): (r: Packet)
    ensures PeekHeader(r) == Some(h)
    ensures Size(r) == Size(p) + Ipv4HeaderSize
    ensures r.headers[1..] == p.headers && r.payloadSize == p.payloadSize
  {
    Packet([Ip(h)] + p.headers, p.payloadSize)
  }

  /**
    Packet::PeekHeader for an Ipv4Header: the outermost header when it reads as
    IPv4, and no header otherwise (a packet with no header, or one whose leading
    bytes are something else). The packet itself is not changed.
   */
  function PeekHeader(p: Packet): Option<Ipv4Header>
  {
    if p.headers != [] && p.headers[0].Ip? then Some(p.headers[0].ip) else None
  }
}
