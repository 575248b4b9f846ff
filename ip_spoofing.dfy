/**
  The detect-only ingress (source-address) filter that the router runs on every
  received IPv4 packet, and the spoofed packets the attacker sends through it.
  A packet arriving on the attacker-facing interface is reported when its source
  address does not lie on that interface's subnet, in the sense of ingress
  filtering as in section 3 of RFC 2827 (BCP 38). Nothing is ever dropped.
 */
module IpSpoofing {
  import opened Wrappers
  import opened Ipv4

  /** Simulator::Now (): virtual time in ns-3's time unit. */
  type Time = nat

  /** The router's interface facing the attacker (interface 0 is the loopback). */
  const AttackerInterface: uint32 := 1

  /** IANA protocol number of UDP. */
  const UdpProtocol: uint8 := 17

  /**
    What the filter reads of the router's Ipv4 object: the addresses configured
    on each interface, and the addresses the router accepts as its own
    (what Ipv4::IsDestinationAddress answers true for).
   */
  datatype Ipv4State = Ipv4State(
    interfaces: seq<seq<InterfaceAddress>>,
    destinations: set<Addr>)

  /** Ipv4::GetAddress (i, j) is defined: interface i exists and has an address j. */
  predicate HasAddress(ipv4: Ipv4State, i: nat, j: nat)
  {
    i < |ipv4.interfaces| && j < |ipv4.interfaces[i]|
  }

  function GetAddress(ipv4: Ipv4State, i: nat, j: nat): InterfaceAddress
    requires HasAddress(ipv4, i, j)
  {
    ipv4.interfaces[i][j]
  }

  /** Ipv4::IsDestinationAddress (a, iif): the router treats `a` as one of its own addresses. */
  predicate IsDestinationAddress(ipv4: Ipv4State, a: Addr, iif: uint32)
  {
    a in ipv4.destinations
  }

  /**
    The router accepts every local address of each of its interfaces as its own
    (ns-3's IsDestinationAddress does so under its default weak end-system model).
   */
  predicate OwnsInterfaceAddresses(ipv4: Ipv4State)
  {
    forall i, j :: 0 <= i < |ipv4.interfaces| && 0 <= j < |ipv4.interfaces[i]| ==>
      ipv4.interfaces[i][j].local in ipv4.destinations
  }

  /** The filter's observation: nothing to report, or a detected spoofed source. */
  datatype Verdict = Clean | Flagged(time: Time, source: Addr, iface: uint32)

  /**
    The filter reaches the masked comparison: the packet came in on the
    attacker-facing interface, its IPv4 header can be peeked, it is UDP, and its
    source is not one of the router's own addresses.
   */
  predicate PassesGuards(ipv4: Ipv4State, packet: Packet, interface: uint32)
  {
    interface == AttackerInterface &&
    PeekHeader(packet).Some? &&
    PeekHeader(packet).value.protocol == UdpProtocol &&
    !IsDestinationAddress(ipv4, PeekHeader(packet).value.source, interface)
  }

  /**
    Ipv4::GetAddress (interface, 0) is defined whenever the filter calls it, that
    is, once the packet has passed the guards.
   */
  predicate CanInspect(ipv4: Ipv4State, packet: Packet, interface: uint32)
  {
    PassesGuards(ipv4, packet, interface) ==> HasAddress(ipv4, interface, 0)
  }

  /**
    A packet the filter must report, stated as the rule it enforces: it came in on
    the attacker-facing interface, carries a readable IPv4 header for UDP, its
    source is not one of the router's own addresses, and that source lies outside
    the subnet of the interface's first address.
   */
  predicate Spoofed(ipv4: Ipv4State, packet: Packet, interface: uint32)
    requires CanInspect(ipv4, packet, interface)
  {
    PassesGuards(ipv4, packet, interface) &&
    !InSubnet(PeekHeader(packet).value.source, GetAddress(ipv4, interface, 0))
  }

  /**
    IngressFilterRx: the router's receive hook. It looks at a copy of the packet's
    IPv4 header, applies its guards in order and reports a spoofed source, stamped
    with the current time, the source and the interface. It returns a verdict
    only; the received packet is left as it was.
   */
  function IngressFilterRx(ipv4: Ipv4State, packet: Packet, interface: uint32, now: Time): (v: Verdict)
    requires CanInspect(ipv4, packet, interface)
    ensures interface != AttackerInterface ==> v == Clean
    ensures PeekHeader(packet).None? ==> v == Clean
    ensures v.Flagged? ==> PeekHeader(packet).Some? && PeekHeader(packet).value.protocol == UdpProtocol
    ensures v.Flagged? ==> !IsDestinationAddress(ipv4, PeekHeader(packet).value.source, interface)
    ensures v.Flagged? ==> v == Flagged(now, PeekHeader(packet).value.source, AttackerInterface)
    ensures v.Flagged? <==> Spoofed(ipv4, packet, interface)
  {
    if interface != AttackerInterface then Clean
    else
      var p := packet;  // Packet::Copy: a value, so the received packet cannot change
      match PeekHeader(p)
      case None => Clean
      case Some(ip) =>
        if ip.protocol != UdpProtocol then Clean
        else
          var src := ip.source;
          if IsDestinationAddress(ipv4, src, interface) then Clean
          else
            var ifAddr := GetAddress(ipv4, interface, 0);
            var ifaceSubnet := CombineMask(ifAddr.local, ifAddr.mask);
            if CombineMask(src, ifAddr.mask) != ifaceSubnet then Flagged(now, src, interface)
            else Clean
  }

  /**
    Whatever addresses the router owns, a source equal to one of its interfaces'
    local addresses is never reported, even when that interface is on another subnet.
   */
  lemma RouterAddressNeverFlagged(ipv4: Ipv4State, packet: Packet, interface: uint32, now: Time, i: nat, j: nat)
    requires CanInspect(ipv4, packet, interface) && OwnsInterfaceAddresses(ipv4)
    requires HasAddress(ipv4, i, j)
    requires PeekHeader(packet).Some? && PeekHeader(packet).value.source == GetAddress(ipv4, i, j).local
    ensures IngressFilterRx(ipv4, packet, interface, now) == Clean
  {
  }

  /**
    A source equal to the ingress interface's own local address is never
    reported, whatever addresses the router treats as its own: that address is
    on the interface's subnet.
   */
  lemma IngressLocalSourceNeverFlagged(ipv4: Ipv4State, packet: Packet, now: Time)
    requires HasAddress(ipv4, AttackerInterface, 0)
    requires PeekHeader(packet).Some?
    requires PeekHeader(packet).value.source == GetAddress(ipv4, AttackerInterface, 0).local
    ensures IngressFilterRx(ipv4, packet, AttackerInterface, now) == Clean
  {
  }

  /**
    A packet that stops at one of the first guards (no IPv4 header to peek, or
    not UDP) is ignored even by a router with no address on interface 1: the
    interface's address is never asked for.
   */
  lemma IgnoredBeforeAddressLookup(ipv4: Ipv4State, packet: Packet, interface: uint32, now: Time)
    requires PeekHeader(packet).None? || PeekHeader(packet).value.protocol != UdpProtocol
    ensures CanInspect(ipv4, packet, interface)
    ensures IngressFilterRx(ipv4, packet, interface, now) == Clean
  {
  }

  /**
    The verdict depends on the header's protocol and source only: two packets that
    agree on those (whatever their destination, TTL, length or payload) are
    treated alike, at the same time and interface.
   */
  lemma VerdictDependsOnProtocolAndSource(ipv4: Ipv4State, p: Packet, q: Packet, interface: uint32, now: Time)
    requires CanInspect(ipv4, p, interface)
    requires PeekHeader(p).Some? && PeekHeader(q).Some?
    requires PeekHeader(p).value.protocol == PeekHeader(q).value.protocol
    requires PeekHeader(p).value.source == PeekHeader(q).value.source
    ensures IngressFilterRx(ipv4, p, interface, now) == IngressFilterRx(ipv4, q, interface, now)
  {
  }

  /**
    Two sources on the same subnet of the ingress interface, neither owned by the
    router, get the same decision: the host part of a source never matters.
   */
  lemma SameSubnetSameDecision(ipv4: Ipv4State, p: Packet, q: Packet, now: Time)
    requires HasAddress(ipv4, AttackerInterface, 0)
    requires PeekHeader(p).Some? && PeekHeader(q).Some?
    requires PeekHeader(p).value.protocol == PeekHeader(q).value.protocol
    requires !IsDestinationAddress(ipv4, PeekHeader(p).value.source, AttackerInterface)
    requires !IsDestinationAddress(ipv4, PeekHeader(q).value.source, AttackerInterface)
    requires CombineMask(PeekHeader(p).value.source, GetAddress(ipv4, AttackerInterface, 0).mask)
          == CombineMask(PeekHeader(q).value.source, GetAddress(ipv4, AttackerInterface, 0).mask)
    ensures IngressFilterRx(ipv4, p, AttackerInterface, now).Flagged?
        <==> IngressFilterRx(ipv4, q, AttackerInterface, now).Flagged?
  {
  }

  /**
    SendSpoofedPacket: the packet the attacker hands to its raw socket. A 512-byte
    payload behind one IPv4 header whose source is the forged address, whose
    destination is the victim, for UDP, with a 512-byte payload length and a TTL of 64.
   */
  function SendSpoofedPacket(spoofedSrc: Addr, dst: Addr): (pkt: Packet)
    ensures PeekHeader(pkt).Some?
    ensures PeekHeader(pkt).value.source == spoofedSrc
    ensures PeekHeader(pkt).value.destination == dst
    ensures PeekHeader(pkt).value.protocol == UdpProtocol
    ensures PeekHeader(pkt).value.ttl == 64
    ensures PeekHeader(pkt).value.payloadSize == pkt.payloadSize == 512
    ensures |pkt.headers| == 1
    ensures Size(pkt) == 512 + Ipv4HeaderSize
  {
    var payload := CreatePacket(512);
    var ip := Ipv4Header(
      source := spoofedSrc,
      destination := dst,
      protocol := UdpProtocol,
      payloadSize := 512,
      ttl := 64);
    AddHeader(payload, ip)
  }

  /**
    A spoofed packet from the attacker, arriving on the ingress interface, is
    reported exactly when its forged source is not the router's and lies off the
    interface's subnet; the report names the forged source.
   */
  lemma SpoofedPacketVerdict(ipv4: Ipv4State, spoofedSrc: Addr, dst: Addr, now: Time)
    requires CanInspect(ipv4, SendSpoofedPacket(spoofedSrc, dst), AttackerInterface)
    ensures IngressFilterRx(ipv4, SendSpoofedPacket(spoofedSrc, dst), AttackerInterface, now)
         == if !IsDestinationAddress(ipv4, spoofedSrc, AttackerInterface)
               && !InSubnet(spoofedSrc, GetAddress(ipv4, AttackerInterface, 0))
            then Flagged(now, spoofedSrc, AttackerInterface)
            else Clean
  {
  }

  /** One invocation of the router's "Rx" trace: when, what, on which interface. */
  datatype Arrival = Arrival(time: Time, packet: Packet, iface: uint32)

  function Inspect(ipv4: Ipv4State, a: Arrival): Verdict
    requires CanInspect(ipv4, a.packet, a.iface)
  {
    IngressFilterRx(ipv4, a.packet, a.iface, a.time)
  }

  predicate CanInspectAll(ipv4: Ipv4State, arrivals: seq<Arrival>)
  {
    forall a :: a in arrivals ==> CanInspect(ipv4, a.packet, a.iface)
  }

  /**
    The detection report of a run: IngressFilterRx is hooked to the router's "Rx"
    trace, so it sees every received packet in turn; the report lists the flagged
    ones, in arrival order. Every entry is a detection on the ingress interface,
    stamped with the time of one of the arrivals.
   */
  function RxLog(ipv4: Ipv4State, arrivals: seq<Arrival>): (log: seq<Verdict>)
    requires CanInspectAll(ipv4, arrivals)
    ensures |log| <= |arrivals|
    ensures forall k :: 0 <= k < |log| ==> log[k].Flagged? && log[k].iface == AttackerInterface
    ensures forall k :: 0 <= k < |log| ==> exists a :: a in arrivals && a.time == log[k].time
  {
    if arrivals == [] then []
    else
      var v := Inspect(ipv4, arrivals[0]);
      var rest := RxLog(ipv4, arrivals[1..]);
      assert forall a :: a in arrivals[1..] ==> a in arrivals;
      if v.Flagged? then [v] + rest else rest
  }

  /** The report of two stretches of a run is the first stretch's followed by the second's. */
  lemma {:induction false} RxLogAppend(ipv4: Ipv4State, xs: seq<Arrival>, ys: seq<Arrival>)
    requires CanInspectAll(ipv4, xs) && CanInspectAll(ipv4, ys)
    ensures CanInspectAll(ipv4, xs + ys)
    ensures RxLog(ipv4, xs + ys) == RxLog(ipv4, xs) + RxLog(ipv4, ys)
  {
    CanInspectAllAppend(ipv4, xs, ys);
    if xs == [] {
      assert xs + ys == ys;
    } else {
      var zs := xs + ys;
      assert zs[0] == xs[0];
      assert zs[1..] == xs[1..] + ys;
      assert forall a :: a in xs[1..] ==> a in xs;
      RxLogAppend(ipv4, xs[1..], ys);
    }
  }

  lemma CanInspectAllAppend(ipv4: Ipv4State, xs: seq<Arrival>, ys: seq<Arrival>)
    requires CanInspectAll(ipv4, xs) && CanInspectAll(ipv4, ys)
    ensures CanInspectAll(ipv4, xs + ys)
  {
    forall a | a in xs + ys
      ensures CanInspect(ipv4, a.packet, a.iface)
    {
      assert a in xs || a in ys;
    }
  }

  /**
    The report holds a verdict exactly when that verdict is a detection the filter
    produced for some arrival of the run.
   */
  lemma {:induction false} RxLogMembership(ipv4: Ipv4State, arrivals: seq<Arrival>, v: Verdict)
    requires CanInspectAll(ipv4, arrivals)
    ensures v in RxLog(ipv4, arrivals) <==>
            v.Flagged? && exists i :: 0 <= i < |arrivals| && Inspect(ipv4, arrivals[i]) == v
  {
    if arrivals != [] {
      var tail := arrivals[1..];
      assert forall a :: a in tail ==> a in arrivals;
      var v0 := Inspect(ipv4, arrivals[0]);
      assert RxLog(ipv4, arrivals) == (if v0.Flagged? then [v0] else []) + RxLog(ipv4, tail);
      RxLogMembership(ipv4, tail, v);
      assert forall i :: 0 <= i < |tail| ==> tail[i] == arrivals[i + 1];
      assert (exists i :: 0 <= i < |arrivals| && Inspect(ipv4, arrivals[i]) == v)
         <==> v0 == v || exists i :: 0 <= i < |tail| && Inspect(ipv4, tail[i]) == v;
    }
  }

  /**
    An arrival the filter ignores before it looks at any address: it came in on
    another interface, has no IPv4 header to peek, or is not UDP.
   */
  predicate NotCandidate(a: Arrival)
  {
    a.iface != AttackerInterface ||
    PeekHeader(a.packet).None? ||
    PeekHeader(a.packet).value.protocol != UdpProtocol
  }

  /**
    Arrivals on other interfaces, and non-UDP or unreadable packets on the
    ingress interface, never make it into the report, whatever the router's
    configuration.
   */
  lemma {:induction false} RxLogIgnoresNonCandidates(ipv4: Ipv4State, arrivals: seq<Arrival>)
    requires forall a :: a in arrivals ==> NotCandidate(a)
    ensures CanInspectAll(ipv4, arrivals)
    ensures RxLog(ipv4, arrivals) == []
  {
    if arrivals != [] {
      assert NotCandidate(arrivals[0]);
      assert Inspect(ipv4, arrivals[0]) == Clean;
      assert forall a :: a in arrivals[1..] ==> a in arrivals;
      RxLogIgnoresNonCandidates(ipv4, arrivals[1..]);
    }
  }

  /** Ignored traffic between two stretches of a run adds nothing to the report. */
  lemma RxLogSkipsIgnored(ipv4: Ipv4State, xs: seq<Arrival>, ignored: seq<Arrival>, ys: seq<Arrival>)
    requires CanInspectAll(ipv4, xs) && CanInspectAll(ipv4, ys)
    requires forall a :: a in ignored ==> NotCandidate(a)
    ensures CanInspectAll(ipv4, xs + ignored + ys)
    ensures RxLog(ipv4, xs + ignored + ys) == RxLog(ipv4, xs) + RxLog(ipv4, ys)
  {
    var zs := ignored + ys;
    RxLogIgnoresNonCandidates(ipv4, ignored);
    RxLogAppend(ipv4, ignored, ys);
    assert RxLog(ipv4, zs) == RxLog(ipv4, ys);
    RxLogAppend(ipv4, xs, zs);
    assert xs + ignored + ys == xs + zs;
  }

  /** The arrivals the filter takes past its first guards, in arrival order. */
  function Candidates(xs: seq<Arrival>): (cs: seq<Arrival>)
    ensures |cs| <= |xs|
    ensures forall a :: a in cs ==> a in xs && !NotCandidate(a)
  {
    if xs == [] then []
    else (if NotCandidate(xs[0]) then [] else [xs[0]]) + Candidates(xs[1..])
  }

  /**
    The report of a run is the report of its candidates alone: ignored traffic,
    wherever it falls among the other arrivals, adds nothing and moves nothing.
   */
  lemma {:induction false} RxLogOfCandidates(ipv4: Ipv4State, xs: seq<Arrival>)
    requires CanInspectAll(ipv4, xs)
    ensures CanInspectAll(ipv4, Candidates(xs))
    ensures RxLog(ipv4, xs) == RxLog(ipv4, Candidates(xs))
  {
    if xs != [] {
      var head, tail := xs[..1], xs[1..];
      assert xs == head + tail;
      assert forall a :: a in tail ==> a in xs;
      var c0 := if NotCandidate(xs[0]) then [] else head;
      assert Candidates(xs) == c0 + Candidates(tail);
      RxLogOfCandidates(ipv4, tail);
      RxLogAppend(ipv4, head, tail);
      if NotCandidate(xs[0]) {
        RxLogIgnoresNonCandidates(ipv4, head);
        assert Candidates(xs) == Candidates(tail);
      } else {
        RxLogAppend(ipv4, head, Candidates(tail));
      }
    }
  }
}
