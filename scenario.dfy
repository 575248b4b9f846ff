/**
  The spoofing scenario: attacker (node 0), router (node 1) and victim (node 2)
  on two point-to-point links, 10.1.1.0/24 between attacker and router and
  10.1.2.0/24 between router and victim. The attacker sends, in rounds, one packet
  forged from its own subnet and one forged from the victim's subnet.
 */
module Scenario {
  import opened Ipv4
  import opened IpSpoofing

  const Slash24: Mask := Dotted(255, 255, 255, 0)
  const Loopback: Addr := Dotted(127, 0, 0, 1)
  const LoopbackMask: Mask := Dotted(255, 0, 0, 0)
  const Attacker: Addr := Dotted(10, 1, 1, 1)
  const RouterIngress: Addr := Dotted(10, 1, 1, 2)
  const RouterEgress: Addr := Dotted(10, 1, 2, 1)
  const Victim: Addr := Dotted(10, 1, 2, 2)

  /** The forged source on the attacker's own subnet. */
  const SameSubnetSpoof: Addr := Dotted(10, 1, 1, 10)
  /** The forged source on the victim's subnet. */
  const OtherSubnetSpoof: Addr := Dotted(10, 1, 2, 10)

  /**
    The router's Ipv4 state: the loopback as interface 0, the attacker link as
    interface 1 and the victim link as interface 2; it owns its three local
    addresses, the broadcast addresses of their subnets and the limited broadcast.
   */
  function ScenarioRouter(): (ipv4: Ipv4State)
    ensures HasAddress(ipv4, AttackerInterface, 0)
    ensures GetAddress(ipv4, AttackerInterface, 0) == InterfaceAddress(RouterIngress, Slash24)
    ensures OwnsInterfaceAddresses(ipv4)
  {
    Ipv4State(
      [[InterfaceAddress(Loopback, LoopbackMask)],
       [InterfaceAddress(RouterIngress, Slash24)],
       [InterfaceAddress(RouterEgress, Slash24)]],
      {Loopback, RouterIngress, RouterEgress,
       Dotted(127, 255, 255, 255), Dotted(10, 1, 1, 255), Dotted(10, 1, 2, 255),
       Dotted(255, 255, 255, 255)})
  }

  /**
    On the /24 ingress interface a UDP packet from a source the router does not
    own is reported exactly when the source's first three octets are not 10.1.1.
   */
  lemma IngressRuleOnSlash24(p: Packet, now: Time)
    requires PeekHeader(p).Some? && PeekHeader(p).value.protocol == UdpProtocol
    requires !IsDestinationAddress(ScenarioRouter(), PeekHeader(p).value.source, AttackerInterface)
    ensures IngressFilterRx(ScenarioRouter(), p, AttackerInterface, now).Flagged?
        <==> (Octet(PeekHeader(p).value.source, 0), Octet(PeekHeader(p).value.source, 1),
              Octet(PeekHeader(p).value.source, 2)) != (10, 1, 1)
  {
    var src := PeekHeader(p).value.source;
    assert InSubnet(src, InterfaceAddress(RouterIngress, Slash24))
       <==> (Octet(src, 0), Octet(src, 1), Octet(src, 2)) == (10, 1, 1);
  }

  /** The packet forged from 10.1.1.10 passes the filter unreported. */
  lemma SameSubnetSpoofIsClean(now: Time)
    ensures IngressFilterRx(ScenarioRouter(), SendSpoofedPacket(SameSubnetSpoof, Victim), AttackerInterface, now)
         == Clean
  {
    SpoofedPacketVerdict(ScenarioRouter(), SameSubnetSpoof, Victim, now);
  }

  /** The packet forged from 10.1.2.10 is reported, with that source, on interface 1. */
  lemma OtherSubnetSpoofIsFlagged(now: Time)
    ensures IngressFilterRx(ScenarioRouter(), SendSpoofedPacket(OtherSubnetSpoof, Victim), AttackerInterface, now)
         == Flagged(now, OtherSubnetSpoof, AttackerInterface)
  {
    SpoofedPacketVerdict(ScenarioRouter(), OtherSubnetSpoof, Victim, now);
  }

  /**
    A packet forged with the router's own victim-side address 10.1.2.1 arrives from
    the wrong subnet, yet is not reported: the router treats that source as its own.
   */
  lemma RouterEgressSpoofIsClean(now: Time)
    ensures !InSubnet(RouterEgress, GetAddress(ScenarioRouter(), AttackerInterface, 0))
    ensures IngressFilterRx(ScenarioRouter(), SendSpoofedPacket(RouterEgress, Victim), AttackerInterface, now)
         == Clean
  {
    SpoofedPacketVerdict(ScenarioRouter(), RouterEgress, Victim, now);
  }

  /** One round of the attack: the times the two forged packets reach the router. */
  datatype Round = Round(sameSubnetAt: Time, otherSubnetAt: Time)

  /** The router's two receptions in one round, both on interface 1. */
  function RoundPair(r: Round): seq<Arrival>
  {
    [Arrival(r.sameSubnetAt, SendSpoofedPacket(SameSubnetSpoof, Victim), AttackerInterface),
     Arrival(r.otherSubnetAt, SendSpoofedPacket(OtherSubnetSpoof, Victim), AttackerInterface)]
  }

  /** The arrivals of the attack packets at the router over the rounds, in order. */
  function RoundArrivals(rounds: seq<Round>): (arrivals: seq<Arrival>)
    ensures |arrivals| == 2 * |rounds|
    ensures forall a :: a in arrivals ==> a.iface == AttackerInterface
  {
    if rounds == [] then [] else RoundPair(rounds[0]) + RoundArrivals(rounds[1..])
  }

  /**
    The report the scenario sets out to produce: packets forged from the
    attacker's own subnet pass, those forged from the victim's subnet are
    detected, so one detection of 10.1.2.10 per round, at its arrival time.
   */
  function ExpectedLog(rounds: seq<Round>): seq<Verdict>
  {
    seq(|rounds|, k requires 0 <= k < |rounds| => Flagged(rounds[k].otherSubnetAt, OtherSubnetSpoof, AttackerInterface))
  }

  lemma ExpectedLogCons(rounds: seq<Round>)
    requires rounds != []
    ensures ExpectedLog(rounds)
         == [Flagged(rounds[0].otherSubnetAt, OtherSubnetSpoof, AttackerInterface)] + ExpectedLog(rounds[1..])
  {
  }

  /** In one round only the packet forged from the victim's subnet is reported. */
  lemma RoundReport(r: Round)
    ensures CanInspectAll(ScenarioRouter(), RoundPair(r))
    ensures RxLog(ScenarioRouter(), RoundPair(r)) == [Flagged(r.otherSubnetAt, OtherSubnetSpoof, AttackerInterface)]
  {
    var pair := RoundPair(r);
    SameSubnetSpoofIsClean(r.sameSubnetAt);
    OtherSubnetSpoofIsFlagged(r.otherSubnetAt);
    assert pair[1..][1..] == [];
  }

  /**
    Over any number of rounds the report holds exactly one detection per round, of
    the packet forged from the victim's subnet, at the time it arrived; the
    packets forged from the attacker's own subnet are never reported.
   */
  lemma {:induction false} ScenarioReport(rounds: seq<Round>)
    ensures CanInspectAll(ScenarioRouter(), RoundArrivals(rounds))
    ensures RxLog(ScenarioRouter(), RoundArrivals(rounds)) == ExpectedLog(rounds)
  {
    if rounds != [] {
      var ipv4 := ScenarioRouter();
      var r := rounds[0];
      ScenarioReport(rounds[1..]);
      RoundReport(r);
      assert RoundArrivals(rounds) == RoundPair(r) + RoundArrivals(rounds[1..]);
      RxLogAppend(ipv4, RoundPair(r), RoundArrivals(rounds[1..]));
      ExpectedLogCons(rounds);
    }
  }

  /**
    The report stays one detection of 10.1.2.10 per round, at its arrival time,
    when the router also receives, anywhere among the attack packets, traffic the
    filter ignores before its address check: packets on other interfaces,
    non-UDP packets, unreadable packets.
   */
  lemma ScenarioReportAmidOtherTraffic(rounds: seq<Round>, xs: seq<Arrival>)
    requires Candidates(xs) == RoundArrivals(rounds)
    ensures CanInspectAll(ScenarioRouter(), xs)
    ensures RxLog(ScenarioRouter(), xs) == ExpectedLog(rounds)
  {
    var ipv4 := ScenarioRouter();
    assert HasAddress(ipv4, AttackerInterface, 0);
    RxLogOfCandidates(ipv4, xs);
    ScenarioReport(rounds);
  }

  /** A packet carrying the attacker's real address 10.1.1.1 is not reported. */
  lemma AttackerAddressIsClean(now: Time)
    ensures IngressFilterRx(ScenarioRouter(), SendSpoofedPacket(Attacker, Victim), AttackerInterface, now)
         == Clean
  {
    SpoofedPacketVerdict(ScenarioRouter(), Attacker, Victim, now);
  }
}
