# Ingress spoofing detector of the ns-3 IP-spoofing scenario

This project models the decision core of `IP_Spoofing_Working_Code.cc`, an ns-3
scenario with three nodes: an attacker, a router and a victim. The attacker sends
UDP packets with forged source addresses through a raw socket. The router runs a
receive hook, `IngressFilterRx`, on every IPv4 packet it receives. The hook reports
(and never drops) a packet that arrives on the attacker-facing interface 1 when
all of these hold:
- it is UDP;
- its source is not one of the router's own addresses;
- its source, ANDed with the interface mask, differs from the interface's own
  address ANDed with the same mask.

This is ingress filtering as in section 3 of RFC 2827 (BCP 38), in detect-only form.

Modules:
- `Wrappers` (`wrappers.dfy`): `Option`.
- `Ipv4` (`ipv4.dfy`): the ns-3 value types the core uses. Addresses and masks are
  `bv32`, and `CombineMask` is bitwise AND. It also holds interface addresses, the
  IPv4 header and packets. A packet is a stack of headers in front of a payload,
  and `PeekHeader` reads the outermost header when it is an IPv4 header.
- `IpSpoofing` (`ip_spoofing.dfy`): the filter as a function returning a verdict
  (`Clean` or `Flagged(time, source, interface)`). It also holds the spoofed
  packet the attacker builds, and `RxLog`: the sequence of detections the hook
  reports over the packets the router receives, in order.
- `Scenario` (`scenario.dfy`): the scenario's addresses, the router's interface
  table, and the report produced over any number of attack rounds.

The router's `Ipv4` object is passed in as a value, `Ipv4State`. It holds the
address list of each interface and the set of addresses for which
`IsDestinationAddress` answers true. The current simulator time is passed in as
a parameter.

## Model

| member | source | states |
|---|---|---|
| `Ipv4.CombineMask` | IP_Spoofing_Working_Code.cc:39-43 | the masked address keeps exactly the bits the mask selects and has every host bit cleared |
| `Ipv4.CombineMaskUnique` | IP_Spoofing_Working_Code.cc:39-43 | those two properties determine the masked address uniquely |
| `Ipv4.Dotted` | IP_Spoofing_Working_Code.cc:130-144 | the address written a.b.c.d has octets a, b, c, d, most significant first |
| `Ipv4.DottedOfOctets` | IP_Spoofing_Working_Code.cc:130-144 | every address is the dotted form of its own four octets |
| `Ipv4.InterfaceSubnet` | IP_Spoofing_Working_Code.cc:36-40 | the interface subnet has no host bits set |
| `Ipv4.CreatePacket` | IP_Spoofing_Working_Code.cc:63 | a fresh packet has the requested size, and PeekHeader finds no IPv4 header on it |
| `Ipv4.AddHeader` | IP_Spoofing_Working_Code.cc:72 | the added header is what PeekHeader (IP_Spoofing_Working_Code.cc:22) reads back; the packet grows by 20 bytes; what was behind it is kept |
| `IpSpoofing.IngressFilterRx` | IP_Spoofing_Working_Code.cc:11-52 | never flags off interface 1; never flags an unreadable packet; flags only UDP; never flags a router-owned source; flags exactly the packets of the ingress rule `Spoofed`; a flag carries the current time, the packet's source and interface 1 |
| `IpSpoofing.IgnoredBeforeAddressLookup` | IP_Spoofing_Working_Code.cc:21-27 | an unreadable or non-UDP packet is clean on any interface, even on a router with no address on interface 1 |
| `IpSpoofing.IngressLocalSourceNeverFlagged` | IP_Spoofing_Working_Code.cc:35-43 | a source equal to interface 1's own local address is clean, whatever addresses the router treats as its own |
| `IpSpoofing.RouterAddressNeverFlagged` | IP_Spoofing_Working_Code.cc:29-33 | a source equal to a local address of any router interface is never flagged, even if that interface is on another subnet |
| `IpSpoofing.VerdictDependsOnProtocolAndSource` | IP_Spoofing_Working_Code.cc:25-43 | two packets whose headers agree on protocol and source get the same verdict, whatever the rest of the header and the payload |
| `IpSpoofing.SameSubnetSameDecision` | IP_Spoofing_Working_Code.cc:35-43 | two non-router sources with the same masked network part get the same flag decision |
| `IpSpoofing.SendSpoofedPacket` | IP_Spoofing_Working_Code.cc:57-72 | the packet has exactly one IPv4 header: source the forged address, destination `dst`, protocol 17, TTL 64, payload length 512; it carries 512 payload bytes, 532 bytes in all |
| `IpSpoofing.SpoofedPacketVerdict` | IP_Spoofing_Working_Code.cc:11-72 | a spoofed packet on interface 1 is flagged with its forged source exactly when that source is neither router-owned nor on the interface's subnet, and is clean otherwise |
| `IpSpoofing.RxLog` | IP_Spoofing_Working_Code.cc:113-115 | the report is no longer than the arrivals; every entry is a detection on interface 1, stamped with the time of some arrival |
| `IpSpoofing.RxLogAppend` | IP_Spoofing_Working_Code.cc:113-115 | the report of two consecutive stretches is their reports concatenated, so it keeps arrival order |
| `IpSpoofing.RxLogMembership` | IP_Spoofing_Working_Code.cc:113-115 | a verdict is in the report exactly when it is a detection the filter produced for some arrival |
| `IpSpoofing.RxLogIgnoresNonCandidates` | IP_Spoofing_Working_Code.cc:16-27 | arrivals on interfaces other than 1, and unreadable or non-UDP arrivals, never enter the report, whatever the router's configuration |
| `IpSpoofing.RxLogSkipsIgnored` | IP_Spoofing_Working_Code.cc:113-115 | traffic the filter ignores before its address check, received between two stretches of a run, adds nothing to the report |
| `IpSpoofing.Candidates` | IP_Spoofing_Working_Code.cc:16-27 | the arrivals kept are ones of the run that pass the interface, peek and protocol guards |
| `IpSpoofing.RxLogOfCandidates` | IP_Spoofing_Working_Code.cc:16-27 | the report of a run equals the report of its candidates alone, wherever the ignored traffic falls |
| `Scenario.ScenarioRouter` | IP_Spoofing_Working_Code.cc:96-104 | interface 1 of the router is 10.1.1.2/24, and the router owns the local addresses of all its interfaces |
| `Scenario.IngressRuleOnSlash24` | IP_Spoofing_Working_Code.cc:99-100 | on the /24 ingress interface, a UDP packet from a source the router does not own is flagged exactly when the first three octets of the source are not 10.1.1 |
| `Scenario.SameSubnetSpoofIsClean` | IP_Spoofing_Working_Code.cc:130-136 | the packet forged from 10.1.1.10 is not flagged |
| `Scenario.OtherSubnetSpoofIsFlagged` | IP_Spoofing_Working_Code.cc:138-144 | the packet forged from 10.1.2.10 is flagged with that source on interface 1 |
| `Scenario.RouterEgressSpoofIsClean` | IP_Spoofing_Working_Code.cc:31-33 | a packet forged from the router's own 10.1.2.1 is off-subnet, yet not flagged |
| `Scenario.RoundArrivals` | IP_Spoofing_Working_Code.cc:128-145 | the attack packets' arrivals: two per round, all on interface 1 |
| `Scenario.RoundReport` | IP_Spoofing_Working_Code.cc:130-144 | in one round, only the packet forged from 10.1.2.10 is reported |
| `Scenario.ScenarioReport` | IP_Spoofing_Working_Code.cc:128-145 | over any number of rounds of attack packets, the report is exactly one detection of 10.1.2.10 per round, at its arrival time |
| `Scenario.ScenarioReportAmidOtherTraffic` | IP_Spoofing_Working_Code.cc:16-27 | the same report results when the router also receives, anywhere among the attack packets, traffic the filter ignores before its address check (other interfaces, unreadable or non-UDP packets) |
| `Scenario.AttackerAddressIsClean` | IP_Spoofing_Working_Code.cc:99-100 | a packet carrying the attacker's own address 10.1.1.1 on interface 1 is not flagged |

## Left out

- All `main` wiring: node creation, links, stack installation, routing and the simulator run. Only the router's resulting interface table and the attack packets enter the model.
- Address assignment by ns-3's `Ipv4AddressHelper`, which is not part of this model. `Scenario.ScenarioRouter` assumes what it produces: the first device of each link gets host .1 and the second .2. So the router is 10.1.1.2 on interface 1 and 10.1.2.1 on interface 2, interface 0 is the loopback, and the victim is 10.1.2.2.
- IpSpoofing.IsDestinationAddress: ns-3's implementation is not part of this model. It is a set of router-owned addresses given as input. ns-3 also accepts every multicast address and depends on its end-system model; `Scenario.ScenarioRouter` lists only the unicast and broadcast addresses.
- The spoof schedule loop (IP_Spoofing_Working_Code.cc:128-145). It counts in floating point (`t += 0.2`), so the number of rounds and their times are parameters of `Scenario.RoundArrivals`. Arrival times at the router also depend on link rate and delay, which are not modelled.
- The raw-socket send (IP_Spoofing_Working_Code.cc:73, 118-125), including UDP port 9. The model assumes the packet reaches the router with the header `SendSpoofedPacket` built.
- IpSpoofing.IngressFilterRx: when a packet passes the first guards and interface 1 has no address, ns-3's `GetAddress (interface, 0)` at IP_Spoofing_Working_Code.cc:36-37 has no address to return, and ns-3 aborts the run. The model requires that address in exactly that case instead of modelling the abort. Packets stopped by an earlier guard need no address (`IpSpoofing.IgnoredBeforeAddressLookup`).
- Other traffic the router receives in the run, such as replies the victim may send. Its behaviour comes from ns-3 protocol code that is not part of this model. `Scenario.ScenarioReportAmidOtherTraffic` covers such traffic, at any position in the run, when it is not a UDP packet arriving on interface 1. UDP traffic arriving on interface 1 that is not an attack packet is not covered.
- The IPv4 wire format. A header is kept as a value in a header stack, and an unreadable front is modelled as a non-IPv4 header. Header fields the source never touches (TOS, identification, flags, checksum) are not modelled.
- The console output of a detection. A detection is a `Flagged` record holding the time in simulator ticks, not in seconds as a double.
- The other six scenario scripts. They only configure ns-3 library components (queue discs, RED, FlowMonitor, point-to-point devices, trace counters) whose implementations are not in the repository.

## Behaviour worth noting

- The hook cannot drop a packet. A packet whose IPv4 header cannot be peeked is ignored (IP_Spoofing_Working_Code.cc:21-23).
- The exemption at IP_Spoofing_Working_Code.cc:32 is whatever `IsDestinationAddress` accepts. That includes the router's broadcast addresses.
