# POX firewall and hub, modelled in Dafny

Two small POX controller applications for OpenFlow 1.0 switches.

- **Firewall** (`firewall.py`): `launch` turns two optional comma-separated arguments into a blacklist and a whitelist. The packet-in handler looks at the layer inside the Ethernet frame. When that layer is IPv4, its destination is blacklisted and its source is not whitelisted, the handler sends one flow-mod. That flow-mod has priority `OFPP_MAX` (0xff00), matches `dl_type = 0x800` plus the packet's `nw_src` and `nw_dst`, and has no actions, so the switch drops the flow. Every other packet causes no message.
- **Hub** (`hub.py`): on every connection-up event a `Hub` is built for that connection. It sends one flow-mod that keeps the library defaults (every match field a wildcard) and has the single action `output(OFPP_FLOOD)`.

Files:

- `openflow.dfy` (module `OpenFlow`) holds what the two applications take from POX:
  - flow-mods as records, following section 5.3.3 of the OpenFlow Switch Specification v1.0.0;
  - the constants `OFPP_MAX`, `OFPP_FLOOD` and `OFP_DEFAULT_PRIORITY`;
  - the parsed Ethernet frame;
  - a `Matches` predicate saying which frames a match selects (section 3.4);
  - the two runtime events;
  - a `Connection` class whose `Send` appends the message to a recorded `sent` sequence.
- `firewall.dfy` (module `Firewall`) holds:
  - the argument parsing;
  - the policy as specification functions (`PacketInResponse` for one event, `Responses` for a run of events);
  - lemmas about the policy;
  - the `Firewall` class, whose `HandlePacketIn` builds the message field by field and sends it;
  - `Launch`.
- `hub.dfy` (module `Hub`) holds:
  - the flood rule and its properties;
  - the `Hub` class, whose constructor builds and sends the flood rule;
  - the `HubComponent` class;
  - a function giving the messages the component sends on one connection over a run of events, with lemmas about it.

Addresses are modelled as their dotted-quad text (`Addr = string`). Membership in the lists is exact equality on that text.

Each `Dispatch` method models which events reach a component. The firewall registers only for `PacketIn` (firewall.py:57). The hub component's handlers are bound by name, and it defines only `_handle_ConnectionUp`, so a packet-in event reaches no handler.

Three things the code does not do, so the model does not either:

- The code validates no configuration address. Membership is modelled as exact text equality, and no startup error is modelled.
- The code has no check that refuses a match with addresses but no ethertype. The model proves instead that every message the firewall sends fixes `dl_type` to IPv4 (`WellFormed`). The flood rule sets no match field at all.
- The code keeps no map from connection to `Hub`. The `Hub` object is built only for its side effect and then dropped, so no per-connection state is modelled and nothing is ever removed.

## Model

| member | source | states |
|---|---|---|
| `OpenFlow.Connection.Send` | hub.py:51 | sending a message appends exactly that message to the connection's record and changes nothing else |
| `Firewall.Split` | firewall.py:49 | `s.split(sep)` gives one more piece than `s` has separators, and no piece contains the separator |
| `Firewall.JoinSplit` | firewall.py:42-49 | joining the pieces of a split with the separator gives back the original argument string |
| `Firewall.SplitJoin` | firewall.py:42-49 | splitting a non-empty list of separator-free entries joined by the separator gives back that list, so the parsed list is determined by the argument |
| `Firewall.ParseList` | firewall.py:48-55 | an absent or empty argument gives `[]`, and only those do; any other argument gives one entry per comma plus one, and joining them with "," gives back the argument |
| `Firewall.ParseSingle` | firewall.py:48-49 | an argument without a comma gives a one-address list |
| `Firewall.DropRuleMatchesExactly` | firewall.py:87-91 | the drop rule matches a frame exactly when it is an IPv4 packet with the blocked packet's source and destination |
| `Firewall.PacketInResponse` | firewall.py:80-95 | one packet-in sends at most one message, and sends one exactly when the inner layer is IPv4, dst is blacklisted and src is not whitelisted; that message is a drop (no actions) at priority `OFPP_MAX` with `dl_type` 0x800, `nw_src`/`nw_dst` equal to the packet's and both timeouts 0 (never expires), matching precisely that packet's frames |
| `Firewall.ResponsesAreDropRules` | firewall.py:83-95 | over any run of packet-ins, at most one message per packet; each message is a well-formed drop rule at `OFPP_MAX` whose destination is blacklisted and whose source is not whitelisted, so a whitelisted source is never blocked |
| `Firewall.EmptyBlacklistSendsNothing` | firewall.py:83 | with an empty blacklist no run of packet-ins sends anything |
| `Firewall.NonIPv4SendsNothing` | firewall.py:80 | packets whose inner layer is not IPv4 never cause a message |
| `Firewall.RepeatedPacketRepeatsRule` | firewall.py:64-95 | no deduplication: the same blocked packet handled n times sends n identical drop rules |
| `Firewall.Firewall.constructor` | firewall.py:60-62 | the component holds exactly the lists it was given |
| `Firewall.Firewall.HandlePacketIn` | firewall.py:64-95 | the handler appends exactly `PacketInResponse` of the event's frame to the event's connection and modifies nothing else (the lists included) |
| `Firewall.Firewall.Dispatch` | firewall.py:57 | a packet-in event is handled as above; any other event sends nothing |
| `Firewall.Launch` | firewall.py:38-57 | the component is new and holds `ParseList` of each argument |
| `Firewall.BlockedPacketRun` | firewall.py:48-95 | with one blacklisted destination and no whitelist, a packet to it delivered twice from any source sends exactly two identical drop rules |
| `Firewall.AllowedRun` | firewall.py:48-95 | with one blacklisted destination and the packet's source as the only whitelist entry, that packet, an ARP frame and a connection-up event send nothing |
| `Firewall.BlockedPacketScenario` | firewall.py:48-95 | blacklist "10.0.0.5", no whitelist: the packet 1.1.1.1 → 10.0.0.5 delivered twice sends two identical drop rules and nothing else |
| `Firewall.AllowedScenario` | firewall.py:48-95 | with "1.1.1.1" whitelisted, the same packet, an ARP frame and a connection-up event send nothing |
| `Hub.FloodRuleFloodsEverything` | hub.py:43-48 | the hub's flow-mod leaves every match field a wildcard and matches every frame; it has exactly one action, an output to `OFPP_FLOOD`, so it is not a drop; it uses the default priority and never expires |
| `Hub.Hub.constructor` | hub.py:39-51 | building a hub sends exactly one message, the flood rule, on its own connection |
| `Hub.HubComponent.HandleConnectionUp` | hub.py:27-31 | a connection-up event sends exactly the flood rule on that event's connection |
| `Hub.HubComponent.Dispatch` | hub.py:16-31 | each event appends to its connection exactly what `HubResponses` gives for it: the flood rule for a connection-up, nothing for a packet-in |
| `Hub.OneFloodRulePerConnectionUp` | hub.py:27-51 | over any run of events, the messages sent on a connection are exactly as many flood rules as there are connection-up events for that connection |
| `Hub.PacketInSendsNothing` | hub.py:16-31 | packet-in events, on any connection, never make the hub send anything |

## Left out

- The POX runtime is not modelled: `core.openflow.addListenerByName`, `addListeners`, `core.registerNew` and the event objects. Event delivery is modelled only by the `Dispatch` methods. Transmission is modelled by recording each message on the connection. Acknowledgement, transmission failure and connection validity are not modelled.
- `HubComponent.__init__` and the hub's `launch` only log, register the component and subscribe it to events. The model's `HubComponent` constructor is empty.
- Logging (`log.debug`, `log.info`) is left out.
- The assignment to `pox.forwarding.l3_learning.FLOW_IDLE_TIMEOUT` (firewall.py:29-30) is left out as unrelated to the rule-decision logic.
- `@poxutil.eval_args` is left out. Each argument is taken to arrive as an absent value or a string. In the source, an argument that `eval_args` turns into a non-zero number or `True` makes `.split` fail, and a falsy value such as `0` gives `[]`; neither case is modelled.
- POX's `IPAddr` type is left out. So are its comparison with strings and dotted-quad canonicalisation (for example "010.0.0.5" against "10.0.0.5"). Addresses are compared as exact text, and no address is validated, because the code validates none.
- OpenFlow wire encoding is left out, as are the flow-mod fields that neither program sets or reads: command (always add), cookie, buffer id, out port and flags. The other `ofp_match` fields are left out too; both programs leave them as wildcards.
- Packet parsing is not modelled. A frame's inner layer is either IPv4 with its two addresses or another layer with its ethertype. IPv4 fields other than the two addresses are not modelled.
- The docstring example in firewall.py:45-46 shows a whitelist of "1.2.3.4" twice for the argument "1.2.3.4,1.2.3.5". The code gives "1.2.3.4" then "1.2.3.5", and the model follows the code.
