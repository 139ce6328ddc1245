/*
 * The part of the POX controller runtime and of its OpenFlow 1.0 library that
 * the two applications touch: flow-modification messages as records, the
 * parsed Ethernet frame handed to a packet-in handler, the events the runtime
 * delivers, and a switch connection that records what is sent on it.
 *
 * Message records follow section 5.3.3 (flow-mod), section 5.2.1 (port
 * numbers) and section 3.3 (an empty action list drops) of the OpenFlow
 * Switch Specification v1.0.0; no wire encoding is modelled.
 */
module OpenFlow {

  datatype Option<T> = None | Some(value: T)

  /** A network address, identified with its dotted-quad text. */
  type Addr = string

  /** Ethertype of an IPv4 datagram. */
  const ETH_TYPE_IP: nat := 0x800
  /** Highest physical port number (OFPP_MAX); the firewall uses it as a priority. */
  const OFPP_MAX: nat := 0xff00
  /** Virtual port: all physical ports except the ingress port. */
  const OFPP_FLOOD: nat := 0xfffb
  /** Priority of a freshly built flow-mod. */
  const OFP_DEFAULT_PRIORITY: nat := 0x8000

  /**
   * The match fields of ofp_match that either application can set; None is a
   * wildcard. All other fields of ofp_match stay wildcards in both programs.
   */
  datatype Match = Match(dlType: Option<nat>, nwSrc: Option<Addr>, nwDst: Option<Addr>)

  datatype Action = Output(port: nat)

  /**
   * An ofp_flow_mod with the fields the applications read or write. The
   * command is always OFPFC_ADD; a timeout of 0 means "never expires".
   */
  datatype FlowMod = FlowMod(
    matchOn: Match,
    priority: nat,
    idleTimeout: nat,
    hardTimeout: nat,
    actions: seq<Action>)

  /** A match that leaves every field wildcarded. */
  const MatchAll: Match := Match(None, None, None)

  /**
   * The message ofp_flow_mod() builds before any field is assigned: match
   * everything, default priority, no expiry, no actions.
   */
  const DefaultFlowMod: FlowMod := FlowMod(MatchAll, OFP_DEFAULT_PRIORITY, 0, 0, [])

  /** The layer an Ethernet frame encapsulates: IPv4, or anything else (ARP, IPv6, ...). */
  datatype Payload = IPv4(srcip: Addr, dstip: Addr) | Other(etherType: nat)

  /** A parsed Ethernet frame; `next` is the encapsulated layer. */
  datatype EthernetFrame = Ethernet(next: Payload)

  function EtherType(f: EthernetFrame): nat
  {
    match f.next
    case IPv4(_, _) => ETH_TYPE_IP
    case Other(t) => t
  }

  /** An address match field: a wildcard, or a field the frame carries with this value. */
  predicate AddrFieldMatches(field: Option<Addr>, present: bool, value: Addr)
  {
    field.None? || (present && field.value == value)
  }

  /**
   * Whether a frame matches a flow entry's match (section 3.4 of OpenFlow 1.0,
   * restricted to the modelled fields): every field that is not a wildcard
   * equals the frame's value. `Other` payloads carry no addresses here, a
   * restriction of this model (OpenFlow 1.0 also takes them from ARP).
   */
  predicate Matches(m: Match, f: EthernetFrame)
  {
    && (m.dlType.None? || m.dlType.value == EtherType(f))
    && AddrFieldMatches(m.nwSrc, f.next.IPv4?, if f.next.IPv4? then f.next.srcip else "")
    && AddrFieldMatches(m.nwDst, f.next.IPv4?, if f.next.IPv4? then f.next.dstip else "")
  }

  /** A flow entry with no output action drops what it matches (section 3.3). */
  predicate IsDrop(m: FlowMod)
  {
    m.actions == []
  }

  /** A match that names network addresses also fixes the ethertype to IPv4. */
  predicate WellFormed(m: Match)
  {
    (m.nwSrc.Some? || m.nwDst.Some?) ==> m.dlType == Some(ETH_TYPE_IP)
  }

  lemma MatchAllMatchesEverything(f: EthernetFrame)
    ensures Matches(MatchAll, f) && WellFormed(MatchAll)
  {
  }

  /** One switch attachment. `send` is modelled by recording the message. */
  class Connection {
    var sent: seq<FlowMod>

    constructor ()
      ensures sent == []
    {
      sent := [];
    }

    method Send(msg: FlowMod)
      modifies this
      ensures sent == old(sent) + [msg]
    {
      sent := sent + [msg];
    }
  }

  /** The two events the runtime delivers to these applications. */
  datatype Event =
    | ConnectionUp(connection: Connection)
    | PacketIn(connection: Connection, parsed: EthernetFrame)

  /** `n` copies of `x`. */
  function Repeat<T>(x: T, n: nat): (r: seq<T>)
    ensures |r| == n && forall i :: 0 <= i < n ==> r[i] == x
  {
    if n == 0 then [] else [x] + Repeat(x, n - 1)
  }
}
