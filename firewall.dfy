/*
 * The firewall application: the blacklist and whitelist parsed from two
 * optional comma-separated arguments, and a packet-in handler that installs a
 * drop rule for an IPv4 packet whose destination is blacklisted and whose
 * source is not whitelisted.
 */
module Firewall {
  import opened OpenFlow

  // ---------------------------------------------------------------------------
  // Argument parsing: str.split(",") and the empty/absent default
  // ---------------------------------------------------------------------------

  /**
   * Python's `s.split(sep)` with an explicit separator: the pieces between
   * separators, empty pieces kept, so there is always one more piece than
   * there are separators.
   */
  function Split(s: string, sep: char): (r: seq<string>)
    ensures |r| == multiset(s)[sep] + 1
    ensures forall i :: 0 <= i < |r| ==> sep !in r[i]
    decreases |s|
  {
    if |s| == 0 then [""]
    else
      assert s == [s[0]] + s[1..];
      var rest := Split(s[1..], sep);
      if s[0] == sep then [""] + rest
      else [[s[0]] + rest[0]] + rest[1..]
  }

  /** Python's `sep.join(parts)`. */
  function Join(parts: seq<string>, sep: char): string
  {
    if |parts| == 0 then ""
    else if |parts| == 1 then parts[0]
    else parts[0] + [sep] + Join(parts[1..], sep)
  }

  lemma {:induction false} JoinSplit(s: string, sep: char)
    ensures Join(Split(s, sep), sep) == s
    decreases |s|
  {
    if |s| > 0 {
      var tail := s[1..];
      JoinSplit(tail, sep);
      assert s == [s[0]] + tail;
      if s[0] == sep {
        JoinAfterEmpty(Split(tail, sep), sep);
      } else {
        JoinExtendFirst(s[0], Split(tail, sep), sep);
      }
    }
  }

  lemma JoinAfterEmpty(rest: seq<string>, sep: char)
    requires |rest| > 0
    ensures Join([""] + rest, sep) == [sep] + Join(rest, sep)
  {
    assert ([""] + rest)[1..] == rest;
  }

  lemma JoinExtendFirst(c: char, rest: seq<string>, sep: char)
    requires |rest| > 0
    ensures Join([[c] + rest[0]] + rest[1..], sep) == [c] + Join(rest, sep)
  {
    var r := [[c] + rest[0]] + rest[1..];
    if |rest| > 1 {
      assert r[1..] == rest[1..];
    }
  }

  /** A string without the separator splits into itself alone. */
  lemma {:induction false} SplitWithoutSeparator(s: string, sep: char)
    requires sep !in s
    ensures Split(s, sep) == [s]
    decreases |s|
  {
    if |s| > 0 {
      assert sep !in s[1..] by {
        forall i | 0 <= i < |s[1..]| ensures s[1..][i] != sep {
          assert s[1..][i] == s[i + 1];
        }
      }
      SplitWithoutSeparator(s[1..], sep);
      assert s == [s[0]] + s[1..];
    }
  }

  /** Splitting a string that starts with a character other than the separator. */
  lemma SplitNonSeparatorFirst(c: char, t: string, sep: char)
    requires c != sep
    ensures Split([c] + t, sep) == [[c] + Split(t, sep)[0]] + Split(t, sep)[1..]
  {
    assert ([c] + t)[1..] == t;
  }

  /** Splitting a string that starts with the separator. */
  lemma SplitSeparatorFirst(t: string, sep: char)
    ensures Split([sep] + t, sep) == [""] + Split(t, sep)
  {
    assert ([sep] + t)[1..] == t;
  }

  /** One step of SplitAfterPiece: a non-separator in front joins the first piece. */
  lemma SplitAfterPieceStep(c: char, q: string, sep: char, t: string)
    requires c != sep
    requires Split(q + [sep] + t, sep) == [q] + Split(t, sep)
    ensures Split([c] + q + [sep] + t, sep) == [[c] + q] + Split(t, sep)
  {
    assert [c] + q + [sep] + t == [c] + (q + [sep] + t);
    SplitNonSeparatorFirst(c, q + [sep] + t, sep);
  }

  /** Splitting a separator-free piece followed by the separator peels that piece off. */
  lemma {:induction false} SplitAfterPiece(p: string, sep: char, t: string)
    requires sep !in p
    ensures Split(p + [sep] + t, sep) == [p] + Split(t, sep)
    decreases |p|
  {
    if |p| == 0 {
      assert p + [sep] + t == [sep] + t;
      SplitSeparatorFirst(t, sep);
    } else {
      var c, q := p[0], p[1..];
      assert p == [c] + q;
      assert sep !in q;
      SplitAfterPiece(q, sep, t);
      SplitAfterPieceStep(c, q, sep, t);
    }
  }

  /** Splitting undoes joining, when no piece contains the separator. */
  lemma {:induction false} SplitJoin(parts: seq<string>, sep: char)
    requires |parts| > 0
    requires forall i :: 0 <= i < |parts| ==> sep !in parts[i]
    ensures Split(Join(parts, sep), sep) == parts
  {
    if |parts| == 1 {
      SplitWithoutSeparator(parts[0], sep);
    } else {
      SplitJoin(parts[1..], sep);
      SplitAfterPiece(parts[0], sep, Join(parts[1..], sep));
      assert [parts[0]] + parts[1..] == parts;
    }
  }

  /**
   * What `launch` makes of one of its arguments: an absent or empty argument
   * gives the empty list, anything else is split on ",".
   */
  function ParseList(arg: Option<string>): (r: seq<Addr>)
    ensures r == [] <==> arg == None || arg == Some("")
    ensures arg.Some? && arg.value != "" ==>
      Join(r, ',') == arg.value && |r| == multiset(arg.value)[','] + 1
    ensures forall i :: 0 <= i < |r| ==> ',' !in r[i]
  {
    if arg.None? || arg.value == "" then []
    else
      JoinSplit(arg.value, ',');
      Split(arg.value, ',')
  }

  /** An argument without a comma names exactly one address. */
  lemma {:induction false} ParseSingle(a: Addr)
    requires a != "" && ',' !in a
    ensures ParseList(Some(a)) == [a]
  {
    SplitWithoutSeparator(a, ',');
  }

  // ---------------------------------------------------------------------------
  // The policy
  // ---------------------------------------------------------------------------

  /** The drop decision: destination blacklisted and source not whitelisted. */
  predicate Blocks(blacklist: seq<Addr>, whitelist: seq<Addr>, src: Addr, dst: Addr)
  {
    dst in blacklist && src !in whitelist
  }

  /** The drop rule the handler installs for a blocked packet. */
  function DropRule(src: Addr, dst: Addr): FlowMod
  {
    FlowMod(Match(Some(ETH_TYPE_IP), Some(src), Some(dst)), OFPP_MAX, 0, 0, [])
  }

  /** The drop rule matches exactly the IPv4 frames from `src` to `dst`. */
  lemma DropRuleMatchesExactly(src: Addr, dst: Addr, f: EthernetFrame)
    ensures Matches(DropRule(src, dst).matchOn, f) <==> f.next == IPv4(src, dst)
  {
  }

  /**
   * The messages one packet-in event makes the firewall send: at most one,
   * and one exactly for a blocked IPv4 packet; that one is a drop rule at
   * priority OFPP_MAX, fixing the ethertype to IPv4, that matches precisely
   * the packet's own source and destination.
   */
  function PacketInResponse(blacklist: seq<Addr>, whitelist: seq<Addr>, frame: EthernetFrame): (out: seq<FlowMod>)
    ensures |out| <= 1
    ensures out != [] <==>
      frame.next.IPv4? && frame.next.dstip in blacklist && frame.next.srcip !in whitelist
    ensures forall m :: m in out ==>
      && IsDrop(m) && WellFormed(m.matchOn) && m.priority == OFPP_MAX
      && m.matchOn.nwSrc == Some(frame.next.srcip) && m.matchOn.nwDst == Some(frame.next.dstip)
      && m.matchOn.dlType == Some(ETH_TYPE_IP)
      && m.idleTimeout == 0 && m.hardTimeout == 0
    ensures forall m, f :: m in out ==> (Matches(m.matchOn, f) <==> f.next == frame.next)
  {
    match frame.next
    case IPv4(src, dst) =>
      if Blocks(blacklist, whitelist, src, dst) then [DropRule(src, dst)] else []
    case Other(_) => []
  }

  /** The messages a sequence of packet-in events makes the firewall send, in order. */
  function Responses(blacklist: seq<Addr>, whitelist: seq<Addr>, frames: seq<EthernetFrame>): seq<FlowMod>
  {
    if frames == [] then []
    else PacketInResponse(blacklist, whitelist, frames[0]) + Responses(blacklist, whitelist, frames[1..])
  }

  /**
   * Over any run: at most one message per packet, and each one a well-formed
   * drop rule for a blacklisted destination and a source outside the
   * whitelist, so a whitelisted source is never blocked.
   */
  lemma {:induction false} ResponsesAreDropRules(blacklist: seq<Addr>, whitelist: seq<Addr>, frames: seq<EthernetFrame>)
    ensures |Responses(blacklist, whitelist, frames)| <= |frames|
    ensures forall m :: m in Responses(blacklist, whitelist, frames) ==>
      && IsDrop(m) && WellFormed(m.matchOn) && m.priority == OFPP_MAX
      && m.matchOn.nwDst.Some? && m.matchOn.nwDst.value in blacklist
      && m.matchOn.nwSrc.Some? && m.matchOn.nwSrc.value !in whitelist
  {
    if frames != [] {
      ResponsesAreDropRules(blacklist, whitelist, frames[1..]);
    }
  }

  /** With an empty blacklist nothing is ever sent. */
  lemma {:induction false} EmptyBlacklistSendsNothing(whitelist: seq<Addr>, frames: seq<EthernetFrame>)
    ensures Responses([], whitelist, frames) == []
  {
    if frames != [] {
      EmptyBlacklistSendsNothing(whitelist, frames[1..]);
    }
  }

  /** Packets that are not IPv4 (ARP, IPv6, ...) never cause a message. */
  lemma {:induction false} NonIPv4SendsNothing(blacklist: seq<Addr>, whitelist: seq<Addr>, frames: seq<EthernetFrame>)
    requires forall i :: 0 <= i < |frames| ==> !frames[i].next.IPv4?
    ensures Responses(blacklist, whitelist, frames) == []
  {
    if frames != [] {
      NonIPv4SendsNothing(blacklist, whitelist, frames[1..]);
    }
  }

  /**
   * No deduplication: the same blocked packet handled n times installs the
   * same drop rule n times.
   */
  lemma {:induction false} RepeatedPacketRepeatsRule(blacklist: seq<Addr>, whitelist: seq<Addr>, src: Addr, dst: Addr, n: nat)
    requires Blocks(blacklist, whitelist, src, dst)
    ensures Responses(blacklist, whitelist, Repeat(Ethernet(IPv4(src, dst)), n)) == Repeat(DropRule(src, dst), n)
  {
    if n > 0 {
      var frames := Repeat(Ethernet(IPv4(src, dst)), n);
      assert frames[1..] == Repeat(Ethernet(IPv4(src, dst)), n - 1);
      RepeatedPacketRepeatsRule(blacklist, whitelist, src, dst, n - 1);
    }
  }

  // ---------------------------------------------------------------------------
  // The component
  // ---------------------------------------------------------------------------

  class Firewall {
    const blacklist: seq<Addr>
    const whitelist: seq<Addr>

    constructor (blacklist: seq<Addr>, whitelist: seq<Addr>)
      ensures this.blacklist == blacklist && this.whitelist == whitelist
    {
      this.blacklist := blacklist;
      this.whitelist := whitelist;
    }

    /**
     * Handles one packet-in: for a blocked IPv4 packet, builds the drop rule
     * field by field and sends it on the event's connection; otherwise sends
     * nothing. The lists are not touched.
     */
    method HandlePacketIn(event: Event)
      requires event.PacketIn?
      modifies event.connection
      ensures event.connection.sent ==
        old(event.connection.sent) + PacketInResponse(blacklist, whitelist, event.parsed)
    {
      var packet := event.parsed.next;
      if packet.IPv4? {
        if packet.dstip in blacklist && packet.srcip !in whitelist {
          var msg := DefaultFlowMod;
          msg := msg.(priority := OFPP_MAX);
          msg := msg.(matchOn := msg.matchOn.(dlType := Some(ETH_TYPE_IP)));
          msg := msg.(matchOn := msg.matchOn.(nwDst := Some(packet.dstip)));
          msg := msg.(matchOn := msg.matchOn.(nwSrc := Some(packet.srcip)));
          // no actions: drop
          event.connection.Send(msg);
        }
      }
    }

    /** Only packet-in events are delivered to the firewall; anything else is ignored. */
    method Dispatch(event: Event)
      modifies event.connection
      ensures event.PacketIn? ==>
        event.connection.sent == old(event.connection.sent) + PacketInResponse(blacklist, whitelist, event.parsed)
      ensures !event.PacketIn? ==> event.connection.sent == old(event.connection.sent)
    {
      if event.PacketIn? {
        HandlePacketIn(event);
      }
    }
  }

  /** The module entry point: parse both lists and build the component. */
  method Launch(blacklist: Option<string>, whitelist: Option<string>) returns (firewall: Firewall)
    ensures fresh(firewall)
    ensures firewall.blacklist == ParseList(blacklist) && firewall.whitelist == ParseList(whitelist)
  {
    firewall := new Firewall(ParseList(blacklist), ParseList(whitelist));
  }

  /**
   * A blacklisted destination `dst`, given as the only blacklist entry, reached
   * twice from any source with no whitelist: two identical drop rules are sent.
   */
  method BlockedPacketRun(src: Addr, dst: Addr) returns (sent: seq<FlowMod>)
    requires dst != "" && ',' !in dst
    ensures sent == [DropRule(src, dst), DropRule(src, dst)]
  {
    ParseSingle(dst);
    var firewall := Launch(Some(dst), None);
    var connection := new Connection();
    var event := PacketIn(connection, Ethernet(IPv4(src, dst)));
    firewall.Dispatch(event);
    assert connection.sent == [DropRule(src, dst)];
    firewall.Dispatch(event);
    sent := connection.sent;
  }

  /**
   * Blacklist "10.0.0.5", no whitelist: the packet 1.1.1.1 -> 10.0.0.5
   * delivered twice sends two identical drop rules.
   */
  method BlockedPacketScenario() returns (sent: seq<FlowMod>)
    ensures sent == [DropRule("1.1.1.1", "10.0.0.5"), DropRule("1.1.1.1", "10.0.0.5")]
  {
    sent := BlockedPacketRun("1.1.1.1", "10.0.0.5");
  }

  /**
   * With `dst` as the only blacklist entry and `src` as the only whitelist
   * entry: the packet src -> dst, an ARP frame and a connection-up event
   * send nothing.
   */
  method AllowedRun(src: Addr, dst: Addr) returns (sent: seq<FlowMod>)
    requires dst != "" && ',' !in dst && src != "" && ',' !in src
    ensures sent == []
  {
    ParseSingle(dst);
    ParseSingle(src);
    var firewall := Launch(Some(dst), Some(src));
    var connection := new Connection();
    firewall.Dispatch(PacketIn(connection, Ethernet(IPv4(src, dst))));
    firewall.Dispatch(PacketIn(connection, Ethernet(Other(0x806))));
    firewall.Dispatch(ConnectionUp(connection));
    sent := connection.sent;
  }

  /** Blacklist "10.0.0.5", whitelist "1.1.1.1": the same traffic sends nothing. */
  method AllowedScenario() returns (sent: seq<FlowMod>)
    ensures sent == []
  {
    sent := AllowedRun("1.1.1.1", "10.0.0.5");
  }
}
