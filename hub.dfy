/*
 * The hub application: on every connection-up event it turns the switch into
 * an Ethernet hub by installing one flow entry that matches every frame and
 * floods it out of all ports except the one it arrived on.
 */
module Hub {
  import opened OpenFlow

  /** The flow-mod a Hub sends: library defaults plus the single action output(OFPP_FLOOD). */
  function FloodRule(): FlowMod
  {
    DefaultFlowMod.(actions := [Output(OFPP_FLOOD)])
  }

  /**
   * The flood rule matches every frame, leaves every match field a wildcard,
   * carries exactly one action, an output to OFPP_FLOOD, so it never drops,
   * and is installed at the default priority without expiry.
   */
  lemma FloodRuleFloodsEverything(f: EthernetFrame)
    ensures Matches(FloodRule().matchOn, f) && FloodRule().matchOn == MatchAll
    ensures FloodRule().actions == [Output(OFPP_FLOOD)] && !IsDrop(FloodRule())
    ensures WellFormed(FloodRule().matchOn)
    ensures FloodRule().priority == OFP_DEFAULT_PRIORITY
    ensures FloodRule().idleTimeout == 0 && FloodRule().hardTimeout == 0
  {
    MatchAllMatchesEverything(f);
  }

  /** Turns the switch behind `connection` into a hub; keeps no state of its own. */
  class Hub {
    constructor (connection: Connection)
      modifies connection
      ensures connection.sent == old(connection.sent) + [FloodRule()]
    {
      new;
      var msg := DefaultFlowMod;
      msg := msg.(actions := msg.actions + [Output(OFPP_FLOOD)]);
      assert msg == FloodRule();
      connection.Send(msg);
    }
  }

  /** The listener the runtime calls; it handles connection-up events only. */
  class HubComponent {
    constructor ()
    {
    }

    method HandleConnectionUp(event: Event)
      requires event.ConnectionUp?
      modifies event.connection
      ensures event.connection.sent == old(event.connection.sent) + [FloodRule()]
    {
      var hub := new Hub(event.connection);
    }

    /**
     * Event delivery: a connection-up event reaches HandleConnectionUp; there
     * is no packet-in handler, so a packet-in event changes nothing.
     */
    method Dispatch(event: Event)
      modifies event.connection
      ensures event.connection.sent == old(event.connection.sent) + HubResponses([event], event.connection)
    {
      if event.ConnectionUp? {
        HandleConnectionUp(event);
      }
    }
  }

  /** The messages the hub component sends on `c` over a sequence of events, in order. */
  function HubResponses(events: seq<Event>, c: Connection): seq<FlowMod>
  {
    if events == [] then []
    else
      (if events[0].ConnectionUp? && events[0].connection == c then [FloodRule()] else [])
      + HubResponses(events[1..], c)
  }

  /**
   * Exactly one flood rule per connection-up event for `c`, and nothing for
   * any other event: as many flood rules as `c`'s connection-up events.
   */
  lemma {:induction false} OneFloodRulePerConnectionUp(events: seq<Event>, c: Connection)
    ensures HubResponses(events, c) == Repeat(FloodRule(), multiset(events)[ConnectionUp(c)])
  {
    if events != [] {
      OneFloodRulePerConnectionUp(events[1..], c);
      assert events == [events[0]] + events[1..];
      assert multiset(events) == multiset([events[0]]) + multiset(events[1..]);
      var n := multiset(events[1..])[ConnectionUp(c)];
      if events[0] == ConnectionUp(c) {
        assert [FloodRule()] + Repeat(FloodRule(), n) == Repeat(FloodRule(), n + 1);
      }
    }
  }

  /** Packet-in events, on any connection, never make the hub send anything. */
  lemma {:induction false} PacketInSendsNothing(events: seq<Event>, c: Connection)
    requires forall i :: 0 <= i < |events| ==> events[i].PacketIn?
    ensures HubResponses(events, c) == []
  {
    if events != [] {
      PacketInSendsNothing(events[1..], c);
    }
  }
}
