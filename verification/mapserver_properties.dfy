/**
 * What the mapping table and the stamping of a connection amount to: one
 * entry per configured name, the last service with a name wins, and a
 * stamped connection carries the service's MAC address in a form that
 * parses back, whatever was there before.
 */
module MapServerProperties {
  import opened GoTypes
  import GoNet
  import Config
  import ConfigProperties
  import opened MapServer

  /** The table has an entry exactly for the configured names. */
  lemma {:induction false} TableKeys(services: seq<Config.ServiceFields>)
    ensures BuildTable(services).Keys == Names(services)
    decreases |services|
  {
    if services != [] {
      var init := services[..|services| - 1];
      TableKeys(init);
      assert Names(services) == Names(init) + {services[|services| - 1].name} by {
        forall k | k in Names(services) ensures k in Names(init) + {services[|services| - 1].name} {
          var i :| 0 <= i < |services| && services[i].name == k;
          if i < |init| { assert init[i] == services[i]; }
        }
        forall k | k in Names(init) ensures k in Names(services) {
          var i :| 0 <= i < |init| && init[i].name == k;
          assert services[i] == init[i];
        }
      }
    }
  }

  /** The entry for a name is the one of the last service with that name. */
  lemma {:induction false} TableLast(services: seq<Config.ServiceFields>, i: int, name: string)
    requires LastNamed(services, i, name)
    ensures name in BuildTable(services)
    ensures BuildTable(services)[name] == Entry(services[i].macAddr, services[i].vlanTag)
    decreases |services|
  {
    var init := services[..|services| - 1];
    if i < |services| - 1 {
      assert LastNamed(init, i, name) by {
        forall j | i < j < |init| ensures init[j].name != name {
          assert init[j] == services[j];
        }
      }
      TableLast(init, i, name);
    }
  }

  /** A table built from services with distinct names keeps every one of them. */
  lemma TableDistinct(services: seq<Config.ServiceFields>, i: int)
    requires 0 <= i < |services|
    requires forall j, k :: 0 <= j < k < |services| ==> services[j].name != services[k].name
    ensures services[i].name in BuildTable(services)
    ensures BuildTable(services)[services[i].name] == Entry(services[i].macAddr, services[i].vlanTag)
  {
    TableLast(services, i, services[i].name);
  }

  /** Stamping twice with the same entry changes nothing the second time. */
  lemma StampIdempotent(c: ConnView, e: Entry)
    ensures Stamp(Stamp(c, e), e) == Stamp(c, e)
  {
  }

  /** A later stamp replaces an earlier one completely. */
  lemma StampLastWins(c: ConnView, e1: Entry, e2: Entry)
    ensures Stamp(Stamp(c, e1), e2) == Stamp(c, e2)
  {
  }

  /**
   * Only the destination MAC address and the VLAN tag change: an existing
   * context keeps its other parts, an existing Ethernet context keeps its
   * source MAC address, and what was missing is created empty.
   */
  lemma StampKeeps(c: ConnView, e: Entry)
    ensures var ctx := Stamp(c, e).context.value;
      && (c.context.Some? ==> ctx.extra == c.context.value.extra)
      && (c.context.None? ==> ctx.extra == map[])
      && (c.context.Some? && c.context.value.ethernet.Some? ==>
            ctx.ethernet.value.srcMac == c.context.value.ethernet.value.srcMac)
      && (c.context.None? || c.context.value.ethernet.None? ==> ctx.ethernet.value.srcMac == "")
  {
  }

  /** The stamped destination MAC address is the entry's address as `ParseMAC` reads it back. */
  lemma StampMacParses(c: ConnView, e: Entry)
    requires GoNet.ValidLength(|e.macAddr|)
    ensures GoNet.ParseMac(Stamp(c, e).context.value.ethernet.value.dstMac) == Some(e.macAddr)
  {
    GoNet.ParseMacString(e.macAddr);
  }

  /** The entry of a decoded, validated service carries a MAC address that parses back. */
  lemma DecodedEntryParses(f: Config.ServiceFields, text: string, c: ConnView)
    requires ConfigProperties.MacOK(f.macAddr)
    requires Config.Decode(f, text).1 == None
    ensures var g := Config.Decode(f, text).0;
      GoNet.ParseMac(Stamp(c, Entry(g.macAddr, g.vlanTag)).context.value.ethernet.value.dstMac) == Some(g.macAddr)
  {
    var g := Config.Decode(f, text).0;
    ConfigProperties.DecodedMacValid(f, text);
    StampMacParses(c, Entry(g.macAddr, g.vlanTag));
  }

  /** The stub next stage: it answers with the connection it is handed and no error. */
  function Echo(c: Option<ConnView>): StageReply {
    StageReply(c, None)
  }

  /** A server built from the decoder's test descriptor alone. */
  method TestServer() returns (server: MapServer)
    ensures server.entries == map["pingpong" := Entry(ConfigProperties.TEST_MAC, 0)]
    ensures fresh(server.next) && server.next.requestReply == Echo && server.next.requests == []
  {
    var service, err := ConfigProperties.UnmarshalTestDescriptor();
    var cfg := Config.Config("nse-1", 0, [service]);
    var next := new NextServer(Echo, Echo);
    server := new MapServer(cfg, next);
    var fields := Config.Snapshot(cfg.Services);
    assert fields == [ConfigProperties.TEST_FIELDS];
    assert fields[..0] == [];
  }

  /** Stamping the test service onto a connection without a context. */
  lemma TestStamp()
    ensures Stamp(ConnView("conn-1", "pingpong", None), Entry(ConfigProperties.TEST_MAC, 0))
         == ConnView("conn-1", "pingpong", Some(ContextView(map[], Some(EthernetView("", "0a:55:44:33:22:11", 0)))))
  {
    GoNet.MacStringExample();
  }

  /**
   * The decoder's test descriptor served end to end, with a next stage that
   * answers with the connection it gets: a request for `pingpong` without a
   * context comes back with a new context carrying the service's address
   * and VLAN 0.
   */
  method RequestTestDescriptor() returns (r: Result<StageReply, RequestError>)
    ensures r == Ok(StageReply(Some(ConnView("conn-1", "pingpong",
      Some(ContextView(map[], Some(EthernetView("", "0a:55:44:33:22:11", 0)))))), None))
  {
    var server := TestServer();
    var conn := new Connection("conn-1", "pingpong", null);
    var request := new NetworkServiceRequest(conn);
    TestStamp();
    r := server.Request(request);
  }

  /** The same server refuses a request for a service it was not configured with. */
  method RequestOtherService() returns (r: Result<StageReply, RequestError>)
    ensures r == Err(NotSupported("other"))
  {
    var server := TestServer();
    var conn := new Connection("conn-2", "other", null);
    var request := new NetworkServiceRequest(conn);
    r := server.Request(request);
  }
}
