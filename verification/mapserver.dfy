/**
 * The `network service -> { MAC, VLAN }` chain element: a table built once
 * from the configured services, and a `Request` that stamps the matching
 * service's MAC address and VLAN tag onto the connection's Ethernet context
 * in place before handing the request to the next stage of the chain.
 */
module MapServer {
  import opened GoTypes
  import GoNet
  import Config

  /** What the table holds for one service. */
  datatype Entry = Entry(macAddr: seq<uint8>, vlanTag: int32)

  // ---------------------------------------------------------------------
  // The connection objects that `Request` updates in place

  class EthernetContext {
    var SrcMac: string
    var DstMac: string
    var VlanTag: int32

    /** `new(networkservice.EthernetContext)` */
    constructor ()
      ensures SrcMac == "" && DstMac == "" && VlanTag == 0
    {
      SrcMac, DstMac, VlanTag := "", "", 0;
    }
  }

  class ConnectionContext {
    /** The connection context's other parts, reduced to its string map. */
    var ExtraContext: map<string, string>
    var EthernetContext: EthernetContext?

    /** `new(networkservice.ConnectionContext)` */
    constructor ()
      ensures ExtraContext == map[] && EthernetContext == null
    {
      ExtraContext, EthernetContext := map[], null;
    }
  }

  class Connection {
    var Id: string
    var NetworkService: string
    var Context: ConnectionContext?

    constructor (id: string, networkService: string, context: ConnectionContext?)
      ensures Id == id && NetworkService == networkService && Context == context
    {
      Id, NetworkService, Context := id, networkService, context;
    }
  }

  class NetworkServiceRequest {
    var Connection: Connection?

    constructor (connection: Connection?)
      ensures Connection == connection
    {
      Connection := connection;
    }
  }

  // ---------------------------------------------------------------------
  // The same objects as values

  datatype EthernetView = EthernetView(srcMac: string, dstMac: string, vlanTag: int32)
  datatype ContextView = ContextView(extra: map<string, string>, ethernet: Option<EthernetView>)
  datatype ConnView = ConnView(id: string, networkService: string, context: Option<ContextView>)

  /** The objects reachable from a connection, which `Request` may update. */
  function Footprint(c: Connection?): set<object>
    reads c, if c != null then {c.Context} else {}
  {
    if c == null then {}
    else if c.Context == null then {c}
    else if c.Context.EthernetContext == null then {c, c.Context}
    else {c, c.Context, c.Context.EthernetContext}
  }

  function EthernetOf(e: EthernetContext?): Option<EthernetView>
    reads e
  {
    if e == null then None else Some(EthernetView(e.SrcMac, e.DstMac, e.VlanTag))
  }

  function ContextOf(x: ConnectionContext?): Option<ContextView>
    reads x, if x != null then {x.EthernetContext} else {}
  {
    if x == null then None else Some(ContextView(x.ExtraContext, EthernetOf(x.EthernetContext)))
  }

  /** The connection as a value; `None` for a nil connection. */
  function ViewOf(c: Connection?): Option<ConnView>
    reads Footprint(c), c
  {
    if c == null then None else Some(ConnView(c.Id, c.NetworkService, ContextOf(c.Context)))
  }

  /** `conn.GetNetworkService()`, which is "" for a nil connection. */
  function NetworkServiceOf(c: Option<ConnView>): string {
    if c.None? then "" else c.value.networkService
  }

  /**
   * What `Request` does to a connection it finds in the table: a missing
   * context and Ethernet context are created empty, then the destination
   * MAC address and the VLAN tag are overwritten, and nothing else.
   */
  function Stamp(c: ConnView, e: Entry): (r: ConnView)
    ensures r.id == c.id && r.networkService == c.networkService
    ensures r.context.Some? && r.context.value.ethernet.Some?
    ensures r.context.value.ethernet.value.dstMac == GoNet.MacString(e.macAddr)
    ensures r.context.value.ethernet.value.vlanTag == e.vlanTag
  {
    var ctx := c.context.GetOr(ContextView(map[], None));
    var eth := ctx.ethernet.GetOr(EthernetView("", "", 0));
    c.(context := Some(ctx.(ethernet := Some(eth.(dstMac := GoNet.MacString(e.macAddr), vlanTag := e.vlanTag)))))
  }

  // ---------------------------------------------------------------------
  // The next stage of the chain

  /** What the next stage answers: its connection and its error, if any. */
  datatype StageReply = StageReply(conn: Option<ConnView>, err: Option<string>)

  /**
   * The next chain element, as far as this one sees it: it records each
   * connection it is handed and answers as its reply functions say.
   */
  class NextServer {
    var requests: seq<Option<ConnView>>
    var closes: seq<Option<ConnView>>
    const requestReply: Option<ConnView> -> StageReply
    const closeReply: Option<ConnView> -> StageReply

    constructor (requestReply: Option<ConnView> -> StageReply, closeReply: Option<ConnView> -> StageReply)
      ensures requests == [] && closes == []
      ensures this.requestReply == requestReply && this.closeReply == closeReply
    {
      requests, closes := [], [];
      this.requestReply, this.closeReply := requestReply, closeReply;
    }

    method Request(c: Option<ConnView>) returns (r: StageReply)
      modifies this
      ensures requests == old(requests) + [c] && closes == old(closes)
      ensures r == requestReply(c)
    {
      requests := requests + [c];
      r := requestReply(c);
    }

    method Close(c: Option<ConnView>) returns (r: StageReply)
      modifies this
      ensures closes == old(closes) + [c] && requests == old(requests)
      ensures r == closeReply(c)
    {
      closes := closes + [c];
      r := closeReply(c);
    }
  }

  // ---------------------------------------------------------------------
  // The table

  /** The table `NewServer` builds: each service in turn, a later name replacing an earlier one. */
  function BuildTable(services: seq<Config.ServiceFields>): map<string, Entry>
    decreases |services|
  {
    if services == [] then map[]
    else
      var s := services[|services| - 1];
      BuildTable(services[..|services| - 1])[s.name := Entry(s.macAddr, s.vlanTag)]
  }

  /** The names of the services. */
  function Names(services: seq<Config.ServiceFields>): set<string> {
    set i | 0 <= i < |services| :: services[i].name
  }

  /** Service `i` is the last one with this name. */
  predicate LastNamed(services: seq<Config.ServiceFields>, i: int, name: string) {
    0 <= i < |services| && services[i].name == name
    && forall j :: i < j < |services| ==> services[j].name != name
  }

  /** Errors `Request` returns itself, before anything reaches the next stage. */
  datatype RequestError =
    | NotSupported(name: string)  // "network service is not supported: <name>"
    | NilConnection               // a nil connection whose empty name is in the table: Go panics here

  /** The loop of `NewServer`: `entries[service.Name] = &entry{...}` for each service in turn. */
  method FillTable(services: seq<Config.ServiceConfig>) returns (entries: map<string, Entry>)
    ensures entries == BuildTable(Config.Snapshot(services))
  {
    ghost var fields := Config.Snapshot(services);
    entries := map[];
    var i := 0;
    while i < |services|
      invariant 0 <= i <= |services|
      invariant entries == BuildTable(fields[..i])
    {
      var service := services[i];
      assert fields[i] == service.Fields();
      assert fields[..i + 1][..i] == fields[..i];
      entries := entries[service.Name := Entry(service.MACAddr, service.VLANTag)];
      i := i + 1;
    }
    assert fields[..i] == fields;
  }

  class MapServer {
    var entries: map<string, Entry>
    const next: NextServer

    /** `NewServer`: one table entry per service name, filled in the order of the services. */
    constructor (cfg: Config.Config, next: NextServer)
      ensures entries == BuildTable(Config.Snapshot(cfg.Services))
      ensures this.next == next
    {
      var table := FillTable(cfg.Services);
      this.next, entries := next, table;
    }

    /**
     * `Request`: look the connection's network service up; on a miss fail
     * without touching anything; on a hit stamp the entry onto the
     * connection in place and return what the next stage returns for it.
     */
    method Request(request: NetworkServiceRequest) returns (r: Result<StageReply, RequestError>)
      modifies Footprint(request.Connection), next
      ensures entries == old(entries) && request.Connection == old(request.Connection)
      ensures var name := NetworkServiceOf(old(ViewOf(request.Connection)));
        name !in entries ==>
          && r == Err(NotSupported(name))
          && ViewOf(request.Connection) == old(ViewOf(request.Connection))
          && next.requests == old(next.requests)
      ensures var name := NetworkServiceOf(old(ViewOf(request.Connection)));
        name in entries && request.Connection == null ==>
          r == Err(NilConnection) && next.requests == old(next.requests)
      ensures var name := NetworkServiceOf(old(ViewOf(request.Connection)));
        name in entries && request.Connection != null ==>
          && ViewOf(request.Connection) == Some(Stamp(old(ViewOf(request.Connection)).value, entries[name]))
          && next.requests == old(next.requests) + [ViewOf(request.Connection)]
          && r == Ok(next.requestReply(ViewOf(request.Connection)))
      ensures next.closes == old(next.closes)
      ensures var c := request.Connection;
        c != null && old(c.Context) != null ==> c.Context == old(c.Context)
      ensures var c := request.Connection;
        c != null && old(c.Context) != null && old(c.Context.EthernetContext) != null ==>
          c.Context.EthernetContext == old(c.Context.EthernetContext)
      ensures var c := request.Connection;
        c != null && c.Context != null && c.Context != old(c.Context) ==> fresh(c.Context)
      ensures var c := request.Connection;
        c != null && c.Context != null && c.Context.EthernetContext != null &&
        c.Context.EthernetContext != old(if c.Context == null then null else c.Context.EthernetContext) ==>
          fresh(c.Context.EthernetContext)
    {
      var conn := request.Connection;
      var name := if conn == null then "" else conn.NetworkService;
      if name !in entries {
        return Err(NotSupported(name));
      }
      var entry := entries[name];
      if conn == null {
        return Err(NilConnection);
      }
      ghost var before := ViewOf(conn).value;
      if conn.Context == null {
        conn.Context := new ConnectionContext();
      }
      var ctx := conn.Context;
      if ctx.EthernetContext == null {
        ctx.EthernetContext := new EthernetContext();
      }
      var ethernetContext := ctx.EthernetContext;
      ethernetContext.DstMac := GoNet.MacString(entry.macAddr);
      ethernetContext.VlanTag := entry.vlanTag;
      assert ViewOf(conn) == Some(Stamp(before, entry));
      var reply := next.Request(ViewOf(conn));
      r := Ok(reply);
    }

    /** `Close`: hand the connection to the next stage and return its answer. */
    method Close(conn: Connection?) returns (r: StageReply)
      modifies next
      ensures entries == old(entries)
      ensures next.closes == old(next.closes) + [ViewOf(conn)] && next.requests == old(next.requests)
      ensures r == next.closeReply(ViewOf(conn))
    {
      r := next.Close(ViewOf(conn));
    }
  }
}
