/**
 * `registryEndpoint`: the registration record the endpoint sends to the
 * registry, with every service's label map extended in place by the
 * `serviceDomain` label.
 */
module Registry {
  import opened GoTypes
  import Config

  /** The label under which each service's domain is registered. */
  const SERVICE_DOMAIN_LABEL := "serviceDomain"

  /**
   * `registry.NetworkServiceEndpoint`, with the URL already converted to its
   * target string and the expiration time as a number of nanoseconds. Each
   * `NetworkServiceLabels` entry is reduced to the label map it points to.
   */
  datatype NetworkServiceEndpoint = NetworkServiceEndpoint(
    Name: string,
    NetworkServiceNames: seq<string>,
    NetworkServiceLabels: map<string, Config.LabelMap>,
    Url: string,
    ExpirationTime: int)

  /** What the loop reads of one service: its name, its domain and its label map (or nil). */
  datatype ServiceRef = ServiceRef(name: string, domain: string, labels: Config.LabelMap?)

  /** The services as the loop reads them. */
  function Refs(services: seq<Config.ServiceConfig>): (r: seq<ServiceRef>)
    reads set k | 0 <= k < |services| :: services[k]
    ensures |r| == |services|
    ensures forall k :: 0 <= k < |services| ==>
      r[k] == ServiceRef(services[k].Name, services[k].Domain, services[k].Labels)
  {
    seq(|services|, k reads services requires 0 <= k < |services| =>
      ServiceRef(services[k].Name, services[k].Domain, services[k].Labels))
  }

  /** The label maps the services hold (nil ones left out). */
  function LabelMaps(refs: seq<ServiceRef>): set<Config.LabelMap> {
    set k | 0 <= k < |refs| && refs[k].labels != null :: refs[k].labels
  }

  /** The service names, in order. */
  function ServiceNames(refs: seq<ServiceRef>): (r: seq<string>)
    ensures |r| == |refs|
    ensures forall k :: 0 <= k < |refs| ==> r[k] == refs[k].name
  {
    seq(|refs|, k requires 0 <= k < |refs| => refs[k].name)
  }

  /** The set of service names. */
  function NameSet(refs: seq<ServiceRef>): set<string> {
    set k | 0 <= k < |refs| :: refs[k].name
  }

  /** No later one of the first `n` services has the same name as service `i`. */
  predicate LastNamedIn(refs: seq<ServiceRef>, i: int, n: int) {
    0 <= i < n <= |refs|
    && forall k :: i < k < n ==> refs[k].name != refs[i].name
  }

  /** The last of the first `n` services that holds label map `m`, or -1. */
  function LastUser(refs: seq<ServiceRef>, m: Config.LabelMap, n: int): (r: int)
    requires 0 <= n <= |refs|
    ensures -1 <= r < n
    ensures r >= 0 ==> refs[r].labels == m
    ensures forall k :: r < k < n ==> refs[k].labels != m
  {
    if n == 0 then -1
    else if refs[n - 1].labels == m then n - 1
    else LastUser(refs, m, n - 1)
  }

  /** What the first `n` iterations leave in map `m`, which held `entries`. */
  function Touched(entries: map<string, string>, refs: seq<ServiceRef>, m: Config.LabelMap, n: int): map<string, string>
    requires 0 <= n <= |refs|
  {
    if n == 0 then entries
    else if refs[n - 1].labels == m then entries[SERVICE_DOMAIN_LABEL := refs[n - 1].domain]
    else Touched(entries, refs, m, n - 1)
  }

  /** Setting `serviceDomain` again overrides whatever the earlier iterations set it to. */
  lemma {:induction false} TouchedAgain(entries: map<string, string>, refs: seq<ServiceRef>, m: Config.LabelMap, n: int, d: string)
    requires 0 <= n <= |refs|
    ensures Touched(entries, refs, m, n)[SERVICE_DOMAIN_LABEL := d] == entries[SERVICE_DOMAIN_LABEL := d]
  {
    if n > 0 && refs[n - 1].labels != m {
      TouchedAgain(entries, refs, m, n - 1, d);
    }
  }

  /**
   * A map that no service holds keeps its entries; otherwise it gets
   * `serviceDomain` set to the domain of the last service that holds it.
   */
  lemma {:induction false} TouchedLast(entries: map<string, string>, refs: seq<ServiceRef>, m: Config.LabelMap, n: int)
    requires 0 <= n <= |refs|
    ensures var j := LastUser(refs, m, n);
      Touched(entries, refs, m, n) == if j < 0 then entries else entries[SERVICE_DOMAIN_LABEL := refs[j].domain]
  {
    if n > 0 && refs[n - 1].labels != m {
      TouchedLast(entries, refs, m, n - 1);
    }
  }

  /** The label maps registered after the first `n` services, the `k`-th of which used `used[k]`. */
  function Registered(refs: seq<ServiceRef>, used: seq<Config.LabelMap>, n: int): map<string, Config.LabelMap>
    requires 0 <= n <= |refs| && n <= |used|
  {
    if n == 0 then map[] else Registered(refs, used, n - 1)[refs[n - 1].name := used[n - 1]]
  }

  /** The registered names are the names of the first `n` services. */
  lemma {:induction false} RegisteredKeys(refs: seq<ServiceRef>, used: seq<Config.LabelMap>, n: int)
    requires 0 <= n <= |refs| && n <= |used|
    ensures Registered(refs, used, n).Keys == set k | 0 <= k < n :: refs[k].name
  {
    if n > 0 {
      RegisteredKeys(refs, used, n - 1);
    }
  }

  /** Under each name, the map of the last service with that name. */
  lemma {:induction false} RegisteredLast(refs: seq<ServiceRef>, used: seq<Config.LabelMap>, n: int, i: int)
    requires n <= |refs| && n <= |used| && LastNamedIn(refs, i, n)
    ensures refs[i].name in Registered(refs, used, n)
    ensures Registered(refs, used, n)[refs[i].name] == used[i]
  {
    if i < n - 1 {
      RegisteredLast(refs, used, n - 1, i);
    }
  }

  /** What is registered after `n` services does not depend on the maps of later ones. */
  lemma {:induction false} RegisteredPrefix(refs: seq<ServiceRef>, used: seq<Config.LabelMap>, x: Config.LabelMap, n: int)
    requires 0 <= n <= |refs| && n <= |used|
    ensures Registered(refs, used + [x], n) == Registered(refs, used, n)
  {
    if n > 0 {
      RegisteredPrefix(refs, used, x, n - 1);
    }
  }

  /** Every map the services held at the start holds what the first `n` iterations leave in it. */
  predicate Tracked(refs: seq<ServiceRef>, initial: map<Config.LabelMap, map<string, string>>, n: int)
    requires 0 <= n <= |refs|
    reads initial.Keys
  {
    forall m :: m in initial ==> m.entries == Touched(initial[m], refs, m, n)
  }

  /**
   * Service `k` used its own map, or, having none, a map of `made`, which is
   * not one of the services' maps, that holds only its domain.
   */
  predicate Created(refs: seq<ServiceRef>, initial: map<Config.LabelMap, map<string, string>>,
                    made: set<Config.LabelMap>, used: seq<Config.LabelMap>)
    requires |used| <= |refs|
    reads set k | 0 <= k < |used| :: used[k]
  {
    forall k :: 0 <= k < |used| ==>
      if refs[k].labels != null then used[k] == refs[k].labels
      else used[k] in made && used[k] !in initial && used[k].entries == map[SERVICE_DOMAIN_LABEL := refs[k].domain]
  }

  /**
   * One pass of the loop over the services: take the service's label map,
   * or a new one when it has none, and set `serviceDomain` in it to the
   * service's domain.
   */
  method AddDomain(refs: seq<ServiceRef>, i: nat, ghost initial: map<Config.LabelMap, map<string, string>>,
                   ghost made: set<Config.LabelMap>, ghost used: seq<Config.LabelMap>)
    returns (labels: Config.LabelMap)
    requires i == |used| < |refs|
    requires initial.Keys == LabelMaps(refs)
    requires Tracked(refs, initial, i) && Created(refs, initial, made, used)
    modifies refs[i].labels
    ensures refs[i].labels != null ==> labels == refs[i].labels
    ensures refs[i].labels == null ==> fresh(labels)
    ensures Tracked(refs, initial, i + 1)
    ensures Created(refs, initial, if refs[i].labels == null then made + {labels} else made, used + [labels])
  {
    var service := refs[i];
    if service.labels == null {
      labels := new Config.LabelMap(map[]);
    } else {
      labels := service.labels;
      assert labels in LabelMaps(refs);
    }
    label before:
    labels.entries := labels.entries[SERVICE_DOMAIN_LABEL := service.domain];
    forall m | m in initial
      ensures m.entries == Touched(initial[m], refs, m, i + 1)
    {
      if m == labels {
        TouchedAgain(initial[m], refs, m, i, service.domain);
      } else {
        assert m.entries == old@before(m.entries);
      }
    }
    var used' := used + [labels];
    var made' := if service.labels == null then made + {labels} else made;
    forall k | 0 <= k < |used'|
      ensures if refs[k].labels != null then used'[k] == refs[k].labels
              else used'[k] in made' && used'[k] !in initial
                   && used'[k].entries == map[SERVICE_DOMAIN_LABEL := refs[k].domain]
    {
      if k < i {
        assert used'[k] == used[k];
        if refs[k].labels == null {
          assert used[k] != labels;
        }
      }
    }
  }

  /** After the last service: under each name, the map of the last service with that name. */
  lemma RegisteredMaps(services: seq<ServiceRef>, initial: map<Config.LabelMap, map<string, string>>,
                       made: set<Config.LabelMap>, used: seq<Config.LabelMap>)
    requires |used| == |services| && Created(services, initial, made, used)
    ensures var labelsOf := Registered(services, used, |services|);
      forall i :: LastNamedIn(services, i, |services|) ==>
        && services[i].name in labelsOf
        && var m := labelsOf[services[i].name];
           if services[i].labels != null then m == services[i].labels
           else m in made && m.entries == map[SERVICE_DOMAIN_LABEL := services[i].domain]
  {
    forall i | LastNamedIn(services, i, |services|) {
      RegisteredLast(services, used, |services|, i);
    }
  }

  /**
   * The loop of `registryEndpoint` over the services: their names in
   * order, and under each name the label map of the last service with that
   * name, which is that service's own map (extended in place) or a new map
   * when it has none. Every map ends with `serviceDomain` set to the domain
   * of the last service that holds it.
   */
  method RegisterServices(services: seq<ServiceRef>) returns (names: seq<string>, labelsOf: map<string, Config.LabelMap>)
    modifies LabelMaps(services)
    ensures names == ServiceNames(services)
    ensures labelsOf.Keys == NameSet(services)
    ensures forall i :: LastNamedIn(services, i, |services|) ==>
      var m := labelsOf[services[i].name];
      if services[i].labels != null then m == services[i].labels
      else fresh(m) && m.entries == map[SERVICE_DOMAIN_LABEL := services[i].domain]
    ensures forall m :: m in LabelMaps(services) ==>
      m.entries == Touched(old(m.entries), services, m, |services|)
  {
    names := seq(|services|, _ => "");
    labelsOf := map[];
    ghost var used: seq<Config.LabelMap> := [];
    ghost var initial := map m | m in LabelMaps(services) :: m.entries;
    ghost var made: set<Config.LabelMap> := {};
    var i := 0;
    while i < |services|
      invariant 0 <= i <= |services| && |names| == |services| && |used| == i
      invariant forall k {:trigger names[k]} :: 0 <= k < i ==> names[k] == services[k].name
      invariant labelsOf == Registered(services, used, i)
      invariant Tracked(services, initial, i) && Created(services, initial, made, used)
      invariant fresh(made)
    {
      var labels := AddDomain(services, i, initial, made, used);
      if services[i].labels == null {
        made := made + {labels};
      }
      names := names[i := services[i].name];
      RegisteredPrefix(services, used, labels, i);
      used := used + [labels];
      labelsOf := labelsOf[services[i].name := labels];
      i := i + 1;
    }
    assert names == ServiceNames(services);
    RegisteredKeys(services, used, i);
    RegisteredMaps(services, initial, made, used);
  }

  /**
   * `registryEndpoint`: the record names the endpoint, gives its URL and
   * an expiration `MaxTokenLifetime` after `now`, and carries what the loop
   * over the services registers.
   */
  method RegistryEndpoint(listenOn: string, cfg: Config.Config, now: int) returns (nse: NetworkServiceEndpoint)
    modifies LabelMaps(Refs(cfg.Services))
    ensures nse.Name == cfg.Name && nse.Url == listenOn
    ensures nse.ExpirationTime == now + cfg.MaxTokenLifetime
    ensures nse.NetworkServiceNames == ServiceNames(old(Refs(cfg.Services)))
    ensures nse.NetworkServiceLabels.Keys == NameSet(old(Refs(cfg.Services)))
    ensures var refs := old(Refs(cfg.Services));
      forall i :: LastNamedIn(refs, i, |refs|) ==>
        var m := nse.NetworkServiceLabels[refs[i].name];
        if refs[i].labels != null then m == refs[i].labels
        else fresh(m) && m.entries == map[SERVICE_DOMAIN_LABEL := refs[i].domain]
    ensures var refs := old(Refs(cfg.Services));
      forall m :: m in LabelMaps(refs) ==> m.entries == Touched(old(m.entries), refs, m, |refs|)
  {
    var services := Refs(cfg.Services);
    var names, labelsOf := RegisterServices(services);
    nse := NetworkServiceEndpoint(cfg.Name, names, labelsOf, listenOn, now + cfg.MaxTokenLifetime);
  }
}
