/**
 * What `registryEndpoint` registers: each service's labels with its domain
 * added, as long as no two services share a label map; a shared map ends
 * with the domain of the last service that holds it.
 */
module RegistryProperties {
  import opened GoTypes
  import Config
  import ConfigProperties
  import opened Registry

  /** No two services hold the same label map (what decoding each service on its own gives). */
  predicate DistinctLabels(refs: seq<ServiceRef>) {
    forall j, k :: 0 <= j < k < |refs| && refs[j].labels != null ==> refs[j].labels != refs[k].labels
  }

  /** With unshared maps, a service's map ends as its old labels plus `serviceDomain` = its domain. */
  lemma OwnMapTouched(entries: map<string, string>, refs: seq<ServiceRef>, i: int)
    requires DistinctLabels(refs) && 0 <= i < |refs| && refs[i].labels != null
    ensures Touched(entries, refs, refs[i].labels, |refs|) == entries[SERVICE_DOMAIN_LABEL := refs[i].domain]
  {
    var m := refs[i].labels;
    TouchedLast(entries, refs, m, |refs|);
    var j := LastUser(refs, m, |refs|);
    assert j == i;
  }

  /** The labels other than `serviceDomain` are the service's own, untouched. */
  lemma OwnLabelsKept(entries: map<string, string>, refs: seq<ServiceRef>, i: int, key: string)
    requires DistinctLabels(refs) && 0 <= i < |refs| && refs[i].labels != null
    requires key != SERVICE_DOMAIN_LABEL
    ensures key in Touched(entries, refs, refs[i].labels, |refs|) <==> key in entries
    ensures key in entries ==> Touched(entries, refs, refs[i].labels, |refs|)[key] == entries[key]
  {
    OwnMapTouched(entries, refs, i);
  }

  /** A map that two services share ends with the domain of the later one. */
  lemma SharedMapLastDomain(entries: map<string, string>, m: Config.LabelMap, a: ServiceRef, b: ServiceRef)
    requires a.labels == m && b.labels == m && a.domain != b.domain
    ensures Touched(entries, [a, b], m, 2) == entries[SERVICE_DOMAIN_LABEL := b.domain]
    ensures Touched(entries, [a, b], m, 2)[SERVICE_DOMAIN_LABEL] != a.domain
  {
  }

  /** A map no service holds is left as it was. */
  lemma {:induction false} UnheldMapKept(entries: map<string, string>, refs: seq<ServiceRef>, m: Config.LabelMap, n: int)
    requires 0 <= n <= |refs|
    requires forall k :: 0 <= k < n ==> refs[k].labels != m
    ensures Touched(entries, refs, m, n) == entries
  {
    if n > 0 {
      UnheldMapKept(entries, refs, m, n - 1);
    }
  }

  /** The registration of the decoder's test descriptor, on its own, under name `nse-1`. */
  method RegisterTestDescriptor() returns (nse: NetworkServiceEndpoint)
    ensures nse.Name == "nse-1"
    ensures nse.NetworkServiceNames == ["pingpong"]
    ensures nse.NetworkServiceLabels.Keys == {"pingpong"}
    ensures nse.NetworkServiceLabels["pingpong"].entries == map[SERVICE_DOMAIN_LABEL := "worker.domain"]
  {
    var service, err := ConfigProperties.UnmarshalTestDescriptor();
    var cfg := Config.Config("nse-1", 0, [service]);
    ghost var refs := Refs(cfg.Services);
    assert refs == [ServiceRef("pingpong", "worker.domain", null)];
    nse := RegistryEndpoint("unix:///listen.on.sock", cfg, 0);
    assert LastNamedIn(refs, 0, 1);
    assert NameSet(refs) == {"pingpong"};
  }
}
