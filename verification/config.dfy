/**
 * The per-service descriptor decoder: `ServiceConfig.UnmarshalBinary` and
 * its helpers `trimPrefix`, `parseInt32`, `parseMap` and `validate`.
 *
 * A descriptor reads `Name@Domain: { addr: MAC; vlan: TAG; labels: k=v&k2=v2; payload: P }`.
 * The decoder splits it with plain substring splits, fills the receiver's
 * fields one after another and returns at the first error, leaving the
 * fields it has already written in place.
 */
module Config {
  import opened GoTypes
  import opened GoStrings
  import GoStrconv
  import GoNet

  const ADDR_PREFIX := "addr:"
  const VLAN_PREFIX := "vlan:"
  const LABELS_PREFIX := "labels:"
  const PAYLOAD_PREFIX := "payload:"

  /** `payload.Ethernet` of the networkservicemesh API: the payload a descriptor gets by default. */
  const ETHERNET := "ETHERNET"

  /** The errors the decoder returns, with the text each one quotes. */
  datatype DecodeError =
    | InvalidFormat(text: string)       // missing `@` or `{`, or a segment with no known prefix
    | InvalidMac(addr: string)          // from `net.ParseMAC`
    | InvalidInt(num: string)           // from `strconv.ParseInt`
    | InvalidKeyValuePair(pair: string) // from `parseMap`
    | NameEmpty
    | DomainEmpty
    | MacEmpty

  /** The fields of a `ServiceConfig` as values; `labels` is `None` for a nil map. */
  datatype ServiceFields = ServiceFields(
    name: string,
    domain: string,
    payload: string,
    macAddr: seq<uint8>,
    vlanTag: int32,
    labels: Option<map<string, string>>)

  /** The zero value of `ServiceConfig`, which is what `new(config.ServiceConfig)` gives. */
  const ZERO_FIELDS := ServiceFields("", "", "", [], 0, None)

  /** A Go `map[string]string`: a reference, so that whoever holds it sees the updates. */
  class LabelMap {
    var entries: map<string, string>

    constructor (m: map<string, string>)
      ensures entries == m
    {
      entries := m;
    }
  }

  /** The decoder's state: one service of the configuration. */
  class ServiceConfig {
    var Name: string
    var Domain: string
    var Payload: string
    var MACAddr: seq<uint8>
    var VLANTag: int32
    var Labels: LabelMap?

    /** `new(config.ServiceConfig)`: every field at its zero value. */
    constructor ()
      ensures Fields() == ZERO_FIELDS
    {
      Name, Domain, Payload, MACAddr, VLANTag, Labels := "", "", "", [], 0, null;
    }

    /** The current field values. */
    function Fields(): ServiceFields
      reads this, Labels
    {
      ServiceFields(Name, Domain, Payload, MACAddr, VLANTag,
                    if Labels == null then None else Some(Labels.entries))
    }

    /**
     * `UnmarshalBinary`: the new field values and the error are those of
     * `Decode` on the old field values; a label map it installs is new.
     */
    method UnmarshalBinary(text: string) returns (err: Option<DecodeError>)
      modifies this
      ensures (Fields(), err) == Decode(old(Fields()), text)
      ensures Labels != null && Labels != old(Labels) ==> fresh(Labels)
    {
      ghost var f0 := Fields();
      var split := Split(text, '@');
      Name := TrimSpace(split[0]);
      assert Fields() == f0.(name := TrimSpace(split[0]));
      if |split| < 2 {
        return Some(InvalidFormat(text));
      }
      split := Split(split[1], ':');
      Domain := TrimSpace(split[0]);
      ghost var f2 := Fields();
      split := Split(text, '{');
      if |split| < 2 {
        return Some(InvalidFormat(text));
      }
      Payload := ETHERNET;
      assert Fields() == f2.(payload := ETHERNET);
      split := Split(split[1], '}');
      var parts := Split(split[0], ';');
      assert Decode(f0, text) == Finish(ApplyFields(Fields(), parts, text));
      ghost var start := Fields();
      var i := 0;
      while i < |parts|
        invariant 0 <= i <= |parts|
        invariant ApplyFields(start, parts, text) == ApplyFields(Fields(), parts[i..], text)
        invariant Labels != null && Labels != old(Labels) ==> fresh(Labels)
      {
        assert parts[i..][1..] == parts[i + 1..];
        err := ApplyPart(TrimSpace(parts[i]), text);
        if err.Some? {
          return err;
        }
        i := i + 1;
      }
      err := Validate(Fields());
    }

    /**
     * One pass of the `switch` over a trimmed segment: the field values and
     * the error are those of `ApplyField`.
     */
    method ApplyPart(part: string, text: string) returns (err: Option<DecodeError>)
      modifies this
      ensures (Fields(), err) == ApplyField(old(Fields()), part, text)
      ensures Labels != null && Labels != old(Labels) ==> fresh(Labels)
    {
      err := None;
      if HasPrefix(part, ADDR_PREFIX) {
        err := AssignMac(TrimPrefixSpace(part, ADDR_PREFIX));
      } else if HasPrefix(part, VLAN_PREFIX) {
        err := AssignVlan(TrimPrefixSpace(part, VLAN_PREFIX));
      } else if HasPrefix(part, LABELS_PREFIX) {
        err := AssignLabels(TrimPrefixSpace(part, LABELS_PREFIX));
      } else if HasPrefix(part, PAYLOAD_PREFIX) {
        Payload := TrimPrefixSpace(part, PAYLOAD_PREFIX);
      } else {
        err := Some(InvalidFormat(text));
      }
    }

    /** `s.MACAddr, err = net.ParseMAC(addr)` */
    method AssignMac(addr: string) returns (err: Option<DecodeError>)
      modifies this
      ensures (Fields(), err) == SetMac(old(Fields()), addr)
      ensures Labels == old(Labels)
    {
      var hw := GoNet.ParseMac(addr);
      MACAddr := if hw.Some? then hw.value else [];
      err := if hw.None? then Some(InvalidMac(addr)) else None;
    }

    /** `s.VLANTag, err = parseInt32(tag)` */
    method AssignVlan(tag: string) returns (err: Option<DecodeError>)
      modifies this
      ensures (Fields(), err) == SetVlan(old(Fields()), tag)
      ensures Labels == old(Labels)
    {
      var t := ParseInt32(tag);
      VLANTag := if t.Ok? then t.value else 0;
      err := if t.Err? then Some(t.error) else None;
    }

    /** `s.Labels, err = parseMap(labels)`: a new map, or nil on error. */
    method AssignLabels(labels: string) returns (err: Option<DecodeError>)
      modifies this
      ensures (Fields(), err) == SetLabels(old(Fields()), labels)
      ensures Labels != null ==> fresh(Labels)
    {
      var m := ParseMap(labels);
      if m.Ok? {
        Labels := new LabelMap(m.value);
        err := None;
      } else {
        Labels := null;
        err := Some(m.error);
      }
    }
  }

  /** The configuration as far as the core reads it (`Config.Process` is not part of this model). */
  datatype Config = Config(Name: string, MaxTokenLifetime: int, Services: seq<ServiceConfig>)

  /** The field values of every service, in order. */
  function Snapshot(services: seq<ServiceConfig>): (r: seq<ServiceFields>)
    reads set k | 0 <= k < |services| :: services[k]
    reads set k | 0 <= k < |services| && services[k].Labels != null :: services[k].Labels
    ensures |r| == |services|
    ensures forall k :: 0 <= k < |services| ==> r[k] == services[k].Fields()
  {
    seq(|services|, k reads services, (if 0 <= k < |services| then services[k].Labels else null)
                      requires 0 <= k < |services| => services[k].Fields())
  }

  /** `trimPrefix`: drop the prefix, then the white space around what is left. */
  function TrimPrefixSpace(s: string, prefix: string): (r: string)
    ensures Trimmed(r)
    ensures |r| <= |s|
  {
    TrimSpace(TrimPrefix(s, prefix))
  }

  /** `parseInt32`: `strconv.ParseInt(s, 0, 32)`, with its error. */
  function ParseInt32(s: string): (r: Result<int32, DecodeError>)
    ensures r.Ok? <==> GoStrconv.ParseInt(s).Some?
    ensures r.Ok? ==> r.value as int == GoStrconv.ParseInt(s).value
    ensures r.Err? ==> r.error == InvalidInt(s)
  {
    match GoStrconv.ParseInt(s)
    case Some(i) => Ok(i as int32)
    case None => Err(InvalidInt(s))
  }

  /**
   * What `parseMap`'s loop builds from the pieces of its argument: each
   * piece `k=v` sets `k` to `v` (later pieces win); the first piece that
   * does not split into exactly two parts at `=` is the error.
   */
  function InsertPairs(m: map<string, string>, pieces: seq<string>): Result<map<string, string>, DecodeError>
    decreases |pieces|
  {
    if pieces == [] then Ok(m)
    else
      var kv := Split(pieces[0], '=');
      if |kv| != 2 then Err(InvalidKeyValuePair(pieces[0]))
      else InsertPairs(m[kv[0] := kv[1]], pieces[1..])
  }

  /** The labels `parseMap` reads from `s`. */
  function LabelsOf(s: string): Result<map<string, string>, DecodeError> {
    InsertPairs(map[], Split(s, '&'))
  }

  /** `parseMap`: split on `&`, then each piece on `=`, filling a fresh map. */
  method ParseMap(s: string) returns (r: Result<map<string, string>, DecodeError>)
    ensures r == LabelsOf(s)
  {
    var m := map[];
    var pieces := Split(s, '&');
    var i := 0;
    while i < |pieces|
      invariant 0 <= i <= |pieces|
      invariant LabelsOf(s) == InsertPairs(m, pieces[i..])
    {
      assert pieces[i..][1..] == pieces[i + 1..];
      var split := Split(pieces[i], '=');
      if |split| != 2 {
        return Err(InvalidKeyValuePair(pieces[i]));
      }
      m := m[split[0] := split[1]];
      i := i + 1;
    }
    r := Ok(m);
  }

  /** `validate`: name, then domain, then MAC address must be non-empty. */
  function Validate(f: ServiceFields): (r: Option<DecodeError>)
    ensures r.None? <==> f.name != "" && f.domain != "" && f.macAddr != []
    ensures f.name == "" ==> r == Some(NameEmpty)
    ensures f.name != "" && f.domain == "" ==> r == Some(DomainEmpty)
    ensures f.name != "" && f.domain != "" && f.macAddr == [] ==> r == Some(MacEmpty)
  {
    GoNet.MacStringEmpty(f.macAddr);
    if f.name == "" then Some(NameEmpty)
    else if f.domain == "" then Some(DomainEmpty)
    else if GoNet.MacString(f.macAddr) == "" then Some(MacEmpty)
    else None
  }

  /** The segment (already trimmed) starts with one of the four field names and its colon. */
  predicate KnownField(part: string) {
    HasPrefix(part, ADDR_PREFIX) || HasPrefix(part, VLAN_PREFIX)
    || HasPrefix(part, LABELS_PREFIX) || HasPrefix(part, PAYLOAD_PREFIX)
  }

  /**
   * One pass of the loop over `;`-segments on a trimmed segment: the field
   * it names is overwritten, with its parser's zero value when that parser
   * fails.
   */
  function ApplyField(f: ServiceFields, part: string, text: string): (r: (ServiceFields, Option<DecodeError>))
    ensures r.0.name == f.name && r.0.domain == f.domain
    ensures r.1.None? ==> KnownField(part)
    ensures !KnownField(part) ==> r == (f, Some(InvalidFormat(text)))
  {
    if HasPrefix(part, ADDR_PREFIX) then SetMac(f, TrimPrefixSpace(part, ADDR_PREFIX))
    else if HasPrefix(part, VLAN_PREFIX) then SetVlan(f, TrimPrefixSpace(part, VLAN_PREFIX))
    else if HasPrefix(part, LABELS_PREFIX) then SetLabels(f, TrimPrefixSpace(part, LABELS_PREFIX))
    else if HasPrefix(part, PAYLOAD_PREFIX) then (f.(payload := TrimPrefixSpace(part, PAYLOAD_PREFIX)), None)
    else (f, Some(InvalidFormat(text)))
  }

  /** `s.MACAddr, err = net.ParseMAC(addr)`: the parsed address, or nil and the error. */
  function SetMac(f: ServiceFields, addr: string): (r: (ServiceFields, Option<DecodeError>))
    ensures r.0 == f.(macAddr := r.0.macAddr)
    ensures r.1.None? <==> GoNet.ParseMac(addr).Some?
  {
    match GoNet.ParseMac(addr)
    case Some(hw) => (f.(macAddr := hw), None)
    case None => (f.(macAddr := []), Some(InvalidMac(addr)))
  }

  /** `s.VLANTag, err = parseInt32(tag)`: the parsed tag, or 0 and the error. */
  function SetVlan(f: ServiceFields, tag: string): (r: (ServiceFields, Option<DecodeError>))
    ensures r.0 == f.(vlanTag := r.0.vlanTag)
    ensures r.1.None? <==> GoStrconv.ParseInt(tag).Some?
  {
    match ParseInt32(tag)
    case Ok(t) => (f.(vlanTag := t), None)
    case Err(e) => (f.(vlanTag := 0), Some(e))
  }

  /** `s.Labels, err = parseMap(labels)`: the parsed map, or nil and the error. */
  function SetLabels(f: ServiceFields, labels: string): (r: (ServiceFields, Option<DecodeError>))
    ensures r.0 == f.(labels := r.0.labels)
    ensures r.1.None? <==> r.0.labels.Some?
  {
    match LabelsOf(labels)
    case Ok(m) => (f.(labels := Some(m)), None)
    case Err(e) => (f.(labels := None), Some(e))
  }

  /** The loop over `;`-segments: each segment trimmed and applied in order, stopping at the first error. */
  function ApplyFields(f: ServiceFields, parts: seq<string>, text: string): (r: (ServiceFields, Option<DecodeError>))
    ensures r.0.name == f.name && r.0.domain == f.domain
    decreases |parts|
  {
    if parts == [] then (f, None)
    else
      var r := ApplyField(f, TrimSpace(parts[0]), text);
      if r.1.Some? then r else ApplyFields(r.0, parts[1..], text)
  }

  /** After the loop: its error if it had one, otherwise the verdict of `validate`. */
  function Finish(r: (ServiceFields, Option<DecodeError>)): (ServiceFields, Option<DecodeError>) {
    if r.1.Some? then r else (r.0, Validate(r.0))
  }

  /**
   * `UnmarshalBinary` on a receiver holding `f`: the field values it leaves
   * and the error it returns.
   */
  function Decode(f: ServiceFields, text: string): (r: (ServiceFields, Option<DecodeError>))
    ensures r.1.None? ==> r.0.name != "" && r.0.domain != "" && r.0.macAddr != []
  {
    var split := Split(text, '@');
    var f1 := f.(name := TrimSpace(split[0]));
    if |split| < 2 then (f1, Some(InvalidFormat(text)))
    else
      var f2 := f1.(domain := TrimSpace(Split(split[1], ':')[0]));
      var braces := Split(text, '{');
      if |braces| < 2 then (f2, Some(InvalidFormat(text)))
      else
        var f3 := f2.(payload := ETHERNET);
        var body := Split(braces[1], '}')[0];
        Finish(ApplyFields(f3, Split(body, ';'), text))
  }
}
