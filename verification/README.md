# cmd-nse-vfio core in Dafny

A model of the core of the VFIO network service endpoint (NSE), with proofs about it. The core has three parts.

- **The service descriptor decoder** (`internal/config/config.go`). `ServiceConfig.UnmarshalBinary` reads a text of the form `Name@Domain: { addr: MAC; vlan: TAG; labels: k=v&k2=v2; payload: P }` into a service. It uses the helpers `trimPrefix`, `parseInt32`, `parseMap` and `validate`.
- **The mapping server** (`internal/networkservice/mapserver/server.go`). It is the `network service -> { MAC, VLAN }` chain element. `NewServer` builds a table from the configured services. `Request` looks up the connection's network service and stamps that service's MAC address and VLAN tag onto the connection's Ethernet context, in place. Then it hands the request to the next chain element. `Close` only forwards.
- **`registryEndpoint`** (`main.go`). It builds the registration record the endpoint sends to the registry. Along the way it adds the `serviceDomain` label (`main.go:62`) to every service's own label map.

Files:

- `go_types.dfy`: `uint8` and `int32` as newtypes, plus `Option` and `Result`.
- `go_strings.dfy`: `strings.TrimSpace`, `Split`, `HasPrefix` and `TrimPrefix`, with `unicode.IsSpace`.
- `go_strconv.dfy`: `strconv.ParseInt(s, 0, 32)` and `Itoa`.
- `go_net.dfy`: `net.ParseMAC` and `HardwareAddr.String`.
- `config.dfy`: the decoder. `ServiceConfig` is a class whose fields `UnmarshalBinary` overwrites one after another. `UnmarshalBinary` and its loop over the segments are proved against the function `Decode` and the segment fold `ApplyFields`, which give the field values and the error it leaves. `ParseMap`'s loop over the `&`-pieces is proved against the function `LabelsOf`.
- `config_properties.dfy`: what decoding means.
  - The round trip: a printed descriptor decodes back to its fields.
  - Later fields override earlier ones.
  - The first failing segment stops the decode and keeps what was already written.
  - The rejected inputs, and the decoder's test descriptor.
- `mapserver.dfy`: the mapping server.
  - The connection, its context and its Ethernet context are classes that `Request` updates in place.
  - The next chain element is a class that records what it is handed.
  - `Request` is proved against the value function `Stamp`.
- `mapserver_properties.dfy`: what the table and the stamp amount to, and the test descriptor served end to end.
- `registry.dfy`: `registryEndpoint`. A Go `map[string]string` is a reference (`Config.LabelMap`), so the model captures that the label maps are updated in place and shared between services and registration records.
- `registry_properties.dfy`: what that aliasing amounts to.

### Behaviour worth knowing

- **Stamped fields.** `Request` stamps the destination MAC address and the VLAN tag onto the Ethernet context (`server.go:75-76`). The payload and the labels are not stamped.
- **Empty segments fail.** An empty segment, such as `{ }` or a trailing `;`, matches no field name and fails with "invalid format" (`config.go:99-111`).
- **Where the body ends.** The body runs from the first `{` to the next `}` or `{`, or to the end of the text if neither follows (`config.go:90`, `config.go:98`). A missing `}` is therefore accepted, and whatever follows the end of the body is ignored. A `}` before the first `{` ends nothing.
- **MAC validation.** `validate` only checks that the printed MAC address is non-empty (`config.go:153`). A malformed address is refused earlier, by `net.ParseMAC` (`config.go:103`).
- **Error texts.** A bad MAC address, integer or label pair is reported with that piece of text (`config.go:103-107`, `config.go:126-139`). A missing `@` or `{`, or a segment with no known field name, is reported with the whole text (`config.go:84`, `config.go:92`, `config.go:111`).
- **Labels without `labels:`.** Only a `labels:` segment writes `Labels` (`config.go:107`). Without one the receiver's labels are kept, which is nil (`None`) for a new receiver.
- **Registration record.** It carries each service's name and labels. The payload is not part of it (`main.go:267-270`).
- **Default payload.** The decoder's own test (`internal/config/config_test.go:18-22`) expects `Payload` to be empty after decoding `pingpong@worker.domain: { addr: 0a:55:44:33:22:11 }`. The code sets it to `payload.Ethernet` (`config.go:96`). `ConfigProperties.DecodeTestDescriptor` proves the code's result, with `ETHERNET`.

## Model

| member | source | states |
|---|---|---|
| Config.ServiceConfig.constructor | internal/config/config_test.go:13 | `new(config.ServiceConfig)`: every field holds its zero value. |
| Config.ServiceConfig.UnmarshalBinary | internal/config/config.go:77-119 | The new field values and the returned error are exactly those of `Decode` on the old field values. A label map it installs is newly allocated. |
| Config.ServiceConfig.ApplyPart | internal/config/config.go:100-115 | One pass of the `switch` over a trimmed segment leaves the fields and the error that `ApplyField` gives. |
| Config.ServiceConfig.AssignMac | internal/config/config.go:103 | Only the MAC address changes. It becomes the parsed address, or nil on error. The error is reported exactly when `ParseMAC` fails. |
| Config.ServiceConfig.AssignVlan | internal/config/config.go:105 | Only the VLAN tag changes. It becomes the parsed tag, or 0 on error. The error is reported exactly when `ParseInt` fails. |
| Config.ServiceConfig.AssignLabels | internal/config/config.go:107 | Only the labels change. They become a newly allocated map holding the parsed labels, or nil on error. |
| Config.TrimPrefixSpace | internal/config/config.go:121-124 | `trimPrefix` returns text that starts and ends with no white space and is no longer than its input. |
| Config.ParseInt32 | internal/config/config.go:126-132 | Succeeds exactly when `ParseInt(s, 0, 32)` does, with that value. Otherwise the error quotes `s`. |
| Config.ParseMap | internal/config/config.go:134-144 | The loop over `&`-pieces returns what `LabelsOf` says: the map of the pieces in order, or the error of the first bad piece. |
| Config.Validate | internal/config/config.go:146-157 | No error exactly when name, domain and MAC address are all non-empty. Otherwise the error names the first empty one, in that order. |
| Config.ApplyField | internal/config/config.go:100-112 | Name and domain are untouched. A segment with no known field name leaves the fields unchanged and fails with "invalid format". A segment can succeed only if it has a known field name. |
| Config.SetMac | internal/config/config.go:103 | Only the MAC address changes. There is an error exactly when `ParseMAC` refuses the text. |
| Config.SetVlan | internal/config/config.go:105 | Only the VLAN tag changes. There is an error exactly when `ParseInt` refuses the text. |
| Config.SetLabels | internal/config/config.go:107 | Only the labels change. There is an error exactly when they end nil. |
| Config.ApplyFields | internal/config/config.go:99-116 | The loop over segments never changes the name or the domain. |
| Config.Decode | internal/config/config.go:77-119 | A successful decode leaves a non-empty name, domain and MAC address. |
| ConfigProperties.DecodeFrame | internal/config/config.go:80-99 | For a descriptor whose name, domain and segments avoid the split characters: name and domain come back as written, the payload gets its default, and the segments are applied in order and then validated. This holds for every tail after the body that is empty or starts with `}` or `{`: the body ends there, and the rest of the text is ignored. |
| ConfigProperties.AtSplit | internal/config/config.go:80-87 | Cutting a formatted descriptor at `@` gives the name, and the next piece cut at `:` gives the domain. |
| ConfigProperties.BraceSplit | internal/config/config.go:90-98 | Cutting a formatted descriptor at `{` and the second piece at `}` gives exactly the body, whatever the allowed tail after it holds. |
| ConfigProperties.ApplyFieldsText | internal/config/config.go:99-116 | The segment loop uses the whole text only as the quote of an "invalid format" error: two texts give the same fields and the same error up to that quote. |
| ConfigProperties.TailIgnored | internal/config/config.go:90-98 | Two descriptors that differ only after the body, with the body ended by `}`, a second `{` or the end of the text, decode to the same fields and the same error, up to the quoted text. |
| ConfigProperties.RoundTrip | internal/config/config.go:77-118 | Decoding a printed well-formed descriptor writes its name and domain, then the default payload, then each field's effect in order, and ends with `validate`'s verdict on the result. |
| ConfigProperties.SpacedTrim | internal/config/config.go:100 | A segment ` p v `, trimmed, is `p v` (just `p` when `v` is empty). |
| ConfigProperties.PartPrefix | internal/config/config.go:121-124 | The trimmed segment starts with its field name, and `trimPrefix` gives back exactly the value. |
| ConfigProperties.InsertPairTexts | internal/config/config.go:136-142 | Pieces `k=v` whose keys and values avoid `&`, `=` and the split characters fill the map in order. |
| ConfigProperties.LabelsOfJoin | internal/config/config.go:134-144 | `parseMap` reads back the labels of `k1=v1&k2=v2...`: the pairs inserted in order. |
| ConfigProperties.ApplyAddr | internal/config/config.go:103 | A printed address of 6, 8 or 20 octets sets exactly that address, with no error. |
| ConfigProperties.ApplyVlan | internal/config/config.go:105 | Every printed int32 sets exactly that tag, with no error. There is no 12-bit VLAN range check. |
| ConfigProperties.ApplyLabels | internal/config/config.go:107 | Printed labels set the label map to the one the pairs denote. |
| ConfigProperties.ApplyPayload | internal/config/config.go:109 | A printed payload sets the payload to exactly that text. |
| ConfigProperties.ApplySegment | internal/config/config.go:100-112 | One printed field, trimmed and applied, has exactly that field's effect and no error. |
| ConfigProperties.ApplySegments | internal/config/config.go:99-116 | The printed fields, applied in order, have the fields' effects in order and no error. |
| ConfigProperties.EffectsSnoc | internal/config/config.go:99-116 | Applying fields is a left fold: one more field at the end applies after all the others. |
| ConfigProperties.EffectsKeepHeader | internal/config/config.go:99-116 | Fields never change the name or the domain. |
| ConfigProperties.EffectsMac | internal/config/config.go:103 | The MAC address is the last `addr` field's, or the starting one if there is none. |
| ConfigProperties.EffectsVlan | internal/config/config.go:105 | The VLAN tag is the last `vlan` field's, or the starting one if there is none. |
| ConfigProperties.EffectsLabels | internal/config/config.go:107 | The labels are exactly the last `labels` field's (they are replaced, not merged), or the starting ones. |
| ConfigProperties.EffectsPayload | internal/config/config.go:109 | The payload is the last `payload` field's, or the starting one if there is none. |
| ConfigProperties.DecodePayload | internal/config/config.go:95-109 | After decoding, the payload is `ETHERNET` unless a `payload:` field appears. If one does, it is the last such field's value. |
| ConfigProperties.DecodeHeaderAndMac | internal/config/config.go:80-103 | Name and domain come back as written, and the MAC address is the last `addr` field's. |
| ConfigProperties.DecodeNoAddr | internal/config/config.go:153-155 | Without an `addr` field, decoding into a receiver with no address fails with "MAC address is empty". |
| ConfigProperties.DecodeNameEmpty | internal/config/config.go:147-149 | An empty name fails with "name is empty", whatever else the descriptor holds. |
| ConfigProperties.ApplyFieldsAppend | internal/config/config.go:99-116 | Two runs of segments: the second runs only if the first had no error. |
| ConfigProperties.ApplyStops | internal/config/config.go:113-115 | After the printed fields, the first failing segment ends the loop with that segment's verdict. |
| ConfigProperties.DecodeStops | internal/config/config.go:99-116 | Well-formed fields followed by a failing segment: the decode returns that segment's error, and every field written before it keeps its value. |
| ConfigProperties.EmptyBodyRejected | internal/config/config.go:110-111 | `{ }` fails with "invalid format", after the name, domain and default payload are written. |
| ConfigProperties.TrailingSemicolonRejected | internal/config/config.go:99-111 | A `;` after the last field fails with "invalid format", after every field has been written. |
| ConfigProperties.SpaceBeforeColonPart | internal/config/config.go:101-111 | `addr : v` matches no field name and fails with "invalid format", leaving the fields unchanged. |
| ConfigProperties.SpaceBeforeColonRejected | internal/config/config.go:101-111 | A descriptor whose only segment is `addr : v` is rejected with "invalid format". |
| ConfigProperties.VlanOverflowPart | internal/config/config.go:126-131 | `vlan: 2147483648` fails with that number's parse error and sets the tag to 0. |
| ConfigProperties.VlanOverflowRejected | internal/config/config.go:105 | The overflowing tag after well-formed fields: those fields keep their values, the tag is 0, and the error is the parse error. |
| ConfigProperties.ShortMacRejected | internal/config/config.go:103 | A five-octet address fails with its own text quoted, and the address becomes nil. |
| ConfigProperties.EmptyLabelsRejected | internal/config/config.go:136-139 | `labels:` with nothing after it is one piece without `=`. It is rejected, and the labels become nil. |
| ConfigProperties.NoAtRejected | internal/config/config.go:80-85 | Without `@`, decoding fails at once. The whole text, trimmed, becomes the name. |
| ConfigProperties.NoBraceRejected | internal/config/config.go:87-93 | With `@` but without `{`, decoding fails after writing only the name and the domain. |
| ConfigProperties.InsertPairsResult | internal/config/config.go:134-144 | `parseMap`'s pieces succeed exactly when every piece has exactly one `=`. If so, the result holds their keys and values inserted in order. If not, the error quotes the first piece that does not. |
| ConfigProperties.InsertAllLookup | internal/config/config.go:141 | A key is present exactly when it was there before or some pair has it. Its value is that of the last pair with that key. |
| ConfigProperties.LastKeyWins | internal/config/config.go:141 | `a=1&a=2` maps `a` to `2`. |
| ConfigProperties.LabelsNotTrimmed | internal/config/config.go:137-141 | Keys and values are not trimmed: `a = b` gives the key `a ` with the value ` b`. |
| ConfigProperties.DecodeTestDescriptor | internal/config/config_test.go:15-16 | The test descriptor decodes into a zero receiver without error: name `pingpong`, domain `worker.domain`, the six octets, VLAN 0, payload `ETHERNET`, nil labels. |
| ConfigProperties.UnmarshalTestDescriptor | internal/config/config_test.go:13-16 | `new(ServiceConfig)` and then `UnmarshalBinary` of the test descriptor returns no error and leaves those values. |
| ConfigProperties.ApplyFieldsMac | internal/config/config.go:99-116 | Starting from a nil or parsed address, the loop leaves a nil or parsed address. |
| ConfigProperties.DecodedMacValid | internal/config/config.go:153 | A successful decode into a receiver with a nil or parsed address leaves an address of 6, 8 or 20 octets. |
| GoStrings.TrimSpace | internal/config/config.go:81 | The result is the input with white space removed from both ends. It neither starts nor ends with white space. |
| GoStrings.TrimSpacePadded | internal/config/config.go:100 | White space, then trimmed text, then white space, trims to that text. |
| GoStrings.TrimPrefix | internal/config/config.go:122 | The prefix is dropped when the text starts with it. Otherwise the text is returned as it is. |
| GoStrings.Split | internal/config/config.go:80 | One more piece than there are separators. No piece holds the separator. Joining the pieces gives back the text. |
| GoStrings.SplitJoin | internal/config/config.go:99 | Splitting joined pieces that avoid the separator gives back the pieces. |
| GoStrings.SplitFirst | internal/config/config.go:80-81 | The first piece is everything before the first separator. |
| GoStrings.SplitAfter | internal/config/config.go:98 | Text without the separator, placed in front of more text, is joined to the first piece of that text. |
| GoStrings.SplitNoSeparator | internal/config/config.go:83 | Text without the separator splits into itself alone. |
| GoStrconv.ParseUint32 | internal/config/config.go:127 | Any accepted value fits in 32 unsigned bits. |
| GoStrconv.ParseInt | internal/config/config.go:127 | Any accepted value lies in the int32 range. |
| GoStrconv.ParseFormatInt | internal/config/config.go:127 | Every int32, printed in decimal, is read back as itself. |
| GoStrconv.ParseIntRange | internal/config/config.go:127 | One past either end of the int32 range is refused. |
| GoStrconv.ParseIntPrefixes | internal/config/config.go:127 | With base 0, `0x10` is 16 and `010` is 8. |
| GoStrconv.ParseIntDecimal | internal/config/config.go:127 | `100` is 100, and a lone `0` is 0. |
| GoStrconv.ParseIntRejects | internal/config/config.go:127 | These are refused: empty text, a bare `0x`, a digit outside the base, and a leading blank. |
| GoStrconv.ParseIntUnderscores | internal/config/config.go:127 | `1_000` is 1000, and a leading underscore is refused. |
| GoNet.MacString | internal/networkservice/mapserver/server.go:75 | The printed form has two characters per octet plus the colons between them. |
| GoNet.MacStringEmpty | internal/config/config.go:153 | An address prints as "" exactly when it has no octets. |
| GoNet.MacStringChars | internal/networkservice/mapserver/server.go:75 | A printed address holds only lower-case hexadecimal digits and colons, and starts and ends with a digit. |
| GoNet.ParseMac | internal/config/config.go:103 | An accepted address has 6, 8 or 20 octets. |
| GoNet.ParseMacString | internal/networkservice/mapserver/server.go:75 | Printing an address of an accepted length and parsing it again gives back that address. |
| GoNet.MacStringExample | internal/networkservice/mapserver/server.go:75 | The test address prints as `0a:55:44:33:22:11`. |
| GoNet.ParseMacColon | internal/config/config.go:103 | `0a:55:44:33:22:11` parses to the six octets. |
| GoNet.ParseMacDash | internal/config/config.go:103 | `0A-55-44-33-22-11` parses to the same octets. |
| GoNet.ParseMacDotted | internal/config/config.go:103 | `0a55.4433.2211` parses to the same octets. |
| GoNet.ParseMacRejects | internal/config/config.go:103 | Five octets are refused, and so are mixed separators. |
| MapServer.EthernetContext.constructor | internal/networkservice/mapserver/server.go:71 | A new Ethernet context is empty. |
| MapServer.ConnectionContext.constructor | internal/networkservice/mapserver/server.go:68 | A new connection context is empty and has no Ethernet context. |
| MapServer.Stamp | internal/networkservice/mapserver/server.go:67-76 | The stamped connection keeps its id and network service. It has a context and an Ethernet context. Its destination MAC address is the entry's address, printed, and its VLAN tag is the entry's. |
| MapServer.NextServer.Request | internal/networkservice/mapserver/server.go:78 | The next element records the connection it is handed and answers with its reply. |
| MapServer.NextServer.Close | internal/networkservice/mapserver/server.go:82 | The next element records the closed connection and answers with its close reply. |
| MapServer.FillTable | internal/networkservice/mapserver/server.go:48-54 | The loop over the services builds `BuildTable` of their field values. |
| MapServer.MapServer.constructor | internal/networkservice/mapserver/server.go:43-57 | `NewServer`: the table is `BuildTable` of the configured services. |
| MapServer.MapServer.Request | internal/networkservice/mapserver/server.go:59-79 | Miss: the request fails with "not supported" naming the service, and nothing changes or is forwarded. A nil connection whose empty name is in the table is an error. Hit: the connection becomes `Stamp` of its old value with the entry, and it is forwarded. The result is the next element's reply. Existing contexts are reused, and created ones are new. |
| MapServer.MapServer.Close | internal/networkservice/mapserver/server.go:81-83 | The connection is forwarded to the next element, and its answer is returned. |
| MapServerProperties.TableKeys | internal/networkservice/mapserver/server.go:48-54 | The table has an entry for exactly the configured names. |
| MapServerProperties.TableLast | internal/networkservice/mapserver/server.go:48-54 | The entry for a name is that of the last service with that name. |
| MapServerProperties.TableDistinct | internal/networkservice/mapserver/server.go:48-54 | With distinct names, every service's entry is in the table. |
| MapServerProperties.StampIdempotent | internal/networkservice/mapserver/server.go:67-76 | Stamping twice with the same entry is stamping once. |
| MapServerProperties.StampLastWins | internal/networkservice/mapserver/server.go:75-76 | A later stamp completely replaces an earlier one. |
| MapServerProperties.StampKeeps | internal/networkservice/mapserver/server.go:67-73 | Existing context parts and the source MAC address are kept. Missing ones are created empty. |
| MapServerProperties.StampMacParses | internal/networkservice/mapserver/server.go:75 | The stamped destination MAC address parses back to the entry's address. |
| MapServerProperties.DecodedEntryParses | internal/networkservice/mapserver/server.go:50-53 | The entry of a successfully decoded service stamps an address that parses back. |
| MapServerProperties.TestServer | internal/networkservice/mapserver/server.go:43-57 | A server built from the test descriptor holds exactly `pingpong` with its address and VLAN 0. |
| MapServerProperties.TestStamp | internal/networkservice/mapserver/server.go:67-76 | Stamping `pingpong` onto a connection without a context gives destination MAC `0a:55:44:33:22:11` and VLAN 0. |
| MapServerProperties.RequestTestDescriptor | internal/networkservice/mapserver/server.go:59-79 | A request for `pingpong` comes back from an echoing next element with that context. |
| MapServerProperties.RequestOtherService | internal/networkservice/mapserver/server.go:62-65 | A request for another service fails with "not supported: other". |
| Registry.TouchedAgain | main.go:265 | Setting `serviceDomain` again overrides what earlier iterations set. |
| Registry.TouchedLast | main.go:258-271 | A map that no service holds keeps its entries. Otherwise `serviceDomain` ends as the domain of the last service that holds the map. |
| Registry.RegisteredKeys | main.go:268 | The registered names are exactly the names of the services seen so far. |
| Registry.RegisteredLast | main.go:268-270 | Each name is registered with the map of the last service that has that name. |
| Registry.AddDomain | main.go:259-265 | One iteration: the service's own map, or a new one if it has none, gets `serviceDomain` set to the service's domain. No other map changes. |
| Registry.RegisteredMaps | main.go:258-271 | After the loop, each name has the map of its last service: that service's own map, or a new map holding only the domain. |
| Registry.RegisterServices | main.go:258-271 | The names in order. Each name maps to its last service's own map, or to a new map holding only `serviceDomain`. Every held map ends as its old entries with `serviceDomain` set by the last service holding it. |
| Registry.RegistryEndpoint | main.go:247-274 | The record carries the configuration's name and the listen URL. It expires `MaxTokenLifetime` after `now`. Its names and labels are those of `RegisterServices`, and the label maps are extended in place. |
| RegistryProperties.OwnMapTouched | main.go:261-265 | When no two services share a map, each service's map ends as its old labels plus `serviceDomain` = its domain. |
| RegistryProperties.OwnLabelsKept | main.go:261-265 | In that case, every label other than `serviceDomain` is kept as it was. |
| RegistryProperties.SharedMapLastDomain | main.go:261-265 | A map that two services share ends with the later service's domain, not the earlier one's. |
| RegistryProperties.UnheldMapKept | main.go:258-271 | A map that no service holds is left as it was. |
| RegistryProperties.RegisterTestDescriptor | main.go:247-274 | Registering the test service alone gives the name `pingpong` and a new label map `{serviceDomain: worker.domain}`. |

## Left out

- `Config.Process` (`config.go:52-61`): the environment is read through `envconfig`, which is not part of this model. The `Config` fields the core does not read (`BaseDir`, `ConnectTo`, `LogLevel`, the telemetry URL) are left out.
- Everything in `main.go` other than `registryEndpoint` and `serviceDomainLabel`: it sets up the process (signals, identity, gRPC servers and clients, the chain itself), and that setup is not part of this core.
- The clock: `time.Now()` is the parameter `now`. `MaxTokenLifetime` and `ExpirationTime` are plain numbers of nanoseconds, with no `timestamppb` conversion.
- `grpcutils.URLToTarget` is not part of this model: `RegistryEndpoint` gets the target string directly.
- `string(bytes)`: the descriptor is given as a string of code points. Invalid UTF-8 is not modelled.
- Error messages: each error is a constructor that keeps the piece of text it quotes. The exact wording of `errors.Errorf` and of `strconv`/`net` errors is not modelled.
- `context.Context` and `next.Server(ctx)`: the next chain element is the stub class `NextServer`. It records what it is handed and answers with a reply function. What it does with the request is left out.
- Protobuf messages are reduced to the fields the code touches. A connection context's other parts are reduced to one string map.
- MapServer.MapServer.Request: the request is never nil. In Go a nil request behaves like a nil connection, because the getter is nil-safe.
- MapServer.MapServer.Request: in Go, a nil connection whose empty name is in the table panics at `conn.Context = …` (`server.go:68`). The model returns the error `NilConnection` instead.
- Concurrency: the table is built before any request and only read afterwards. Parallel requests are not modelled.
- `net.ParseMAC` and `strconv.ParseInt` are modelled from Go's documented behaviour for the forms the decoder meets. Every error from each of them is one `None`.
- `payload.Ethernet` is a constant of the networkservicemesh API, which is not part of this model. It is taken to be `ETHERNET`.
