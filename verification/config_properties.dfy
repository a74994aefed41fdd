/**
 * What the descriptor decoder accepts and rejects, proved about `Config.Decode`
 * (and so, through `UnmarshalBinary`'s contract, about the method itself).
 *
 * The central result is a round trip: a descriptor described as values
 * (`Descriptor`) and printed with `Format` decodes to the field values that
 * `Effects` assigns, followed by `validate`.
 */
module ConfigProperties {
  import opened GoTypes
  import opened GoStrings
  import GoStrconv
  import GoNet
  import opened Config

  /** None of the characters the decoder splits the whole text on. */
  predicate PlainChar(c: char) {
    c != ';' && c != '{' && c != '}' && c != '@'
  }

  predicate Plain(s: string) {
    forall k :: 0 <= k < |s| ==> PlainChar(s[k])
  }

  /**
   * What may follow the body: nothing (a missing `}` is tolerated), or a
   * `}` or a second `{` and then anything, which the decoder ignores.
   */
  predicate Closing(tail: string) {
    tail == [] || tail[0] == '}' || tail[0] == '{'
  }

  /** The text `name@domain: {` + the `;`-joined segments + `tail`. */
  function FormatText(name: string, domain: string, segs: seq<string>, tail: string): string
    requires |segs| >= 1
  {
    name + ['@'] + AfterAt(domain, Join(segs, ';'), tail)
  }

  /** The text of a descriptor whose body is the `;`-separated segments `segs`. */
  function FormatSegs(name: string, domain: string, segs: seq<string>): string
    requires |segs| >= 1
  {
    FormatText(name, domain, segs, "}")
  }

  /** What follows the `@`: the domain, a colon, and the braced body. */
  function AfterAt(domain: string, body: string, tail: string): string {
    domain + [':'] + Braced(body, tail)
  }

  function Braced(body: string, tail: string): string {
    " {" + body + tail
  }

  /** The receiver after the header: name, domain and the default payload written. */
  function Header(f: ServiceFields, name: string, domain: string): ServiceFields {
    f.(name := name, domain := domain, payload := ETHERNET)
  }

  /** A character absent from every piece and different from the separator is absent from the join. */
  lemma {:induction false} JoinAvoids(parts: seq<string>, sep: char, c: char)
    requires |parts| >= 1 && c != sep
    requires forall k :: 0 <= k < |parts| ==> c !in parts[k]
    ensures c !in Join(parts, sep)
  {
    if |parts| > 1 {
      JoinAvoids(parts[1..], sep, c);
    }
  }

  /** Segments free of the split characters have a body free of them. */
  lemma BodyPlain(segs: seq<string>)
    requires |segs| >= 1 && PlainSegments(segs)
    ensures var body := Join(segs, ';'); '@' !in body && '{' !in body && '}' !in body
  {
    forall k | 0 <= k < |segs|
      ensures '@' !in segs[k] && '{' !in segs[k] && '}' !in segs[k]
    {
      assert Plain(segs[k]);
    }
    JoinAvoids(segs, ';', '@');
    JoinAvoids(segs, ';', '{');
    JoinAvoids(segs, ';', '}');
  }

  /** A string without white space at either end is its own `TrimSpace`. */
  lemma TrimmedTrim(s: string)
    requires Trimmed(s)
    ensures TrimSpace(s) == s
  {
    assert "" + s + "" == s;
    TrimSpacePadded("", s, "");
  }

  /** Splitting at the only separator gives the two sides. */
  lemma SplitOnce(a: string, sep: char, b: string)
    requires sep !in a && sep !in b
    ensures Split(a + [sep] + b, sep) == [a, b]
  {
    SplitFirst(a, sep, b);
    SplitNoSeparator(b, sep);
  }

  /** Splitting at the first separator: its first piece is what comes before. */
  lemma SplitHead(a: string, sep: char, b: string)
    requires sep !in a
    ensures Split(a + [sep] + b, sep)[0] == a
  {
    SplitFirst(a, sep, b);
  }

  /** Cutting `a + [c] + b` at `sep` and the first piece at `c` gives back `a`. */
  lemma PieceHead(a: string, sep: char, c: char, b: string)
    requires sep !in a && c !in a && sep != c
    ensures Split(Split(a + [c] + b, sep)[0], c)[0] == a
  {
    SplitAfter(a + [c], b, sep);
    SplitHead(a, c, Split(b, sep)[0]);
  }

  /** After the `@`: the piece up to the next `@`, cut at `:`, is the domain. */
  lemma DomainPiece(domain: string, rest: string, tail: string)
    requires '@' !in domain && '@' !in rest && ':' !in domain
    ensures Split(Split(domain + [':'] + rest + tail, '@')[0], ':')[0] == domain
  {
    assert domain + [':'] + rest + tail == domain + [':'] + (rest + tail);
    PieceHead(domain, '@', ':', rest + tail);
  }

  /** The `@` split: the name, then a piece whose text up to `:` is the domain. */
  lemma AtSplit(name: string, domain: string, body: string, tail: string)
    requires '@' !in name && '@' !in domain && '@' !in body && ':' !in domain
    ensures var split := Split(name + ['@'] + AfterAt(domain, body, tail), '@');
      |split| >= 2 && split[0] == name && Split(split[1], ':')[0] == domain
  {
    var rest := " {" + body;
    assert '@' !in rest;
    assert AfterAt(domain, body, tail) == domain + [':'] + rest + tail;
    SplitFirst(name, '@', AfterAt(domain, body, tail));
    DomainPiece(domain, rest, tail);
  }

  /** The first piece of a tail that `Closing` allows, when split at `{`: empty, or a `}` and more. */
  lemma ClosingPiece(tail: string)
    requires Closing(tail)
    ensures var t := Split(tail, '{')[0]; t == [] || t[0] == '}'
  {
    if tail != [] {
      assert tail == [tail[0]] + tail[1..];
      if tail[0] == '{' {
        SplitFirst([], '{', tail[1..]);
        assert [] + ['{'] + tail[1..] == tail;
      } else {
        SplitAfter([tail[0]], tail[1..], '{');
      }
    }
  }

  /** A body without `}`, followed by nothing or by a `}` and more, is the head of its split at `}`. */
  lemma BodyHead(body: string, t: string)
    requires '}' !in body && (t == [] || t[0] == '}')
    ensures Split(body + t, '}')[0] == body
  {
    if t == [] {
      assert body + t == body;
      SplitNoSeparator(body, '}');
    } else {
      assert body + t == body + ['}'] + t[1..];
      SplitHead(body, '}', t[1..]);
    }
  }

  /** After the first `{`: the piece up to the next `{`, cut at `}`, is the body. */
  lemma BodyPiece(body: string, tail: string)
    requires '{' !in body && '}' !in body && Closing(tail)
    ensures Split(Split(body + tail, '{')[0], '}')[0] == body
  {
    SplitAfter(body, tail, '{');
    ClosingPiece(tail);
    BodyHead(body, Split(tail, '{')[0]);
  }

  /** The formatted text is the header, the first `{`, and the body with its tail. */
  lemma BraceText(name: string, domain: string, body: string, tail: string)
    requires '{' !in name && '{' !in domain
    ensures var head := name + ['@'] + domain + [':', ' '];
      '{' !in head && name + ['@'] + AfterAt(domain, body, tail) == head + ['{'] + (body + tail)
  {
    var head := name + ['@'] + domain + [':', ' '];
    assert " {" == [' ', '{'];
    assert AfterAt(domain, body, tail) == domain + [':', ' '] + ['{'] + (body + tail);
  }

  /** The `{` and `}` splits: the body runs from the first `{` to the next `}` or `{`, or to the end. */
  lemma BraceSplit(name: string, domain: string, body: string, tail: string)
    requires '{' !in name && '{' !in domain && '{' !in body && '}' !in body && Closing(tail)
    ensures var split := Split(name + ['@'] + AfterAt(domain, body, tail), '{');
      |split| >= 2 && Split(split[1], '}')[0] == body
  {
    var head := name + ['@'] + domain + [':', ' '];
    BraceText(name, domain, body, tail);
    SplitFirst(head, '{', body + tail);
    BodyPiece(body, tail);
  }

  /** A name and a domain that the decoder reads back as written. */
  predicate HeaderOK(name: string, domain: string) {
    && Trimmed(name) && '@' !in name && '{' !in name
    && Trimmed(domain) && '@' !in domain && ':' !in domain && '{' !in domain
  }

  /** Segments the decoder's `@`, `{`, `}` and `;` splits leave intact. */
  predicate PlainSegments(segs: seq<string>) {
    forall k :: 0 <= k < |segs| ==> Plain(segs[k]) && ';' !in segs[k]
  }

  /**
   * How the decoder takes a descriptor apart: name and domain come back as
   * written, the payload gets its default, and the segments between the
   * braces are applied in order, followed by `validate`. The body ends at
   * the next `}` or `{` after the first `{`, or at the end of the text;
   * whatever follows is ignored.
   */
  lemma DecodeFrame(f: ServiceFields, name: string, domain: string, segs: seq<string>, tail: string)
    requires |segs| >= 1 && HeaderOK(name, domain) && PlainSegments(segs) && Closing(tail)
    ensures var text := FormatText(name, domain, segs, tail);
      Decode(f, text) == Finish(ApplyFields(Header(f, name, domain), segs, text))
  {
    BodyPlain(segs);
    AtSplit(name, domain, Join(segs, ';'), tail);
    BraceSplit(name, domain, Join(segs, ';'), tail);
    SplitJoin(segs, ';');
    TrimmedTrim(name);
    TrimmedTrim(domain);
  }

  /** Two outcomes that agree except for the text an `InvalidFormat` error quotes. */
  predicate SameUpToText(a: (ServiceFields, Option<DecodeError>), b: (ServiceFields, Option<DecodeError>)) {
    a.0 == b.0 &&
    (a.1 == b.1 || (a.1.Some? && b.1.Some? && a.1.value.InvalidFormat? && b.1.value.InvalidFormat?))
  }

  /** The segment loop uses the whole text only as the quote of an `InvalidFormat` error. */
  lemma {:induction false} ApplyFieldsText(f: ServiceFields, parts: seq<string>, t1: string, t2: string)
    ensures SameUpToText(ApplyFields(f, parts, t1), ApplyFields(f, parts, t2))
    decreases |parts|
  {
    if parts != [] {
      var r1 := ApplyField(f, TrimSpace(parts[0]), t1);
      var r2 := ApplyField(f, TrimSpace(parts[0]), t2);
      assert SameUpToText(r1, r2);
      if r1.1.None? {
        ApplyFieldsText(r1.0, parts[1..], t1, t2);
      }
    }
  }

  /**
   * Whatever follows the body does not change what the decoder makes of it:
   * a `}` and trailing text, a second `{` and trailing text, or nothing at
   * all give the same fields and the same error, up to the quoted text.
   */
  lemma TailIgnored(f: ServiceFields, name: string, domain: string, segs: seq<string>, tail1: string, tail2: string)
    requires |segs| >= 1 && HeaderOK(name, domain) && PlainSegments(segs) && Closing(tail1) && Closing(tail2)
    ensures SameUpToText(Decode(f, FormatText(name, domain, segs, tail1)), Decode(f, FormatText(name, domain, segs, tail2)))
  {
    var text1 := FormatText(name, domain, segs, tail1);
    var text2 := FormatText(name, domain, segs, tail2);
    DecodeFrame(f, name, domain, segs, tail1);
    DecodeFrame(f, name, domain, segs, tail2);
    ApplyFieldsText(Header(f, name, domain), segs, text1, text2);
  }

  // ---------------------------------------------------------------------
  // Fields as values, and the text that spells them

  /** One `;`-segment of a descriptor body, as a value. */
  datatype Field =
    | Addr(mac: seq<uint8>)
    | Vlan(tag: int32)
    | Labels(pairs: seq<(string, string)>)
    | Payload(value: string)

  /** A descriptor as values: name, domain and the body's fields in order. */
  datatype Descriptor = Descriptor(name: string, domain: string, fields: seq<Field>)

  /** The field name with its colon that a field is written with. */
  function Prefix(fld: Field): string {
    match fld
    case Addr(_) => ADDR_PREFIX
    case Vlan(_) => VLAN_PREFIX
    case Labels(_) => LABELS_PREFIX
    case Payload(_) => PAYLOAD_PREFIX
  }

  /** `k=v` */
  function PairText(p: (string, string)): string {
    p.0 + ['='] + p.1
  }

  function PairTexts(pairs: seq<(string, string)>): (r: seq<string>)
    ensures |r| == |pairs|
    ensures forall i :: 0 <= i < |pairs| ==> r[i] == PairText(pairs[i])
  {
    if pairs == [] then [] else [PairText(pairs[0])] + PairTexts(pairs[1..])
  }

  /** `k1=v1&k2=v2...` */
  function JoinPairs(pairs: seq<(string, string)>): string
    requires pairs != []
  {
    Join(PairTexts(pairs), '&')
  }

  /** The text after a field's colon. */
  function Value(fld: Field): string
    requires WellFormedField(fld)
  {
    match fld
    case Addr(mac) => GoNet.MacString(mac)
    case Vlan(tag) => GoStrconv.FormatInt(tag as int)
    case Labels(pairs) => JoinPairs(pairs)
    case Payload(p) => p
  }

  /** A segment as a person would write it: ` prefix value `. */
  function Segment(fld: Field): string
    requires WellFormedField(fld)
  {
    Spaced(Prefix(fld), Value(fld))
  }

  /** A label key or value that survives the descriptor's splits intact. */
  predicate LabelText(s: string) {
    Plain(s) && ';' !in s && '&' !in s && '=' !in s
  }

  /** Fields that print to a segment the decoder reads back as the same field. */
  predicate WellFormedField(fld: Field) {
    match fld
    case Addr(mac) => GoNet.ValidLength(|mac|)
    case Vlan(_) => true
    case Labels(pairs) =>
      && pairs != []
      && (forall i :: 0 <= i < |pairs| ==> LabelText(pairs[i].0) && LabelText(pairs[i].1))
      && Trimmed(JoinPairs(pairs))
    case Payload(p) => Trimmed(p) && Plain(p) && ';' !in p
  }

  /** Descriptors whose text `Format` can spell unambiguously. */
  predicate WellFormed(d: Descriptor) {
    HeaderOK(d.name, d.domain) && |d.fields| >= 1 && FieldsOK(d.fields)
  }

  predicate FieldsOK(fields: seq<Field>) {
    forall i :: 0 <= i < |fields| ==> WellFormedField(fields[i])
  }

  function Segments(fields: seq<Field>): (r: seq<string>)
    requires FieldsOK(fields)
    ensures |r| == |fields|
    ensures forall i :: 0 <= i < |fields| ==> r[i] == Segment(fields[i])
  {
    if fields == [] then [] else [Segment(fields[0])] + Segments(fields[1..])
  }

  /** The descriptor text: `name@domain: { f1 ; f2 ; ... }`. */
  function Format(d: Descriptor): string
    requires WellFormed(d)
  {
    FormatSegs(d.name, d.domain, Segments(d.fields))
  }

  // ---------------------------------------------------------------------
  // What the fields mean, independently of any text

  /** The labels a list of pairs denotes: inserted in order, so later keys win. */
  function InsertAll(m: map<string, string>, pairs: seq<(string, string)>): map<string, string>
    decreases |pairs|
  {
    if pairs == [] then m else InsertAll(m[pairs[0].0 := pairs[0].1], pairs[1..])
  }

  /** What one field does to the receiver. */
  function Effect(g: ServiceFields, fld: Field): ServiceFields {
    match fld
    case Addr(mac) => g.(macAddr := mac)
    case Vlan(tag) => g.(vlanTag := tag)
    case Labels(pairs) => g.(labels := Some(InsertAll(map[], pairs)))
    case Payload(p) => g.(payload := p)
  }

  /** What the fields do, in order. */
  function Effects(g: ServiceFields, fields: seq<Field>): ServiceFields
    decreases |fields|
  {
    if fields == [] then g else Effects(Effect(g, fields[0]), fields[1..])
  }

  // ---------------------------------------------------------------------
  // The round trip

  /** ` p v `: a field name and its value with a space on either side. */
  function Spaced(p: string, v: string): string {
    " " + p + " " + v + " "
  }

  /** What is left of ` p v ` after `TrimSpace`. */
  function Part(p: string, v: string): string {
    if v == "" then p else p + " " + v
  }

  lemma SpacedTrim(p: string, v: string)
    requires p != [] && Trimmed(p) && Trimmed(v)
    ensures TrimSpace(Spaced(p, v)) == Part(p, v)
  {
    if v == "" {
      assert Spaced(p, v) == " " + p + "  ";
      TrimSpacePadded(" ", p, "  ");
    } else {
      var t := p + " " + v;
      assert t[0] == p[0] && t[|t| - 1] == v[|v| - 1];
      assert Spaced(p, v) == " " + t + " ";
      TrimSpacePadded(" ", t, " ");
    }
  }

  /** The trimmed segment starts with the field name, and `trimPrefix` gives back the value. */
  lemma PartPrefix(p: string, v: string)
    requires Trimmed(v)
    ensures HasPrefix(Part(p, v), p)
    ensures TrimPrefixSpace(Part(p, v), p) == v
  {
    var t := Part(p, v);
    if v == "" {
      assert t == p && t[..|p|] == p;
      assert TrimPrefix(t, p) == "";
      TrimmedTrim("");
    } else {
      var w := " " + v;
      assert t == p + w;
      assert t[..|p|] == p && t[|p|..] == w;
      assert TrimPrefix(t, p) == w;
      assert w == " " + v + "";
      TrimSpacePadded(" ", v, "");
    }
  }

  /** A character that is plain and not white space, for the printed forms below. */
  lemma PrintedValue(s: string)
    requires forall k :: 0 <= k < |s| ==> (GoNet.MacChar(s[k]) || s[k] == '-')
    ensures Plain(s) && ';' !in s
  {
  }

  /** A well-formed field's value is trimmed and free of the split characters. */
  lemma ValueFacts(fld: Field)
    requires WellFormedField(fld)
    ensures Trimmed(Value(fld)) && Plain(Value(fld)) && ';' !in Value(fld)
  {
    match fld
    case Addr(mac) =>
      GoNet.MacStringChars(mac);
      PrintedValue(Value(fld));
    case Vlan(tag) =>
      GoStrconv.FormatIntChars(tag as int);
      PrintedValue(Value(fld));
    case Labels(pairs) =>
      var texts := PairTexts(pairs);
      forall i | 0 <= i < |texts|
        ensures Plain(texts[i]) && ';' !in texts[i] && '&' !in texts[i]
      {
        assert texts[i] == pairs[i].0 + ['='] + pairs[i].1;
        assert LabelText(pairs[i].0) && LabelText(pairs[i].1);
      }
      JoinPlain(texts, '&');
    case Payload(_) =>
  }

  /** Joining plain pieces with a plain separator gives a plain string. */
  lemma {:induction false} JoinPlain(parts: seq<string>, sep: char)
    requires |parts| >= 1 && PlainChar(sep) && sep != ';'
    requires forall i :: 0 <= i < |parts| ==> Plain(parts[i]) && ';' !in parts[i]
    ensures Plain(Join(parts, sep)) && ';' !in Join(parts, sep)
  {
    if |parts| > 1 {
      JoinPlain(parts[1..], sep);
      var a := parts[0];
      var b := Join(parts[1..], sep);
      assert Join(parts, sep) == a + [sep] + b;
      forall k | 0 <= k < |a + [sep] + b| ensures PlainChar((a + [sep] + b)[k]) {
        if k > |a| {
          assert (a + [sep] + b)[k] == b[k - |a| - 1];
        }
      }
    }
  }

  /** A segment with a plain value is plain. */
  lemma SegmentPlain(fld: Field)
    requires WellFormedField(fld)
    ensures Plain(Segment(fld)) && ';' !in Segment(fld)
  {
    ValueFacts(fld);
    SpacedPlain(Prefix(fld), Value(fld));
  }

  /** ` p v ` is plain when `p` and `v` are. */
  lemma SpacedPlain(p: string, v: string)
    requires Plain(p) && ';' !in p && Plain(v) && ';' !in v
    ensures Plain(Spaced(p, v)) && ';' !in Spaced(p, v)
  {
    var seg := " " + p + " " + v + " ";
    assert Spaced(p, v) == seg;
    forall k | 0 <= k < |seg| ensures PlainChar(seg[k]) {
      if 1 <= k < |p| + 1 {
        assert seg[k] == p[k - 1];
      } else if |p| + 2 <= k < |p| + 2 + |v| {
        assert seg[k] == v[k - |p| - 2];
      }
    }
  }

  /** The pieces `k=v` split back at `=` into their key and value, and fill the map in order. */
  lemma {:induction false} InsertPairTexts(m: map<string, string>, pairs: seq<(string, string)>)
    requires forall i :: 0 <= i < |pairs| ==> LabelText(pairs[i].0) && LabelText(pairs[i].1)
    ensures InsertPairs(m, PairTexts(pairs)) == Ok(InsertAll(m, pairs))
    decreases |pairs|
  {
    if pairs != [] {
      var p := pairs[0];
      assert LabelText(p.0) && LabelText(p.1);
      SplitOnce(p.0, '=', p.1);
      assert PairTexts(pairs)[1..] == PairTexts(pairs[1..]);
      InsertPairTexts(m[p.0 := p.1], pairs[1..]);
    }
  }

  /** `parseMap` reads back the labels that `JoinPairs` wrote. */
  lemma LabelsOfJoin(pairs: seq<(string, string)>)
    requires pairs != []
    requires forall i :: 0 <= i < |pairs| ==> LabelText(pairs[i].0) && LabelText(pairs[i].1)
    ensures LabelsOf(JoinPairs(pairs)) == Ok(InsertAll(map[], pairs))
  {
    var texts := PairTexts(pairs);
    forall i | 0 <= i < |texts| ensures '&' !in texts[i] {
      assert LabelText(pairs[i].0) && LabelText(pairs[i].1);
    }
    SplitJoin(texts, '&');
    InsertPairTexts(map[], pairs);
  }

  /** A string whose first character differs from the prefix's does not start with it. */
  lemma NotPrefix(s: string, prefix: string)
    requires s != [] && prefix != [] && s[0] != prefix[0]
    ensures !HasPrefix(s, prefix)
  {
    if |prefix| <= |s| {
      assert s[..|prefix|][0] == s[0];
    }
  }

  /** A printed address of an accepted length sets the MAC address. */
  lemma ApplyAddr(g: ServiceFields, mac: seq<uint8>, text: string)
    requires GoNet.ValidLength(|mac|)
    ensures ApplyField(g, Part(ADDR_PREFIX, GoNet.MacString(mac)), text) == (g.(macAddr := mac), None)
  {
    ValueFacts(Addr(mac));
    PartPrefix(ADDR_PREFIX, GoNet.MacString(mac));
    GoNet.ParseMacString(mac);
  }

  /** A printed int32, whatever its value, sets the VLAN tag: there is no 12-bit range check. */
  lemma ApplyVlan(g: ServiceFields, tag: int32, text: string)
    ensures ApplyField(g, Part(VLAN_PREFIX, GoStrconv.FormatInt(tag as int)), text) == (g.(vlanTag := tag), None)
  {
    var v := GoStrconv.FormatInt(tag as int);
    ValueFacts(Vlan(tag));
    PartPrefix(VLAN_PREFIX, v);
    var part := Part(VLAN_PREFIX, v);
    NotPrefix(part, ADDR_PREFIX);
    GoStrconv.ParseFormatInt(tag);
  }

  /** Printed labels set the label map to the one the pairs denote. */
  lemma ApplyLabels(g: ServiceFields, pairs: seq<(string, string)>, text: string)
    requires WellFormedField(Labels(pairs))
    ensures ApplyField(g, Part(LABELS_PREFIX, JoinPairs(pairs)), text) == (g.(labels := Some(InsertAll(map[], pairs))), None)
  {
    var v := JoinPairs(pairs);
    PartPrefix(LABELS_PREFIX, v);
    var part := Part(LABELS_PREFIX, v);
    NotPrefix(part, ADDR_PREFIX);
    NotPrefix(part, VLAN_PREFIX);
    LabelsOfJoin(pairs);
  }

  /** A printed payload sets the payload to that text. */
  lemma ApplyPayload(g: ServiceFields, p: string, text: string)
    requires Trimmed(p)
    ensures ApplyField(g, Part(PAYLOAD_PREFIX, p), text) == (g.(payload := p), None)
  {
    PartPrefix(PAYLOAD_PREFIX, p);
    var part := Part(PAYLOAD_PREFIX, p);
    NotPrefix(part, ADDR_PREFIX);
    NotPrefix(part, VLAN_PREFIX);
    NotPrefix(part, LABELS_PREFIX);
  }

  /** One printed field, trimmed and applied, has exactly that field's effect and no error. */
  lemma ApplySegment(g: ServiceFields, fld: Field, text: string)
    requires WellFormedField(fld)
    ensures ApplyField(g, TrimSpace(Segment(fld)), text) == (Effect(g, fld), None)
  {
    ValueFacts(fld);
    SpacedTrim(Prefix(fld), Value(fld));
    match fld
    case Addr(mac) => ApplyAddr(g, mac, text);
    case Vlan(tag) => ApplyVlan(g, tag, text);
    case Labels(pairs) => ApplyLabels(g, pairs, text);
    case Payload(p) => ApplyPayload(g, p, text);
  }

  /** The printed fields, applied in order, have the fields' effects and no error. */
  lemma {:induction false} ApplySegments(g: ServiceFields, fields: seq<Field>, text: string)
    requires FieldsOK(fields)
    ensures ApplyFields(g, Segments(fields), text) == (Effects(g, fields), None)
    decreases |fields|
  {
    if fields != [] {
      ApplySegment(g, fields[0], text);
      assert Segments(fields)[1..] == Segments(fields[1..]);
      ApplySegments(Effect(g, fields[0]), fields[1..], text);
    }
  }

  /** The segments of well-formed fields are free of the split characters. */
  lemma SegmentsPlain(fields: seq<Field>)
    requires FieldsOK(fields)
    ensures PlainSegments(Segments(fields))
  {
    forall k | 0 <= k < |fields|
      ensures Plain(Segments(fields)[k]) && ';' !in Segments(fields)[k]
    {
      SegmentPlain(fields[k]);
    }
  }

  /**
   * The round trip: decoding a printed descriptor into a receiver holding
   * `f` writes its name and domain, the default payload, then each field in
   * order, and ends with `validate`'s verdict on the result.
   */
  lemma RoundTrip(f: ServiceFields, d: Descriptor)
    requires WellFormed(d)
    ensures var g := Effects(Header(f, d.name, d.domain), d.fields);
      Decode(f, Format(d)) == (g, Validate(g))
  {
    SegmentsPlain(d.fields);
    DecodeFrame(f, d.name, d.domain, Segments(d.fields), "}");
    ApplySegments(Header(f, d.name, d.domain), d.fields, Format(d));
  }

  // ---------------------------------------------------------------------
  // Later fields overwrite earlier ones

  datatype FieldKind = AddrField | VlanField | LabelsField | PayloadField

  function KindOf(fld: Field): FieldKind {
    match fld
    case Addr(_) => AddrField
    case Vlan(_) => VlanField
    case Labels(_) => LabelsField
    case Payload(_) => PayloadField
  }

  /** The last field of the given kind, if there is one. */
  function LastOf(fields: seq<Field>, kind: FieldKind): (r: Option<Field>)
    ensures r.None? <==> forall i :: 0 <= i < |fields| ==> KindOf(fields[i]) != kind
    ensures r.Some? ==> exists i :: 0 <= i < |fields| && fields[i] == r.value && KindOf(fields[i]) == kind
                          && forall j :: i < j < |fields| ==> KindOf(fields[j]) != kind
    decreases |fields|
  {
    if fields == [] then None
    else if KindOf(fields[|fields| - 1]) == kind then Some(fields[|fields| - 1])
    else
      var r := LastOf(fields[..|fields| - 1], kind);
      assert forall i :: 0 <= i < |fields| - 1 ==> fields[..|fields| - 1][i] == fields[i];
      r
  }

  /** Applying one more field at the end. */
  lemma {:induction false} EffectsSnoc(g: ServiceFields, fields: seq<Field>, x: Field)
    ensures Effects(g, fields + [x]) == Effect(Effects(g, fields), x)
    decreases |fields|
  {
    if fields == [] {
      assert ([] + [x])[1..] == [];
    } else {
      assert (fields + [x])[1..] == fields[1..] + [x];
      EffectsSnoc(Effect(g, fields[0]), fields[1..], x);
    }
  }

  /** Fields never touch the name and the domain. */
  lemma {:induction false} EffectsKeepHeader(g: ServiceFields, fields: seq<Field>)
    ensures Effects(g, fields).name == g.name && Effects(g, fields).domain == g.domain
    decreases |fields|
  {
    if fields != [] {
      EffectsKeepHeader(Effect(g, fields[0]), fields[1..]);
    }
  }

  /** The MAC address is the last `addr` field's, or the starting one when there is none. */
  lemma {:induction false} EffectsMac(g: ServiceFields, fields: seq<Field>)
    ensures var a := LastOf(fields, AddrField);
      Effects(g, fields).macAddr == if a.Some? then a.value.mac else g.macAddr
    decreases |fields|
  {
    if fields != [] {
      var init := fields[..|fields| - 1];
      assert fields == init + [fields[|fields| - 1]];
      EffectsSnoc(g, init, fields[|fields| - 1]);
      EffectsMac(g, init);
    }
  }

  /** The VLAN tag is the last `vlan` field's, or the starting one when there is none. */
  lemma {:induction false} EffectsVlan(g: ServiceFields, fields: seq<Field>)
    ensures var v := LastOf(fields, VlanField);
      Effects(g, fields).vlanTag == if v.Some? then v.value.tag else g.vlanTag
    decreases |fields|
  {
    if fields != [] {
      var init := fields[..|fields| - 1];
      assert fields == init + [fields[|fields| - 1]];
      EffectsSnoc(g, init, fields[|fields| - 1]);
      EffectsVlan(g, init);
    }
  }

  /** The labels are exactly the last `labels` field's (replaced, not merged), or the starting ones. */
  lemma {:induction false} EffectsLabels(g: ServiceFields, fields: seq<Field>)
    ensures var l := LastOf(fields, LabelsField);
      Effects(g, fields).labels == if l.Some? then Some(InsertAll(map[], l.value.pairs)) else g.labels
    decreases |fields|
  {
    if fields != [] {
      var init := fields[..|fields| - 1];
      assert fields == init + [fields[|fields| - 1]];
      EffectsSnoc(g, init, fields[|fields| - 1]);
      EffectsLabels(g, init);
    }
  }

  /** The payload is the last `payload` field's value, or the starting one when there is none. */
  lemma {:induction false} EffectsPayload(g: ServiceFields, fields: seq<Field>)
    ensures var p := LastOf(fields, PayloadField);
      Effects(g, fields).payload == if p.Some? then p.value.value else g.payload
    decreases |fields|
  {
    if fields != [] {
      var init := fields[..|fields| - 1];
      assert fields == init + [fields[|fields| - 1]];
      EffectsSnoc(g, init, fields[|fields| - 1]);
      EffectsPayload(g, init);
    }
  }

  // ---------------------------------------------------------------------
  // What a successful decode holds

  /** The payload is the default `ETHERNET` unless a `payload:` field appears; then it is the last one's. */
  lemma DecodePayload(f: ServiceFields, d: Descriptor)
    requires WellFormed(d)
    ensures var p := LastOf(d.fields, PayloadField);
      Decode(f, Format(d)).0.payload == if p.Some? then p.value.value else ETHERNET
  {
    RoundTrip(f, d);
    EffectsPayload(Header(f, d.name, d.domain), d.fields);
  }

  /** Name and domain come back as written, and the MAC address is the last `addr` field's. */
  lemma DecodeHeaderAndMac(f: ServiceFields, d: Descriptor)
    requires WellFormed(d)
    ensures var r := Decode(f, Format(d)).0;
      var a := LastOf(d.fields, AddrField);
      r.name == d.name && r.domain == d.domain
      && r.macAddr == if a.Some? then a.value.mac else f.macAddr
  {
    RoundTrip(f, d);
    EffectsKeepHeader(Header(f, d.name, d.domain), d.fields);
    EffectsMac(Header(f, d.name, d.domain), d.fields);
  }

  /**
   * A descriptor with a name and a domain but no `addr` field, decoded into
   * a receiver without a MAC address, fails with "MAC address is empty".
   */
  lemma DecodeNoAddr(f: ServiceFields, d: Descriptor)
    requires WellFormed(d) && d.name != "" && d.domain != "" && f.macAddr == []
    requires forall i :: 0 <= i < |d.fields| ==> !d.fields[i].Addr?
    ensures Decode(f, Format(d)).1 == Some(MacEmpty)
  {
    RoundTrip(f, d);
    DecodeHeaderAndMac(f, d);
    assert LastOf(d.fields, AddrField).None? by {
      forall i | 0 <= i < |d.fields| ensures KindOf(d.fields[i]) != AddrField {
        assert !d.fields[i].Addr?;
      }
    }
  }

  /** A descriptor with an empty name fails with "name is empty", whatever else it holds. */
  lemma DecodeNameEmpty(f: ServiceFields, d: Descriptor)
    requires WellFormed(d) && d.name == ""
    ensures Decode(f, Format(d)).1 == Some(NameEmpty)
  {
    RoundTrip(f, d);
    DecodeHeaderAndMac(f, d);
  }

  // ---------------------------------------------------------------------
  // The first failing segment ends the decode

  /** Applying two runs of segments: the second runs only if the first had no error. */
  lemma {:induction false} ApplyFieldsAppend(f: ServiceFields, p1: seq<string>, p2: seq<string>, text: string)
    ensures ApplyFields(f, p1 + p2, text) ==
      (var r := ApplyFields(f, p1, text); if r.1.Some? then r else ApplyFields(r.0, p2, text))
    decreases |p1|
  {
    if p1 == [] {
      assert [] + p2 == p2;
    } else {
      assert (p1 + p2)[0] == p1[0];
      assert (p1 + p2)[1..] == p1[1..] + p2;
      var r := ApplyField(f, TrimSpace(p1[0]), text);
      if r.1.None? {
        ApplyFieldsAppend(r.0, p1[1..], p2, text);
      }
    }
  }

  /** The printed fields, then a failing segment: the loop stops there with that segment's verdict. */
  lemma ApplyStops(h: ServiceFields, fields: seq<Field>, bad: string, rest: seq<string>, text: string)
    requires FieldsOK(fields)
    requires ApplyField(Effects(h, fields), TrimSpace(bad), text).1.Some?
    ensures ApplyFields(h, Segments(fields) + [bad] + rest, text) == ApplyField(Effects(h, fields), TrimSpace(bad), text)
  {
    assert Segments(fields) + [bad] + rest == Segments(fields) + ([bad] + rest);
    ApplyFieldsAppend(h, Segments(fields), [bad] + rest, text);
    ApplySegments(h, fields, text);
    assert ([bad] + rest)[0] == bad;
  }

  /** Appending plain segments to printed fields keeps every segment plain. */
  lemma AppendPlain(fields: seq<Field>, bad: string, rest: seq<string>)
    requires FieldsOK(fields) && PlainSegments([bad] + rest)
    ensures PlainSegments(Segments(fields) + [bad] + rest)
  {
    SegmentsPlain(fields);
    var more := [bad] + rest;
    var segs := Segments(fields) + [bad] + rest;
    assert segs == Segments(fields) + more;
    forall k | 0 <= k < |segs| ensures Plain(segs[k]) && ';' !in segs[k] {
      if k >= |fields| {
        assert segs[k] == more[k - |fields|];
      }
    }
  }

  /**
   * Well-formed fields followed by a segment that fails: the decode returns
   * that segment's error, and every field written before it keeps its value.
   */
  lemma DecodeStops(f: ServiceFields, name: string, domain: string, fields: seq<Field>, bad: string, rest: seq<string>)
    requires HeaderOK(name, domain) && FieldsOK(fields)
    requires PlainSegments([bad] + rest)
    requires var text := FormatSegs(name, domain, Segments(fields) + [bad] + rest);
      ApplyField(Effects(Header(f, name, domain), fields), TrimSpace(bad), text).1.Some?
    ensures var text := FormatSegs(name, domain, Segments(fields) + [bad] + rest);
      Decode(f, text) == ApplyField(Effects(Header(f, name, domain), fields), TrimSpace(bad), text)
  {
    var segs := Segments(fields) + [bad] + rest;
    var text := FormatSegs(name, domain, segs);
    AppendPlain(fields, bad, rest);
    DecodeFrame(f, name, domain, segs, "}");
    ApplyStops(Header(f, name, domain), fields, bad, rest, text);
  }

  // ---------------------------------------------------------------------
  // Descriptors the decoder rejects

  /** `{ }`: the one segment is empty once trimmed, which no field name matches. */
  lemma EmptyBodyRejected(f: ServiceFields, name: string, domain: string)
    requires HeaderOK(name, domain)
    ensures var text := FormatSegs(name, domain, [" "]);
      Decode(f, text) == (Header(f, name, domain), Some(InvalidFormat(text)))
  {
    var h := Header(f, name, domain);
    var text := FormatSegs(name, domain, [" "]);
    assert Segments([]) + [" "] + [] == [" "];
    assert PlainSegments([" "] + []);
    BlankTrim();
    assert ApplyField(Effects(h, []), TrimSpace(" "), text) == (h, Some(InvalidFormat(text)));
    DecodeStops(f, name, domain, [], " ", []);
  }

  /** A lone blank trims to nothing, which starts with no field name. */
  lemma BlankTrim()
    ensures TrimSpace(" ") == ""
    ensures !KnownField("")
  {
    TrimSpacePadded(" ", "", "");
    assert " " + "" + "" == " ";
  }

  /** A `;` after the last field leaves an empty final segment, which fails after every field is written. */
  lemma TrailingSemicolonRejected(f: ServiceFields, d: Descriptor)
    requires WellFormed(d)
    ensures var text := FormatSegs(d.name, d.domain, Segments(d.fields) + [""]);
      Decode(f, text) == (Effects(Header(f, d.name, d.domain), d.fields), Some(InvalidFormat(text)))
  {
    var segs := Segments(d.fields);
    var text := FormatSegs(d.name, d.domain, segs + [""]);
    var h := Effects(Header(f, d.name, d.domain), d.fields);
    assert segs + [""] + [] == segs + [""];
    assert PlainSegments([""] + []);
    TrimmedTrim("");
    assert ApplyField(h, TrimSpace(""), text) == (h, Some(InvalidFormat(text)));
    DecodeStops(f, d.name, d.domain, d.fields, "", []);
  }

  /** `addr : ...`, with a space before the colon, is no field name the decoder knows. */
  lemma SpaceBeforeColonPart(g: ServiceFields, m: string, text: string)
    requires m != [] && Trimmed(m)
    ensures ApplyField(g, TrimSpace(Spaced("addr :", m)), text) == (g, Some(InvalidFormat(text)))
  {
    SpacedTrim("addr :", m);
    var part := Part("addr :", m);
    assert part[..5] != ADDR_PREFIX by {
      assert part[..5][4] == ' ';
    }
    NotPrefix(part, VLAN_PREFIX);
    NotPrefix(part, LABELS_PREFIX);
    NotPrefix(part, PAYLOAD_PREFIX);
  }

  /** A descriptor whose only segment is `addr : v` is rejected with "invalid format". */
  lemma SpaceBeforeColonRejected(f: ServiceFields, name: string, domain: string, v: string)
    requires HeaderOK(name, domain) && v != [] && Trimmed(v) && Plain(v) && ';' !in v
    ensures var text := FormatSegs(name, domain, [Spaced("addr :", v)]);
      Decode(f, text) == (Header(f, name, domain), Some(InvalidFormat(text)))
  {
    var bad := Spaced("addr :", v);
    var h := Header(f, name, domain);
    var text := FormatSegs(name, domain, [bad]);
    SpacedPlain("addr :", v);
    assert Segments([]) + [bad] + [] == [bad];
    assert PlainSegments([bad] + []);
    SpaceBeforeColonPart(h, v, text);
    assert Effects(h, []) == h;
    DecodeStops(f, name, domain, [], bad, []);
  }

  /** A VLAN tag one past the int32 range fails with its parse error and leaves the tag at 0. */
  lemma VlanOverflowPart(g: ServiceFields, text: string)
    ensures var big := GoStrconv.FormatInt(0x8000_0000);
      ApplyField(g, TrimSpace(Spaced(VLAN_PREFIX, big)), text) == (g.(vlanTag := 0), Some(InvalidInt(big)))
  {
    var big := GoStrconv.FormatInt(0x8000_0000);
    GoStrconv.FormatIntChars(0x8000_0000);
    SpacedTrim(VLAN_PREFIX, big);
    PartPrefix(VLAN_PREFIX, big);
    NotPrefix(Part(VLAN_PREFIX, big), ADDR_PREFIX);
    GoStrconv.ParseIntRange();
  }

  /** The overflowing tag after well-formed fields: those fields keep what they wrote. */
  lemma VlanOverflowRejected(f: ServiceFields, name: string, domain: string, fields: seq<Field>)
    requires HeaderOK(name, domain) && FieldsOK(fields)
    ensures var big := GoStrconv.FormatInt(0x8000_0000);
      var text := FormatSegs(name, domain, Segments(fields) + [Spaced(VLAN_PREFIX, big)]);
      Decode(f, text) == (Effects(Header(f, name, domain), fields).(vlanTag := 0), Some(InvalidInt(big)))
  {
    var big := GoStrconv.FormatInt(0x8000_0000);
    var bad := Spaced(VLAN_PREFIX, big);
    VlanOverflowPlain(big);
    var segs := Segments(fields) + [bad] + [];
    assert segs == Segments(fields) + [bad];
    VlanOverflowPart(Effects(Header(f, name, domain), fields), FormatSegs(name, domain, segs));
    DecodeStops(f, name, domain, fields, bad, []);
  }

  lemma VlanOverflowPlain(big: string)
    requires big == GoStrconv.FormatInt(0x8000_0000)
    ensures PlainSegments([Spaced(VLAN_PREFIX, big)] + [])
  {
    GoStrconv.FormatIntChars(0x8000_0000);
    PrintedValue(big);
    SpacedPlain(VLAN_PREFIX, big);
    assert [Spaced(VLAN_PREFIX, big)] + [] == [Spaced(VLAN_PREFIX, big)];
  }

  /** A MAC address with too few octets fails, and the address is left empty. */
  lemma ShortMacRejected(g: ServiceFields, text: string)
    ensures ApplyField(g, "addr: 0a:55:44:33:22", text) == (g.(macAddr := []), Some(InvalidMac("0a:55:44:33:22")))
  {
    assert Part(ADDR_PREFIX, "0a:55:44:33:22") == "addr: 0a:55:44:33:22";
    PartPrefix(ADDR_PREFIX, "0a:55:44:33:22");
    GoNet.ParseMacRejects();
  }

  /** An empty labels value is one piece without `=`: rejected, and the labels become nil. */
  lemma EmptyLabelsRejected(g: ServiceFields, text: string)
    ensures ApplyField(g, LABELS_PREFIX, text) == (g.(labels := None), Some(InvalidKeyValuePair("")))
  {
    assert Part(LABELS_PREFIX, "") == LABELS_PREFIX;
    PartPrefix(LABELS_PREFIX, "");
    NotPrefix(LABELS_PREFIX, ADDR_PREFIX);
    NotPrefix(LABELS_PREFIX, VLAN_PREFIX);
    var v := TrimPrefixSpace(LABELS_PREFIX, LABELS_PREFIX);
    assert v == "";
    EmptyLabelsPiece();
    assert SetLabels(g, v) == (g.(labels := None), Some(InvalidKeyValuePair("")));
  }

  /** `parseMap("")`: the one piece is empty and has no `=`. */
  lemma EmptyLabelsPiece()
    ensures LabelsOf("") == Err(InvalidKeyValuePair(""))
  {
    SplitNoSeparator("", '&');
    SplitNoSeparator("", '=');
    assert InsertPairs(map[], [""]) == Err(InvalidKeyValuePair(""));
  }

  /** Without `@` the decode fails at once, with the whole text, trimmed, as the name. */
  lemma NoAtRejected(f: ServiceFields, text: string)
    requires '@' !in text
    ensures Decode(f, text) == (f.(name := TrimSpace(text)), Some(InvalidFormat(text)))
  {
    SplitNoSeparator(text, '@');
  }

  /**
   * With `@` but without `{` the decode fails after writing only the name
   * (the text before the first `@`, trimmed) and the domain.
   */
  lemma NoBraceRejected(f: ServiceFields, a: string, b: string)
    requires '@' !in a && '{' !in a && '{' !in b
    ensures var r := Decode(f, a + ['@'] + b);
      && r.1 == Some(InvalidFormat(a + ['@'] + b))
      && r.0 == f.(name := TrimSpace(a), domain := r.0.domain)
    ensures '@' !in b && ':' !in b ==> Decode(f, a + ['@'] + b).0.domain == TrimSpace(b)
  {
    SplitFirst(a, '@', b);
    SplitNoSeparator(a + ['@'] + b, '{');
    if '@' !in b && ':' !in b {
      SplitNoSeparator(b, '@');
      SplitNoSeparator(b, ':');
    }
  }

  // ---------------------------------------------------------------------
  // The labels value

  /** A piece with exactly one `=`, as its key and value. */
  function KeyValue(piece: string): (string, string)
    requires Count(piece, '=') == 1
  {
    var kv := Split(piece, '=');
    (kv[0], kv[1])
  }

  function KeyValues(pieces: seq<string>): (r: seq<(string, string)>)
    requires forall k :: 0 <= k < |pieces| ==> Count(pieces[k], '=') == 1
    ensures |r| == |pieces|
  {
    if pieces == [] then [] else [KeyValue(pieces[0])] + KeyValues(pieces[1..])
  }

  /**
   * `parseMap`'s loop succeeds exactly when every piece has exactly one
   * `=`; it then inserts the pieces' keys and values in order. Otherwise
   * its error quotes the first piece that does not.
   */
  lemma {:induction false} InsertPairsResult(m: map<string, string>, pieces: seq<string>)
    ensures InsertPairs(m, pieces).Ok? <==> forall k :: 0 <= k < |pieces| ==> Count(pieces[k], '=') == 1
    ensures InsertPairs(m, pieces).Ok? ==> InsertPairs(m, pieces).value == InsertAll(m, KeyValues(pieces))
    ensures InsertPairs(m, pieces).Err? ==>
      exists j :: 0 <= j < |pieces| && Count(pieces[j], '=') != 1
        && (forall i :: 0 <= i < j ==> Count(pieces[i], '=') == 1)
        && InsertPairs(m, pieces).error == InvalidKeyValuePair(pieces[j])
    decreases |pieces|
  {
    if pieces != [] {
      var kv := Split(pieces[0], '=');
      if |kv| == 2 {
        var tail := pieces[1..];
        InsertPairsResult(m[kv[0] := kv[1]], tail);
        assert forall k :: 1 <= k < |pieces| ==> pieces[k] == tail[k - 1];
        if InsertPairs(m, pieces).Err? {
          var j :| 0 <= j < |tail| && Count(tail[j], '=') != 1
            && (forall i :: 0 <= i < j ==> Count(tail[i], '=') == 1)
            && InsertPairs(m, pieces).error == InvalidKeyValuePair(tail[j]);
          assert pieces[j + 1] == tail[j];
        }
      } else {
        assert Count(pieces[0], '=') != 1;
      }
    }
  }

  /** Pair `i` is the last one with this key. */
  predicate LastWith(pairs: seq<(string, string)>, i: int, key: string) {
    0 <= i < |pairs| && pairs[i].0 == key && forall j :: i < j < |pairs| ==> pairs[j].0 != key
  }

  /**
   * Inserting pairs in order: a key is present exactly when it was there or
   * some pair has it, and its value is that of the last pair with it.
   */
  lemma {:induction false} InsertAllLookup(m: map<string, string>, pairs: seq<(string, string)>, key: string)
    ensures key in InsertAll(m, pairs) <==> key in m || exists i :: 0 <= i < |pairs| && pairs[i].0 == key
    ensures forall i :: LastWith(pairs, i, key) ==> InsertAll(m, pairs)[key] == pairs[i].1
    ensures key in m && (forall i :: 0 <= i < |pairs| ==> pairs[i].0 != key) ==> InsertAll(m, pairs)[key] == m[key]
    decreases |pairs|
  {
    if pairs != [] {
      var tail := pairs[1..];
      InsertAllLookup(m[pairs[0].0 := pairs[0].1], tail, key);
      assert forall i :: 1 <= i < |pairs| ==> pairs[i] == tail[i - 1];
      if key in InsertAll(m, pairs) && key !in m {
        if pairs[0].0 != key {
          var i :| 0 <= i < |tail| && tail[i].0 == key;
          assert pairs[i + 1].0 == key;
        }
      }
      forall i | LastWith(pairs, i, key)
        ensures InsertAll(m, pairs)[key] == pairs[i].1
      {
        if i > 0 {
          assert LastWith(tail, i - 1, key) by {
            forall j | i - 1 < j < |tail| ensures tail[j].0 != key {
              assert tail[j] == pairs[j + 1];
            }
          }
        } else {
          forall j | 0 <= j < |tail| ensures tail[j].0 != key {
            assert tail[j] == pairs[j + 1];
          }
        }
      }
    }
  }

  /** A later duplicate key wins: `a=1&a=2` holds `a` mapped to `2`. */
  lemma LastKeyWins()
    ensures LabelsOf("a=1&a=2") == Ok(map["a" := "2"])
  {
    DuplicatePairsText();
    DuplicatePairsPlain();
    LabelsOfJoin(DUPLICATE_PAIRS);
    DuplicatePairsMap();
  }

  /** The pairs `a=1&a=2` spells. */
  const DUPLICATE_PAIRS: seq<(string, string)> := [("a", "1"), ("a", "2")]

  lemma DuplicatePairsMap()
    ensures InsertAll(map[], DUPLICATE_PAIRS) == map["a" := "2"]
  {
    var pairs := DUPLICATE_PAIRS;
    var m1: map<string, string> := map["a" := "1"];
    assert InsertAll(map[], pairs) == InsertAll(m1, pairs[1..]);
    assert pairs[1..] == [("a", "2")];
    assert InsertAll(m1, pairs[1..]) == InsertAll(m1["a" := "2"], []);
    assert m1["a" := "2"] == map["a" := "2"];
  }

  lemma DuplicatePairsPlain()
    ensures forall i :: 0 <= i < |DUPLICATE_PAIRS| ==> LabelText(DUPLICATE_PAIRS[i].0) && LabelText(DUPLICATE_PAIRS[i].1)
  {
    assert LabelText("a") && LabelText("1") && LabelText("2");
  }

  lemma DuplicatePairsText()
    ensures JoinPairs(DUPLICATE_PAIRS) == "a=1&a=2"
  {
    var pairs := DUPLICATE_PAIRS;
    assert PairText(("a", "1")) == "a=1";
    assert PairText(("a", "2")) == "a=2";
    assert pairs[1..] == [("a", "2")];
    assert PairTexts(pairs[1..]) == ["a=2"];
    assert PairTexts(pairs) == ["a=1", "a=2"];
    assert Join(["a=1", "a=2"], '&') == "a=1" + "&" + Join(["a=2"], '&');
  }

  /** Keys and values are not trimmed one by one: `a = b` is the key `a ` with the value ` b`. */
  lemma LabelsNotTrimmed(g: ServiceFields, text: string)
    ensures ApplyField(g, "labels: a = b", text) == (g.(labels := Some(map["a " := " b"])), None)
  {
    var pairs := [("a ", " b")];
    assert PairText(pairs[0]) == "a = b";
    assert PairTexts(pairs) == ["a = b"];
    assert JoinPairs(pairs) == "a = b";
    assert Part(LABELS_PREFIX, "a = b") == "labels: a = b";
    ApplyLabels(g, pairs, text);
    assert InsertAll(map[], pairs) == InsertAll(map["a " := " b"], []);
  }

  // ---------------------------------------------------------------------
  // The decoder's test descriptor

  /** `pingpong@worker.domain: { addr: 0a:55:44:33:22:11 }`, spelled in pieces. */
  const TEST_DESCRIPTOR := "pingpong" + "@" + "worker.domain" + ": {" + " addr: 0a:55:44:33:22:11 " + "}"
  const TEST_MAC: seq<uint8> := [0x0a, 0x55, 0x44, 0x33, 0x22, 0x11]

  /** The field values the test descriptor decodes to, the payload being the code's default. */
  const TEST_FIELDS := ServiceFields("pingpong", "worker.domain", ETHERNET, TEST_MAC, 0, None)

  lemma TestSegment()
    ensures WellFormedField(Addr(TEST_MAC))
    ensures Segment(Addr(TEST_MAC)) == TEST_SEGMENT
  {
    GoNet.MacStringExample();
    TestSpaced();
  }

  /** The test address as `HardwareAddr.String` writes it. */
  const TEST_MAC_TEXT := "0a:55:44:33:22:11"

  /** The test descriptor's one segment. */
  const TEST_SEGMENT := " addr: 0a:55:44:33:22:11 "

  lemma TestSpaced()
    ensures Spaced(ADDR_PREFIX, TEST_MAC_TEXT) == TEST_SEGMENT
  {
    var m := TEST_MAC_TEXT;
    var a := " " + ADDR_PREFIX + " ";
    assert a == " addr: ";
    assert Spaced(ADDR_PREFIX, m) == a + m + " ";
  }

  lemma TestHeader()
    ensures HeaderOK("pingpong", "worker.domain")
  {
  }

  lemma TestDescriptorFormat()
    ensures WellFormed(Descriptor("pingpong", "worker.domain", [Addr(TEST_MAC)]))
    ensures Format(Descriptor("pingpong", "worker.domain", [Addr(TEST_MAC)])) == TEST_DESCRIPTOR
  {
    var d := Descriptor("pingpong", "worker.domain", [Addr(TEST_MAC)]);
    TestSegment();
    TestHeader();
    var seg := Segment(Addr(TEST_MAC));
    assert Segments(d.fields) == [seg];
    assert Join([seg], ';') == seg;
    TestText();
  }

  lemma TestText()
    ensures "pingpong" + ['@'] + AfterAt("worker.domain", TEST_SEGMENT, "}") == TEST_DESCRIPTOR
  {
    var seg := TEST_SEGMENT;
    assert AfterAt("worker.domain", seg, "}") == "worker.domain" + ": {" + seg + "}";
  }

  /** Decoding the test descriptor into a fresh receiver succeeds with exactly these values. */
  lemma DecodeTestDescriptor()
    ensures Decode(ZERO_FIELDS, TEST_DESCRIPTOR) == (TEST_FIELDS, None)
  {
    var d := Descriptor("pingpong", "worker.domain", [Addr(TEST_MAC)]);
    TestDescriptorFormat();
    RoundTrip(ZERO_FIELDS, d);
    assert Effects(Header(ZERO_FIELDS, d.name, d.domain), d.fields) == TEST_FIELDS;
  }

  /** `new(config.ServiceConfig)` followed by `UnmarshalBinary` of the test descriptor. */
  method UnmarshalTestDescriptor() returns (cfg: ServiceConfig, err: Option<DecodeError>)
    ensures err == None
    ensures cfg.Fields() == TEST_FIELDS
  {
    cfg := new ServiceConfig();
    err := cfg.UnmarshalBinary(TEST_DESCRIPTOR);
    DecodeTestDescriptor();
  }

  // ---------------------------------------------------------------------
  // The MAC address a decoded service holds

  /** An address as the receiver can hold it: nil, or one `ParseMAC` returned. */
  predicate MacOK(a: seq<uint8>) {
    a == [] || GoNet.ValidLength(|a|)
  }

  /** One segment keeps the receiver's address a nil or parsed one. */
  lemma ApplyFieldMac(f: ServiceFields, part: string, text: string)
    requires MacOK(f.macAddr)
    ensures MacOK(ApplyField(f, part, text).0.macAddr)
  {
  }

  /** So does the whole loop over segments. */
  lemma {:induction false} ApplyFieldsMac(f: ServiceFields, parts: seq<string>, text: string)
    requires MacOK(f.macAddr)
    ensures MacOK(ApplyFields(f, parts, text).0.macAddr)
    decreases |parts|
  {
    if parts != [] {
      ApplyFieldMac(f, TrimSpace(parts[0]), text);
      ApplyFieldsMac(ApplyField(f, TrimSpace(parts[0]), text).0, parts[1..], text);
    }
  }

  /**
   * A successful decode into a receiver whose address was nil or parsed
   * (a fresh one in particular) leaves an address of 6, 8 or 20 octets.
   */
  lemma DecodedMacValid(f: ServiceFields, text: string)
    requires MacOK(f.macAddr)
    requires Decode(f, text).1 == None
    ensures GoNet.ValidLength(|Decode(f, text).0.macAddr|)
  {
    var split := Split(text, '@');
    var braces := Split(text, '{');
    var f3 := f.(name := TrimSpace(split[0]), domain := TrimSpace(Split(split[1], ':')[0]), payload := ETHERNET);
    ApplyFieldsMac(f3, Split(Split(braces[1], '}')[0], ';'), text);
  }
}
