/** pkg/server/register.go: the RegisterResponse document, and a reader of that layout which undoes the
    five predefined entities (section 4.6 of XML 1.0). */
module Register {
  import opened Prelude
  import opened Utf8
  import opened ByteSlices

  const QUOTE: byte := 34
  const COMMA: byte := 44
  const AMP: byte := 38

  datatype RegistrationConfig = RegistrationConfig(
    friendlyName: bytes, guid: bytes, description: bytes, protocols: bytes, eventFilter: bytes, version: bytes)
  {
    /** Fills the unset fields; a set field stays, so applying the defaults again changes nothing. */
    function WithDefaults(): (c: RegistrationConfig)
      ensures c.friendlyName != [] && c.guid != [] && c.description != [] && c.protocols != []
      ensures c.eventFilter != [] && c.version != []
      ensures friendlyName != [] ==> c.friendlyName == friendlyName
      ensures guid != [] ==> c.guid == guid
      ensures description != [] ==> c.description == description
      ensures protocols != [] ==> c.protocols == protocols
      ensures eventFilter != [] ==> c.eventFilter == eventFilter
      ensures version != [] ==> c.version == version
    {
      RegistrationConfig(
        Or(friendlyName, Ascii("ceeexporter")),
        Or(guid, Ascii("bbefd339-b011-4c7a-89a7-1180d5d531c2")),
        Or(description, Ascii("cee-exporter CEPA consumer")),
        Or(protocols, Ascii("0,1")),
        Or(eventFilter, Ascii("0xFFFFFFFF0000000000000000")),
        Or(version, Ascii("1.2")))
    }
  }

  function Or(s: bytes, d: bytes): bytes { if s != [] then s else d }

  // ----- escaping

  function Entity(c: byte): bytes {
    if c == AMP then Ascii("&amp;")
    else if c == LT then Ascii("&lt;")
    else if c == GT then Ascii("&gt;")
    else if c == QUOTE then Ascii("&quot;")
    else if c == 39 then Ascii("&apos;")
    else [c]
  }

  function EscapeAttr(s: bytes): bytes {
    if s == [] then [] else Entity(s[0]) + EscapeAttr(s[1..])
  }

  /** One character of an attribute value and the bytes it took; no bytes for a bare ampersand. */
  datatype Char = Char(c: byte, size: nat)

  function ReadChar(b: bytes): (r: Char)
    requires b != []
    ensures r.size <= |b|
  {
    if b[0] != AMP then Char(b[0], 1)
    else if Ascii("&amp;") <= b then Char(AMP, 5)
    else if Ascii("&lt;") <= b then Char(LT, 4)
    else if Ascii("&gt;") <= b then Char(GT, 4)
    else if Ascii("&quot;") <= b then Char(QUOTE, 6)
    else if Ascii("&apos;") <= b then Char(39, 6)
    else Char(AMP, 0)
  }

  function Unescape(b: bytes): Option<bytes>
    decreases |b|
  {
    if b == [] then Some([])
    else
      var r := ReadChar(b);
      if r.size == 0 then None
      else
        match Unescape(b[r.size..])
        case None => None
        case Some(rest) => Some([r.c] + rest)
  }

  lemma ReadCharOfEntity(c: byte, rest: bytes)
    ensures ReadChar(Entity(c) + rest) == Char(c, |Entity(c)|)
  {
    var b := Entity(c) + rest;
    assert b[0] == Entity(c)[0];
    if c == LT {
      assert Ascii("&lt;")[1] == b[1];
      assert Ascii("&amp;")[1] != b[1];
      assert Ascii("&lt;") <= b;
    } else if c == GT {
      assert b[1] == Ascii("&gt;")[1];
      assert Ascii("&amp;")[1] != b[1] && Ascii("&lt;")[1] != b[1];
      assert Ascii("&gt;") <= b;
    } else if c == QUOTE {
      assert b[1] == Ascii("&quot;")[1];
      assert Ascii("&amp;")[1] != b[1] && Ascii("&lt;")[1] != b[1] && Ascii("&gt;")[1] != b[1];
      assert Ascii("&quot;") <= b;
    } else if c == 39 {
      assert b[1] == Ascii("&apos;")[1] && b[2] == Ascii("&apos;")[2];
      assert Ascii("&amp;")[2] != b[2] && Ascii("&lt;")[1] != b[1] && Ascii("&gt;")[1] != b[1] && Ascii("&quot;")[1] != b[1];
      assert Ascii("&apos;") <= b;
    } else if c == AMP {
      assert Ascii("&amp;") <= b;
    }
  }

  /** Undoing the entities gives the value back, whatever it holds. */
  lemma {:induction false} UnescapeEscape(s: bytes)
    ensures Unescape(EscapeAttr(s)) == Some(s)
  {
    if s != [] {
      var rest := EscapeAttr(s[1..]);
      ReadCharOfEntity(s[0], rest);
      assert (Entity(s[0]) + rest)[|Entity(s[0])|..] == rest;
      UnescapeEscape(s[1..]);
      assert s == [s[0]] + s[1..];
    }
  }

  lemma EntitySafe(c: byte)
    ensures forall d :: d in Entity(c) ==> d != QUOTE && d != LT && d != GT && d != 39
  {}

  /** An escaped value has no quote and no angle bracket in it. */
  lemma {:induction false} EscapedSafe(s: bytes)
    ensures forall d :: d in EscapeAttr(s) ==> d != QUOTE && d != LT && d != GT && d != 39
  {
    if s != [] {
      EntitySafe(s[0]);
      EscapedSafe(s[1..]);
    }
  }

  // ----- the protocol list

  /** strings.Split at commas. */
  function Split(s: bytes): (ps: seq<bytes>)
    ensures ps != [] && forall p :: p in ps ==> COMMA !in p
    decreases |s|
  {
    var n := RunTo(s, COMMA);
    if n == |s| then [s] else [s[..n]] + Split(s[n + 1..])
  }

  function Join(ps: seq<bytes>): bytes
    requires ps != []
  {
    if |ps| == 1 then ps[0] else ps[0] + [COMMA] + Join(ps[1..])
  }

  /** The pieces are the list, cut at its commas and nowhere else. */
  lemma {:induction false} JoinSplit(s: bytes)
    ensures Join(Split(s)) == s
    decreases |s|
  {
    var n := RunTo(s, COMMA);
    if n < |s| {
      JoinSplit(s[n + 1..]);
      assert Split(s)[1..] == Split(s[n + 1..]);
      assert s == s[..n] + [COMMA] + s[n + 1..];
    }
  }

  /** The pieces that are not blank, trimmed, in order. */
  function Protocols(ps: seq<bytes>): seq<bytes> {
    if ps == [] then []
    else (if TrimSpace(ps[0]) == [] then [] else [TrimSpace(ps[0])]) + Protocols(ps[1..])
  }

  // ----- the document

  /** An attribute: what leads up to its value, the value escaped, the closing quote, and the rest. */
  function Attr(lead: bytes, v: bytes, rest: bytes): bytes { lead + EscapeAttr(v) + [QUOTE] + rest }

  /** What leads up to an attribute's value: a space, its name, the equals sign and the opening quote. */
  function Lead(name: string): bytes { [32] + Ascii(name) + [61, QUOTE] }

  function GuidLead(): bytes { [LT] + Ascii("RegisterResponse") + [GT, LT] + Ascii("EndPoint") + Lead("guid") }
  function NameLead(): bytes { Lead("friendlyName") }
  function VersionLead(): bytes { Lead("version") }
  function DescLead(): bytes { Lead("desc") }
  function EndPointEnd(): bytes { [32, 47, GT] }
  function ProtocolLead(): bytes { [LT] + Ascii("Filter") + Lead("protocol") }
  function ValueLead(): bytes { [GT, LT] + Ascii("EventTypeFilter") + Lead("value") }
  function FilterEnd(): bytes { [32, 47, GT, LT, 47] + Ascii("Filter") + [GT] }
  function ResponseEnd(): bytes { [LT, 47] + Ascii("RegisterResponse") + [GT] }

  function FilterXML(protocol: bytes, filter: bytes, rest: bytes): bytes {
    Attr(ProtocolLead(), protocol, Attr(ValueLead(), filter, FilterEnd() + rest))
  }

  function Filters(ps: seq<bytes>, filter: bytes): bytes {
    if ps == [] then ResponseEnd() else FilterXML(ps[0], filter, Filters(ps[1..], filter))
  }

  function ResponseXML(c: RegistrationConfig): bytes {
    Attr(GuidLead(), c.guid,
    Attr(NameLead(), c.friendlyName,
    Attr(VersionLead(), c.version,
    Attr(DescLead(), c.description,
    EndPointEnd() + Filters(Protocols(Split(c.protocols)), c.eventFilter)))))
  }

  /** The document from the `k`-th piece of the protocol list on. */
  ghost function Tail(pieces: seq<bytes>, k: nat, filter: bytes): bytes
    requires k <= |pieces|
  {
    Filters(Protocols(pieces[k..]), filter)
  }

  lemma TailStep(pieces: seq<bytes>, k: nat, filter: bytes)
    requires k < |pieces|
    ensures Tail(pieces, k, filter) ==
      if TrimSpace(pieces[k]) == [] then Tail(pieces, k + 1, filter)
      else FilterXML(TrimSpace(pieces[k]), filter, Tail(pieces, k + 1, filter))
  {
    var p := TrimSpace(pieces[k]);
    assert pieces[k..][1..] == pieces[k + 1..] && pieces[k..][0] == pieces[k];
    if p == [] {
      assert Protocols(pieces[k..]) == Protocols(pieces[k + 1..]);
    } else {
      assert Protocols(pieces[k..]) == [p] + Protocols(pieces[k + 1..]);
    }
  }

  lemma TailEnds(pieces: seq<bytes>, filter: bytes)
    ensures Tail(pieces, |pieces|, filter) == ResponseEnd()
    ensures Tail(pieces, 0, filter) == Filters(Protocols(pieces), filter)
  {
    assert pieces[|pieces|..] == [] && pieces[0..] == pieces;
  }

  /** registrationResponseXML, written piece by piece with a loop over the protocols. */
  method RegistrationResponseXML(c: RegistrationConfig) returns (out: bytes)
    ensures out == ResponseXML(c)
  {
    var pieces := Split(c.protocols);
    TailEnds(pieces, c.eventFilter);
    out := EndPointXML(c, Tail(pieces, 0, c.eventFilter));
    out := FilterElements(out, pieces, c.eventFilter);
    out := out + ResponseEnd();
  }

  /** One Filter element for each piece that is not blank. */
  method FilterElements(start: bytes, pieces: seq<bytes>, filter: bytes) returns (out: bytes)
    ensures out + ResponseEnd() == start + Filters(Protocols(pieces), filter)
  {
    out := start;
    TailEnds(pieces, filter);
    for k := 0 to |pieces|
      invariant out + Tail(pieces, k, filter) == start + Tail(pieces, 0, filter)
    {
      var proto := TrimSpace(pieces[k]);
      TailStep(pieces, k, filter);
      if proto != [] {
        out := FilterElement(out, proto, filter, Tail(pieces, k + 1, filter));
      }
    }
  }

  /** One Filter element onto `out`. */
  method FilterElement(out: bytes, proto: bytes, filter: bytes, ghost rest: bytes) returns (next: bytes)
    ensures next + rest == out + FilterXML(proto, filter, rest)
  {
    next := out + ProtocolLead() + EscapeAttr(proto) + [QUOTE];
    Written(out, ProtocolLead(), proto, Attr(ValueLead(), filter, FilterEnd() + rest));
    ghost var half := next;
    next := next + ValueLead() + EscapeAttr(filter) + [QUOTE];
    Written(half, ValueLead(), filter, FilterEnd() + rest);
    assert (next + FilterEnd()) + rest == next + (FilterEnd() + rest);
    next := next + FilterEnd();
  }

  /** The opening tag and the EndPoint element; `rest` is what will follow them. */
  method EndPointXML(c: RegistrationConfig, ghost rest: bytes) returns (out: bytes)
    ensures out + rest == Attr(GuidLead(), c.guid, Attr(NameLead(), c.friendlyName, Attr(VersionLead(), c.version,
                          Attr(DescLead(), c.description, EndPointEnd() + rest))))
  {
    ghost var desc := EndPointEnd() + rest;
    ghost var version := Attr(DescLead(), c.description, desc);
    ghost var name := Attr(VersionLead(), c.version, version);
    ghost var guid := Attr(NameLead(), c.friendlyName, name);
    out := GuidLead() + EscapeAttr(c.guid) + [QUOTE];
    assert out + guid == Attr(GuidLead(), c.guid, guid);
    Written(out, NameLead(), c.friendlyName, name);
    out := out + NameLead() + EscapeAttr(c.friendlyName) + [QUOTE];
    Written(out, VersionLead(), c.version, version);
    out := out + VersionLead() + EscapeAttr(c.version) + [QUOTE];
    Written(out, DescLead(), c.description, desc);
    out := out + DescLead() + EscapeAttr(c.description) + [QUOTE];
    assert (out + EndPointEnd()) + rest == out + desc;
    out := out + EndPointEnd();
  }

  /** Writing an attribute and then the rest is writing the attribute with its rest. */
  lemma Written(out: bytes, lead: bytes, v: bytes, rest: bytes)
    ensures (out + lead + EscapeAttr(v) + [QUOTE]) + rest == out + Attr(lead, v, rest)
  {}

  // ----- reading it back

  datatype Value = Value(v: bytes, rest: bytes)

  function Expect(b: bytes, lead: bytes): Option<bytes> {
    if lead <= b then Some(b[|lead|..]) else None
  }

  /** An attribute led by `lead`: everything to the next quote, with the entities undone. */
  function ReadAttr(b: bytes, lead: bytes): (r: Option<Value>)
    ensures r.Some? ==> |r.value.rest| < |b|
  {
    match Expect(b, lead)
    case None => None
    case Some(at) =>
      var n := RunTo(at, QUOTE);
      if n == |at| then None
      else
        match Unescape(at[..n])
        case None => None
        case Some(v) => Some(Value(v, at[n + 1..]))
  }

  datatype Filter = Filter(protocol: bytes, value: bytes)
  datatype Response = Response(guid: bytes, friendlyName: bytes, version: bytes, desc: bytes, filters: seq<Filter>)

  function ReadFilters(b: bytes): Option<seq<Filter>>
    decreases |b|
  {
    match ReadAttr(b, ProtocolLead())
    case None => if b == ResponseEnd() then Some([]) else None
    case Some(protocol) =>
      match ReadAttr(protocol.rest, ValueLead())
      case None => None
      case Some(value) =>
        match Expect(value.rest, FilterEnd())
        case None => None
        case Some(rest) =>
          match ReadFilters(rest)
          case None => None
          case Some(more) => Some([Filter(protocol.v, value.v)] + more)
  }

  function ReadResponse(b: bytes): Option<Response> {
    match ReadAttr(b, GuidLead())
    case None => None
    case Some(guid) =>
      match ReadAttr(guid.rest, NameLead())
      case None => None
      case Some(name) =>
        match ReadAttr(name.rest, VersionLead())
        case None => None
        case Some(version) =>
          match ReadAttr(version.rest, DescLead())
          case None => None
          case Some(desc) =>
            match Expect(desc.rest, EndPointEnd())
            case None => None
            case Some(rest) =>
              match ReadFilters(rest)
              case None => None
              case Some(filters) => Some(Response(guid.v, name.v, version.v, desc.v, filters))
  }

  lemma ExpectOf(lead: bytes, rest: bytes)
    ensures Expect(lead + rest, lead) == Some(rest)
  {
    assert (lead + rest)[|lead|..] == rest;
  }

  lemma ReadAttrOf(lead: bytes, v: bytes, rest: bytes)
    ensures ReadAttr(Attr(lead, v, rest), lead) == Some(Value(v, rest))
  {
    var e := EscapeAttr(v);
    assert Attr(lead, v, rest) == lead + (e + ([QUOTE] + rest));
    ExpectOf(lead, e + ([QUOTE] + rest));
    EscapedSafe(v);
    UpToQuote(e, rest);
    UnescapeEscape(v);
  }

  lemma UpToQuote(e: bytes, rest: bytes)
    requires QUOTE !in e
    ensures var at := e + ([QUOTE] + rest);
      RunTo(at, QUOTE) == |e| < |at| && at[..|e|] == e && at[|e| + 1..] == rest
  {
    RunToIs(e, QUOTE, [QUOTE] + rest);
  }

  /** One Filter per protocol, in order, each with the configured value. */
  function FiltersOf(ps: seq<bytes>, filter: bytes): (fs: seq<Filter>)
    ensures |fs| == |ps| && forall i :: 0 <= i < |ps| ==> fs[i] == Filter(ps[i], filter)
  {
    if ps == [] then [] else [Filter(ps[0], filter)] + FiltersOf(ps[1..], filter)
  }

  lemma ReadOneFilter(p: bytes, filter: bytes, rest: bytes, more: seq<Filter>)
    requires ReadFilters(rest) == Some(more)
    ensures ReadFilters(FilterXML(p, filter, rest)) == Some([Filter(p, filter)] + more)
  {
    ReadAttrOf(ProtocolLead(), p, Attr(ValueLead(), filter, FilterEnd() + rest));
    ReadAttrOf(ValueLead(), filter, FilterEnd() + rest);
    ExpectOf(FilterEnd(), rest);
  }

  lemma ReadNoFilters()
    ensures ReadFilters(ResponseEnd()) == Some([])
  {
    assert ResponseEnd()[1] != ProtocolLead()[1];
  }

  lemma {:induction false} ReadFiltersOf(ps: seq<bytes>, filter: bytes)
    ensures ReadFilters(Filters(ps, filter)) == Some(FiltersOf(ps, filter))
    decreases |ps|
  {
    if ps == [] {
      ReadNoFilters();
    } else {
      ReadFiltersOf(ps[1..], filter);
      ReadOneFilter(ps[0], filter, Filters(ps[1..], filter), FiltersOf(ps[1..], filter));
    }
  }

  /** For every configuration, reading the document gives back the four identity fields exactly and one
      Filter per protocol of the list that is not blank, trimmed and in order. */
  lemma ReadBack(c: RegistrationConfig)
    ensures ReadResponse(ResponseXML(c)) ==
      Some(Response(c.guid, c.friendlyName, c.version, c.description, FiltersOf(Protocols(Split(c.protocols)), c.eventFilter)))
  {
    var filters := Filters(Protocols(Split(c.protocols)), c.eventFilter);
    var desc := EndPointEnd() + filters;
    var version := Attr(DescLead(), c.description, desc);
    var name := Attr(VersionLead(), c.version, version);
    var guid := Attr(NameLead(), c.friendlyName, name);
    ReadAttrOf(GuidLead(), c.guid, guid);
    ReadAttrOf(NameLead(), c.friendlyName, name);
    ReadAttrOf(VersionLead(), c.version, version);
    ReadAttrOf(DescLead(), c.description, desc);
    ExpectOf(EndPointEnd(), filters);
    ReadFiltersOf(Protocols(Split(c.protocols)), c.eventFilter);
  }

  /** So two configurations that render alike have the same identity and the same filters. */
  lemma RenderingTells(c: RegistrationConfig, d: RegistrationConfig)
    requires ResponseXML(c) == ResponseXML(d)
    ensures c.guid == d.guid && c.friendlyName == d.friendlyName && c.version == d.version && c.description == d.description
    ensures FiltersOf(Protocols(Split(c.protocols)), c.eventFilter) == FiltersOf(Protocols(Split(d.protocols)), d.eventFilter)
  {
    ReadBack(c);
    ReadBack(d);
  }
}
