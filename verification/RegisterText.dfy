/** The registration reply is text when the configuration is: escaping, splitting and trimming keep
    UTF-8 valid. */
module RegisterText {
  import opened Prelude
  import opened Utf8
  import opened Utf16
  import opened ByteSlices
  import opened Register

  lemma EntityAscii(c: byte)
    requires c < 0x80
    ensures Valid(Entity(c))
  {
    AsciiValid(Entity(c));
  }

  /** Bytes outside ASCII are never escaped. */
  lemma {:induction false} EscapeRaw(a: bytes, b: bytes)
    requires forall i :: 0 <= i < |a| ==> a[i] >= 0x80
    ensures EscapeAttr(a + b) == a + EscapeAttr(b)
  {
    if a == [] {
      assert a + b == b;
    } else {
      EscapeRaw(a[1..], b);
      EscapeRawFirst(a, b);
      FirstAndRest(a, EscapeAttr(b));
    }
  }

  lemma EscapeRawFirst(a: bytes, b: bytes)
    requires a != [] && a[0] >= 0x80
    ensures EscapeAttr(a + b) == [a[0]] + EscapeAttr(a[1..] + b)
  {
    assert (a + b)[1..] == a[1..] + b;
  }

  lemma FirstAndRest(a: bytes, b: bytes)
    requires a != []
    ensures [a[0]] + (a[1..] + b) == a + b
  {}

  lemma {:induction false} EscapeValid(s: bytes)
    requires Valid(s)
    ensures Valid(EscapeAttr(s))
    decreases |s|
  {
    if s != [] {
      var n := DecodeRune(s).size;
      FirstRuneValid(s);
      EscapeValid(s[n..]);
      if n == 1 {
        EntityAscii(s[0]);
        ValidAppend(Entity(s[0]), EscapeAttr(s[1..]));
      } else {
        EscapeRawValid(s, n);
      }
    }
  }

  lemma EscapeRawValid(s: bytes, n: nat)
    requires n <= |s| && Valid(s[..n]) && (forall i :: 0 <= i < n ==> s[i] >= 0x80) && Valid(EscapeAttr(s[n..]))
    ensures Valid(EscapeAttr(s))
  {
    assert s == s[..n] + s[n..];
    EscapeRaw(s[..n], s[n..]);
    ValidAppend(s[..n], EscapeAttr(s[n..]));
  }

  /** Bytes outside ASCII at the front of an escaped value are the value's own. */
  lemma {:induction false} RawFront(s: bytes, k: nat)
    requires k <= |EscapeAttr(s)| && forall i :: 0 <= i < k ==> EscapeAttr(s)[i] >= 0x80
    ensures k <= |s| && s[..k] == EscapeAttr(s)[..k] && EscapeAttr(s[k..]) == EscapeAttr(s)[k..]
  {
    if k > 0 {
      RawFirst(s);
      forall i | 0 <= i < k - 1 ensures EscapeAttr(s[1..])[i] >= 0x80 {
        assert EscapeAttr(s[1..])[i] == EscapeAttr(s)[i + 1];
      }
      RawFront(s[1..], k - 1);
      OneMore(s, EscapeAttr(s), EscapeAttr(s[1..]), k);
    } else {
      assert s[0..] == s;
    }
  }

  lemma RawFirst(s: bytes)
    requires EscapeAttr(s) != [] && EscapeAttr(s)[0] >= 0x80
    ensures s != [] && EscapeAttr(s) == [s[0]] + EscapeAttr(s[1..])
  {
    RawEntity(s[0]);
    RawHead(s[0], Entity(s[0]), EscapeAttr(s[1..]));
  }

  lemma RawHead(c: byte, e: bytes, rest: bytes)
    requires e != [] && (e[0] >= 0x80 ==> e == [c]) && (e + rest)[0] >= 0x80
    ensures e + rest == [c] + rest
  {
    assert (e + rest)[0] == e[0];
  }

  lemma RawEntity(c: byte)
    ensures Entity(c) != [] && (Entity(c)[0] >= 0x80 ==> Entity(c) == [c])
  {}

  lemma OneMore(s: bytes, e: bytes, rest: bytes, k: nat)
    requires s != [] && e == [s[0]] + rest && 0 < k <= |s| && k - 1 <= |rest| && s[1..][..k - 1] == rest[..k - 1]
    ensures s[..k] == e[..k] && s[1..][k - 1..] == s[k..] && rest[k - 1..] == e[k..]
  {
    assert s[..k] == [s[0]] + s[1..][..k - 1];
  }

  /** A rune is told by its own bytes. */
  lemma SameRune(a: bytes, b: bytes, k: nat)
    requires a != [] && WellFormedAt(a) && k == DecodeRune(a).size <= |b| && b[..k] == a[..k]
    ensures b != [] && WellFormedAt(b) && DecodeRune(b).size == k
  {
    assert forall i :: 0 <= i < k ==> a[i] == a[..k][i] && b[i] == b[..k][i];
  }

  lemma UnescapedAscii(s: bytes)
    requires s != [] && s[0] < 0x80 && Valid(EscapeAttr(s))
    ensures Valid(EscapeAttr(s[1..]))
  {
    EntityAscii(s[0]);
    ValidRest(Entity(s[0]), EscapeAttr(s[1..]));
  }

  /** And escaping makes no text of what is not. */
  lemma {:induction false} UnescapeValid(s: bytes)
    requires Valid(EscapeAttr(s))
    ensures Valid(s)
    decreases |s|
  {
    if s != [] {
      if s[0] < 0x80 {
        UnescapedAscii(s);
        UnescapeValid(s[1..]);
      } else {
        var e := EscapeAttr(s);
        assert e[0] == Entity(s[0])[0] == s[0];
        var k := DecodeRune(e).size;
        FirstRuneValid(e);
        RawFront(s, k);
        SameRune(e, s, k);
        UnescapeValid(s[k..]);
      }
    }
  }

  predicate AllValid(ps: seq<bytes>) { ps == [] || (Valid(ps[0]) && AllValid(ps[1..])) }

  lemma {:induction false} SplitValid(s: bytes)
    requires Valid(s)
    ensures AllValid(Split(s))
    decreases |s|
  {
    var n := RunTo(s, COMMA);
    if n < |s| {
      CutAtRuneStart(s, n);
      DropAtRuneStart(s, n);
      assert DecodeRune(s[n..]).size == 1 && s[n..][1..] == s[n + 1..];
      SplitValid(s[n + 1..]);
      AllValidCons(s[..n], Split(s[n + 1..]));
    } else {
      assert Split(s)[1..] == [];
    }
  }

  lemma {:induction false} TrimLeftValid(b: bytes)
    requires Valid(b)
    ensures Valid(TrimLeft(b))
    decreases |b|
  {
    if b != [] && IsSpace(DecodeRune(b).r) {
      TrimLeftValid(b[DecodeRune(b).size..]);
    }
  }

  /** A last rune that is a space is whole, so it is cut where it starts. */
  lemma LastSpaceWhole(b: bytes)
    requires b != [] && IsSpace(DecodeLastRune(b).r)
    ensures RuneStart(b[|b| - DecodeLastRune(b).size])
  {}

  lemma {:induction false} TrimRightValid(b: bytes)
    requires Valid(b)
    ensures Valid(TrimRight(b))
    decreases |b|
  {
    if b != [] && IsSpace(DecodeLastRune(b).r) {
      LastSpaceWhole(b);
      CutAtRuneStart(b, |b| - DecodeLastRune(b).size);
      TrimRightValid(b[..|b| - DecodeLastRune(b).size]);
    }
  }

  lemma TrimValid(b: bytes)
    requires Valid(b)
    ensures Valid(TrimSpace(b))
  {
    TrimLeftValid(b);
    TrimRightValid(TrimLeft(b));
  }

  lemma AllValidCons(p: bytes, ps: seq<bytes>)
    requires Valid(p) && AllValid(ps)
    ensures AllValid([p] + ps)
  {
    assert ([p] + ps)[1..] == ps;
  }

  lemma ProtocolsStep(ps: seq<bytes>, rest: seq<bytes>)
    requires ps != [] && rest == Protocols(ps[1..])
    ensures Protocols(ps) == if TrimSpace(ps[0]) == [] then rest else [TrimSpace(ps[0])] + rest
  {}

  lemma {:induction false} ProtocolsValid(ps: seq<bytes>)
    requires AllValid(ps)
    ensures AllValid(Protocols(ps))
  {
    if ps != [] {
      TrimValid(ps[0]);
      ProtocolsValid(ps[1..]);
      AllValidCons(TrimSpace(ps[0]), Protocols(ps[1..]));
      ProtocolsStep(ps, Protocols(ps[1..]));
    }
  }

  /** What an escaped value and the quote after it are worth. */
  lemma QuotedValidIff(e: bytes, rest: bytes)
    ensures Valid(e + ([QUOTE] + rest)) <==> Valid(e) && Valid(rest)
  {
    var b := e + ([QUOTE] + rest);
    AsciiValid([QUOTE]);
    assert b[|e|] == QUOTE && b[..|e|] == e && b[|e|..] == [QUOTE] + rest;
    if Valid(b) {
      CutAtRuneStart(b, |e|);
      DropAtRuneStart(b, |e|);
      ValidRest([QUOTE], rest);
    }
    if Valid(e) && Valid(rest) {
      ValidAppend([QUOTE], rest);
      ValidAppend(e, [QUOTE] + rest);
    }
  }

  lemma AttrValidIff(lead: bytes, v: bytes, rest: bytes)
    requires Valid(lead)
    ensures Valid(Attr(lead, v, rest)) <==> Valid(v) && Valid(rest)
  {
    var e := EscapeAttr(v);
    assert Attr(lead, v, rest) == lead + (e + ([QUOTE] + rest));
    QuotedValidIff(e, rest);
    AfterValidIff(lead, e + ([QUOTE] + rest));
    if Valid(v) {
      EscapeValid(v);
    }
    if Valid(e) {
      UnescapeValid(v);
    }
  }

  lemma AfterValidIff(lead: bytes, rest: bytes)
    requires Valid(lead)
    ensures Valid(lead + rest) <==> Valid(rest)
  {
    if Valid(rest) {
      ValidAppend(lead, rest);
    }
    if Valid(lead + rest) {
      ValidRest(lead, rest);
    }
  }

  lemma LeadValid(name: string)
    ensures Valid(Lead(name))
  {
    AsciiValid(Lead(name));
  }

  lemma FilterValidIff(p: bytes, filter: bytes, rest: bytes)
    ensures Valid(FilterXML(p, filter, rest)) <==> Valid(p) && Valid(filter) && Valid(rest)
  {
    FilterEndValid();
    ValueLeadValid();
    ProtocolLeadValid();
    AfterValidIff(FilterEnd(), rest);
    AttrValidIff(ValueLead(), filter, FilterEnd() + rest);
    AttrValidIff(ProtocolLead(), p, Attr(ValueLead(), filter, FilterEnd() + rest));
  }

  lemma NamedValid(before: bytes, name: string, after: bytes)
    requires Valid(before) && Valid(after)
    ensures Valid(before + Ascii(name) + after)
  {
    AsciiValid(Ascii(name));
    ValidAppend(before, Ascii(name));
    ValidAppend(before + Ascii(name), after);
  }

  lemma FilterEndValid()
    ensures Valid(FilterEnd())
  {
    AsciiValid([32, 47, GT, LT, 47]);
    AsciiValid([GT]);
    NamedValid([32, 47, GT, LT, 47], "Filter", [GT]);
  }

  lemma ProtocolLeadValid()
    ensures Valid(ProtocolLead())
  {
    AsciiValid([LT]);
    LeadValid("protocol");
    NamedValid([LT], "Filter", Lead("protocol"));
  }

  lemma ValueLeadValid()
    ensures Valid(ValueLead())
  {
    AsciiValid([GT, LT]);
    LeadValid("value");
    NamedValid([GT, LT], "EventTypeFilter", Lead("value"));
  }

  lemma {:induction false} FiltersValidIff(ps: seq<bytes>, filter: bytes)
    ensures Valid(Filters(ps, filter)) <==> AllValid(ps) && (ps == [] || Valid(filter))
  {
    if ps == [] {
      AsciiValid(ResponseEnd());
    } else {
      FiltersValidIff(ps[1..], filter);
      FilterValidIff(ps[0], filter, Filters(ps[1..], filter));
    }
  }

  /** The configured strings that the document shows are text. */
  predicate ShownValid(c: RegistrationConfig) {
    var ps := Protocols(Split(c.protocols));
    && Valid(c.guid) && Valid(c.friendlyName) && Valid(c.version) && Valid(c.description)
    && AllValid(ps) && (ps == [] || Valid(c.eventFilter))
  }

  lemma GuidLeadValid()
    ensures Valid(GuidLead())
  {
    AsciiValid([LT]);
    AsciiValid([GT, LT]);
    LeadValid("guid");
    NamedValid([LT], "RegisterResponse", [GT, LT]);
    NamedValid([LT] + Ascii("RegisterResponse") + [GT, LT], "EndPoint", Lead("guid"));
  }

  lemma LeadsValid()
    ensures Valid(GuidLead()) && Valid(NameLead()) && Valid(VersionLead()) && Valid(DescLead())
  {
    GuidLeadValid();
    LeadValid("friendlyName");
    LeadValid("version");
    LeadValid("desc");
  }

  lemma AttrsValidIff(c: RegistrationConfig, rest: bytes)
    ensures Valid(Attr(GuidLead(), c.guid, Attr(NameLead(), c.friendlyName,
                  Attr(VersionLead(), c.version, Attr(DescLead(), c.description, rest)))))
      <==> Valid(c.guid) && Valid(c.friendlyName) && Valid(c.version) && Valid(c.description) && Valid(rest)
  {
    LeadsValid();
    var desc := Attr(DescLead(), c.description, rest);
    var version := Attr(VersionLead(), c.version, desc);
    AttrValidIff(DescLead(), c.description, rest);
    AttrValidIff(VersionLead(), c.version, desc);
    AttrValidIff(NameLead(), c.friendlyName, version);
    AttrValidIff(GuidLead(), c.guid, Attr(NameLead(), c.friendlyName, version));
  }

  lemma AfterEndPointValidIff(rest: bytes)
    ensures Valid(EndPointEnd() + rest) <==> Valid(rest)
  {
    AsciiValid(EndPointEnd());
    AfterValidIff(EndPointEnd(), rest);
  }

  /** The document is text exactly when the strings it shows are. */
  lemma ResponseValidIff(c: RegistrationConfig)
    ensures Valid(ResponseXML(c)) <==> ShownValid(c)
  {
    var filters := Filters(Protocols(Split(c.protocols)), c.eventFilter);
    FiltersValidIff(Protocols(Split(c.protocols)), c.eventFilter);
    AfterEndPointValidIff(filters);
    AttrsValidIff(c, EndPointEnd() + filters);
  }

  predicate ConfigValid(c: RegistrationConfig) {
    && Valid(c.guid) && Valid(c.friendlyName) && Valid(c.version) && Valid(c.description)
    && Valid(c.protocols) && Valid(c.eventFilter)
  }

  /** So a configuration of valid strings renders as valid UTF-8: splitting and trimming keep text text. */
  lemma ResponseValid(c: RegistrationConfig)
    requires ConfigValid(c)
    ensures Valid(ResponseXML(c))
  {
    SplitValid(c.protocols);
    ProtocolsValid(Split(c.protocols));
    ResponseValidIff(c);
  }

  lemma OrValid(s: bytes, text: string)
    requires Valid(s)
    ensures Valid(Or(s, Ascii(text)))
  {
    AsciiValid(Ascii(text));
  }

  /** The defaults are text too. */
  lemma DefaultsValid(c: RegistrationConfig)
    requires ConfigValid(c)
    ensures ConfigValid(c.WithDefaults())
  {
    OrValid(c.friendlyName, "ceeexporter");
    OrValid(c.guid, "bbefd339-b011-4c7a-89a7-1180d5d531c2");
    OrValid(c.description, "cee-exporter CEPA consumer");
    OrValid(c.protocols, "0,1");
    OrValid(c.eventFilter, "0xFFFFFFFF0000000000000000");
    OrValid(c.version, "1.2");
  }

  // ----- the document without any setting

  lemma DigitUntrimmed(d: byte)
    requires 48 <= d <= 57
    ensures TrimSpace([d]) == [d]
  {
    var b: bytes := [d];
    assert DecodeRune(b).r == d && BackUp(b, 1) == 1 && b[0..] == b;
    assert DecodeLastRune(b).r == d;
  }

  lemma SplitTwo(a: byte, b: byte)
    requires a != COMMA && b != COMMA
    ensures Split([a, COMMA, b]) == [[a], [b]]
  {
    var s: bytes := [a, COMMA, b];
    assert s == [a] + [COMMA, b];
    RunToIs([a], COMMA, [COMMA, b]);
    assert s[..1] == [a] && s[2..] == [b];
    RunToIs([b], COMMA, []);
    assert [b] + [] == [b];
  }

  predicate Kept(p: bytes) { p != [] && TrimSpace(p) == p }

  lemma KeptFirst(p: bytes, rest: seq<bytes>)
    requires Kept(p) && Protocols(rest) == rest
    ensures Protocols([p] + rest) == [p] + rest
  {
    assert ([p] + rest)[1..] == rest;
    ProtocolsStep([p] + rest, rest);
  }

  lemma KeptDigit(d: byte)
    requires 48 <= d <= 57
    ensures Kept([d])
  {
    DigitUntrimmed(d);
  }

  lemma TwoKept(a: bytes, b: bytes)
    requires Kept(a) && Kept(b)
    ensures Protocols([a, b]) == [a, b]
  {
    KeptFirst(b, []);
    KeptFirst(a, [b]);
    assert [a] + [b] == [a, b] && [b] + [] == [b];
  }

  lemma TwoDigits(a: byte, b: byte)
    requires 48 <= a <= 57 && 48 <= b <= 57
    ensures Protocols([[a], [b]]) == [[a], [b]]
  {
    KeptDigit(a);
    KeptDigit(b);
    TwoKept([a], [b]);
  }

  lemma DefaultBytes()
    ensures Ascii("0,1") == [48, COMMA, 49] && Ascii("0") == [48] && Ascii("1") == [49]
  {}

  lemma DefaultProtocols()
    ensures Protocols(Split(Ascii("0,1"))) == [Ascii("0"), Ascii("1")]
  {
    DefaultBytes();
    SplitTwo(48, 49);
    TwoDigits(48, 49);
  }

  const UNSET := RegistrationConfig([], [], [], [], [], [])

  /** A handler without settings registers under the default identity, with one Filter for each of the two
      default protocols. */
  lemma DefaultDocument()
    ensures ReadResponse(ResponseXML(UNSET.WithDefaults())) == Some(Response(
              Ascii("bbefd339-b011-4c7a-89a7-1180d5d531c2"), Ascii("ceeexporter"), Ascii("1.2"), Ascii("cee-exporter CEPA consumer"),
              FiltersOf([Ascii("0"), Ascii("1")], Ascii("0xFFFFFFFF0000000000000000"))))
  {
    ReadBack(UNSET.WithDefaults());
    DefaultProtocols();
  }
}
