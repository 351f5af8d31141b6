/** The registration reply as XML: a reader of tags and attributes that knows nothing of the document,
    and what it finds in one. */
module RegisterXml {
  import opened Prelude
  import opened ByteSlices
  import opened Register
  import C = Classify

  const SPACE: byte := 32
  const SLASH: byte := 47
  const EQUALS: byte := 61

  // ----- the reader

  datatype Attribute = Attribute(name: bytes, value: bytes)
  datatype Tag = Start(name: bytes, attrs: seq<Attribute>) | Empty(name: bytes, attrs: seq<Attribute>) | End(name: bytes)

  datatype Attrs = Attrs(list: seq<Attribute>, rest: bytes)
  datatype Tagged = Tagged(tag: Tag, rest: bytes)

  datatype Named = Named(attr: Attribute, rest: bytes)

  /** A name, the equals sign and a value in quotes, unescaped. */
  function ReadAttribute(b: bytes): (r: Option<Named>)
    ensures r.Some? ==> |r.value.rest| < |b|
  {
    var n := RunTo(b, EQUALS);
    if n + 1 >= |b| || b[n + 1] != QUOTE then None
    else
      var body := b[n + 2..];
      var m := RunTo(body, QUOTE);
      if m == |body| then None
      else
        match Unescape(body[..m])
        case None => None
        case Some(v) => Some(Named(Attribute(b[..n], v), body[m + 1..]))
  }

  /** The attributes up to the end of a tag, each after one space. */
  function ReadAttrs(b: bytes): (r: Option<Attrs>)
    ensures r.Some? ==> |r.value.rest| <= |b|
    decreases |b|
  {
    if b == [] || b[0] != SPACE then Some(Attrs([], b))
    else if |b| > 1 && (b[1] == SLASH || b[1] == GT) then Some(Attrs([], b[1..]))
    else
      match ReadAttribute(b[1..])
      case None => None
      case Some(a) =>
        match ReadAttrs(a.rest)
        case None => None
        case Some(more) => Some(Attrs([a.attr] + more.list, more.rest))
  }

  function ReadTag(b: bytes): (r: Option<Tagged>)
    ensures r.Some? ==> |r.value.rest| < |b|
  {
    if |b| < 2 || b[0] != LT then None
    else if b[1] == SLASH then
      var n := RunTo(b[2..], GT);
      if n == |b| - 2 then None else Some(Tagged(End(b[2..n + 2]), b[n + 3..]))
    else
      var n := C.NameRun(b[1..]);
      if n == 0 then None
      else
        match ReadAttrs(b[n + 1..])
        case None => None
        case Some(a) =>
          if a.rest != [] && a.rest[0] == GT then Some(Tagged(Start(b[1..n + 1], a.list), a.rest[1..]))
          else if |a.rest| > 1 && a.rest[0] == SLASH && a.rest[1] == GT then
            Some(Tagged(Empty(b[1..n + 1], a.list), a.rest[2..]))
          else None
  }

  /** A document of tags alone. */
  function ReadTags(b: bytes): Option<seq<Tag>>
    decreases |b|
  {
    if b == [] then Some([])
    else
      match ReadTag(b)
      case None => None
      case Some(t) =>
        match ReadTags(t.rest)
        case None => None
        case Some(more) => Some([t.tag] + more)
  }

  /** Every tag that is opened is closed, innermost first; `open` lists those still open. */
  predicate Nests(ts: seq<Tag>, open: seq<bytes>) {
    if ts == [] then open == []
    else
      match ts[0]
      case Start(name, _) => Nests(ts[1..], open + [name])
      case Empty(_, _) => Nests(ts[1..], open)
      case End(name) => open != [] && open[|open| - 1] == name && Nests(ts[1..], open[..|open| - 1])
  }

  // ----- what it finds

  predicate Word(name: bytes) {
    && name != []
    && forall i :: 0 <= i < |name| ==> name[i] != EQUALS && !C.EndsName(name[i])
  }

  lemma {:induction false} LettersAreWord(s: string)
    requires s != "" && forall i :: 0 <= i < |s| ==> 'A' <= s[i] <= 'z'
    ensures Word(Ascii(s)) && Ascii(s)[0] >= 65
  {
    assert Ascii(s) != [];
    forall i | 0 <= i < |Ascii(s)| ensures Ascii(s)[i] != EQUALS && !C.EndsName(Ascii(s)[i]) {
      assert 'A' <= s[i] <= 'z';
    }
  }

  lemma ReadAttributeOf(name: bytes, v: bytes, rest: bytes)
    requires Word(name)
    ensures ReadAttribute(name + [EQUALS, QUOTE] + EscapeAttr(v) + [QUOTE] + rest) == Some(Named(Attribute(name, v), rest))
  {
    NameThenValue(name, EscapeAttr(v), rest);
    EscapedSafe(v);
    UpToQuote(EscapeAttr(v), rest);
    UnescapeEscape(v);
  }

  lemma NameThenValue(name: bytes, e: bytes, rest: bytes)
    requires Word(name)
    ensures var b, n := name + [EQUALS, QUOTE] + e + [QUOTE] + rest, |name|;
      RunTo(b, EQUALS) == n && n + 1 < |b| && b[n + 1] == QUOTE && b[n + 2..] == e + ([QUOTE] + rest) && b[..n] == name
  {
    var tail := [EQUALS, QUOTE] + e + [QUOTE] + rest;
    assert name + [EQUALS, QUOTE] + e + [QUOTE] + rest == name + tail;
    RunToIs(name, EQUALS, tail);
  }

  lemma ReadAttrsOf(name: bytes, v: bytes, rest: bytes)
    requires Word(name)
    ensures ReadAttrs([SPACE] + (name + [EQUALS, QUOTE] + EscapeAttr(v) + [QUOTE] + rest)) ==
        match ReadAttrs(rest)
        case None => None
        case Some(more) => Some(Attrs([Attribute(name, v)] + more.list, more.rest))
  {
    var b := name + [EQUALS, QUOTE] + EscapeAttr(v) + [QUOTE] + rest;
    ReadAttributeOf(name, v, rest);
    assert b[0] == name[0];
    ReadAttrsStep(b, Attribute(name, v), rest);
  }

  lemma ReadAttrsStep(b: bytes, a: Attribute, rest: bytes)
    requires b != [] && b[0] != SLASH && b[0] != GT && ReadAttribute(b) == Some(Named(a, rest))
    ensures ReadAttrs([SPACE] + b) ==
        match ReadAttrs(rest)
        case None => None
        case Some(more) => Some(Attrs([a] + more.list, more.rest))
  {
    assert ([SPACE] + b)[1..] == b;
  }

  /** A tag that begins with a name, by what its attributes come to. */
  lemma ReadTagOf(name: bytes, after: bytes)
    requires Word(name) && after != [] && C.EndsName(after[0]) && ReadAttrs(after).Some?
    ensures var b, a := [LT] + name + after, ReadAttrs(after).value;
      && (a.rest != [] && a.rest[0] == GT ==> ReadTag(b) == Some(Tagged(Start(name, a.list), a.rest[1..])))
      && (|a.rest| > 1 && a.rest[0] == SLASH && a.rest[1] == GT ==> ReadTag(b) == Some(Tagged(Empty(name, a.list), a.rest[2..])))
  {
    var b := [LT] + name + after;
    var n := |name|;
    assert b[1..n + 1] == name && b[n + 1..] == after;
    forall i | 1 <= i < n + 1 ensures !C.EndsName(b[i]) {
      assert b[i] == name[i - 1];
    }
    C.NameEnds(b, n + 1);
  }

  lemma ReadEndOf(name: bytes, rest: bytes)
    requires GT !in name
    ensures ReadTag([LT, SLASH] + name + [GT] + rest) == Some(Tagged(End(name), rest))
  {
    var b := [LT, SLASH] + name + [GT] + rest;
    assert b[2..] == name + ([GT] + rest);
    RunToIs(name, GT, [GT] + rest);
    assert b[2..|name| + 2] == name && b[|name| + 3..] == rest;
  }

  lemma ReadTagsStep(b: bytes, t: Tag, rest: bytes, more: seq<Tag>)
    requires ReadTag(b) == Some(Tagged(t, rest)) && ReadTags(rest) == Some(more)
    ensures ReadTags(b) == Some([t] + more)
  {}

  // ----- the document

  /** The three tags of one Filter element. */
  function FilterElement(p: bytes, filter: bytes): seq<Tag> {
    [Start(Ascii("Filter"), [Attribute(Ascii("protocol"), p)]),
     Empty(Ascii("EventTypeFilter"), [Attribute(Ascii("value"), filter)]),
     End(Ascii("Filter"))]
  }

  /** What a configuration's document says, in tags. */
  function FilterTags(ps: seq<bytes>, filter: bytes): seq<Tag> {
    if ps == [] then []
    else
      FilterElement(ps[0], filter) + FilterTags(ps[1..], filter)
  }

  function EndPointAttrs(c: RegistrationConfig): seq<Attribute> {
    [Attribute(Ascii("guid"), c.guid), Attribute(Ascii("friendlyName"), c.friendlyName),
     Attribute(Ascii("version"), c.version), Attribute(Ascii("desc"), c.description)]
  }

  function ResponseTags(c: RegistrationConfig): seq<Tag> {
    [Start(Ascii("RegisterResponse"), []), Empty(Ascii("EndPoint"), EndPointAttrs(c))]
    + FilterTags(Protocols(Split(c.protocols)), c.eventFilter) + [End(Ascii("RegisterResponse"))]
  }

  lemma LeadReads(name: string, v: bytes, rest: bytes)
    requires Word(Ascii(name))
    ensures ReadAttrs(Register.Attr(Lead(name), v, rest)) ==
      match ReadAttrs(rest)
      case None => None
      case Some(more) => Some(Attrs([Attribute(Ascii(name), v)] + more.list, more.rest))
  {
    ReadAttrsOf(Ascii(name), v, rest);
    LeadApart(Ascii(name), EscapeAttr(v), rest);
  }

  lemma LeadApart(name: bytes, e: bytes, rest: bytes)
    ensures ([SPACE] + name + [EQUALS, QUOTE]) + e + [QUOTE] + rest == [SPACE] + (name + [EQUALS, QUOTE] + e + [QUOTE] + rest)
  {}

  lemma SlashReads(rest: bytes)
    ensures ReadAttrs([SPACE, SLASH, GT] + rest) == Some(Attrs([], [SLASH, GT] + rest))
  {
    assert ([SPACE, SLASH, GT] + rest)[1..] == [SLASH, GT] + rest;
  }

  lemma CloseReads(rest: bytes)
    ensures ReadAttrs([GT] + rest) == Some(Attrs([], [GT] + rest))
  {}

  /** A tag with one attribute, given the tag's name and the attribute's. */
  lemma OneAttribute(tag: string, name: string, v: bytes, end: bytes)
    requires Word(Ascii(tag)) && Word(Ascii(name)) && ReadAttrs(end).Some? && ReadAttrs(end).value.list == []
    ensures var b, rest := [LT] + Ascii(tag) + Register.Attr(Lead(name), v, end), ReadAttrs(end).value.rest;
      && (rest != [] && rest[0] == GT ==>
            ReadTag(b) == Some(Tagged(Start(Ascii(tag), [Attribute(Ascii(name), v)]), rest[1..])))
      && (|rest| > 1 && rest[0] == SLASH && rest[1] == GT ==>
            ReadTag(b) == Some(Tagged(Empty(Ascii(tag), [Attribute(Ascii(name), v)]), rest[2..])))
  {
    LeadReads(name, v, end);
    assert Register.Attr(Lead(name), v, end)[0] == SPACE;
    assert [Attribute(Ascii(name), v)] + [] == [Attribute(Ascii(name), v)];
    ReadTagOf(Ascii(tag), Register.Attr(Lead(name), v, end));
  }

  lemma FilterWords()
    ensures Word(Ascii("Filter")) && Word(Ascii("protocol")) && Word(Ascii("EventTypeFilter")) && Word(Ascii("value"))
  {
    LettersAreWord("Filter");
    LettersAreWord("protocol");
    LettersAreWord("EventTypeFilter");
    LettersAreWord("value");
  }

  lemma FilterStart(p: bytes, rest: bytes)
    ensures ReadTag([LT] + Ascii("Filter") + Register.Attr(Lead("protocol"), p, [GT] + rest))
      == Some(Tagged(Start(Ascii("Filter"), [Attribute(Ascii("protocol"), p)]), rest))
  {
    FilterWords();
    CloseReads(rest);
    OneAttribute("Filter", "protocol", p, [GT] + rest);
    assert ([GT] + rest)[1..] == rest;
  }

  lemma FilterValue(filter: bytes, rest: bytes)
    ensures ReadTag([LT] + Ascii("EventTypeFilter") + Register.Attr(Lead("value"), filter, [SPACE, SLASH, GT] + rest))
      == Some(Tagged(Empty(Ascii("EventTypeFilter"), [Attribute(Ascii("value"), filter)]), rest))
  {
    FilterWords();
    SlashReads(rest);
    OneAttribute("EventTypeFilter", "value", filter, [SPACE, SLASH, GT] + rest);
    assert ([SLASH, GT] + rest)[2..] == rest;
  }

  /** One Filter element as its three tags. */
  lemma FilterPieces(p: bytes, filter: bytes, rest: bytes)
    ensures FilterXML(p, filter, rest) ==
      [LT] + Ascii("Filter") + Register.Attr(Lead("protocol"), p, [GT] +
        ([LT] + Ascii("EventTypeFilter") + Register.Attr(Lead("value"), filter, [SPACE, SLASH, GT] +
          ([LT, SLASH] + Ascii("Filter") + [GT] + rest))))
  {
    var end := [LT, SLASH] + Ascii("Filter") + [GT] + rest;
    assert FilterEnd() + rest == [SPACE, SLASH, GT] + end;
    LeadAfter([GT] + [LT] + Ascii("EventTypeFilter"), Lead("value"), filter, [SPACE, SLASH, GT] + end);
    assert ValueLead() == [GT] + [LT] + Ascii("EventTypeFilter") + Lead("value");
    var value := [LT] + Ascii("EventTypeFilter") + Register.Attr(Lead("value"), filter, [SPACE, SLASH, GT] + end);
    assert Register.Attr(ValueLead(), filter, FilterEnd() + rest) == [GT] + value;
    LeadAfter([LT] + Ascii("Filter"), Lead("protocol"), p, [GT] + value);
  }

  lemma LeadAfter(a: bytes, lead: bytes, v: bytes, rest: bytes)
    ensures Register.Attr(a + lead, v, rest) == a + Register.Attr(lead, v, rest)
  {}

  lemma EndOf(name: string, rest: bytes, more: seq<Tag>)
    requires Word(Ascii(name)) && GT !in Ascii(name) && ReadTags(rest) == Some(more)
    ensures ReadTags([LT, SLASH] + Ascii(name) + [GT] + rest) == Some([End(Ascii(name))] + more)
  {
    ReadEndOf(Ascii(name), rest);
    ReadTagsStep([LT, SLASH] + Ascii(name) + [GT] + rest, End(Ascii(name)), rest, more);
  }

  lemma ThreeTags(b: bytes, t0: Tag, b1: bytes, t1: Tag, b2: bytes, t2: Tag, more: seq<Tag>)
    requires ReadTag(b) == Some(Tagged(t0, b1)) && ReadTag(b1) == Some(Tagged(t1, b2)) && ReadTags(b2) == Some([t2] + more)
    ensures ReadTags(b) == Some([t0, t1, t2] + more)
  {
    TwoTags(b, t0, b1, t1, b2, [t2] + more);
    TwoThenOne(t0, t1, t2, more);
  }

  lemma TwoTags(b: bytes, t0: Tag, b1: bytes, t1: Tag, b2: bytes, more: seq<Tag>)
    requires ReadTag(b) == Some(Tagged(t0, b1)) && ReadTag(b1) == Some(Tagged(t1, b2)) && ReadTags(b2) == Some(more)
    ensures ReadTags(b) == Some([t0, t1] + more)
  {
    ReadTagsStep(b1, t1, b2, more);
    ReadTagsStep(b, t0, b1, [t1] + more);
    OneThenOne(t0, t1, more);
  }

  lemma OneThenOne<T>(x: T, y: T, more: seq<T>)
    ensures [x] + ([y] + more) == [x, y] + more
  {}

  lemma TwoThenOne<T>(x: T, y: T, z: T, more: seq<T>)
    ensures [x, y] + ([z] + more) == [x, y, z] + more
  {}

  lemma FilterReads(p: bytes, filter: bytes, rest: bytes, more: seq<Tag>)
    requires ReadTags(rest) == Some(more)
    ensures ReadTags(FilterXML(p, filter, rest)) == Some(FilterElement(p, filter) + more)
  {
    FilterWords();
    EndOf("Filter", rest, more);
    FilterReadsBefore(p, filter, rest, [LT, SLASH] + Ascii("Filter") + [GT] + rest, more);
  }

  lemma FilterReadsBefore(p: bytes, filter: bytes, rest: bytes, end: bytes, more: seq<Tag>)
    requires end == [LT, SLASH] + Ascii("Filter") + [GT] + rest
    requires ReadTags(end) == Some([End(Ascii("Filter"))] + more)
    ensures ReadTags(FilterXML(p, filter, rest)) == Some(FilterElement(p, filter) + more)
  {
    var value := [LT] + Ascii("EventTypeFilter") + Register.Attr(Lead("value"), filter, [SPACE, SLASH, GT] + end);
    FilterPieces(p, filter, rest);
    FilterValue(filter, end);
    FilterStart(p, value);
    ThreeTags(FilterXML(p, filter, rest), Start(Ascii("Filter"), [Attribute(Ascii("protocol"), p)]), value,
              Empty(Ascii("EventTypeFilter"), [Attribute(Ascii("value"), filter)]), end, End(Ascii("Filter")), more);
  }

  lemma EndReads()
    ensures ReadTags(ResponseEnd()) == Some([End(Ascii("RegisterResponse"))])
  {
    LettersAreWord("RegisterResponse");
    ReadEndOf(Ascii("RegisterResponse"), []);
    assert ResponseEnd() == [LT, SLASH] + Ascii("RegisterResponse") + [GT] + [];
    ReadTagsStep(ResponseEnd(), End(Ascii("RegisterResponse")), [], []);
    assert [End(Ascii("RegisterResponse"))] + [] == [End(Ascii("RegisterResponse"))];
  }

  lemma {:induction false} FiltersRead(ps: seq<bytes>, filter: bytes)
    ensures ReadTags(Filters(ps, filter)) == Some(FilterTags(ps, filter) + [End(Ascii("RegisterResponse"))])
  {
    if ps == [] {
      EndReads();
      assert FilterTags(ps, filter) + [End(Ascii("RegisterResponse"))] == [End(Ascii("RegisterResponse"))];
    } else {
      FiltersRead(ps[1..], filter);
      FilterReads(ps[0], filter, Filters(ps[1..], filter), FilterTags(ps[1..], filter) + [End(Ascii("RegisterResponse"))]);
      Grouped(FilterElement(ps[0], filter), FilterTags(ps[1..], filter), [End(Ascii("RegisterResponse"))]);
    }
  }

  lemma Grouped<T>(a: seq<T>, b: seq<T>, c: seq<T>)
    ensures a + (b + c) == (a + b) + c
  {}

  lemma EndPointWords()
    ensures Word(Ascii("guid")) && Word(Ascii("friendlyName")) && Word(Ascii("version")) && Word(Ascii("desc"))
  {
    LettersAreWord("guid");
    LettersAreWord("friendlyName");
    LettersAreWord("version");
    LettersAreWord("desc");
  }

  /** The attributes of the EndPoint element, from its first on. */
  function EndPointFrom(c: RegistrationConfig, rest: bytes): bytes {
    Register.Attr(Lead("guid"), c.guid, Register.Attr(Lead("friendlyName"), c.friendlyName,
      Register.Attr(Lead("version"), c.version, Register.Attr(Lead("desc"), c.description, [SPACE, SLASH, GT] + rest))))
  }

  lemma AttrReads(name: string, v: bytes, rest: bytes, list: seq<Attribute>, after: bytes)
    requires Word(Ascii(name)) && ReadAttrs(rest) == Some(Attrs(list, after))
    ensures ReadAttrs(Register.Attr(Lead(name), v, rest)) == Some(Attrs([Attribute(Ascii(name), v)] + list, after))
  {
    LeadReads(name, v, rest);
  }

  /** Two attributes, given their names. */
  lemma TwoRead(m: string, n: string, v: bytes, w: bytes, rest: bytes, list: seq<Attribute>, after: bytes)
    requires Word(Ascii(m)) && Word(Ascii(n)) && ReadAttrs(rest) == Some(Attrs(list, after))
    ensures ReadAttrs(Register.Attr(Lead(m), v, Register.Attr(Lead(n), w, rest)))
      == Some(Attrs([Attribute(Ascii(m), v), Attribute(Ascii(n), w)] + list, after))
  {
    AttrReads(n, w, rest, list, after);
    AttrReads(m, v, Register.Attr(Lead(n), w, rest), [Attribute(Ascii(n), w)] + list, after);
    OneThenOne(Attribute(Ascii(m), v), Attribute(Ascii(n), w), list);
  }

  lemma TwoAndTwo<T>(x: T, y: T, z: T, w: T)
    ensures [x, y] + ([z, w] + []) == [x, y, z, w]
  {}

  lemma EndPointReads(c: RegistrationConfig, rest: bytes)
    ensures ReadAttrs(EndPointFrom(c, rest)) == Some(Attrs(EndPointAttrs(c), [SLASH, GT] + rest))
  {
    EndPointWords();
    SlashReads(rest);
    var a2, a3 := Attribute(Ascii("version"), c.version), Attribute(Ascii("desc"), c.description);
    var end := [SPACE, SLASH, GT] + rest;
    TwoRead("version", "desc", c.version, c.description, end, [], [SLASH, GT] + rest);
    TwoRead("guid", "friendlyName", c.guid, c.friendlyName,
            Register.Attr(Lead("version"), c.version, Register.Attr(Lead("desc"), c.description, end)), [a2, a3] + [], [SLASH, GT] + rest);
    TwoAndTwo(Attribute(Ascii("guid"), c.guid), Attribute(Ascii("friendlyName"), c.friendlyName), a2, a3);
  }

  lemma EndPointTag(c: RegistrationConfig, rest: bytes)
    ensures ReadTag([LT] + Ascii("EndPoint") + EndPointFrom(c, rest)) == Some(Tagged(Empty(Ascii("EndPoint"), EndPointAttrs(c)), rest))
  {
    LettersAreWord("EndPoint");
    EndPointReads(c, rest);
    assert EndPointFrom(c, rest)[0] == SPACE;
    ReadTagOf(Ascii("EndPoint"), EndPointFrom(c, rest));
    assert ([SLASH, GT] + rest)[2..] == rest;
  }

  lemma RootTag(rest: bytes)
    ensures ReadTag([LT] + Ascii("RegisterResponse") + ([GT] + rest)) == Some(Tagged(Start(Ascii("RegisterResponse"), []), rest))
  {
    LettersAreWord("RegisterResponse");
    CloseReads(rest);
    ReadTagOf(Ascii("RegisterResponse"), [GT] + rest);
    assert ([GT] + rest)[1..] == rest;
  }

  lemma TagsApart(a: bytes, e: bytes, x: bytes)
    ensures ([LT] + a + [GT, LT] + e) + x == [LT] + a + ([GT] + ([LT] + e + x))
  {}

  lemma ResponsePieces(c: RegistrationConfig)
    ensures var filters := Filters(Protocols(Split(c.protocols)), c.eventFilter);
      ResponseXML(c) == [LT] + Ascii("RegisterResponse") + ([GT] + ([LT] + Ascii("EndPoint") + EndPointFrom(c, filters)))
  {
    PiecesBefore(c, Filters(Protocols(Split(c.protocols)), c.eventFilter), Ascii("RegisterResponse"), Ascii("EndPoint"));
  }

  lemma PiecesBefore(c: RegistrationConfig, filters: bytes, root: bytes, point: bytes)
    ensures Register.Attr([LT] + root + [GT, LT] + point + Lead("guid"), c.guid,
              Register.Attr(NameLead(), c.friendlyName, Register.Attr(VersionLead(), c.version,
                Register.Attr(DescLead(), c.description, EndPointEnd() + filters))))
      == [LT] + root + ([GT] + ([LT] + point + EndPointFrom(c, filters)))
  {
    LeadAfter([LT] + root + [GT, LT] + point, Lead("guid"), c.guid,
      Register.Attr(NameLead(), c.friendlyName, Register.Attr(VersionLead(), c.version,
        Register.Attr(DescLead(), c.description, EndPointEnd() + filters))));
    TagsApart(root, point, EndPointFrom(c, filters));
  }

  /** For every configuration a reader of XML finds in the reply one RegisterResponse element with, in
      it, an EndPoint with the four configured attributes and one Filter for each protocol of the list
      that is not blank, and nothing else. */
  lemma ResponseReads(c: RegistrationConfig)
    ensures ReadTags(ResponseXML(c)) == Some(ResponseTags(c))
  {
    var ps := Protocols(Split(c.protocols));
    var filters := Filters(ps, c.eventFilter);
    var more := FilterTags(ps, c.eventFilter);
    var point := [LT] + Ascii("EndPoint") + EndPointFrom(c, filters);
    ResponsePieces(c);
    FiltersRead(ps, c.eventFilter);
    EndPointTag(c, filters);
    RootTag(point);
    TwoTags(ResponseXML(c), Start(Ascii("RegisterResponse"), []), point, Empty(Ascii("EndPoint"), EndPointAttrs(c)),
            filters, more + [End(Ascii("RegisterResponse"))]);
    Grouped([Start(Ascii("RegisterResponse"), []), Empty(Ascii("EndPoint"), EndPointAttrs(c))], more, [End(Ascii("RegisterResponse"))]);
  }

  lemma {:induction false} FiltersNest(ps: seq<bytes>, filter: bytes, root: bytes)
    ensures Nests(FilterTags(ps, filter) + [End(root)], [root])
  {
    var end := [End(root)];
    if ps == [] {
      assert FilterTags(ps, filter) + end == end && end[1..] == [] && [root][..0] == [];
    } else {
      var f := Ascii("Filter");
      var t0 := Start(f, [Attribute(Ascii("protocol"), ps[0])]);
      var t1 := Empty(Ascii("EventTypeFilter"), [Attribute(Ascii("value"), filter)]);
      FiltersNest(ps[1..], filter, root);
      ElementNests(t0, t1, f, FilterTags(ps[1..], filter) + end, [root]);
      Grouped([t0, t1, End(f)], FilterTags(ps[1..], filter), end);
    }
  }

  /** An element around an empty one nests where what follows it does. */
  lemma ElementNests(t0: Tag, t1: Tag, name: bytes, more: seq<Tag>, open: seq<bytes>)
    requires t0.Start? && t0.name == name && t1.Empty? && Nests(more, open)
    ensures Nests([t0, t1, End(name)] + more, open)
  {
    var ts := [t0, t1, End(name)] + more;
    assert ts[1..] == [t1, End(name)] + more && ts[1..][1..] == [End(name)] + more && ts[1..][1..][1..] == more;
    assert (open + [name])[..|open|] == open;
    assert Nests([End(name)] + more, open + [name]);
    assert Nests([t1, End(name)] + more, open + [name]);
  }

  lemma RootNests(root: bytes, t0: Tag, t1: Tag, more: seq<Tag>, last: seq<Tag>)
    requires t0.Start? && t0.name == root && t1.Empty? && Nests(more + last, [root])
    ensures Nests([t0, t1] + more + last, [])
  {
    var ts := [t0, t1] + more + last;
    assert ts[1..] == [t1] + (more + last) && ts[1..][1..] == more + last;
    assert [] + [root] == [root];
    assert Nests(ts[1..], [root]);
  }

  /** And its tags nest. */
  lemma ResponseNests(c: RegistrationConfig)
    ensures Nests(ResponseTags(c), [])
  {
    var ps := Protocols(Split(c.protocols));
    FiltersNest(ps, c.eventFilter, Ascii("RegisterResponse"));
    RootNests(Ascii("RegisterResponse"), Start(Ascii("RegisterResponse"), []), Empty(Ascii("EndPoint"), EndPointAttrs(c)),
              FilterTags(ps, c.eventFilter), [End(Ascii("RegisterResponse"))]);
  }
}
