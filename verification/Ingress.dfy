/** How pkg/server/server.go reads a request body and answers it: a bounded probe, the rest under the
    configured cap, and a reply in the encoding of the request. */
module Ingress {
  import opened Prelude
  import opened Utf8
  import opened Utf16
  import opened Classify
  import Register
  import RegisterText

  // ----- the body on its way in

  /** A request body. With `failAt`, reading breaks off after that many bytes: with the last of them if
      `eager`, otherwise when more is asked for. */
  datatype Stream = Stream(data: bytes, failAt: Option<nat>, eager: bool) {
    predicate Fails() { failAt.Some? && failAt.value <= |data| }

    /** How many bytes can be read. */
    function Available(): (n: nat)
      ensures n <= |data|
    {
      if Fails() then failAt.value else |data|
    }

    /** Reading no further than `n` bytes meets the failure. */
    predicate FailsWithin(n: nat) {
      Fails() && (failAt.value < n || (failAt.value == n && eager))
    }
  }

  const PROBE_BYTES := 8192

  /** 2^20, 2^63 and 2^43. */
  const MIB := 0x10_0000
  const INT64 := 0x8000_0000_0000_0000
  const LAST_MB := 0x800_0000_0000

  function Wrap64(x: int): int { (x + INT64) % (2 * INT64) - INT64 }

  /** LimitsConfig.withDefaults for the body cap: a setting that can be one stays. */
  function MaxBodyMB(configured: int): (mb: int)
    ensures mb >= 1 && (configured >= 1 ==> mb == configured)
  {
    if configured <= 0 then 8 else configured
  }

  /** maxBodyBytes: a shift of a 64-bit integer. */
  function MaxBodyBytes(mb: int): int { Wrap64(mb * MIB) }

  datatype Received = Body(body: bytes) | ProbeFailed | RestFailed(probe: bytes)

  /** The limit given to readBody once `probed` bytes are read; a negative one means zero. */
  function RestLimit(mb: int, probed: nat): nat {
    var limit := Wrap64(MaxBodyBytes(mb) - probed);
    if limit < 0 then 0 else limit
  }

  /** What arrives: the whole body, or what went wrong and what is left to look at. Nothing but the
      request's own bytes is ever taken for its body, and never a part of them. */
  function Receive(s: Stream, mb: int): (r: Received)
    ensures r.Body? ==> r.body == s.data && !s.Fails()
    ensures r.RestFailed? ==> |r.probe| == PROBE_BYTES + 1 && r.probe <= s.data
  {
    var n := PROBE_BYTES + 1;
    if s.FailsWithin(n) then ProbeFailed
    else if s.Available() < n then Body(s.data)
    else if s.Available() - n > RestLimit(mb, n) || s.Fails() then RestFailed(s.data[..n])
    else Body(s.data)
  }

  /** The request body as a reader with a position. */
  class BodyReader {
    const src: Stream
    var pos: nat

    constructor (src: Stream)
      ensures this.src == src && pos == 0
    {
      this.src := src;
      pos := 0;
    }

    /** io.ReadAll of a LimitReader: once the limit is reached reading stops, without an error unless one
        came with the last byte. */
    method ReadUpTo(limit: nat) returns (got: bytes, failed: bool)
      requires pos <= src.Available()
      modifies this
      ensures old(pos) <= pos <= src.Available() && got == src.data[old(pos)..pos]
      ensures pos == if src.Available() - old(pos) >= limit then old(pos) + limit else src.Available()
      ensures limit > 0 ==> (failed <==> src.FailsWithin(old(pos) + limit))
    {
      var left := src.Available() - pos;
      var n := if left >= limit then limit else left;
      failed := src.Fails() && (left < limit || (left == limit && src.eager));
      got := src.data[pos..pos + n];
      pos := pos + n;
    }

    /** readProbe: one byte more than the bound tells a body that ends there from one that goes on. */
    method ReadProbe() returns (probe: bytes, complete: bool, failed: bool)
      requires pos == 0
      modifies this
      ensures pos <= src.Available()
      ensures failed <==> src.FailsWithin(PROBE_BYTES + 1)
      ensures failed ==> probe == [] && !complete
      ensures !failed ==> probe == src.data[..pos] && (complete <==> |src.data| <= PROBE_BYTES)
      ensures complete ==> probe == src.data
      ensures !failed && !complete ==> pos == PROBE_BYTES + 1
    {
      probe, failed := ReadUpTo(PROBE_BYTES + 1);
      if failed {
        return [], false, true;
      }
      complete := |probe| <= PROBE_BYTES;
    }

    /** readBody through a MaxBytesReader: an error as soon as there is more than the limit. */
    method ReadBody(limit: int) returns (rest: bytes, failed: bool)
      requires pos <= src.Available()
      modifies this
      ensures var max := if limit < 0 then 0 else limit;
        failed <==> src.Available() - old(pos) > max || src.Fails()
      ensures !failed ==> rest == src.data[old(pos)..]
    {
      var max := if limit < 0 then 0 else limit;
      rest, failed := ReadUpTo(max + 1);
      failed := failed || |rest| > max;
    }

    /** The body path of ServeHTTP: the two reads, put together. */
    method ReceiveBody(mb: int) returns (r: Received)
      requires pos == 0
      modifies this
      ensures r == Receive(src, mb)
    {
      var probe, complete, failed := ReadProbe();
      if failed {
        return ProbeFailed;
      }
      if complete {
        return Body(probe);
      }
      var rest;
      rest, failed := ReadBody(Wrap64(MaxBodyBytes(mb) - |probe|));
      if failed {
        return RestFailed(probe);
      }
      return Body(probe + rest);
    }
  }

  /** The cap is the configured one: of the bodies that can be read and whose length a 64-bit program can
      hold, exactly those up to that length are accepted. */
  ghost predicate CapExact(mb: int) {
    forall s: Stream :: !s.Fails() && |s.data| < INT64 ==> (Receive(s, mb).Body? <==> |s.data| <= mb * MIB)
  }

  /** What is left of the configured megabytes in 64 bits, as megabytes of a signed number. */
  function Residue(mb: int): int { mb % (2 * LAST_MB) }

  lemma ResidueShift(mb: int)
    ensures 0 <= Residue(mb) < 2 * LAST_MB
    ensures MaxBodyBytes(mb) == if Residue(mb) < LAST_MB then Residue(mb) * MIB else (Residue(mb) - 2 * LAST_MB) * MIB
  {
    var q := mb / (2 * LAST_MB);
    assert mb * MIB + INT64 == (Residue(mb) * MIB + INT64) + q * (2 * INT64);
    WrapShift(Residue(mb) * MIB + INT64, q);
  }

  lemma WrapShift(x: int, q: int)
    ensures (x + q * (2 * INT64)) % (2 * INT64) == x % (2 * INT64)
  {}

  /** How much a body may have beyond the probe, by what the shift leaves. */
  lemma LimitIs(mb: int)
    ensures var r, n := Residue(mb), PROBE_BYTES + 1;
      RestLimit(mb, n) == if r == LAST_MB then INT64 - n else if 0 < r < LAST_MB then r * MIB - n else 0
  {
    ResidueShift(mb);
  }

  function Zeros(n: nat): Stream { Stream(seq(n, _ => 0), None, false) }

  /** A body that a wrapped cap refuses: at most 8194 bytes when nothing positive is left of it. */
  function Refused(mb: int): nat {
    var r := Residue(mb);
    if 0 < r < LAST_MB then r * MIB + 1 else PROBE_BYTES + 2
  }

  lemma WrappedCapRefuses(mb: int)
    requires LAST_MB < mb < INT64 && Residue(mb) != LAST_MB
    ensures Refused(mb) < INT64 && Refused(mb) <= mb * MIB
    ensures Receive(Zeros(Refused(mb)), mb).RestFailed?
  {
    LimitIs(mb);
  }

  /** The configured megabytes are the cap exactly up to 2^43, and where the shift leaves just the sign
      bit, which subtracting the probe turns into the largest limit there is. */
  lemma CapExactIff(configured: int)
    requires configured < INT64
    ensures var mb := MaxBodyMB(configured);
      CapExact(mb) <==> mb <= LAST_MB || mb % (2 * LAST_MB) == LAST_MB
  {
    var mb := MaxBodyMB(configured);
    LimitIs(mb);
    if mb > LAST_MB && Residue(mb) != LAST_MB {
      WrappedCapRefuses(mb);
      var s := Zeros(Refused(mb));
      assert !s.Fails() && |s.data| == Refused(mb) && !Receive(s, mb).Body?;
    }
  }

  /** One megabyte beyond 2^43, a body of 8194 bytes is refused. */
  lemma WrappedCapExample()
    ensures Receive(Zeros(8194), LAST_MB + 1).RestFailed?
  {
    WrappedCapRefuses(LAST_MB + 1);
  }

  // ----- which requests need a slot

  /** isLivenessDialect on a body, `heartbeat` telling OneFS's heartbeat action by the decoded document. */
  predicate Live(body: bytes, heartbeat: bytes -> bool) {
    match Classify.Classify(body)
    case None => false
    case Some(c) =>
      c.dialect.RegisterRequest? || c.dialect.HeartBeatRequest? || (c.dialect.CheckFileRequest? && heartbeat(c.decoded))
  }

  /** Whether ServeHTTP goes for a slot after the probe. */
  predicate NeedsSlot(s: Stream, heartbeat: bytes -> bool) {
    if s.FailsWithin(PROBE_BYTES + 1) then false
    else if s.Available() > PROBE_BYTES then true
    else !Live(s.data, heartbeat)
  }

  /** The root element's whole name. */
  predicate Rooted(decoded: bytes, name: string) { RootName(decoded) == Some(Ascii(name)) }

  lemma LiveByDialect(body: bytes, heartbeat: bytes -> bool, decoded: bytes)
    requires DecodeBody(body) == Some(decoded)
    ensures var d := ClassifyDecoded(decoded);
      Live(body, heartbeat) <==> d == RegisterRequest || d == HeartBeatRequest || (d == CheckFileRequest && heartbeat(decoded))
  {}

  /** Registration, heartbeat and OneFS's heartbeat action are liveness traffic, by the root element's whole
      name; nothing else is, OneFS's events included. */
  lemma LiveByRoot(body: bytes, heartbeat: bytes -> bool, decoded: bytes)
    requires DecodeBody(body) == Some(decoded)
    ensures Live(body, heartbeat) <==>
      || Rooted(decoded, "RegisterRequest")
      || Rooted(decoded, "HeartBeatRequest")
      || (Rooted(decoded, "CheckFileRequest") && heartbeat(decoded))
  {
    ClassifyIffRoot(decoded, RegisterRequest);
    ClassifyIffRoot(decoded, HeartBeatRequest);
    ClassifyIffRoot(decoded, CheckFileRequest);
    LiveByDialect(body, heartbeat, decoded);
  }

  /** A liveness payload that is whole in the probe. */
  predicate ProbedLive(s: Stream, heartbeat: bytes -> bool) {
    !s.Fails() && |s.data| <= PROBE_BYTES && Live(s.data, heartbeat)
  }

  /** No slot is needed exactly by such payloads and by bodies that break off within the probe. */
  lemma NoSlotIff(s: Stream, heartbeat: bytes -> bool)
    ensures !NeedsSlot(s, heartbeat) <==> ProbedLive(s, heartbeat) || s.FailsWithin(PROBE_BYTES + 1)
  {}

  // ----- the reply

  function CheckEventResponse(): bytes { Ascii("<CheckEventResponse") + Ascii(" status=\"0x0\"/>\n") }
  function HeartbeatReply(): bytes { Ascii("hbStatus=0") + Ascii("&ntStatus=0") }
  function CheckFileResponse(): bytes {
    Ascii("<CheckFileResponse") + (Ascii(" status=\"0x0\"" + " ceeVersion=\"9.2.0.0\">\n") + Capabilities() + Ascii("</CheckFileResponse>\n"))
  }
  function Capabilities(): bytes { CapabilitiesBody() + CapabilitiesEnd() }
  function CapabilitiesBody(): bytes {
    Ascii("<HeartBeatResponse ceeVersion=\"9.2.0.0\" dtdVersion=\"2.5.3\">\n<CEPPHeartBeatResponse>\n<CEPPCapabilities>\n")
    + Ascii("<Protocols CIFS=\"1\" NFS=\"1\" HDFS=\"0\"/>\n<Partner multiplicity=\"1\"/>\n")
  }
  function CapabilitiesEnd(): bytes {
    Ascii("</CEPPCapabilities>\n</CEPPHeartBeatResponse>\n</HeartBeatResponse>\n")
  }

  /** The documents a handler answers with. */
  datatype Replies = Replies(register: bytes, checkFile: bytes, heartbeat: bytes, checkEvent: bytes)

  /** A handler's replies: one rendered from its configuration, three fixed. */
  function RepliesFor(reg: Register.RegistrationConfig): Replies {
    Replies(Register.ResponseXML(reg), CheckFileResponse(), HeartbeatReply(), CheckEventResponse())
  }

  /** The document a request is answered with, if any; a payload of no known dialect gets a bare 200. */
  function ReplyTo(r: Received, replies: Replies): Option<bytes> {
    match r
    case ProbeFailed => Some(replies.checkEvent)
    case RestFailed(_) => Some(replies.checkEvent)
    case Body(body) =>
      match Classify.Classify(body)
      case None => Some(replies.checkEvent)
      case Some(c) =>
        match c.dialect
        case RegisterRequest => Some(replies.register)
        case CheckFileRequest => Some(replies.checkFile)
        case HeartBeatRequest => Some(replies.heartbeat)
        case CheckEventRequest => Some(replies.checkEvent)
        case Unknown => None
  }

  lemma ReplyByDialect(body: bytes, replies: Replies, c: Classified)
    requires Classify.Classify(body) == Some(c)
    ensures ReplyTo(Body(body), replies) ==
      match c.dialect
      case RegisterRequest => Some(replies.register)
      case CheckFileRequest => Some(replies.checkFile)
      case HeartBeatRequest => Some(replies.heartbeat)
      case CheckEventRequest => Some(replies.checkEvent)
      case Unknown => None
  {}

  /** Each publisher gets its own dialect's document, told by the whole name of the root element however
      the body is encoded. */
  lemma ReplyByRoot(body: bytes, replies: Replies, d: Dialect, decoded: bytes)
    requires !d.Unknown? && DecodeBody(body) == Some(decoded) && RootName(decoded) == Some(d.Root())
    ensures ReplyTo(Body(body), replies) ==
      match d
      case RegisterRequest => Some(replies.register)
      case CheckFileRequest => Some(replies.checkFile)
      case HeartBeatRequest => Some(replies.heartbeat)
      case CheckEventRequest => Some(replies.checkEvent)
  {
    ClassifyIffRoot(decoded, d);
    ReplyByDialect(body, replies, Classified(d, decoded));
  }

  /** A root of any other name gets no document, and a body that cannot be decoded the event
      acknowledgement. */
  lemma ReplyOtherwise(body: bytes, replies: Replies)
    ensures DecodeBody(body).None? ==> ReplyTo(Body(body), replies) == Some(replies.checkEvent)
    ensures DecodeBody(body).Some? && (forall d: Dialect :: !d.Unknown? ==> RootName(DecodeBody(body).value) != Some(d.Root()))
      ==> ReplyTo(Body(body), replies) == None
  {
    if DecodeBody(body).Some? {
      var decoded := DecodeBody(body).value;
      var d := ClassifyDecoded(decoded);
      if !d.Unknown? {
        ClassifyIffRoot(decoded, d);
      }
      ReplyByDialect(body, replies, Classified(d, decoded));
    }
  }

  /** Up to 2^43 configured megabytes the body arrives whole exactly when it can be read and is no longer. */
  lemma ReceivedIff(s: Stream, mb: int)
    requires 1 <= mb <= LAST_MB
    ensures Receive(s, mb).Body? <==> !s.Fails() && |s.data| <= mb * MIB
  {
    LimitIs(mb);
  }

  /** A body that breaks off or is over the cap is answered with the event acknowledgement: without a
      document the publisher would send the batch again for ever. */
  lemma UnreadableAnswered(s: Stream, mb: int, reg: Register.RegistrationConfig)
    requires 1 <= mb <= LAST_MB
    requires s.Fails() || |s.data| > mb * MIB
    ensures ReplyTo(Receive(s, mb), RepliesFor(reg)) == Some(CheckEventResponse())
  {
    ReceivedIff(s, mb);
    Unreadable(Receive(s, mb), RepliesFor(reg));
  }

  lemma Unreadable(r: Received, replies: Replies)
    requires !r.Body?
    ensures ReplyTo(r, replies) == Some(replies.checkEvent)
  {}

  predicate NoDialect(root: Option<bytes>) { forall d: Dialect :: !d.Unknown? ==> root != Some(d.Root()) }

  /** The request says nothing that a document answers: it arrives whole, can be decoded, and its root
      element has the name of no dialect. */
  predicate Strange(s: Stream, mb: int) {
    && Receive(s, mb).Body? && DecodeBody(s.data).Some?
    && NoDialect(RootName(DecodeBody(s.data).value))
  }

  /** Only such a request goes without a document. */
  lemma NoDocumentIff(s: Stream, mb: int, replies: Replies)
    ensures ReplyTo(Receive(s, mb), replies).None? <==> Strange(s, mb)
  {
    var r := Receive(s, mb);
    if !r.Body? {
      Unreadable(r, replies);
    } else if DecodeBody(s.data).None? {
      ReplyOtherwise(s.data, replies);
    } else {
      DecodedDocument(s.data, replies, DecodeBody(s.data).value);
    }
  }

  lemma DecodedDocument(body: bytes, replies: Replies, decoded: bytes)
    requires DecodeBody(body) == Some(decoded)
    ensures ReplyTo(Body(body), replies).None? <==> NoDialect(RootName(decoded))
  {
    var d := ClassifyDecoded(decoded);
    if d.Unknown? {
      ReplyOtherwise(body, replies);
      forall e: Dialect | !e.Unknown? ensures RootName(decoded) != Some(e.Root()) {
        ClassifyIffRoot(decoded, e);
      }
    } else {
      ClassifyIffRoot(decoded, d);
      ReplyByRoot(body, replies, d, decoded);
    }
  }

  /** The whole table: what a request that arrives and can be decoded is answered with, by the name of its
      root element. */
  lemma AnsweredByName(s: Stream, mb: int, reg: Register.RegistrationConfig, decoded: bytes)
    requires Receive(s, mb).Body? && DecodeBody(s.data) == Some(decoded)
    ensures var reply := ReplyTo(Receive(s, mb), RepliesFor(reg));
      && (Rooted(decoded, "RegisterRequest") ==> reply == Some(Register.ResponseXML(reg)))
      && (Rooted(decoded, "CheckFileRequest") ==> reply == Some(CheckFileResponse()))
      && (Rooted(decoded, "HeartBeatRequest") ==> reply == Some(HeartbeatReply()))
      && (Rooted(decoded, "CheckEventRequest") ==> reply == Some(CheckEventResponse()))
      && (reply.None? <==> !Rooted(decoded, "RegisterRequest") && !Rooted(decoded, "CheckFileRequest")
                           && !Rooted(decoded, "HeartBeatRequest") && !Rooted(decoded, "CheckEventRequest"))
  {
    ReplyByDialect(s.data, RepliesFor(reg), Classified(ClassifyDecoded(decoded), decoded));
    NamedByRoot(decoded);
  }

  lemma NamedByRoot(decoded: bytes)
    ensures var d := ClassifyDecoded(decoded);
      && (d == RegisterRequest <==> Rooted(decoded, "RegisterRequest"))
      && (d == CheckFileRequest <==> Rooted(decoded, "CheckFileRequest"))
      && (d == HeartBeatRequest <==> Rooted(decoded, "HeartBeatRequest"))
      && (d == CheckEventRequest <==> Rooted(decoded, "CheckEventRequest"))
  {
    ClassifyIffRoot(decoded, RegisterRequest);
    ClassifyIffRoot(decoded, CheckFileRequest);
    ClassifyIffRoot(decoded, HeartBeatRequest);
    ClassifyIffRoot(decoded, CheckEventRequest);
  }

  /** The request bytes at hand when the reply is written. */
  function Kept(r: Received): bytes {
    match r
    case ProbeFailed => []
    case RestFailed(probe) => probe
    case Body(body) => body
  }

  /** respond: in the encoding the request came in. */
  function Respond(request: bytes, reply: bytes): bytes {
    if IsUTF16(request) then EncodeUTF16LE(reply) else reply
  }

  /** A reply begins with an ASCII character, and so does what follows it. */
  predicate Plain(reply: bytes) {
    |reply| >= 2 && 0 < reply[0] < 0x80 && 0 < reply[1] < 0x80
  }

  lemma TextPlain(text: string, rest: bytes)
    requires |text| >= 2 && 0 as char < text[0] < 128 as char && 0 as char < text[1] < 128 as char
    ensures Plain(Ascii(text) + rest)
  {
    assert (Ascii(text) + rest)[0] == Ascii(text)[0] && (Ascii(text) + rest)[1] == Ascii(text)[1];
  }

  lemma CheckEventResponsePlain()
    ensures Plain(CheckEventResponse())
  {
    TextPlain("<CheckEventResponse", Ascii(" status=\"0x0\"/>\n"));
  }

  lemma HeartbeatReplyPlain()
    ensures Plain(HeartbeatReply())
  {
    TextPlain("hbStatus=0", Ascii("&ntStatus=0"));
  }

  lemma CheckFileResponsePlain()
    ensures Plain(CheckFileResponse())
  {
    TextPlain("<CheckFileResponse", Ascii(" status=\"0x0\"" + " ceeVersion=\"9.2.0.0\">\n") + Capabilities() + Ascii("</CheckFileResponse>\n"));
  }

  lemma GuidLeadStarts()
    ensures |Register.GuidLead()| >= 2 && Register.GuidLead()[0] == 60 && Register.GuidLead()[1] == 82
  {
    assert Ascii("RegisterResponse")[0] == 82;
  }

  lemma RegisterReplyPlain(reg: Register.RegistrationConfig)
    ensures Plain(Register.ResponseXML(reg))
  {
    var lead := Register.GuidLead();
    GuidLeadStarts();
    assert lead <= Register.ResponseXML(reg);
  }

  predicate AllPlain(replies: Replies) {
    Plain(replies.register) && Plain(replies.checkFile) && Plain(replies.heartbeat) && Plain(replies.checkEvent)
  }

  lemma RepliesPlain(reg: Register.RegistrationConfig)
    ensures AllPlain(RepliesFor(reg))
  {
    RegisterReplyPlain(reg);
    CheckFileResponsePlain();
    HeartbeatReplyPlain();
    CheckEventResponsePlain();
  }

  /** A plain reply keeps its first rune, and decodes from UTF-16 to itself exactly when it is UTF-8. */
  lemma PlainRoundTrip(reply: bytes)
    requires Plain(reply)
    ensures IsUTF16(EncodeUTF16LE(reply)) && !IsUTF16(reply)
    ensures DecodeBody(EncodeUTF16LE(reply)) == Some(reply) <==> Valid(reply)
  {
    var rs := Runes(reply);
    assert rs[0] == reply[0];
    RunesOfEncode(rs);
    assert EncodeUTF16LE(Encode(rs)) == EncodeUTF16LE(reply);
    RoundTripSome(rs);
    DecodeOfUnits(Units(rs));
    ValidIffEncoded(reply);
  }

  lemma RespondMirrors(request: bytes, reply: bytes)
    requires Plain(reply)
    ensures var sent := Respond(request, reply);
      && (IsUTF16(sent) <==> IsUTF16(request))
      && (!IsUTF16(request) ==> sent == reply)
      && (DecodeBody(sent) == Some(reply) <==> !IsUTF16(request) || Valid(reply))
  {
    PlainRoundTrip(reply);
  }

  /** Something of the request is at hand when the reply is written: whenever the probe could be read. */
  predicate Mirrored(s: Stream, mb: int) { !Receive(s, mb).ProbeFailed? && IsUTF16(s.data) }

  /** The encoding is told from the first two bytes, so a probe tells it as well as the body. */
  lemma ProbeTells(s: Stream, mb: int)
    ensures IsUTF16(Kept(Receive(s, mb))) <==> Mirrored(s, mb)
  {
    var kept := Kept(Receive(s, mb));
    if !Receive(s, mb).ProbeFailed? {
      assert kept <= s.data;
      assert |kept| >= 2 || kept == s.data;
      assert |kept| >= 2 ==> kept[0] == s.data[0] && kept[1] == s.data[1];
    }
  }

  /** Whatever arrives, and even when the body is too long or breaks off after the probe: the reply is in
      UTF-16 exactly when the request is; a publisher that is not gets it verbatim, and one that is
      decodes it exactly when it is valid UTF-8. Only when the probe itself breaks off is every publisher
      answered verbatim. */
  lemma ReplyMirrors(s: Stream, mb: int, replies: Replies)
    requires AllPlain(replies)
    ensures match ReplyTo(Receive(s, mb), replies)
      case None => Strange(s, mb)
      case Some(reply) =>
        var sent := Respond(Kept(Receive(s, mb)), reply);
        && (IsUTF16(sent) <==> Mirrored(s, mb))
        && (!Mirrored(s, mb) ==> sent == reply)
        && (DecodeBody(sent) == Some(reply) <==> !Mirrored(s, mb) || Valid(reply))
  {
    ProbeTells(s, mb);
    match ReplyTo(Receive(s, mb), replies) {
      case None => NoDocumentIff(s, mb, replies);
      case Some(reply) =>
        OneOf(Receive(s, mb), replies);
        RespondMirrors(Kept(Receive(s, mb)), reply);
    }
  }

  lemma OneOf(r: Received, replies: Replies)
    ensures ReplyTo(r, replies).Some? ==>
      ReplyTo(r, replies).value in {replies.register, replies.checkFile, replies.heartbeat, replies.checkEvent}
  {}

  lemma AsciiText(s: string)
    ensures Valid(Ascii(s))
  {
    AsciiValid(Ascii(s));
  }

  lemma AsciiTexts(s: string, t: string)
    ensures Valid(Ascii(s) + Ascii(t))
  {
    AsciiText(s);
    AsciiText(t);
    ValidAppend(Ascii(s), Ascii(t));
  }

  lemma TextsAroundValid(a: string, b: string, middle: bytes, c: string)
    requires Valid(middle)
    ensures Valid(Ascii(a) + (Ascii(b) + middle + Ascii(c)))
  {
    AsciiText(a);
    AsciiText(b);
    AsciiText(c);
    ValidAppend(Ascii(b), middle);
    ValidAppend(Ascii(b) + middle, Ascii(c));
    ValidAppend(Ascii(a), Ascii(b) + middle + Ascii(c));
  }

  lemma CapabilitiesValid()
    ensures Valid(Capabilities())
  {
    AsciiTexts("<HeartBeatResponse ceeVersion=\"9.2.0.0\" dtdVersion=\"2.5.3\">\n<CEPPHeartBeatResponse>\n<CEPPCapabilities>\n",
      "<Protocols CIFS=\"1\" NFS=\"1\" HDFS=\"0\"/>\n<Partner multiplicity=\"1\"/>\n");
    AsciiText("</CEPPCapabilities>\n</CEPPHeartBeatResponse>\n</HeartBeatResponse>\n");
    ValidAppend(CapabilitiesBody(), CapabilitiesEnd());
  }

  lemma CheckFileResponseValid()
    ensures Valid(CheckFileResponse())
  {
    CapabilitiesValid();
    TextsAroundValid("<CheckFileResponse", " status=\"0x0\"" + " ceeVersion=\"9.2.0.0\">\n", Capabilities(), "</CheckFileResponse>\n");
  }

  lemma FixedRepliesValid()
    ensures Valid(CheckEventResponse()) && Valid(HeartbeatReply()) && Valid(CheckFileResponse())
  {
    AsciiTexts("<CheckEventResponse", " status=\"0x0\"/>\n");
    AsciiTexts("hbStatus=0", "&ntStatus=0");
    CheckFileResponseValid();
  }

  /** Every reply of a handler whose configuration is text is text: so every publisher can read it. */
  lemma RepliesAreText(reg: Register.RegistrationConfig)
    requires RegisterText.ConfigValid(reg)
    ensures var replies := RepliesFor(reg.WithDefaults());
      && AllPlain(replies)
      && Valid(replies.register) && Valid(replies.checkFile) && Valid(replies.heartbeat) && Valid(replies.checkEvent)
  {
    RepliesPlain(reg.WithDefaults());
    FixedRepliesValid();
    RegisterText.DefaultsValid(reg);
    RegisterText.ResponseValid(reg.WithDefaults());
  }

  lemma ReadReply(reply: bytes, reg: Register.RegistrationConfig)
    requires reply == Register.ResponseXML(reg)
    ensures Register.ReadResponse(reply) == Some(Register.Response(reg.guid, reg.friendlyName, reg.version, reg.description,
              Register.FiltersOf(Register.Protocols(Register.Split(reg.protocols)), reg.eventFilter)))
  {
    Register.ReadBack(reg);
  }

  /** Registration end to end, for every configuration: a publisher decodes the reply to the configured
      document, from which it reads the configured identity and filters, exactly when it does not use
      UTF-16 or the strings the document shows are text. */
  lemma RegistrationReadBack(s: Stream, mb: int, replies: Replies, reg: Register.RegistrationConfig, decoded: bytes)
    requires replies.register == Register.ResponseXML(reg)
    requires Receive(s, mb) == Body(s.data)
    requires Classify.Classify(s.data) == Some(Classified(RegisterRequest, decoded))
    ensures ReplyTo(Receive(s, mb), replies) == Some(replies.register)
    ensures DecodeBody(Respond(s.data, replies.register)) == Some(replies.register)
      <==> !IsUTF16(s.data) || RegisterText.ShownValid(reg)
    ensures Register.ReadResponse(replies.register) == Some(Register.Response(
              reg.guid, reg.friendlyName, reg.version, reg.description,
              Register.FiltersOf(Register.Protocols(Register.Split(reg.protocols)), reg.eventFilter)))
  {
    RegisterReply(s.data, replies, decoded);
    RegisterDecodes(s.data, replies.register, reg);
    ReadReply(replies.register, reg);
  }

  lemma RegisterReply(body: bytes, replies: Replies, decoded: bytes)
    requires Classify.Classify(body) == Some(Classified(RegisterRequest, decoded))
    ensures ReplyTo(Body(body), replies) == Some(replies.register)
  {}

  lemma RegisterDecodes(request: bytes, reply: bytes, reg: Register.RegistrationConfig)
    requires reply == Register.ResponseXML(reg)
    ensures DecodeBody(Respond(request, reply)) == Some(reply) <==> !IsUTF16(request) || RegisterText.ShownValid(reg)
  {
    RegisterReplyPlain(reg);
    RespondMirrors(request, reply);
    RegisterText.ResponseValidIff(reg);
  }
}
