/** The replies as publishers read them: what each document's root element says, and the two states of
    the heartbeat's answer. */
module ReplyXml {
  import opened Prelude
  import opened ByteSlices
  import opened RegisterXml
  import opened Ingress
  import C = Classify
  import D = Documents
  import R = Register

  lemma {:induction false} EscapePlain(v: bytes)
    requires forall i :: 0 <= i < |v| ==> R.Entity(v[i]) == [v[i]]
    ensures R.EscapeAttr(v) == v
  {
    if v != [] {
      EscapePlain(v[1..]);
      assert v == [v[0]] + v[1..];
    }
  }

  /** An attribute as it stands in a reply. */
  function Written(name: string, v: string): bytes { [SPACE] + Ascii(name) + [EQUALS, R.QUOTE] + Ascii(v) + [R.QUOTE] }

  predicate Shown(v: string) { R.EscapeAttr(Ascii(v)) == Ascii(v) }

  lemma ValuesShown()
    ensures Shown("0x0") && Shown("9.2.0.0")
  {
    EscapePlain(Ascii("0x0"));
    EscapePlain(Ascii("9.2.0.0"));
  }

  lemma WrittenIs(name: string, v: string, rest: bytes)
    requires Shown(v)
    ensures R.Attr(R.Lead(name), Ascii(v), rest) == Written(name, v) + rest
  {}

  // ----- the event acknowledgement

  lemma CheckEventText()
    ensures CheckEventResponse() == [LT] + Ascii("CheckEventResponse") + (Written("status", "0x0") + [SLASH, GT, 10])
  {
    assert Ascii("<CheckEventResponse") == [LT] + Ascii("CheckEventResponse");
    assert Ascii(" status=\"0x0\"/>\n") == Written("status", "0x0") + [SLASH, GT, 10];
  }

  lemma CheckEventWords()
    ensures Word(Ascii("CheckEventResponse")) && Word(Ascii("status"))
  {
    LettersAreWord("CheckEventResponse");
    LettersAreWord("status");
  }

  lemma EmptyRead(tag: string, name: string, v: string)
    requires Word(Ascii(tag)) && Word(Ascii(name)) && Shown(v)
    ensures ReadTag([LT] + Ascii(tag) + (Written(name, v) + [SLASH, GT, 10]))
      == Some(Tagged(Empty(Ascii(tag), [Attribute(Ascii(name), Ascii(v))]), [10]))
  {
    var end := [SLASH, GT, 10];
    WrittenIs(name, v, end);
    OneAttribute(tag, name, Ascii(v), end);
    assert end[2..] == [10];
  }

  /** The event acknowledgement is one empty element that reports success. */
  lemma CheckEventReads()
    ensures ReadTag(CheckEventResponse()) ==
      Some(Tagged(Empty(Ascii("CheckEventResponse"), [Attribute(Ascii("status"), Ascii("0x0"))]), [10]))
  {
    CheckEventText();
    ValuesShown();
    CheckEventWords();
    EmptyRead("CheckEventResponse", "status", "0x0");
  }

  // ----- the answer to OneFS

  lemma AsciiApart(s: string, t: string)
    ensures Ascii(s + t) == Ascii(s) + Ascii(t)
  {}

  lemma StatusText()
    ensures Ascii(" status=\"0x0\"") == Written("status", "0x0")
  {}

  lemma VersionText()
    ensures Ascii(" ceeVersion=\"9.2.0.0\">\n") == Written("ceeVersion", "9.2.0.0") + [GT, 10]
  {}

  lemma CheckFileText()
    ensures Ascii("<CheckFileResponse") == [LT] + Ascii("CheckFileResponse")
    ensures Ascii(" status=\"0x0\"" + " ceeVersion=\"9.2.0.0\">\n")
      == Written("status", "0x0") + (Written("ceeVersion", "9.2.0.0") + [GT, 10])
  {
    AsciiApart(" status=\"0x0\"", " ceeVersion=\"9.2.0.0\">\n");
    StatusText();
    VersionText();
  }

  lemma StartRead(tag: string, m: string, v: string, n: string, w: string, rest: bytes)
    requires Word(Ascii(tag)) && Word(Ascii(m)) && Word(Ascii(n)) && Shown(v) && Shown(w)
    ensures ReadTag([LT] + Ascii(tag) + (Written(m, v) + (Written(n, w) + ([GT] + rest))))
      == Some(Tagged(Start(Ascii(tag), [Attribute(Ascii(m), Ascii(v)), Attribute(Ascii(n), Ascii(w))]), rest))
  {
    var end := [GT] + rest;
    var after := R.Attr(R.Lead(m), Ascii(v), R.Attr(R.Lead(n), Ascii(w), end));
    CloseReads(rest);
    TwoRead(m, n, Ascii(v), Ascii(w), end, [], end);
    WrittenIs(n, w, end);
    WrittenIs(m, v, Written(n, w) + end);
    TwoAndNone(Attribute(Ascii(m), Ascii(v)), Attribute(Ascii(n), Ascii(w)));
    assert after[0] == SPACE;
    ReadTagOf(Ascii(tag), after);
    assert end[1..] == rest;
  }

  lemma TwoAndNone<T>(x: T, y: T)
    ensures [x, y] + [] == [x, y]
  {}

  /** What follows the root element's start tag in the answer to OneFS. */
  function CheckFileRest(): bytes { [10] + Capabilities() + Ascii("</CheckFileResponse>\n") }

  lemma CheckFilePieces(a: bytes, b: bytes, c: bytes, d: bytes, e: bytes)
    ensures a + ((b + (c + [GT, 10])) + d + e) == a + (b + (c + ([GT] + ([10] + d + e))))
  {
    assert (b + (c + [GT, 10])) + d + e == b + (c + ([GT] + ([10] + d + e)));
  }

  /** OneFS is answered with its own document, and with success. */
  lemma CheckFileReads()
    ensures ReadTag(CheckFileResponse()) ==
      Some(Tagged(Start(Ascii("CheckFileResponse"),
                        [Attribute(Ascii("status"), Ascii("0x0")), Attribute(Ascii("ceeVersion"), Ascii("9.2.0.0"))]),
                  CheckFileRest()))
  {
    CheckFileShape();
    ValuesShown();
    CheckFileWords();
    StartRead("CheckFileResponse", "status", "0x0", "ceeVersion", "9.2.0.0", CheckFileRest());
  }

  lemma CheckFileWords()
    ensures Word(Ascii("CheckFileResponse")) && Word(Ascii("status")) && Word(Ascii("ceeVersion"))
  {
    LettersAreWord("CheckFileResponse");
    LettersAreWord("status");
    LettersAreWord("ceeVersion");
  }

  // ----- their root elements

  lemma RootOf(name: bytes, after: bytes)
    requires Word(name) && name[0] != D.QUESTION && after != [] && C.EndsName(after[0]) && GT in after
    ensures C.RootName([LT] + name + after) == Some(name)
  {
    assert [LT] + name + after == [] + ([LT] + name + [after[0]] + after[1..]);
    assert after == [after[0]] + after[1..];
    D.RootOfTag([], name, after[0], after[1..]);
  }

  lemma CheckEventRoot()
    ensures C.RootName(CheckEventResponse()) == Some(Ascii("CheckEventResponse"))
  {
    CheckEventText();
    CheckEventWords();
    var after := Written("status", "0x0") + [SLASH, GT, 10];
    assert after[0] == SPACE && after[|after| - 2] == GT;
    RootOf(Ascii("CheckEventResponse"), after);
  }

  lemma CheckFileAfter(a: bytes, b: bytes, rest: bytes)
    requires a != [] && a[0] == SPACE
    ensures var after := a + (b + ([GT] + rest)); after[0] == SPACE && GT in after
  {
    assert (a + (b + ([GT] + rest)))[|a| + |b|] == GT;
  }

  lemma CheckFileShape()
    ensures CheckFileResponse() ==
      [LT] + Ascii("CheckFileResponse") + (Written("status", "0x0") + (Written("ceeVersion", "9.2.0.0") + ([GT] + CheckFileRest())))
  {
    CheckFileText();
    CheckFilePieces([LT] + Ascii("CheckFileResponse"), Written("status", "0x0"), Written("ceeVersion", "9.2.0.0"),
                    Capabilities(), Ascii("</CheckFileResponse>\n"));
  }

  lemma CheckFileRoot()
    ensures C.RootName(CheckFileResponse()) == Some(Ascii("CheckFileResponse"))
  {
    CheckFileShape();
    CheckFileWords();
    CheckFileAfter(Written("status", "0x0"), Written("ceeVersion", "9.2.0.0"), CheckFileRest());
    RootOf(Ascii("CheckFileResponse"),
           Written("status", "0x0") + (Written("ceeVersion", "9.2.0.0") + ([GT] + CheckFileRest())));
  }

  lemma RegisterRoot(reg: R.RegistrationConfig)
    ensures C.RootName(R.ResponseXML(reg)) == Some(Ascii("RegisterResponse"))
  {
    RegisterRootIs(reg, R.ResponseXML(reg));
  }

  lemma RegisterRootIs(reg: R.RegistrationConfig, doc: bytes)
    requires doc == R.ResponseXML(reg)
    ensures C.RootName(doc) == Some(Ascii("RegisterResponse"))
  {
    var name, rest := RegisterTag(reg);
    RootClosed(name, rest);
  }

  lemma RegisterTag(reg: R.RegistrationConfig) returns (name: bytes, rest: bytes)
    ensures name == Ascii("RegisterResponse") && Word(name) && name[0] != D.QUESTION
    ensures R.ResponseXML(reg) == [LT] + name + ([GT] + rest)
  {
    name := Ascii("RegisterResponse");
    LettersAreWord("RegisterResponse");
    ResponsePieces(reg);
    rest := [LT] + Ascii("EndPoint") + EndPointFrom(reg, R.Filters(R.Protocols(R.Split(reg.protocols)), reg.eventFilter));
  }

  lemma RootClosed(name: bytes, rest: bytes)
    requires Word(name) && name[0] != D.QUESTION
    ensures C.RootName([LT] + name + ([GT] + rest)) == Some(name)
  {
    RootOf(name, [GT] + rest);
  }

  // ----- the heartbeat

  /** What CEE looks for: the digit after the first place where a key stands. */
  function StateAfter(b: bytes, key: bytes): Option<byte> {
    match Index(b, key)
    case None => None
    case Some(i) => if i + |key| < |b| && 48 <= b[i + |key|] <= 57 then Some(b[i + |key|] - 48) else None
  }

  lemma KeyAt(b: bytes, key: bytes, i: nat)
    requires key != [] && i + |key| <= |b| && b[i..i + |key|] == key
    requires forall k :: 0 <= k < i ==> b[k] != key[0]
    ensures Index(b, key) == Some(i)
  {
    assert OccursAt(b, key, i);
    forall k | 0 <= k < i ensures !OccursAt(b, key, k) {
      BeginsKey(b, key, k);
    }
  }

  lemma BeginsKey(b: bytes, key: bytes, k: nat)
    requires key != [] && k < |b|
    ensures OccursAt(b, key, k) ==> b[k] == key[0]
  {
    assert OccursAt(b, key, k) ==> b[k..k + |key|][0] == b[k];
  }

  lemma KeyIn(x: bytes, key: bytes, v: byte, rest: bytes)
    requires key != [] && key[0] !in x && 48 <= v <= 57
    ensures StateAfter(x + key + [v] + rest, key) == Some(v - 48)
  {
    var b := x + key + [v] + rest;
    assert b[|x|..|x| + |key|] == key && b[|x| + |key|] == v;
    assert forall k :: 0 <= k < |x| ==> b[k] == x[k];
    KeyAt(b, key, |x|);
  }

  lemma HeartbeatText()
    ensures Ascii("hbStatus=0") == [] + Ascii("hbStatus=") + [48]
    ensures Ascii("hbStatus=0") + Ascii("&ntStatus=0") == Ascii("hbStatus=0&") + Ascii("ntStatus=") + [48] + []
    ensures Ascii("hbStatus=")[0] == 104 && Ascii("ntStatus=")[0] == 110 && 110 !in Ascii("hbStatus=0&")
  {}

  /** The heartbeat's answer reports the service online and no failure. */
  lemma HeartbeatReads()
    ensures StateAfter(HeartbeatReply(), Ascii("hbStatus=")) == Some(0)
    ensures StateAfter(HeartbeatReply(), Ascii("ntStatus=")) == Some(0)
  {
    HeartbeatText();
    KeyIn([], Ascii("hbStatus="), 48, Ascii("&ntStatus=0"));
    KeyIn(Ascii("hbStatus=0&"), Ascii("ntStatus="), 48, []);
  }

  /** The four replies of a handler by what their publishers tell them by: a document whose root element
      is the dialect's response, and for the heartbeat the two states. */
  lemma RepliesTell(reg: R.RegistrationConfig)
    ensures var replies := RepliesFor(reg);
      && C.RootName(replies.register) == Some(Ascii("RegisterResponse"))
      && C.RootName(replies.checkFile) == Some(Ascii("CheckFileResponse"))
      && C.RootName(replies.checkEvent) == Some(Ascii("CheckEventResponse"))
      && StateAfter(replies.heartbeat, Ascii("hbStatus=")) == Some(0)
      && StateAfter(replies.heartbeat, Ascii("ntStatus=")) == Some(0)
  {
    RegisterRoot(reg);
    CheckFileRoot();
    CheckEventRoot();
    HeartbeatReads();
  }
}
