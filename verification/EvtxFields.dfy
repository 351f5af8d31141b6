/** The field map of one record: enforceEncodedBudget on a map it rewrites in place, and
    windowsEventToFields, which fills the map and runs both truncation passes over it. */
module EvtxFields {
  import opened Prelude
  import opened Utf8
  import opened Utf16
  import opened MapSum
  import opened EvtxBudget
  import EvtxTotals

  datatype Field =
    | ProviderName | Channel | Level | Keywords | Computer | TimeCreated | SubjectUserSid | SubjectUserName
    | SubjectDomainName | SubjectLogonId | ObjectServer | ObjectType | ObjectName | HandleId | AccessList
    | AccessMask | ProcessId | ProcessName | IpAddress

  /** The parts of WindowsEvent this writer reads. The time and the process number arrive formatted. */
  datatype WindowsEvent = WindowsEvent(
    providerName: bytes, computer: bytes, channel: bytes, timeCreated: bytes,
    subjectUserSID: bytes, subjectUsername: bytes, subjectDomain: bytes, subjectLogonID: bytes,
    objectType: bytes, objectName: bytes, accessMask: bytes, accesses: bytes,
    processID: bytes, handleID: bytes, clientAddr: bytes)

  /** What a field says before anything is cut. */
  function Raw(e: WindowsEvent, f: Field): bytes {
    match f
    case ProviderName => if e.providerName == [] then Ascii("PowerStore-CEPA") else e.providerName
    case Channel => if e.channel == [] then Ascii("Security") else e.channel
    case Level => Ascii("4")
    case Keywords => Ascii("0x80000000000000")
    case Computer => e.computer
    case TimeCreated => e.timeCreated
    case SubjectUserSid => e.subjectUserSID
    case SubjectUserName => e.subjectUsername
    case SubjectDomainName => e.subjectDomain
    case SubjectLogonId => e.subjectLogonID
    case ObjectServer => Ascii("Security")
    case ObjectType => e.objectType
    case ObjectName => e.objectName
    case HandleId => e.handleID
    case AccessList => e.accesses
    case AccessMask => e.accessMask
    case ProcessId => e.processID
    case ProcessName => []
    case IpAddress => e.clientAddr
  }

  const ALL_FIELDS: set<Field> :=
    {ProviderName, Channel, Level, Keywords, Computer, TimeCreated, SubjectUserSid, SubjectUserName, SubjectDomainName,
     SubjectLogonId} +
    {ObjectServer, ObjectType, ObjectName, HandleId, AccessList, AccessMask, ProcessId, ProcessName, IpAddress}

  lemma NineteenFields()
    ensures |ALL_FIELDS| == 19 && forall f: Field :: f in ALL_FIELDS
  {
    var a := {ProviderName, Channel, Level, Keywords, Computer, TimeCreated, SubjectUserSid, SubjectUserName,
              SubjectDomainName, SubjectLogonId};
    var b := {ObjectServer, ObjectType, ObjectName, HandleId, AccessList, AccessMask, ProcessId, ProcessName, IpAddress};
    assert a !! b && ALL_FIELDS == a + b;
    assert |a| == 10;
    assert |b| == 9;
    forall f: Field ensures f in ALL_FIELDS {
      match f {
        case ProviderName => case Channel => case Level => case Keywords => case Computer => case TimeCreated =>
        case SubjectUserSid => case SubjectUserName => case SubjectDomainName => case SubjectLogonId =>
        case ObjectServer => case ObjectType => case ObjectName => case HandleId => case AccessList =>
        case AccessMask => case ProcessId => case ProcessName => case IpAddress =>
      }
    }
  }

  function RawFields(e: WindowsEvent): (m: Fields<Field>) { map f | f in ALL_FIELDS :: Raw(e, f) }

  /** The fields the cap on one value is applied to. */
  predicate Clipped(f: Field) {
    !f.Level? && !f.Keywords? && !f.TimeCreated? && !f.ObjectServer? && !f.ProcessId? && !f.ProcessName?
  }

  /** A map shared by reference, as Go's maps are. */
  class FieldMap<K(==, !new)> {
    var fields: Fields<K>

    constructor (fields: Fields<K>)
      ensures this.fields == fields
    {
      this.fields := fields;
    }

    /** Adds up the encoded lengths, in whatever order the map is ranged over. */
    method EncodedTotal() returns (total: nat)
      ensures total == Sum(fields, EncodedLen)
    {
      total := 0;
      var left := fields;
      while left != map[]
        invariant total + Sum(left, EncodedLen) == Sum(fields, EncodedLen)
        decreases |left|
      {
        var k :| k in left;
        SumRemove(left, EncodedLen, k);
        total := total + EncodedLen(left[k]);
        left := left - {k};
      }
    }

    /** Finds the longest value, the first such met in ranging over the map. */
    method FindLongest() returns (key: Option<K>, longest: nat)
      ensures key.None? <==> forall k :: k in fields ==> fields[k] == []
      ensures key.None? ==> longest == 0
      ensures key.Some? ==> Longest(fields, key.value) && longest == |fields[key.value]| > 0
    {
      key, longest := None, 0;
      var left := fields.Keys;
      while left != {}
        invariant left <= fields.Keys
        invariant key.None? ==> longest == 0
        invariant key.Some? ==> key.value in fields && longest == |fields[key.value]| > 0
        invariant forall k :: k in fields && k !in left ==> |fields[k]| <= longest
        decreases |left|
      {
        var k :| k in left;
        if |fields[k]| > longest {
          key, longest := Some(k), |fields[k]|;
        }
        left := left - {k};
      }
    }

    /** One turn of the loop on a map over budget: halves the longest value and returns the change of
        the encoded total, unless that value resists. */
    method HalveLongest() returns (stuck: bool, delta: int)
      requires Sum(fields, EncodedLen) > MAX_ENCODED_FIELDS_BYTES
      modifies this
      ensures stuck ==> fields == old(fields) && Stops(fields)
      ensures !stuck ==> Turn(old(fields), fields)
      ensures !stuck ==> Sum(fields, EncodedLen) == Sum(old(fields), EncodedLen) + delta
      ensures !stuck && |old(fields)| <= 411 ==> delta < 0
    {
      var key, longest := FindLongest();
      if longest <= MARKER_BYTES {
        ShortStops(fields, longest);
        return true, 0;
      }
      var v := fields[key.value];
      var keep := BackOffLoop(v, longest / 2);
      if keep + MARKER_BYTES >= longest {
        assert Longest(fields, key.value) && !Pays(v);
        return true, 0;
      }
      var cut := v[..keep] + Marker();
      SumUpdate(fields, EncodedLen, key.value, cut);
      assert Longest(fields, key.value) && Pays(v) && cut == Halved(v);
      fields := fields[key.value := cut];
      if |old(fields)| <= 411 {
        EvtxTotals.TurnLowers(old(fields), fields);
      }
      return false, EncodedLen(cut) - EncodedLen(v);
    }

    /** Halves the longest value until the set fits or the longest resists. `run` lists the maps it goes
        through; the running total is the true one throughout. */
    method EnforceEncodedBudget() returns (shortened: bool, ghost run: seq<Fields<K>>)
      modifies this
      ensures Turns(run) && run[0] == old(fields) && run[|run| - 1] == fields
      ensures Stops(fields)
      ensures shortened <==> Sum(old(fields), EncodedLen) > MAX_ENCODED_FIELDS_BYTES
      ensures !shortened ==> fields == old(fields)
    {
      run := [fields];
      var total: int := EncodedTotal();
      if total <= MAX_ENCODED_FIELDS_BYTES {
        return false, run;
      }
      while total > MAX_ENCODED_FIELDS_BYTES
        invariant total == Sum(fields, EncodedLen)
        invariant Turns(run) && run[0] == old(fields) && run[|run| - 1] == fields
        decreases Sum(fields, ByteLen)
      {
        ghost var before := fields;
        var stuck, delta := HalveLongest();
        if stuck {
          return true, run;
        }
        TurnShortens(before, fields);
        total := total + delta;
        run := run + [fields];
      }
      return true, run;
    }
  }

  /** A map over budget whose values are all short stops the pass. */
  lemma ShortStops<K(!new)>(m: Fields<K>, longest: nat)
    requires Sum(m, EncodedLen) > MAX_ENCODED_FIELDS_BYTES && longest <= MARKER_BYTES
    requires forall k :: k in m ==> |m[k]| <= longest
    requires longest > 0 ==> exists k :: k in m && |m[k]| == longest
    ensures Stops(m)
  {
    assert m != map[];
    var k :| k in m && (longest > 0 ==> |m[k]| == longest);
    assert Longest(m, k) && !Pays(m[k]);
  }

  /** Clipping the values one by one. */
  ghost predicate ClippedFrom(raw: Fields<Field>, m: Fields<Field>) {
    m.Keys == raw.Keys && forall f :: f in raw ==> m[f] == if Clipped(f) then Clip(raw[f]) else raw[f]
  }

  /** Cutting what was cut is one cut of the original, and shorter than it. */
  lemma ShapeTwice(orig: bytes, mid: bytes, v: bytes)
    requires Shape(orig, mid) && Shape(mid, v)
    ensures Shape(orig, v)
    ensures mid != orig || v != mid ==> |v| < |orig|
  {
    if mid != orig && v != mid {
      var n: nat :| CutAt(orig, mid, n);
      var k: nat :| CutAt(mid, v, k);
      assert v[..k] == orig[..k] && mid[k] == orig[k];
      assert CutAt(orig, v, k);
    }
  }

  /** Some value is over the cap on one value. */
  ghost predicate OverCap(raw: Fields<Field>) {
    exists f :: f in raw && Clipped(f) && |raw[f]| > MAX_FIELD_BYTES
  }

  /** A run that starts over budget takes a turn, and one that takes a turn started over budget. */
  lemma TurnsTaken(run: seq<Fields<Field>>)
    requires Turns(run) && |run[0]| <= 1015 && Stops(run[|run| - 1])
    ensures run[|run| - 1] != run[0] <==> Sum(run[0], EncodedLen) > MAX_ENCODED_FIELDS_BYTES
  {
    RunKeeps(run);
    if |run| > 1 {
      assert Turn(run[0], run[1]);
    } else {
      EndsInBudget(run[0]);
    }
  }

  /** The two passes change something exactly when a value was over its cap or the clipped set over budget. */
  lemma ChangedIff(raw: Fields<Field>, run: seq<Fields<Field>>)
    requires |raw| == 19 && Turns(run) && ClippedFrom(raw, run[0]) && Stops(run[|run| - 1])
    ensures run[|run| - 1] != raw <==> OverCap(raw) || Sum(run[0], EncodedLen) > MAX_ENCODED_FIELDS_BYTES
  {
    var first, last := run[0], run[|run| - 1];
    assert |first| == 19 by { assert |first.Keys| == |raw.Keys|; }
    RunKeeps(run);
    TurnsTaken(run);
    PassesCompose(raw, first, last);
    FirstPassChangesIff(raw, first);
  }

  lemma FirstPassChangesIff(raw: Fields<Field>, first: Fields<Field>)
    requires ClippedFrom(raw, first)
    ensures first != raw <==> OverCap(raw)
  {
    if !OverCap(raw) {
      assert forall f :: f in raw ==> first[f] == raw[f];
    } else {
      var f :| f in raw && Clipped(f) && |raw[f]| > MAX_FIELD_BYTES;
      ClipShape(raw[f]);
      ShapeTwice(raw[f], raw[f], Clip(raw[f]));
      assert |Clip(raw[f])| < |raw[f]|;
    }
  }

  /** The second pass never restores what the first cut. */
  lemma PassesCompose(raw: Fields<Field>, first: Fields<Field>, last: Fields<Field>)
    requires ClippedFrom(raw, first) && Keeps(first, last)
    ensures last == raw <==> first == raw && last == first
  {
    forall f | f in raw && (first[f] != raw[f] || last[f] != first[f]) ensures last[f] != raw[f] {
      ClipShape(raw[f]);
      ShapeTwice(raw[f], first[f], last[f]);
    }
  }

  /** Every field is there, whole or cut exactly once between runes; those of at most 1600 bytes are
      whole; together they fit in one record. */
  ghost predicate RecordOk(raw: Fields<Field>, record: Fields<Field>) {
    && record.Keys == raw.Keys
    && (forall f :: f in raw ==> Shape(raw[f], record[f]) && (Valid(raw[f]) ==> Valid(record[f])))
    && (forall f :: f in raw && |raw[f]| <= 1600 ==> record[f] == raw[f])
    && Sum(record, EncodedLen) <= MAX_ENCODED_FIELDS_BYTES
  }

  /** Clipping and then any run of the budget pass leaves each value whole or cut exactly once between
      runes, whole if it was at most 1600 bytes, and the record within budget. */
  lemma BothPasses(raw: Fields<Field>, run: seq<Fields<Field>>)
    requires |raw| == 19 && Turns(run) && ClippedFrom(raw, run[0]) && Stops(run[|run| - 1])
    ensures RecordOk(raw, run[|run| - 1])
  {
    var first, last := run[0], run[|run| - 1];
    assert |first| == 19 by { assert |first.Keys| == |raw.Keys|; }
    RunKeeps(run);
    assert |last| == 19 by { assert |last.Keys| == |raw.Keys|; }
    EndsInBudget(last);
    forall f | f in raw ensures Shape(raw[f], last[f]) && (Valid(raw[f]) ==> Valid(last[f])) {
      ClipShape(raw[f]);
      ShapeTwice(raw[f], first[f], last[f]);
      if Valid(raw[f]) {
        ShapeKeepsValid(raw[f], last[f]);
      }
    }
    forall f | f in raw && |raw[f]| <= 1600 ensures last[f] == raw[f] {
      assert first[f] == raw[f] && Spared(19, first[f]);
    }
  }

  predicate Over(s: bytes) { |s| > MAX_FIELD_BYTES }

  /** One of the thirteen clipped values is over the cap. */
  predicate AnyOver(e: WindowsEvent) {
    || Over(Raw(e, ProviderName)) || Over(Raw(e, Channel)) || Over(e.computer) || Over(e.subjectUserSID)
    || Over(e.subjectUsername) || Over(e.subjectDomain) || Over(e.subjectLogonID) || Over(e.objectType)
    || Over(e.objectName) || Over(e.handleID) || Over(e.accesses) || Over(e.accessMask) || Over(e.clientAddr)
  }

  lemma OverIsAny(e: WindowsEvent, f: Field)
    requires Clipped(f) && Over(Raw(e, f))
    ensures AnyOver(e)
  {}

  lemma AnyIsOver(e: WindowsEvent) returns (f: Field)
    requires AnyOver(e)
    ensures Clipped(f) && Over(Raw(e, f))
  {
    f := if Over(Raw(e, ProviderName)) then ProviderName else if Over(Raw(e, Channel)) then Channel
         else if Over(e.computer) then Computer else if Over(e.subjectUserSID) then SubjectUserSid
         else if Over(e.subjectUsername) then SubjectUserName else if Over(e.subjectDomain) then SubjectDomainName
         else if Over(e.subjectLogonID) then SubjectLogonId else if Over(e.objectType) then ObjectType
         else if Over(e.objectName) then ObjectName else if Over(e.handleID) then HandleId
         else if Over(e.accesses) then AccessList else if Over(e.accessMask) then AccessMask else IpAddress;
  }

  lemma AnyOverCap(e: WindowsEvent)
    ensures OverCap(RawFields(e)) <==> AnyOver(e)
  {
    NineteenFields();
    var raw := RawFields(e);
    if OverCap(raw) {
      var f :| f in raw && Clipped(f) && |raw[f]| > MAX_FIELD_BYTES;
      OverIsAny(e, f);
    }
    if AnyOver(e) {
      var f := AnyIsOver(e);
      assert f in raw && raw[f] == Raw(e, f);
    }
  }

  /** `values` is the event with each clipped field's value in place of its own. */
  lemma ClippedValues(e: WindowsEvent, values: WindowsEvent)
    requires values == e.(
      providerName := Clip(Raw(e, ProviderName)), channel := Clip(Raw(e, Channel)), computer := Clip(e.computer),
      subjectUserSID := Clip(e.subjectUserSID), subjectUsername := Clip(e.subjectUsername),
      subjectDomain := Clip(e.subjectDomain), subjectLogonID := Clip(e.subjectLogonID),
      objectType := Clip(e.objectType), objectName := Clip(e.objectName), handleID := Clip(e.handleID),
      accesses := Clip(e.accesses), accessMask := Clip(e.accessMask), clientAddr := Clip(e.clientAddr))
    ensures ClippedFrom(RawFields(e), RawFields(values))
  {
    NineteenFields();
    forall f: Field ensures Raw(values, f) == if Clipped(f) then Clip(Raw(e, f)) else Raw(e, f) {
      match f {
        case ProviderName => case Channel => case Level => case Keywords => case Computer => case TimeCreated =>
        case SubjectUserSid => case SubjectUserName => case SubjectDomainName => case SubjectLogonId =>
        case ObjectServer => case ObjectType => case ObjectName => case HandleId => case AccessList =>
        case AccessMask => case ProcessId => case ProcessName => case IpAddress =>
      }
    }
  }

  /** A field shows a text: all of it when it has at most 1600 bytes, otherwise all of it or a front of
      it that ends between runes and one marker. */
  ghost predicate Shows(m: Fields<Field>, f: Field, text: bytes) {
    && f in m && Shape(text, m[f])
    && (|text| <= 1600 ==> m[f] == text)
    && (Valid(text) ==> Valid(m[f]))
  }

  function OrElse(text: bytes, default: string): bytes { if text == [] then Ascii(default) else text }

  /** Which part of an event a field is there to show. */
  predicate Says(e: WindowsEvent, f: Field, text: bytes) {
    || (f == ProviderName && text == OrElse(e.providerName, "PowerStore-CEPA"))
    || (f == Channel && text == OrElse(e.channel, "Security"))
    || (f == Level && text == Ascii("4"))
    || (f == Keywords && text == Ascii("0x80000000000000"))
    || (f == Computer && text == e.computer)
    || (f == TimeCreated && text == e.timeCreated)
    || (f == SubjectUserSid && text == e.subjectUserSID)
    || (f == SubjectUserName && text == e.subjectUsername)
    || (f == SubjectDomainName && text == e.subjectDomain)
    || (f == SubjectLogonId && text == e.subjectLogonID)
    || (f == ObjectServer && text == Ascii("Security"))
    || (f == ObjectType && text == e.objectType)
    || (f == ObjectName && text == e.objectName)
    || (f == HandleId && text == e.handleID)
    || (f == AccessList && text == e.accesses)
    || (f == AccessMask && text == e.accessMask)
    || (f == ProcessId && text == e.processID)
    || (f == ProcessName && text == [])
    || (f == IpAddress && text == e.clientAddr)
  }

  /** Every field of a record shows its part of the event. */
  ghost predicate ShowsEvent(m: Fields<Field>, e: WindowsEvent) {
    && (forall f: Field :: f in m)
    && forall f: Field, text :: Says(e, f, text) ==> Shows(m, f, text)
  }

  lemma SaysIsRaw(e: WindowsEvent, f: Field, text: bytes)
    ensures Says(e, f, text) <==> text == Raw(e, f)
  {
    match f {
      case ProviderName => case Channel => case Level => case Keywords => case Computer => case TimeCreated =>
      case SubjectUserSid => case SubjectUserName => case SubjectDomainName => case SubjectLogonId =>
      case ObjectServer => case ObjectType => case ObjectName => case HandleId => case AccessList =>
      case AccessMask => case ProcessId => case ProcessName => case IpAddress =>
    }
  }

  lemma ShowsRaw(e: WindowsEvent, m: Fields<Field>, f: Field)
    requires RecordOk(RawFields(e), m)
    ensures Shows(m, f, Raw(e, f))
  {
    NineteenFields();
    assert f in RawFields(e);
  }

  lemma RecordShowsEvent(e: WindowsEvent, m: Fields<Field>)
    requires RecordOk(RawFields(e), m)
    ensures ShowsEvent(m, e)
  {
    forall f: Field ensures f in m {
      ShowsRaw(e, m, f);
    }
    forall f: Field, text | Says(e, f, text) ensures Shows(m, f, text) {
      SaysIsRaw(e, f, text);
      ShowsRaw(e, m, f);
    }
  }

  /** A user name or an object's name that is not too long appears as it is, under its own field. */
  lemma ShownWhole(m: Fields<Field>, e: WindowsEvent)
    requires ShowsEvent(m, e)
    ensures |e.subjectUsername| <= 1600 ==> m[SubjectUserName] == e.subjectUsername
    ensures |e.subjectDomain| <= 1600 ==> m[SubjectDomainName] == e.subjectDomain
    ensures |e.objectName| <= 1600 ==> m[ObjectName] == e.objectName
    ensures |e.clientAddr| <= 1600 ==> m[IpAddress] == e.clientAddr
  {
    assert Says(e, SubjectUserName, e.subjectUsername) && Says(e, SubjectDomainName, e.subjectDomain);
    assert Says(e, ObjectName, e.objectName) && Says(e, IpAddress, e.clientAddr);
  }

  /** What both passes make of an event. */
  lemma RecordOfEvent(e: WindowsEvent, run: seq<Fields<Field>>)
    requires Turns(run) && ClippedFrom(RawFields(e), run[0]) && Stops(run[|run| - 1])
    ensures RecordOk(RawFields(e), run[|run| - 1]) && ShowsEvent(run[|run| - 1], e)
    ensures run[|run| - 1] != RawFields(e) <==> OverCap(RawFields(e)) || Sum(run[0], EncodedLen) > MAX_ENCODED_FIELDS_BYTES
  {
    NineteenFields();
    assert RawFields(e).Keys == ALL_FIELDS;
    BothPasses(RawFields(e), run);
    ChangedIff(RawFields(e), run);
    RecordShowsEvent(e, run[|run| - 1]);
  }

  /** The writer, with the counter of truncated events it advances. */
  class RecordBuilder {
    var eventsTruncated: nat

    constructor ()
      ensures eventsTruncated == 0
    {
      eventsTruncated := 0;
    }

    /** The first pass: every field that is not fixed is clipped. */
    static method ClipFields(e: WindowsEvent) returns (m: Fields<Field>, truncated: bool)
      ensures ClippedFrom(RawFields(e), m)
      ensures truncated <==> OverCap(RawFields(e))
    {
      var provider, t0 := TruncateField(Raw(e, ProviderName));
      var channel, t1 := TruncateField(Raw(e, Channel));
      var computer, t2 := TruncateField(e.computer);
      var userSid, t3 := TruncateField(e.subjectUserSID);
      var userName, t4 := TruncateField(e.subjectUsername);
      var domain, t5 := TruncateField(e.subjectDomain);
      var logonId, t6 := TruncateField(e.subjectLogonID);
      var objectType, t7 := TruncateField(e.objectType);
      var objectName, t8 := TruncateField(e.objectName);
      var handleId, t9 := TruncateField(e.handleID);
      var accesses, t10 := TruncateField(e.accesses);
      var accessMask, t11 := TruncateField(e.accessMask);
      var address, t12 := TruncateField(e.clientAddr);
      truncated := t0 || t1 || t2 || t3 || t4 || t5 || t6 || t7 || t8 || t9 || t10 || t11 || t12;
      var values := e.(providerName := provider, channel := channel, computer := computer, subjectUserSID := userSid,
                       subjectUsername := userName, subjectDomain := domain, subjectLogonID := logonId,
                       objectType := objectType, objectName := objectName, handleID := handleId,
                       accesses := accesses, accessMask := accessMask, clientAddr := address);
      AnyOverCap(e);
      ClippedValues(e, values);
      return RawFields(values), truncated;
    }

    /** The record's fields: every one present, whole or cut once, fitting together in one record; the
        event is counted as truncated exactly when some field is not what the event said. */
    method WindowsEventToFields(e: WindowsEvent) returns (fields: Fields<Field>)
      modifies this
      ensures RecordOk(RawFields(e), fields) && ShowsEvent(fields, e)
      ensures eventsTruncated == old(eventsTruncated) + (if fields == RawFields(e) then 0 else 1)
    {
      var clipped, truncated := ClipFields(e);
      var m := new FieldMap(clipped);
      var shortened, run := m.EnforceEncodedBudget();
      RecordOfEvent(e, run);
      if truncated || shortened {
        eventsTruncated := eventsTruncated + 1;
      }
      return m.fields;
    }
  }
}
