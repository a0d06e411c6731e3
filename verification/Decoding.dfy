/**
 A reader for event records, and what a record tells: everything about the event to
 the resolution that the record carries.
 */
module Decoding {
  import opened Options
  import opened Timestamp
  import opened Json
  import opened Render

  /** What a consumer gets out of a record. */
  datatype Decoded = Decoded(
    camera: string,
    rule: string,
    eventType: string,
    sequence: nat,
    observedMs: int,
    emittedMs: int,
    confirmations: nat,
    sustainedMs: int)

  /** A duration in whole milliseconds, what is over being dropped. */
  function DurationMs(ns: int): int {
    if ns >= 0 then ns / 1000000 else -((-ns) / 1000000)
  }

  function Told(ev: Event): Decoded {
    Decoded(ev.camera, ev.rule, ev.eventType, ev.sequence,
            ev.observedAt / 1000000, ev.emittedAt / 1000000, ev.confirmations, DurationMs(ev.sustained))
  }

  // The keys that a consumer expects.
  const ID_KEY := "{\"schema_version\":1,\"event_id\":\""
  const CAMERA_KEY := ",\"camera_id\":\""
  const RULE_KEY := ",\"rule_id\":\""
  const TYPE_KEY := ",\"event_type\":\""
  const OBSERVED_KEY := ",\"observed_at\":\""
  const EMITTED_KEY := ",\"emitted_at\":\""
  const CONFIRMATIONS_KEY := ",\"confirmations\":"
  const SUSTAINED_KEY := ",\"sustained_ms\":"

  lemma KeysAgree()
    ensures HEAD == ID_KEY && CAMERA == CAMERA_KEY && RULE == RULE_KEY && TYPE == TYPE_KEY
    ensures OBSERVED == OBSERVED_KEY && EMITTED == EMITTED_KEY
    ensures CONFIRMATIONS == CONFIRMATIONS_KEY && SUSTAINED == SUSTAINED_KEY
  {
  }

  function Drop(s: string, key: string): Option<string> {
    if key <= s then Some(s[|key|..]) else None
  }

  /** A key followed by a JSON string. */
  function ReadField(s: string, key: string): Option<(string, string)> {
    match Drop(s, key)
    case None => None
    case Some(rest) => ReadString(rest)
  }

  /** What comes after the identifier. */
  datatype Tail = Tail(confirmations: nat, sustainedMs: int)

  function ReadCounts(s: string): Option<Tail> {
    match Drop(s, CONFIRMATIONS_KEY)
    case None => None
    case Some(s1) =>
      match ReadNumber(s1)
      case None => None
      case Some((n, s2)) =>
        match Drop(s2, SUSTAINED_KEY)
        case None => None
        case Some(s3) =>
          match ReadSigned(s3)
          case None => None
          case Some((ms, s4)) => if s4 == "}" then Some(Tail(n, ms)) else None
  }

  /** The number at the end of an identifier that begins with its camera and its rule. */
  function ReadSequence(id: string, camera: string, rule: string): Option<nat> {
    match Drop(id, camera + ":" + rule + ":")
    case None => None
    case Some(rest) =>
      match ReadNumber(rest)
      case None => None
      case Some((n, after)) => if after == "" then Some(n) else None
  }

  datatype RawRecord = RawRecord(id: string, camera: string, rule: string, eventType: string,
                           observed: string, emitted: string, tail: Tail)

  function ReadFields(s: string): Option<RawRecord> {
    match ReadField(s, ID_KEY)
    case None => None
    case Some((id, s1)) =>
      match ReadField(s1, CAMERA_KEY)
      case None => None
      case Some((camera, s2)) =>
        match ReadField(s2, RULE_KEY)
        case None => None
        case Some((rule, s3)) =>
          match ReadField(s3, TYPE_KEY)
          case None => None
          case Some((eventType, s4)) =>
            match ReadField(s4, OBSERVED_KEY)
            case None => None
            case Some((observed, s5)) =>
              match ReadField(s5, EMITTED_KEY)
              case None => None
              case Some((emitted, s6)) =>
                match ReadCounts(s6)
                case None => None
                case Some(tail) => Some(RawRecord(id, camera, rule, eventType, observed, emitted, tail))
  }

  function Decode(s: string): Option<Decoded> {
    match ReadFields(s)
    case None => None
    case Some(f) =>
      match (ReadSequence(f.id, f.camera, f.rule), Parse(f.observed), Parse(f.emitted))
      case (Some(n), Some(observed), Some(emitted)) =>
        Some(Decoded(f.camera, f.rule, f.eventType, n, observed, emitted, f.tail.confirmations, f.tail.sustainedMs))
      case _ => None
  }

  // ---------------------------------------------------------------- round trip

  lemma FieldReads(key: string, value: string, rest: string)
    ensures ReadField(Field(key, value) + rest, key) == Some((value, rest))
  {
    hide EscapeAll, ReadString;
    var s := Field(key, value) + rest;
    assert s == key + (EscapeAll(value) + ("\"" + rest));
    assert s[|key|..] == EscapeAll(value) + ("\"" + rest);
    EscapeAllReads(value, rest);
  }

  lemma DropPrefix(key: string, rest: string)
    ensures Drop(key + rest, key) == Some(rest)
  {
  }

  lemma CountsRead(ev: Event)
    ensures ReadCounts(Counts(ev)) == Some(Tail(ev.confirmations, SustainedMs(ev)))
  {
    hide Decimal, Signed, ReadNumber, ReadSigned, SustainedMs, Drop;
    KeysAgree();
    var s4 := "}";
    var s3 := Signed(SustainedMs(ev)) + s4;
    var s2 := SUSTAINED + s3;
    var s1 := Decimal(ev.confirmations) + s2;
    assert Counts(ev) == CONFIRMATIONS + s1;
    DropPrefix(CONFIRMATIONS, s1);
    DecimalReads(ev.confirmations, s2);
    DropPrefix(SUSTAINED, s3);
    SignedReads(SustainedMs(ev), s4);
  }

  /** The identifier is the escaped text of camera, rule and sequence, colons between. */
  lemma IdIsEscaped(ev: Event)
    ensures EventId(ev) == EscapeAll(ev.camera + ":" + ev.rule + ":" + Decimal(ev.sequence))
  {
    hide EscapeAll, Decimal;
    var n := Decimal(ev.sequence);
    EscapeAllConcat(ev.camera + ":" + ev.rule + ":", n);
    EscapeAllConcat(ev.camera + ":" + ev.rule, ":");
    EscapeAllConcat(ev.camera + ":", ev.rule);
    EscapeAllConcat(ev.camera, ":");
    PlainEscapes(":");
    PlainEscapes(n);
  }

  lemma SequenceReads(ev: Event)
    ensures ReadSequence(ev.camera + ":" + ev.rule + ":" + Decimal(ev.sequence), ev.camera, ev.rule) ==
            Some(ev.sequence)
  {
    hide Decimal, ReadNumber, Drop;
    DropPrefix(ev.camera + ":" + ev.rule + ":", Decimal(ev.sequence));
    DecimalReads(ev.sequence, "");
    assert Decimal(ev.sequence) + "" == Decimal(ev.sequence);
  }

  lemma FieldsRead(ev: Event)
    ensures ReadFields(Record(ev)) ==
            Some(RawRecord(ev.camera + ":" + ev.rule + ":" + Decimal(ev.sequence), ev.camera, ev.rule, ev.eventType,
                        Format(ev.observedAt), Format(ev.emittedAt), Tail(ev.confirmations, SustainedMs(ev))))
  {
    var id := ev.camera + ":" + ev.rule + ":" + Decimal(ev.sequence);
    IdIsEscaped(ev);
    KeysAgree();
    hide Decimal, EscapeAll, ReadField, Format, SustainedMs, ReadCounts, Counts, EventId;
    var s6 := Counts(ev);
    var s5 := Field(EMITTED, Format(ev.emittedAt)) + s6;
    var s4 := Field(OBSERVED, Format(ev.observedAt)) + s5;
    var s3 := Field(TYPE, ev.eventType) + s4;
    var s2 := Field(RULE, ev.rule) + s3;
    var s1 := Field(CAMERA, ev.camera) + s2;
    assert Record(ev) == Field(HEAD, id) + s1;
    hide Field, Record;
    FieldReads(HEAD, id, s1);
    FieldReads(CAMERA, ev.camera, s2);
    FieldReads(RULE, ev.rule, s3);
    FieldReads(TYPE, ev.eventType, s4);
    FieldReads(OBSERVED, Format(ev.observedAt), s5);
    FieldReads(EMITTED, Format(ev.emittedAt), s6);
    CountsRead(ev);
  }

  lemma DurationsAgree(ev: Event)
    ensures SustainedMs(ev) == DurationMs(ev.sustained)
  {
    SustainedMsIsRight(ev);
    hide SustainedMs;
  }

  /** A rendered record reads back as the event's identity, type, sequence number,
      confirmations, and its times and duration in milliseconds. */
  lemma RecordRoundTrip(ev: Event)
    ensures Decode(Record(ev)) == Some(Told(ev))
  {
    hide Decimal, Record, ReadFields, ReadSequence, Parse, Format, SustainedMs, DurationMs;
    FieldsRead(ev);
    DurationsAgree(ev);
    SequenceReads(ev);
    FormatRoundTrip(ev.observedAt);
    FormatRoundTrip(ev.emittedAt);
  }

  /** Equal records tell of the same event. */
  lemma RecordInjective(a: Event, b: Event)
    requires Record(a) == Record(b)
    ensures a.camera == b.camera && a.rule == b.rule && a.eventType == b.eventType && a.sequence == b.sequence
    ensures a.observedAt / 1000000 == b.observedAt / 1000000 && a.emittedAt / 1000000 == b.emittedAt / 1000000
    ensures a.confirmations == b.confirmations && DurationMs(a.sustained) == DurationMs(b.sustained)
  {
    hide Record, Decode, DurationMs;
    RecordRoundTrip(a);
    RecordRoundTrip(b);
  }
}
