/**
 `gw_event_render` of src/gw_event.c: one event as one line of JSON in a buffer of the
 caller's.

 `Record` is the ideal text.  The methods append to a bounded buffer, always advancing
 the length by what the complete text needs; they are proved to leave exactly as much
 of the ideal text as fits.
 */
module Render {
  import opened Calendar
  import opened Timestamp
  import opened Json
  import opened Machine

  type U64 = n: nat | n <= 0xFFFF_FFFF_FFFF_FFFF

  datatype Event = Event(
    camera: string,
    rule: string,
    eventType: string,
    sequence: U64,
    observedAt: Int64,
    emittedAt: Int64,
    confirmations: U32,
    sustained: Int64)

  // ---------------------------------------------------------------- the ideal text

  const HEAD := "{\"schema_version\":1,\"event_id\":\""
  const CAMERA := ",\"camera_id\":\""
  const RULE := ",\"rule_id\":\""
  const TYPE := ",\"event_type\":\""
  const OBSERVED := ",\"observed_at\":\""
  const EMITTED := ",\"emitted_at\":\""
  const CONFIRMATIONS := ",\"confirmations\":"
  const SUSTAINED := ",\"sustained_ms\":"

  function SustainedMs(ev: Event): int {
    TruncDiv(ev.sustained, 1000000)
  }

  /** The duration in whole milliseconds, what is over being dropped. */
  lemma SustainedMsIsRight(ev: Event)
    ensures ev.sustained >= 0 ==> 1000000 * SustainedMs(ev) <= ev.sustained < 1000000 * (SustainedMs(ev) + 1)
    ensures ev.sustained <= 0 ==> 1000000 * (SustainedMs(ev) - 1) < ev.sustained <= 1000000 * SustainedMs(ev)
  {
  }

  function EventId(ev: Event): string {
    EscapeAll(ev.camera) + ":" + EscapeAll(ev.rule) + ":" + Decimal(ev.sequence)
  }

  function Field(key: string, value: string): string {
    key + EscapeAll(value) + "\""
  }

  function Counts(ev: Event): string {
    CONFIRMATIONS + Decimal(ev.confirmations) + SUSTAINED + Signed(SustainedMs(ev)) + "}"
  }

  function UpToCounts(ev: Event): string {
    HEAD + EventId(ev) + "\"" + Field(CAMERA, ev.camera) + Field(RULE, ev.rule) + Field(TYPE, ev.eventType)
      + Field(OBSERVED, Format(ev.observedAt)) + Field(EMITTED, Format(ev.emittedAt))
  }

  function Record(ev: Event): string {
    UpToCounts(ev) + Counts(ev)
  }

  // ---------------------------------------------------------------- the bounded buffer

  /** As much of `text` as leaves room for a terminator is in `buf`; the rest of `buf` is
      as it was. */
  predicate Holds(buf: seq<char>, text: string, was: seq<char>) {
    && |buf| == |was|
    && forall i :: 0 <= i < |buf| ==> buf[i] == if i < |text| && i + 1 < |buf| then text[i] else was[i]
  }

  lemma HoldsNothing(buf: seq<char>)
    ensures Holds(buf, "", buf)
  {
  }

  lemma HoldsOneMore(buf: seq<char>, text: string, was: seq<char>, c: char)
    requires Holds(buf, text, was)
    ensures Holds(if |text| + 1 < |buf| then buf[|text| := c] else buf, text + [c], was)
  {
  }

  /** `append_text`. */
  method AppendText(buf: array<char>, len: nat, src: string, ghost text: string, ghost was: seq<char>)
    returns (len': nat)
    requires len == |text| && Holds(buf[..], text, was)
    modifies buf
    ensures len' == |text + src| && Holds(buf[..], text + src, was)
  {
    hide Holds;
    len' := len;
    var i := 0;
    assert text + src[..0] == text;
    while i < |src|
      invariant 0 <= i <= |src| && len' == |text + src[..i]|
      invariant Holds(buf[..], text + src[..i], was)
    {
      HoldsOneMore(buf[..], text + src[..i], was, src[i]);
      assert text + src[..i] + [src[i]] == text + src[..i + 1];
      if len' + 1 < buf.Length {
        buf[len'] := src[i];
      }
      len' := len' + 1;
      i := i + 1;
    }
    assert src[..|src|] == src;
  }

  /** `append_escaped`. */
  method AppendEscaped(buf: array<char>, len: nat, src: string, ghost text: string, ghost was: seq<char>)
    returns (len': nat)
    requires len == |text| && Holds(buf[..], text, was)
    modifies buf
    ensures len' == |text + EscapeAll(src)| && Holds(buf[..], text + EscapeAll(src), was)
  {
    hide Holds, Escape;
    len' := len;
    var i := 0;
    assert src[..0] == "" && text + EscapeAll("") == text;
    while i < |src|
      invariant 0 <= i <= |src| && len' == |text + EscapeAll(src[..i])|
      invariant Holds(buf[..], text + EscapeAll(src[..i]), was)
    {
      var esc := EscapeChar(src[i]);
      len' := AppendText(buf, len', esc, text + EscapeAll(src[..i]), was);
      assert src[..i + 1][..i] == src[..i];
      assert text + EscapeAll(src[..i]) + esc == text + EscapeAll(src[..i + 1]);
      i := i + 1;
    }
    assert src[..|src|] == src;
  }

  /** The switch of `append_escaped`: the replacement for one character. */
  method EscapeChar(c: char) returns (esc: string)
    ensures esc == Escape(c)
  {
    match c
    case '"' => esc := "\\\"";
    case '\\' => esc := "\\\\";
    case '\n' => esc := "\\n";
    case '\r' => esc := "\\r";
    case '\t' => esc := "\\t";
    case _ =>
      if c as int < 0x20 {
        esc := "\\u00" + [HexDigit(c as int / 16), HexDigit(c as int % 16)];
      } else {
        esc := [c];
      }
  }

  /** `append_field_str`. */
  method AppendField(buf: array<char>, len: nat, key: string, value: string, ghost text: string, ghost was: seq<char>)
    returns (len': nat)
    requires len == |text| && Holds(buf[..], text, was)
    modifies buf
    ensures len' == |text + Field(key, value)| && Holds(buf[..], text + Field(key, value), was)
  {
    hide Holds, EscapeAll;
    len' := AppendText(buf, len, key, text, was);
    len' := AppendEscaped(buf, len', value, text + key, was);
    len' := AppendText(buf, len', "\"", text + key + EscapeAll(value), was);
    assert text + key + EscapeAll(value) + "\"" == text + Field(key, value);
  }

  /** The opening of the record, up to the end of its identifier. */
  method AppendId(buf: array<char>, ev: Event, ghost was: seq<char>) returns (len: nat)
    requires buf[..] == was
    modifies buf
    ensures len == |HEAD + EventId(ev) + "\""| && Holds(buf[..], HEAD + EventId(ev) + "\"", was)
  {
    hide Holds, EscapeAll, Decimal;
    HoldsNothing(was);
    ghost var t := "" + HEAD;
    len := AppendText(buf, 0, HEAD, "", was);
    len := AppendEscaped(buf, len, ev.camera, t, was);
    t := t + EscapeAll(ev.camera);
    len := AppendText(buf, len, ":", t, was);
    t := t + ":";
    len := AppendEscaped(buf, len, ev.rule, t, was);
    t := t + EscapeAll(ev.rule);
    len := AppendText(buf, len, ":" + Decimal(ev.sequence), t, was);
    t := t + (":" + Decimal(ev.sequence));
    len := AppendText(buf, len, "\"", t, was);
    assert t + "\"" == HEAD + EventId(ev) + "\"";
  }

  /** Everything up to the end of the timestamps. */
  method AppendFields(buf: array<char>, ev: Event, ghost was: seq<char>) returns (len: nat)
    requires buf[..] == was
    modifies buf
    ensures len == |UpToCounts(ev)| && Holds(buf[..], UpToCounts(ev), was)
  {
    hide Holds, EscapeAll, Decimal, Format, EventId, Field;
    var observed, emitted := Format(ev.observedAt), Format(ev.emittedAt);
    len := AppendId(buf, ev, was);
    ghost var t := HEAD + EventId(ev) + "\"";
    len := AppendField(buf, len, CAMERA, ev.camera, t, was);
    t := t + Field(CAMERA, ev.camera);
    len := AppendField(buf, len, RULE, ev.rule, t, was);
    t := t + Field(RULE, ev.rule);
    len := AppendField(buf, len, TYPE, ev.eventType, t, was);
    t := t + Field(TYPE, ev.eventType);
    len := AppendField(buf, len, OBSERVED, observed, t, was);
    t := t + Field(OBSERVED, observed);
    len := AppendField(buf, len, EMITTED, emitted, t, was);
  }

  /** `gw_event_render` into a buffer of `buf.Length` characters.  The size needed does not
      depend on the buffer; the call succeeds exactly when the record and its terminator
      fit; a record that does not fit leaves an empty text, and behind its terminator as
      much of the record as there was room for. */
  method Render(buf: array<char>, ev: Event) returns (status: Status, required: nat)
    modifies buf
    ensures required == |Record(ev)| + 1
    ensures status == if required <= buf.Length then Ok else Limit
    ensures status == Ok ==> buf[..] == Record(ev) + ['\0'] + old(buf[..])[required..]
    ensures status == Limit && buf.Length > 0 ==> buf[..] == ['\0'] + Partial(Record(ev), old(buf[..]))[1..]
  {
    hide Holds, Decimal, Signed, UpToCounts, SustainedMs;
    ghost var was := buf[..];
    var len := AppendFields(buf, ev, was);
    var scratch := CONFIRMATIONS + Decimal(ev.confirmations) + SUSTAINED + Signed(SustainedMs(ev)) + "}";
    len := AppendText(buf, len, scratch, UpToCounts(ev), was);
    assert UpToCounts(ev) + scratch == Record(ev);
    hide Record;
    required := len + 1;
    if required > buf.Length {
      if buf.Length > 0 {
        Cut(buf[..], Record(ev), was);
        buf[0] := '\0';
      }
      return Limit, required;
    }
    Complete(buf[..], Record(ev), was);
    buf[len] := '\0';
    return Ok, required;
  }

  /** The beginning of a text that does not fit, the last place of the buffer untouched. */
  function Partial(text: string, was: seq<char>): (r: seq<char>)
    requires 0 < |was| <= |text|
    ensures |r| == |was|
  {
    text[..|was| - 1] + was[|was| - 1..]
  }

  /** A refused record leaves nothing behind the terminator, whatever was in the buffer, if
      and only if the buffer has no more than two places. */
  lemma LeftBehind(ev: Event, cap: nat)
    requires 0 < cap <= |Record(ev)|
    ensures cap <= 2 <==>
            forall was: seq<char> :: |was| == cap ==> Partial(Record(ev), was)[1..] == was[1..]
  {
    RecordBegins(ev);
    hide Record;
    if cap > 2 {
      var was := seq(cap, _ => '\0');
      assert Partial(Record(ev), was)[1..][0] == '"' && was[1..][0] == '\0';
    }
  }

  lemma RecordBegins(ev: Event)
    ensures |Record(ev)| > 1 && Record(ev)[1] == '"'
  {
    hide EventId, Field, Counts, Format;
    assert |UpToCounts(ev)| >= |HEAD| && UpToCounts(ev)[1] == HEAD[1];
    hide UpToCounts;
  }

  lemma Cut(buf: seq<char>, text: string, was: seq<char>)
    requires Holds(buf, text, was) && 0 < |buf| <= |text|
    ensures buf == Partial(text, was)
  {
  }

  lemma Complete(buf: seq<char>, text: string, was: seq<char>)
    requires Holds(buf, text, was) && |text| < |buf|
    ensures buf[..|text|] == text && buf[|text| + 1..] == was[|text| + 1..]
  {
  }

  /** Timestamps need no escaping. */
  lemma FormatIsPlain(ns: Int64)
    ensures Plain(Format(ns)) && EscapeAll(Format(ns)) == Format(ns)
  {
    FormatRoundTrip(ns);
    var s := Format(ns);
    hide Format;
    PlainDateTime(s);
    PlainEscapes(s);
  }

  lemma PlainDateTime(s: string)
    requires IsDateTime(s)
    ensures Plain(s)
  {
    forall i | 0 <= i < |s| ensures s[i] as int >= 0x20 && s[i] != '"' && s[i] != '\\' {
      assert (0 <= i < 4 ==> s[i] == s[0..4][i]) && (5 <= i < 7 ==> s[i] == s[5..7][i - 5])
          && (8 <= i < 10 ==> s[i] == s[8..10][i - 8]) && (11 <= i < 13 ==> s[i] == s[11..13][i - 11])
          && (14 <= i < 16 ==> s[i] == s[14..16][i - 14]) && (17 <= i < 19 ==> s[i] == s[17..19][i - 17])
          && (20 <= i < 23 ==> s[i] == s[20..23][i - 20]);
    }
  }
}
