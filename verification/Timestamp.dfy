/**
 `format_rfc3339` of src/gw_event.c: Unix nanoseconds to the date-time form of
 section 5.6 of RFC 3339, in UTC with milliseconds.
 */
module Timestamp {
  import opened Calendar
  import opened Options

  /** int64_t */
  type Int64 = x: int | -0x8000_0000_0000_0000 <= x < 0x8000_0000_0000_0000

  datatype Fields = Fields(date: Date, hour: int, minute: int, second: int, milli: int)

  /** The arithmetic of the source: division truncates, calendars do not. */
  function FieldsOf(ns: Int64): Fields {
    var truncated := TruncMod(ns, 1000000000);
    var rem := if truncated < 0 then truncated + 1000000000 else truncated;
    var secs := TruncDiv(ns, 1000000000) - if truncated < 0 then 1 else 0;
    var days := if secs >= 0 then TruncDiv(secs, 86400) else TruncDiv(secs - 86399, 86400);
    var sod := secs - days * 86400;
    Fields(CivilFromDays(days), sod / 3600, (sod / 60) % 60, sod % 60, rem / 1000000)
  }

  predicate ValidFields(f: Fields) {
    && ValidDate(f.date) && 0 <= f.date.y <= 9999
    && 0 <= f.hour < 24 && 0 <= f.minute < 60 && 0 <= f.second < 60 && 0 <= f.milli < 1000
  }

  /** Milliseconds from 1970-01-01T00:00:00Z. */
  function Millis(f: Fields): int {
    (((DayNumber(f.date) * 24 + f.hour) * 60 + f.minute) * 60 + f.second) * 1000 + f.milli
  }

  // ---------------------------------------------------------------- arithmetic

  lemma Floors(ns: int)
    ensures var t := TruncMod(ns, 1000000000);
            && (if t < 0 then t + 1000000000 else t) == ns % 1000000000
            && TruncDiv(ns, 1000000000) - (if t < 0 then 1 else 0) == ns / 1000000000
  {
  }

  lemma FloorDays(secs: int)
    ensures (if secs >= 0 then TruncDiv(secs, 86400) else TruncDiv(secs - 86399, 86400)) == secs / 86400
  {
  }

  lemma TimeOfDay(sod: int)
    requires 0 <= sod < 86400
    ensures ((sod / 3600) * 60 + (sod / 60) % 60) * 60 + sod % 60 == sod
    ensures 0 <= sod / 3600 < 24
  {
    var minutes := sod / 60;
    assert sod / 3600 == minutes / 60;
  }

  lemma YearInRange(days: int)
    requires -106752 <= days <= 106751
    ensures 1677 <= CivilFromDays(days).y <= 2262
  {
    hide DayNumber, CivilFromDays, ValidDate;
    var x := CivilFromDays(days);
    CivilIsRight(days);
    FirstOfYear(1677);
    FirstOfYear(2263);
    if x.y < 1677 {
      DayNumbersAscend(x, Date(1677, 1, 1));
    }
    if x.y > 2262 && x != Date(2263, 1, 1) {
      DayNumbersAscend(Date(2263, 1, 1), x) by {
        FirstIsBefore(x, 2263);
      }
    }
  }

  lemma FirstIsBefore(x: Date, y: int)
    requires ValidDate(x) && x.y >= y && x != Date(y, 1, 1)
    ensures Before(Date(y, 1, 1), x)
  {
  }

  lemma FirstOfYear(y: int)
    ensures ValidDate(Date(y, 1, 1)) && DayNumber(Date(y, 1, 1)) == DaysBeforeYear(y) - 719162
    ensures y == 1677 ==> DayNumber(Date(y, 1, 1)) == -107015
    ensures y == 2263 ==> DayNumber(Date(y, 1, 1)) == 107016
  {
  }

  /** The fields are a time that the calendar has, and they are the nanoseconds rounded
      down to the millisecond. */
  lemma FieldsAreRight(ns: Int64)
    ensures ValidFields(FieldsOf(ns)) && Millis(FieldsOf(ns)) == ns / 1000000
  {
    hide CivilFromDays, DayNumber, ValidDate, TruncDiv, TruncMod;
    var rem, secs := ns % 1000000000, ns / 1000000000;
    var days := secs / 86400;
    Floors(ns);
    FloorDays(secs);
    TimeOfDay(secs - days * 86400);
    CivilIsRight(days);
    YearInRange(days);
    assert ns / 1000000 == secs * 1000 + rem / 1000000;
  }

  // ---------------------------------------------------------------- text

  const DIGITS := "0123456789"

  function Digit(n: int): (c: char)
    requires 0 <= n < 10
    ensures IsDigit(c) && ValueOf(c) == n
  {
    DIGITS[n]
  }

  predicate IsDigit(c: char) {
    '0' <= c <= '9'
  }

  function ValueOf(c: char): (v: int)
    requires IsDigit(c)
    ensures 0 <= v < 10
  {
    c as int - '0' as int
  }

  /** `w` decimal digits, as `%0<w>u` prints a number that has no more. */
  function Pad(n: int, w: nat): (s: string)
    requires n >= 0
    ensures |s| == w && forall i :: 0 <= i < w ==> IsDigit(s[i])
  {
    if w == 0 then "" else Pad(n / 10, w - 1) + [Digit(n % 10)]
  }

  predicate Fits(n: int, w: nat) {
    0 <= n < Power10(w)
  }

  function Power10(w: nat): (p: int)
    ensures p > 0
  {
    if w == 0 then 1 else 10 * Power10(w - 1)
  }

  /** The template with its fields in place. */
  function Template(y: string, mo: string, d: string, h: string, mi: string, s: string, ms: string): string {
    y + "-" + mo + "-" + d + "T" + h + ":" + mi + ":" + s + "." + ms + "Z"
  }

  /** "%04d-%02u-%02uT%02u:%02u:%02u.%03uZ" */
  function Text(f: Fields): string
    requires ValidFields(f)
  {
    Template(Pad(f.date.y, 4), Pad(f.date.m, 2), Pad(f.date.d, 2),
             Pad(f.hour, 2), Pad(f.minute, 2), Pad(f.second, 2), Pad(f.milli, 3))
  }

  function Format(ns: Int64): string {
    FieldsAreRight(ns);
    Text(FieldsOf(ns))
  }

  // ---------------------------------------------------------------- reading back

  function Number(s: string): int
    requires forall i :: 0 <= i < |s| ==> IsDigit(s[i])
  {
    if s == "" then 0 else 10 * Number(s[..|s| - 1]) + ValueOf(s[|s| - 1])
  }

  lemma {:induction false} NumberOfPad(n: int, w: nat)
    requires Fits(n, w)
    ensures Number(Pad(n, w)) == n
  {
    if w > 0 {
      NumberOfPad(n / 10, w - 1);
      assert Pad(n, w)[..w - 1] == Pad(n / 10, w - 1);
    }
  }

  predicate AllDigits(s: string) {
    forall i :: 0 <= i < |s| ==> IsDigit(s[i])
  }

  /** The date-time production with "T", three fractional digits and "Z". */
  predicate IsDateTime(s: string) {
    && |s| == 24
    && AllDigits(s[0..4]) && s[4] == '-' && AllDigits(s[5..7]) && s[7] == '-' && AllDigits(s[8..10])
    && s[10] == 'T'
    && AllDigits(s[11..13]) && s[13] == ':' && AllDigits(s[14..16]) && s[16] == ':' && AllDigits(s[17..19])
    && s[19] == '.' && AllDigits(s[20..23]) && s[23] == 'Z'
  }

  function Read(s: string): Fields
    requires IsDateTime(s)
  {
    Fields(Date(Number(s[0..4]), Number(s[5..7]), Number(s[8..10])),
           Number(s[11..13]), Number(s[14..16]), Number(s[17..19]), Number(s[20..23]))
  }

  /** Reads a timestamp, as milliseconds from the epoch. */
  function Parse(s: string): Option<int> {
    if IsDateTime(s) && ValidFields(Read(s)) then Some(Millis(Read(s))) else None
  }

  lemma Widths(f: Fields)
    requires ValidFields(f)
    ensures Fits(f.date.y, 4) && Fits(f.date.m, 2) && Fits(f.date.d, 2)
    ensures Fits(f.hour, 2) && Fits(f.minute, 2) && Fits(f.second, 2) && Fits(f.milli, 3)
  {
    assert Power10(2) == 100 && Power10(3) == 1000 && Power10(4) == 10000;
  }

  lemma Slices(y: string, mo: string, d: string, h: string, mi: string, s: string, ms: string)
    requires |y| == 4 && |mo| == |d| == |h| == |mi| == |s| == 2 && |ms| == 3
    ensures var t := Template(y, mo, d, h, mi, s, ms);
            && |t| == 24
            && t[0..4] == y && t[5..7] == mo && t[8..10] == d
            && t[11..13] == h && t[14..16] == mi && t[17..19] == s && t[20..23] == ms
            && t[4] == t[7] == '-' && t[10] == 'T' && t[13] == t[16] == ':' && t[19] == '.' && t[23] == 'Z'
  {
  }

  lemma TextReads(f: Fields)
    requires ValidFields(f)
    ensures IsDateTime(Text(f)) && Read(Text(f)) == f
  {
    Widths(f);
    hide Pad, Fits, ValidDate, Number, Template;
    Slices(Pad(f.date.y, 4), Pad(f.date.m, 2), Pad(f.date.d, 2),
           Pad(f.hour, 2), Pad(f.minute, 2), Pad(f.second, 2), Pad(f.milli, 3));
    NumberOfPad(f.date.y, 4);
    NumberOfPad(f.date.m, 2);
    NumberOfPad(f.date.d, 2);
    NumberOfPad(f.hour, 2);
    NumberOfPad(f.minute, 2);
    NumberOfPad(f.second, 2);
    NumberOfPad(f.milli, 3);
  }

  /** Every 64-bit nanosecond value is printed as exactly 24 characters in the date-time
      form, which read back as the value rounded down to the millisecond. */
  lemma FormatRoundTrip(ns: Int64)
    ensures IsDateTime(Format(ns)) && Parse(Format(ns)) == Some(ns / 1000000)
  {
    FieldsAreRight(ns);
    TextReads(FieldsOf(ns));
  }

  // ---------------------------------------------------------------- order

  /** Lexicographic order of texts of the same length. */
  predicate LexLess(a: string, b: string) {
    if a == "" || b == "" then a == "" && b != ""
    else a[0] < b[0] || (a[0] == b[0] && LexLess(a[1..], b[1..]))
  }

  lemma {:induction false} LexConcat(a: string, b: string, a': string, b': string)
    requires |a| == |a'|
    ensures LexLess(a + b, a' + b') <==> LexLess(a, a') || (a == a' && LexLess(b, b'))
  {
    if a == "" {
      assert a + b == b && a' + b' == b';
    } else {
      assert (a + b)[1..] == a[1..] + b && (a' + b')[1..] == a'[1..] + b';
      LexConcat(a[1..], b, a'[1..], b');
      assert a == a' <==> a[0] == a'[0] && a[1..] == a'[1..];
    }
  }

  lemma {:induction false} PadOrder(n: int, n': int, w: nat)
    requires Fits(n, w) && Fits(n', w)
    ensures LexLess(Pad(n, w), Pad(n', w)) <==> n < n'
    ensures Pad(n, w) == Pad(n', w) <==> n == n'
  {
    if w > 0 {
      PadOrder(n / 10, n' / 10, w - 1);
      LexConcat(Pad(n / 10, w - 1), [Digit(n % 10)], Pad(n' / 10, w - 1), [Digit(n' % 10)]);
      SingleOrder(n % 10, n' % 10);
      var p, p' := Pad(n, w), Pad(n', w);
      assert p == p' <==> p[..w - 1] == p'[..w - 1] && p[w - 1] == p'[w - 1];
      assert p[..w - 1] == Pad(n / 10, w - 1) && p'[..w - 1] == Pad(n' / 10, w - 1);
    }
  }

  lemma SingleOrder(n: int, n': int)
    requires 0 <= n < 10 && 0 <= n' < 10
    ensures LexLess([Digit(n)], [Digit(n')]) <==> n < n'
  {
    assert [Digit(n)][1..] == "" && [Digit(n')][1..] == "";
    assert ValueOf(Digit(n)) == n && ValueOf(Digit(n')) == n';
  }

  /** The order of the fields, most significant first. */
  predicate FieldsBefore(f: Fields, g: Fields) {
    Before(f.date, g.date) || (f.date == g.date && TimeBefore(f, g))
  }

  predicate TimeBefore(f: Fields, g: Fields) {
    f.hour < g.hour || (f.hour == g.hour &&
      (f.minute < g.minute || (f.minute == g.minute &&
        (f.second < g.second || (f.second == g.second && f.milli < g.milli)))))
  }

  /** One field of a fixed width, what separates it from the next one, and the rest. */
  lemma FieldOrder(n: int, n': int, w: nat, sep: string, rest: string, rest': string)
    requires Fits(n, w) && Fits(n', w)
    ensures LexLess(Pad(n, w) + (sep + rest), Pad(n', w) + (sep + rest')) <==>
            n < n' || (n == n' && LexLess(rest, rest'))
  {
    PadOrder(n, n', w);
    LexConcat(Pad(n, w), sep + rest, Pad(n', w), sep + rest');
    LexConcat(sep, rest, sep, rest');
    LexIrreflexive(sep);
  }

  lemma {:induction false} LexIrreflexive(a: string)
    ensures !LexLess(a, a)
  {
    if a != "" {
      LexIrreflexive(a[1..]);
    }
  }

  function TimeText(f: Fields): string
    requires ValidFields(f)
  {
    Pad(f.hour, 2) + (":" + (Pad(f.minute, 2) + (":" + (Pad(f.second, 2) + ("." + (Pad(f.milli, 3) + ("Z" + "")))))))
  }

  function DateText(x: Date, rest: string): string
    requires ValidDate(x) && x.y >= 0
  {
    Pad(x.y, 4) + ("-" + (Pad(x.m, 2) + ("-" + (Pad(x.d, 2) + ("T" + rest)))))
  }

  lemma TextParts(f: Fields)
    requires ValidFields(f)
    ensures Text(f) == DateText(f.date, TimeText(f))
  {
    hide Pad, ValidDate;
  }

  lemma TimeOrder(f: Fields, g: Fields)
    requires ValidFields(f) && ValidFields(g)
    ensures LexLess(TimeText(f), TimeText(g)) <==> TimeBefore(f, g)
  {
    Widths(f);
    Widths(g);
    hide Pad, Fits, LexLess, ValidDate;
    LexIrreflexive("");
    var a, a' := Pad(f.milli, 3) + ("Z" + ""), Pad(g.milli, 3) + ("Z" + "");
    FieldOrder(f.milli, g.milli, 3, "Z", "", "");
    var b, b' := Pad(f.second, 2) + ("." + a), Pad(g.second, 2) + ("." + a');
    FieldOrder(f.second, g.second, 2, ".", a, a');
    var c, c' := Pad(f.minute, 2) + (":" + b), Pad(g.minute, 2) + (":" + b');
    FieldOrder(f.minute, g.minute, 2, ":", b, b');
    FieldOrder(f.hour, g.hour, 2, ":", c, c');
  }

  lemma DateOrder(x: Date, x': Date, rest: string, rest': string)
    requires ValidDate(x) && ValidDate(x') && 0 <= x.y <= 9999 && 0 <= x'.y <= 9999
    ensures LexLess(DateText(x, rest), DateText(x', rest')) <==> Before(x, x') || (x == x' && LexLess(rest, rest'))
  {
    Widths(Fields(x, 0, 0, 0, 0));
    Widths(Fields(x', 0, 0, 0, 0));
    hide Pad, Fits, LexLess, ValidDate;
    var a, a' := Pad(x.d, 2) + ("T" + rest), Pad(x'.d, 2) + ("T" + rest');
    FieldOrder(x.d, x'.d, 2, "T", rest, rest');
    var b, b' := Pad(x.m, 2) + ("-" + a), Pad(x'.m, 2) + ("-" + a');
    FieldOrder(x.m, x'.m, 2, "-", a, a');
    FieldOrder(x.y, x'.y, 4, "-", b, b');
  }

  lemma FieldsAscend(f: Fields, g: Fields)
    requires ValidFields(f) && ValidFields(g) && FieldsBefore(f, g)
    ensures Millis(f) < Millis(g)
  {
    if Before(f.date, g.date) {
      DayNumbersAscend(f.date, g.date);
    }
    hide DayNumber, ValidDate, Before;
  }

  /** Timestamps sort as text the way they sort in time, to the millisecond. */
  lemma FormatOrder(a: Int64, b: Int64)
    ensures LexLess(Format(a), Format(b)) <==> a / 1000000 < b / 1000000
  {
    hide DayNumber, ValidDate, LexLess, FieldsOf, Pad, Text, DateText, TimeText, Millis;
    FieldsAreRight(a);
    FieldsAreRight(b);
    var f, g := FieldsOf(a), FieldsOf(b);
    TextParts(f);
    TextParts(g);
    TimeOrder(f, g);
    DateOrder(f.date, g.date, TimeText(f), TimeText(g));
    assert LexLess(Format(a), Format(b)) <==> FieldsBefore(f, g);
    if FieldsBefore(f, g) {
      FieldsAscend(f, g);
    } else if f != g {
      assert FieldsBefore(g, f);
      FieldsAscend(g, f);
    }
  }
}
