/**
 Regions of src/gw_rules.c: decimals to parts per million, and parts per million to
 pixels, both exact.
 */
module Region {
  import opened Options
  import opened Timestamp
  import opened Json

  const PPM: nat := 1000000

  /** The character at `p`, which is the terminator past the end. */
  function At(s: string, p: nat): char {
    if p < |s| then s[p] else '\0'
  }

  // ---------------------------------------------------------------- decimals

  /** What a normalised decimal is: digits whose number is at most 1, then optionally a
      point and one to six digits, the whole being at most 1. */
  function ReadPpm(s: string): (r: Option<(nat, string)>) {
    var w := DigitCount(s);
    if w == 0 || Number(s[..w]) > 1 then None
    else
      match ReadFraction(s[w..])
      case None => None
      case Some((frac, rest)) =>
        if Number(s[..w]) == 1 && frac != 0 then None
        else Some((if Number(s[..w]) == 1 then PPM else frac, rest))
  }

  /** The optional fraction, in parts per million. */
  function ReadFraction(s: string): Option<(nat, string)> {
    if s == "" || s[0] != '.' then Some((0, s))
    else
      var f := DigitCount(s[1..]);
      if f == 0 || f > 6 then None
      else
        NumberNonNegative(s[1..][..f]);
        Some((Number(s[1..][..f]) * Power10(6 - f), s[1..][f..]))
  }

  function PrintPpm(v: nat): string
    requires v <= PPM
  {
    if v == PPM then "1.000000" else "0." + Pad(v, 6)
  }

  lemma SixPlaces()
    ensures Power10(0) == 1 && Power10(1) == 10 && Power10(2) == 100 && Power10(3) == 1000
    ensures Power10(4) == 10000 && Power10(5) == 100000 && Power10(6) == 1000000
  {
    assert Power10(3) == 1000;
  }

  lemma FractionReads(frac: string, rest: string)
    requires |frac| == 6 && AllDigits(frac) && (rest == "" || !IsDigit(rest[0]))
    ensures Number(frac) >= 0 && ReadFraction("." + (frac + rest)) == Some((Number(frac), rest))
  {
    var s := "." + (frac + rest);
    NumberNonNegative(frac);
    DigitsThenRest(frac, rest);
    assert s[1..] == frac + rest;
    assert (frac + rest)[..6] == frac && (frac + rest)[6..] == rest;
  }

  lemma WholeReads(whole: string, frac: string, rest: string)
    requires (whole == "0" || whole == "1") && |frac| == 6 && AllDigits(frac) && (rest == "" || !IsDigit(rest[0]))
    requires whole == "1" ==> Number(frac) == 0
    ensures Number(frac) >= 0
    ensures ReadPpm(whole + ("." + (frac + rest))) == Some((if whole == "1" then PPM else Number(frac), rest))
  {
    var tail := "." + (frac + rest);
    FractionReads(frac, rest);
    DigitsThenRest(whole, tail);
    var s := whole + tail;
    assert s[..1] == whole && s[1..] == tail;
    assert Number(whole) == if whole == "1" then 1 else 0;
    hide ReadFraction, Number;
  }

  /** Every number of parts per million prints to a decimal that reads back as it. */
  lemma PpmRoundTrip(v: nat, rest: string)
    requires v <= PPM && (rest == "" || !IsDigit(rest[0]))
    ensures ReadPpm(PrintPpm(v) + rest) == Some((v, rest))
  {
    SixPlaces();
    hide ReadPpm, Pad, Number, Power10;
    var whole, n := if v == PPM then "1" else "0", if v == PPM then 0 else v;
    NumberOfPad(n, 6);
    WholeReads(whole, Pad(n, 6), rest);
    PrintsParts(v, whole, Pad(n, 6));
    assert whole + "." + Pad(n, 6) + rest == whole + ("." + (Pad(n, 6) + rest));
  }

  lemma PrintsParts(v: nat, whole: string, frac: string)
    requires v <= PPM && if v == PPM then whole == "1" && frac == Pad(0, 6) else whole == "0" && frac == Pad(v, 6)
    ensures PrintPpm(v) == whole + "." + frac
  {
    ZeroPlaces();
    hide Pad;
  }

  lemma ZeroPlaces()
    ensures Pad(0, 6) == "000000"
  {
    assert Pad(0, 2) == "00";
    assert Pad(0, 4) == "0000";
  }

  lemma {:induction false} NumberConcat(a: string, b: string)
    requires AllDigits(a) && AllDigits(b)
    ensures AllDigits(a + b) && Number(a + b) == Number(a) * Power10(|b|) + Number(b)
  {
    if b == "" {
      assert a + b == a;
    } else {
      hide Number;
      var c, d := b[..|b| - 1], b[|b| - 1];
      NumberConcat(a, c);
      assert b == c + [d] && a + b == (a + c) + [d];
      NumberAppends(c, d);
      NumberAppends(a + c, d);
      TenTimes(Number(a), Power10(|c|));
    }
  }

  lemma NumberAppends(s: string, d: char)
    requires AllDigits(s) && IsDigit(d)
    ensures AllDigits(s + [d]) && Number(s + [d]) == 10 * Number(s) + ValueOf(d)
  {
    assert (s + [d])[..|s|] == s;
  }

  lemma TenTimes(n: int, p: int)
    ensures n * (10 * p) == 10 * (n * p)
  {
  }

  /** A decimal with one to six places is accepted exactly when it is at most 1, and its
      value is not rounded: `whole`.`frac` times a million is the parts per million. */
  lemma PpmExact(whole: string, frac: string, rest: string)
    requires whole != "" && AllDigits(whole) && AllDigits(frac) && 1 <= |frac| <= 6
    requires rest == "" || !IsDigit(rest[0])
    ensures AllDigits(whole + frac)
    ensures var n, one := Number(whole + frac), Power10(|frac|);
            match ReadPpm(whole + ("." + (frac + rest)))
            case None => n > one
            case Some((v, after)) => n <= one && v * one == PPM * n && after == rest
  {
    hide ReadFraction, DigitCount, Number, Power10;
    var tail := "." + (frac + rest);
    var s := whole + tail;
    NumberConcat(whole, frac);
    NumberNonNegative(whole);
    NumberFits(frac);
    DigitsThenRest(whole, tail);
    assert s[..|whole|] == whole && s[|whole|..] == tail;
    FractionExact(frac, rest);
    var w, f, one, more := Number(whole), Number(frac), Power10(|frac|), Power10(6 - |frac|);
    ScaledValue(w, f, one, more);
    assert ReadFraction(tail) == Some((f * more, rest));
    assert ReadPpm(s) ==
      if w > 1 || (w == 1 && f * more != 0) then None else Some((if w == 1 then PPM else f * more, rest));
    hide ReadPpm;
  }

  /** Without a point, exactly 0 and 1 are accepted, however written. */
  lemma PpmWhole(whole: string, rest: string)
    requires whole != "" && AllDigits(whole)
    requires rest == "" || (!IsDigit(rest[0]) && rest[0] != '.')
    ensures match ReadPpm(whole + rest)
            case None => Number(whole) > 1
            case Some((v, after)) => Number(whole) <= 1 && v == PPM * Number(whole) && after == rest
  {
    var s := whole + rest;
    DigitsThenRest(whole, rest);
    NumberNonNegative(whole);
    assert s[..|whole|] == whole && s[|whole|..] == rest;
  }

  /** A point needs one to six digits after it. */
  lemma PpmPlaces(whole: string, frac: string, rest: string)
    requires AllDigits(whole) && AllDigits(frac) && (rest == "" || !IsDigit(rest[0]))
    requires frac == "" || |frac| > 6
    ensures ReadPpm(whole + ("." + (frac + rest))) == None
  {
    var tail := "." + (frac + rest);
    var s := whole + tail;
    DigitsThenRest(whole, tail);
    DigitsThenRest(frac, rest);
    assert s[..|whole|] == whole && s[|whole|..] == tail;
    assert tail[1..] == frac + rest;
    hide DigitCount, Number;
  }

  /** A decimal begins with a digit. */
  lemma PpmNeedsDigit(s: string)
    requires s == "" || !IsDigit(s[0])
    ensures ReadPpm(s) == None
  {
  }

  lemma PowersMeet(k: nat)
    requires k <= 6
    ensures Power10(k) * Power10(6 - k) == PPM
  {
    SixPlaces();
    hide Power10;
    assert k == 0 || k == 1 || k == 2 || k == 3 || k == 4 || k == 5 || k == 6;
  }

  lemma FractionExact(frac: string, rest: string)
    requires AllDigits(frac) && 1 <= |frac| <= 6 && (rest == "" || !IsDigit(rest[0]))
    ensures Number(frac) >= 0 && Power10(|frac|) * Power10(6 - |frac|) == PPM
    ensures ReadFraction("." + (frac + rest)) == Some((Number(frac) * Power10(6 - |frac|), rest))
  {
    PowersMeet(|frac|);
    NumberNonNegative(frac);
    DigitsThenRest(frac, rest);
    hide DigitCount, Number, Power10;
    var tail := "." + (frac + rest);
    assert tail[1..] == frac + rest && (frac + rest)[..|frac|] == frac && (frac + rest)[|frac|..] == rest;
  }

  lemma ScaledValue(w: nat, f: nat, one: nat, more: nat)
    requires f < one && more > 0 && one * more == PPM
    ensures w > 1 ==> w * one + f > one
    ensures w == 1 ==> (w * one + f > one <==> f * more != 0)
    ensures w == 1 && f == 0 ==> PPM * one == PPM * (w * one + f)
    ensures w == 0 ==> w * one + f <= one && (f * more) * one == PPM * (w * one + f)
  {
    if w > 1 {
      assert w * one >= 2 * one;
    }
    assert (f * more) * one == f * (one * more);
    assert f > 0 ==> f * more > 0;
  }

  lemma {:induction false} NumberFits(d: string)
    requires AllDigits(d)
    ensures Number(d) < Power10(|d|)
  {
    if d != "" {
      NumberFits(d[..|d| - 1]);
    }
  }

  /** A digit at `q` belongs to the digits counted from `p`, and appends to their number. */
  lemma DigitsContinue(s: string, p: nat, q: nat)
    requires p <= |s| && p <= q <= p + DigitCount(s[p..]) && IsDigit(At(s, q))
    ensures q < p + DigitCount(s[p..])
    ensures AllDigits(s[p..][..q - p]) && AllDigits(s[p..][..q + 1 - p])
    ensures Number(s[p..][..q + 1 - p]) == 10 * Number(s[p..][..q - p]) + ValueOf(s[q])
  {
    var t := s[p..];
    var w := DigitCount(t);
    assert q < |s| && t[q - p] == s[q];
    assert forall i :: 0 <= i < w ==> t[..w][i] == t[i];
    var d := t[..q + 1 - p];
    assert forall i :: 0 <= i < |d| ==> d[i] == t[..w][i];
    assert d[..|d| - 1] == t[..q - p];
  }

  /** The first character that is not a digit ends them. */
  lemma DigitsEnd(s: string, p: nat, q: nat)
    requires p <= |s| && p <= q <= p + DigitCount(s[p..]) && !IsDigit(At(s, q))
    ensures q == p + DigitCount(s[p..]) && s[p..][q - p..] == s[q..]
  {
    var t := s[p..];
    var w := DigitCount(t);
    assert forall i :: 0 <= i < w ==> t[..w][i] == s[p + i];
  }

  lemma NoDigits()
    ensures Number("") == 0
  {
  }

  lemma {:induction false} NumberGrows(d: string, k: nat)
    requires AllDigits(d) && k <= |d|
    ensures Number(d[..k]) <= Number(d)
  {
    if k == |d| {
      assert d[..k] == d;
    } else {
      NumberGrows(d[..|d| - 1], k);
      assert d[..|d| - 1][..k] == d[..k];
      NumberNonNegative(d[..|d| - 1]);
    }
  }

  /** The scan of the fraction digits, six places at most: `scale` is what the next digit
      counts a tenth of, `frac` what was read so far. */
  predicate Scanned(digits: string, frac: int, scale: int) {
    && |digits| <= 6 && AllDigits(digits)
    && scale == Power10(6 - |digits|)
    && frac == Number(digits) * scale
  }

  lemma ScansOneMore(digits: string, frac: int, scale: int, c: char)
    requires Scanned(digits, frac, scale) && scale != 1 && IsDigit(c)
    ensures Scanned(digits + [c], frac + ValueOf(c) * (scale / 10), scale / 10)
  {
    assert |digits| < 6;
    assert scale == 10 * Power10(5 - |digits|);
    assert (digits + [c])[..|digits|] == digits;
  }

  /** `decimal_ppm`, from index `p` of the text on. */
  method DecimalPpm(s: string, p: nat) returns (value: Option<nat>, q: nat)
    requires p <= |s|
    ensures p <= q <= |s|
    ensures value == None <==> ReadPpm(s[p..]) == None
    ensures value.Some? ==> ReadPpm(s[p..]) == Some((value.value, s[q..]))
  {
    hide Number, DigitCount, ReadFraction;
    value, q := None, p;
    if At(s, p) < '0' || At(s, p) > '9' {
      DigitsEnd(s, p, p);
      return;
    }
    var whole := 0;
    ghost var w := DigitCount(s[p..]);
    NoDigits();
    assert s[p..][..0] == "";
    while '0' <= At(s, q) <= '9'
      invariant p <= q <= p + w
      invariant whole == Number(s[p..][..q - p]) && whole <= 1
      decreases |s| - q
    {
      DigitsContinue(s, p, q);
      whole := whole * 10 + (At(s, q) as int - '0' as int);
      if whole > 1 {
        NumberGrows(s[p..][..w], q + 1 - p);
        assert s[p..][..w][..q + 1 - p] == s[p..][..q + 1 - p];
        return;
      }
      q := q + 1;
    }
    DigitsEnd(s, p, q);
    var frac;
    frac, q := Fraction(s, q);
    if frac.None? || (whole == 1 && frac.value != 0) {
      return;
    }
    value := Some(if whole == 1 then PPM else frac.value);
  }

  /** The part of `decimal_ppm` from the decimal point on. */
  method Fraction(s: string, p: nat) returns (value: Option<nat>, q: nat)
    requires p <= |s|
    ensures p <= q <= |s|
    ensures value == None <==> ReadFraction(s[p..]) == None
    ensures value.Some? ==> ReadFraction(s[p..]) == Some((value.value, s[q..]))
  {
    value, q := None, p;
    if At(s, q) != '.' {
      return Some(0), q;
    }
    q := q + 1;
    assert s[p..][1..] == s[p + 1..];
    if At(s, q) < '0' || At(s, q) > '9' {
      return;
    }
    hide Number, Power10, DigitCount;
    var frac, ok;
    frac, ok, q := Places(s, p + 1);
    if ok {
      NumberNonNegative(s[p + 1..][..q - p - 1]);
      assert s[p + 1..][q - p - 1..] == s[q..];
      value := Some(frac);
    }
  }

  /** The loop over the fraction digits from index `p` on; a seventh one is refused. */
  method Places(s: string, p: nat) returns (frac: nat, ok: bool, q: nat)
    requires p <= |s|
    ensures var f := DigitCount(s[p..]);
            && p <= q <= |s| && (ok <==> f <= 6)
            && (ok ==> q == p + f && frac == Number(s[p..][..f]) * Power10(6 - f))
  {
    hide Scanned, Number, Power10, AllDigits;
    var scale := PPM;
    frac, q := 0, p;
    ghost var t := s[p..];
    ScanStarts();
    assert t[..0] == "";
    while '0' <= At(s, q) <= '9'
      invariant p <= q <= p + DigitCount(t)
      invariant Scanned(t[..q - p], frac, scale)
      decreases |s| - q
    {
      DigitsContinue(s, p, q);
      ScanIs(t[..q - p], frac, scale);
      if scale == 1 {
        return frac, false, q;
      }
      ScansOneMore(t[..q - p], frac, scale, At(s, q));
      assert t[..q - p] + [At(s, q)] == t[..q + 1 - p];
      scale := scale / 10;
      frac := frac + (At(s, q) as int - '0' as int) * scale;
      q := q + 1;
    }
    DigitsEnd(s, p, q);
    ScanIs(t[..q - p], frac, scale);
    ok := true;
  }

  lemma ScanStarts()
    ensures Scanned("", 0, PPM)
  {
    SixPlaces();
  }

  lemma ScanIs(digits: string, frac: int, scale: int)
    requires Scanned(digits, frac, scale)
    ensures |digits| <= 6 && AllDigits(digits) && frac == Number(digits) * Power10(6 - |digits|)
    ensures scale == 1 <==> |digits| == 6
    ensures scale > 0
  {
    OnlyAtTheEnd(6 - |digits|);
  }

  lemma OnlyAtTheEnd(w: nat)
    ensures Power10(w) == 1 <==> w == 0
  {
  }

  // ---------------------------------------------------------------- regions

  datatype Rect = Rect(x: nat, y: nat, w: nat, h: nat)

  /** A rectangle within the frame, with something in it. */
  predicate InFrame(r: Rect, width: nat, height: nat) {
    r.w > 0 && r.h > 0 && r.x + r.w <= width && r.y + r.h <= height
  }

  predicate IsSpace(c: char) {
    c == ' ' || c == '\t'
  }

  function Trim(s: string): string {
    if s != "" && IsSpace(s[0]) then Trim(s[1..]) else s
  }

  /** Four decimals separated by commas, blanks allowed around them. */
  function ReadValue(s: string, last: bool): Option<(nat, string)> {
    match ReadPpm(s)
    case None => None
    case Some((v, rest)) =>
      var t := Trim(rest);
      if last then (if t == "" then Some((v, t)) else None)
      else if t != "" && t[0] == ',' then Some((v, Trim(t[1..])))
      else None
  }

  function ReadValues(s: string, n: nat): Option<seq<nat>>
    requires n > 0
    decreases n
  {
    match ReadValue(s, n == 1)
    case None => None
    case Some((v, rest)) =>
      if n == 1 then Some([v])
      else
        match ReadValues(rest, n - 1)
        case None => None
        case Some(vs) => Some([v] + vs)
  }

  lemma {:induction false} ReadValuesLength(s: string, n: nat)
    requires n > 0
    ensures ReadValues(s, n).Some? ==> |ReadValues(s, n).value| == n
    decreases n
  {
    if n > 1 && ReadValue(s, false).Some? {
      ReadValuesLength(ReadValue(s, false).value.1, n - 1);
    }
  }

  /** What a region text denotes: the four values, if they make a rectangle in the frame. */
  function ReadRegion(s: string): Option<Rect> {
    match ReadValues(Trim(s), 4)
    case None => None
    case Some(v) =>
      ReadValuesLength(Trim(s), 4);
      var r := Rect(v[0], v[1], v[2], v[3]);
      if InFrame(r, PPM, PPM) then Some(r) else None
  }

  method SkipSpaces(s: string, p: nat) returns (q: nat)
    requires p <= |s|
    ensures p <= q <= |s| && s[q..] == Trim(s[p..])
  {
    q := p;
    while At(s, q) == ' ' || At(s, q) == '\t'
      invariant p <= q <= |s| && Trim(s[q..]) == Trim(s[p..])
      decreases |s| - q
    {
      assert s[q..][1..] == s[q + 1..];
      q := q + 1;
    }
    assert s[q..] != "" ==> s[q..][0] == At(s, q);
  }

  /** `gw_region_parse`; `None` stands for its refusals.  A text ends at its terminator. */
  method ParseRegion(s: string) returns (r: Option<Rect>)
    requires '\0' !in s
    ensures r == ReadRegion(s)
    ensures r.Some? ==> r.value.w > 0 && r.value.h > 0
    ensures r.Some? ==> r.value.x + r.value.w <= 1000000 && r.value.y + r.value.h <= 1000000
  {
    hide Trim, ReadPpm;
    ReadValuesLength(Trim(s), 4);
    var v: seq<nat> := [];
    assert s[0..] == s && forall vs: seq<nat> :: v + vs == vs;
    var p := SkipSpaces(s, 0);
    var i := 0;
    while i < 4
      invariant 0 <= i <= 4 && |v| == i && p <= |s|
      invariant i < 4 ==>
        match ReadValues(s[p..], 4 - i)
        case None => ReadValues(Trim(s), 4) == None
        case Some(vs) => ReadValues(Trim(s), 4) == Some(v + vs)
      invariant i == 4 ==> if s[p..] == "" then ReadValues(Trim(s), 4) == Some(v) else ReadValues(Trim(s), 4) == None
    {
      ghost var before := s[p..];
      var value, q := DecimalPpm(s, p);
      if value.None? {
        return None;
      }
      p := SkipSpaces(s, q);
      assert s[p..] != "" ==> s[p..][0] == At(s, p);
      if i < 3 {
        if At(s, p) != ',' {
          return None;
        }
        assert s[p..][1..] == s[p + 1..];
        p := SkipSpaces(s, p + 1);
        assert ReadValue(before, false) == Some((value.value, s[p..]));
      }
      ghost var w := v;
      v := v + [value.value];
      assert forall vs: seq<nat> :: w + ([value.value] + vs) == v + vs;
      i := i + 1;
    }
    assert s[p..] != "" ==> s[p..][0] == At(s, p) && At(s, p) in s;
    if At(s, p) != '\0' {
      return None;
    }
    if v[2] == 0 || v[3] == 0 {
      return None;
    }
    if v[0] + v[2] > PPM || v[1] + v[3] > PPM {
      return None;
    }
    return Some(Rect(v[0], v[1], v[2], v[3]));
  }

  function PrintRegion(r: Rect): string
    requires InFrame(r, PPM, PPM)
  {
    PrintPpm(r.x) + "," + PrintPpm(r.y) + "," + PrintPpm(r.w) + "," + PrintPpm(r.h)
  }

  lemma ValueReads(v: nat, rest: string)
    requires v <= PPM && (rest == "" || !IsSpace(rest[0]))
    ensures ReadValue(PrintPpm(v) + ("," + rest), false) == Some((v, rest))
    ensures ReadValue(PrintPpm(v), true) == Some((v, ""))
  {
    hide ReadPpm, PrintPpm;
    PpmRoundTrip(v, "," + rest);
    PpmRoundTrip(v, "");
    assert PrintPpm(v) + "" == PrintPpm(v);
    assert ("," + rest)[1..] == rest;
  }

  lemma PrintStarts(v: nat)
    requires v <= PPM
    ensures PrintPpm(v) != "" && !IsSpace(PrintPpm(v)[0])
  {
    hide Pad;
  }

  /** Every region of the frame prints to a text that reads back as it. */
  lemma RegionRoundTrip(r: Rect)
    requires InFrame(r, PPM, PPM)
    ensures ReadRegion(PrintRegion(r)) == Some(r)
  {
    hide PrintPpm, ReadValue, ReadPpm;
    PrintStarts(r.x);
    PrintStarts(r.y);
    PrintStarts(r.w);
    PrintStarts(r.h);
    var h := PrintPpm(r.h);
    var w := PrintPpm(r.w) + ("," + h);
    var y := PrintPpm(r.y) + ("," + w);
    var x := PrintPpm(r.x) + ("," + y);
    assert PrintRegion(r) == x;
    ValueReads(r.x, y);
    ValueReads(r.y, w);
    ValueReads(r.w, h);
    ValueReads(r.h, "");
    assert ReadValues(h, 1) == Some([r.h]);
    assert ReadValues(w, 2) == Some([r.w] + [r.h]);
    assert ReadValues(y, 3) == Some([r.y] + ([r.w] + [r.h]));
    assert ReadValues(x, 4) == Some([r.x] + ([r.y] + ([r.w] + [r.h])));
  }

  /** Whatever the text, a region that is accepted is not empty and within the frame. */
  lemma AcceptedIsInFrame(s: string)
    ensures match ReadRegion(s)
            case None => true
            case Some(r) => r.w > 0 && r.h > 0 && r.x + r.w <= 1000000 && r.y + r.h <= 1000000
  {
    hide Trim, ReadValues;
  }

  predicate Blank(s: string) {
    forall i :: 0 <= i < |s| ==> s[i] == ' ' || s[i] == '\t'
  }

  lemma {:induction false} BlankTrims(b: string, s: string)
    requires Blank(b)
    ensures Trim(b + s) == Trim(s)
  {
    if b == "" {
      assert b + s == s;
    } else {
      assert (b + s)[1..] == b[1..] + s;
      BlankTrims(b[1..], s);
    }
  }

  lemma TrimStops(s: string)
    requires s == "" || !IsSpace(s[0])
    ensures Trim(s) == s
  {
  }

  /** A value with blanks before the comma and after it. */
  lemma SpacedValue(v: nat, before: string, after: string, rest: string)
    requires v <= PPM && Blank(before) && Blank(after) && (rest == "" || !IsSpace(rest[0]))
    ensures ReadValue(PrintPpm(v) + (before + ("," + (after + rest))), false) == Some((v, rest))
  {
    hide ReadPpm, PrintPpm, Trim;
    var tail := before + ("," + (after + rest));
    assert tail[0] == if before == "" then ',' else before[0];
    PpmRoundTrip(v, tail);
    BlankTrims(before, "," + (after + rest));
    TrimStops("," + (after + rest));
    assert ("," + (after + rest))[1..] == after + rest;
    BlankTrims(after, rest);
    TrimStops(rest);
  }

  /** Between two values there must be a comma, and nothing else will do. */
  lemma NoComma(v: nat, before: string, rest: string)
    requires v <= PPM && Blank(before)
    requires rest == "" || (!IsSpace(rest[0]) && rest[0] != ',' && !(before == "" && IsDigit(rest[0])))
    ensures ReadValue(PrintPpm(v) + (before + rest), false) == None
  {
    hide ReadPpm, PrintPpm, Trim;
    assert before + rest != "" ==> (before + rest)[0] == if before == "" then rest[0] else before[0];
    PpmRoundTrip(v, before + rest);
    BlankTrims(before, rest);
    TrimStops(rest);
  }

  lemma LastValue(v: nat, after: string, rest: string)
    requires v <= PPM && Blank(after) && (rest == "" || (!IsSpace(rest[0]) && !(after == "" && IsDigit(rest[0]))))
    ensures ReadValue(PrintPpm(v) + (after + rest), true) == if rest == "" then Some((v, "")) else None
  {
    hide ReadPpm, PrintPpm, Trim;
    assert after + rest != "" ==> (after + rest)[0] == if after == "" then rest[0] else after[0];
    PpmRoundTrip(v, after + rest);
    BlankTrims(after, rest);
    TrimStops(rest);
  }

  /** Blanks around the values, and text behind them. */
  datatype Layout = Layout(lead: string, afterX: string, beforeY: string, afterY: string, beforeW: string,
                           afterW: string, beforeH: string, tail: string, rest: string)

  predicate ValidLayout(b: Layout) {
    && Blank(b.lead) && Blank(b.afterX) && Blank(b.beforeY) && Blank(b.afterY)
    && Blank(b.beforeW) && Blank(b.afterW) && Blank(b.beforeH) && Blank(b.tail)
    && (b.rest == "" || (!IsSpace(b.rest[0]) && !(b.tail == "" && IsDigit(b.rest[0]))))
  }

  function Lay(r: Rect, b: Layout): string
    requires r.x <= PPM && r.y <= PPM && r.w <= PPM && r.h <= PPM
  {
    b.lead + (PrintPpm(r.x) + (b.afterX + ("," + (b.beforeY + (PrintPpm(r.y) + (b.afterY + ("," + (b.beforeW
      + (PrintPpm(r.w) + (b.afterW + ("," + (b.beforeH + (PrintPpm(r.h) + (b.tail + b.rest))))))))))))))
  }

  /** Any four values, with any blanks between them: they are accepted if and only if nothing
      follows them and they make a rectangle with something in it that does not leave the
      frame, and then as they are. */
  lemma RegionExactly(r: Rect, b: Layout)
    requires r.x <= 1000000 && r.y <= 1000000 && r.w <= 1000000 && r.h <= 1000000 && ValidLayout(b)
    ensures ReadRegion(Lay(r, b)) ==
            if b.rest == "" && r.w > 0 && r.h > 0 && r.x + r.w <= 1000000 && r.y + r.h <= 1000000 then Some(r)
            else None
  {
    hide PrintPpm, ReadValue, ReadPpm, Blank, Trim;
    PrintStarts(r.x);
    PrintStarts(r.y);
    PrintStarts(r.w);
    PrintStarts(r.h);
    var h := PrintPpm(r.h) + (b.tail + b.rest);
    var w := PrintPpm(r.w) + (b.afterW + ("," + (b.beforeH + h)));
    var y := PrintPpm(r.y) + (b.afterY + ("," + (b.beforeW + w)));
    var x := PrintPpm(r.x) + (b.afterX + ("," + (b.beforeY + y)));
    BlankTrims(b.lead, x);
    TrimStops(x);
    SpacedValue(r.x, b.afterX, b.beforeY, y);
    SpacedValue(r.y, b.afterY, b.beforeW, w);
    SpacedValue(r.w, b.afterW, b.beforeH, h);
    LastValue(r.h, b.tail, b.rest);
    hide ValidLayout, IsSpace;
    var last := if b.rest == "" then Some([r.h]) else None;
    assert ReadValues(h, 1) == last;
    assert ReadValues(w, 2) == if last.Some? then Some([r.w] + [r.h]) else None;
    assert ReadValues(y, 3) == if last.Some? then Some([r.y] + ([r.w] + [r.h])) else None;
    assert ReadValues(x, 4) == if last.Some? then Some([r.x] + ([r.y] + ([r.w] + [r.h]))) else None;
    assert Lay(r, b) == b.lead + x;
  }

  // ---------------------------------------------------------------- pixels

  /** One axis of `gw_region_pixels`: where the region starts, and how long it is. */
  function AxisStart(start: nat, size: nat): nat
    requires size > 0
  {
    var p := start * size / PPM;
    if p >= size then size - 1 else p
  }

  function AxisLength(start: nat, length: nat, size: nat): nat
    requires size > 0
  {
    var p := length * size / PPM;
    var p1 := if p == 0 then 1 else p;
    if AxisStart(start, size) + p1 > size then size - AxisStart(start, size) else p1
  }

  /** `gw_region_pixels`. */
  function Pixels(r: Rect, width: nat, height: nat): Option<Rect> {
    if width == 0 || height == 0 then None
    else Some(Rect(AxisStart(r.x, width), AxisStart(r.y, height),
                   AxisLength(r.x, r.w, width), AxisLength(r.y, r.h, height)))
  }

  lemma FloorOf(a: nat, b: nat)
    ensures PPM * (a * b / PPM) <= a * b < PPM * (a * b / PPM) + PPM
  {
  }

  /** On one axis: no clamp is taken, the start is the exact one rounded down, and the
      length is the exact one rounded down, or one pixel. */
  lemma AxisExact(start: nat, length: nat, size: nat)
    requires size > 0 && length > 0 && start + length <= PPM
    ensures var s, l := AxisStart(start, size), AxisLength(start, length, size);
            && s == start * size / PPM && PPM * s <= start * size < PPM * (s + 1)
            && l == (if length * size < PPM then 1 else length * size / PPM)
            && l > 0 && s + l <= size
  {
    var a, b := start * size, length * size;
    FloorOf(start, size);
    FloorOf(length, size);
    assert a + b == (start + length) * size <= PPM * size;
    assert b >= size;
    Quotients(a, b, size);
  }

  lemma Quotients(a: nat, b: nat, size: nat)
    requires size > 0 && b >= size && a + b <= PPM * size
    ensures a / PPM < size
    ensures a / PPM + b / PPM <= size
    ensures b / PPM == 0 <==> b < PPM
  {
  }

  /** A region of the frame becomes a rectangle of pixels that is not empty and lies in the
      picture; its corner is the exact one rounded down, and no clamp was needed. */
  lemma PixelsExact(r: Rect, width: nat, height: nat)
    requires InFrame(r, PPM, PPM) && width > 0 && height > 0
    ensures Pixels(r, width, height).Some?
    ensures var p := Pixels(r, width, height).value;
            && InFrame(p, width, height)
            && PPM * p.x <= r.x * width < PPM * (p.x + 1)
            && PPM * p.y <= r.y * height < PPM * (p.y + 1)
            && p.w == (if r.w * width < PPM then 1 else r.w * width / PPM)
            && p.h == (if r.h * height < PPM then 1 else r.h * height / PPM)
  {
    AxisExact(r.x, r.w, width);
    AxisExact(r.y, r.h, height);
    hide AxisStart, AxisLength;
  }

  /** A picture has no pixels to give exactly if a side of it is empty. */
  lemma PixelsRefused(r: Rect, width: nat, height: nat)
    ensures Pixels(r, width, height).None? <==> width == 0 || height == 0
  {
    hide AxisStart, AxisLength;
  }

  /** Whatever text is accepted as a region gives pixels inside every picture. */
  lemma AcceptedPixels(s: string, width: nat, height: nat)
    requires ReadRegion(s).Some? && width > 0 && height > 0
    ensures match Pixels(ReadRegion(s).value, width, height)
            case None => false
            case Some(p) => p.w > 0 && p.h > 0 && p.x + p.w <= width && p.y + p.h <= height
  {
    hide ReadRegion, Pixels;
    AcceptedIsInFrame(s);
    PixelsExact(ReadRegion(s).value, width, height);
  }
}
