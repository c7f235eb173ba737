/**
  Turning stored text into typed values (parseValue and its coercions,
  including the regular-expression ISO date parser) and the fragment
  writer's formatting of dates that fall on UTC midnight.
 */
module Coercion {
  import opened Wrappers
  import opened Decimal
  import opened Calendar
  import opened Values

  // ---------------------------------------------------------------------
  // Boolean coercion: /^t(rue)?$/i
  // ---------------------------------------------------------------------

  function LowerAscii(c: char): char {
    if 'A' <= c <= 'Z' then ((c as int) + 32) as char else c
  }

  function LowerAsciiText(s: string): (r: string)
    ensures |r| == |s| && forall i :: 0 <= i < |s| ==> r[i] == LowerAscii(s[i])
  {
    seq(|s|, i requires 0 <= i < |s| => LowerAscii(s[i]))
  }

  /** c matches the lower-case ASCII letter l under the pattern's i flag. */
  predicate SameLetter(c: char, l: char)
    requires 'a' <= l <= 'z'
  {
    c == l || c == ((l as int) - 32) as char
  }

  /**
    The Boolean coercion: the stored text is "t" or "true" in any mix of
    upper and lower case; every other text is false.
   */
  function MatchesTrue(s: string): (r: bool)
    ensures r <==> LowerAsciiText(s) == "t" || LowerAsciiText(s) == "true"
  {
    var low := LowerAsciiText(s);
    assert |s| == 1 ==> (low == "t" <==> SameLetter(s[0], 't'));
    assert |s| == 4 ==>
      (low == "true" <==>
        (SameLetter(s[0], 't') && SameLetter(s[1], 'r') && SameLetter(s[2], 'u') && SameLetter(s[3], 'e')));
    (|s| == 1 && SameLetter(s[0], 't'))
    || (|s| == 4 && SameLetter(s[0], 't') && SameLetter(s[1], 'r')
        && SameLetter(s[2], 'u') && SameLetter(s[3], 'e'))
  }

  // ---------------------------------------------------------------------
  // The ISO date parser:
  //   ^(\d{4})-(\d{2})-(\d{2})((T)(\d{2}):(\d{2})(:(\d{2})(\.\d*)?)?)?(Z)?$
  // ---------------------------------------------------------------------

  /** The captured numeric fields of an ISO date string. */
  datatype IsoFields = IsoFields(year: nat, month: nat, day: nat,
                                 hour: nat, minute: nat, second: nat, milli: nat)

  datatype Clock = Clock(hour: nat, minute: nat, second: nat, milli: nat)

  /** The end of the pattern: an optional Z and then the end of the text. */
  predicate IsZoneEnd(t: string) {
    t == "" || t == "Z"
  }

  /** The first three digits of a fraction, padded with zeros. */
  function FirstThree(digits: string): (r: string)
    requires AllDigits(digits)
    ensures |r| == 3 && AllDigits(r)
  {
    (digits + "000")[..3]
  }

  /**
    parseInt(+("." + digits) * 1000) || 0: the first three fraction digits
    as milliseconds (an empty fraction gives 0).
   */
  function Millis(digits: string): (ms: nat)
    requires AllDigits(digits)
    ensures ms < 1000
    ensures ms * Pow10(|digits|) <= DigitsValue(digits) * 1000 < (ms + 1) * Pow10(|digits|)
  {
    FractionMillis(digits);
    DigitsValueBound(FirstThree(digits));
    DigitsValue(FirstThree(digits))
  }

  /** ms is the whole number of milliseconds in the fraction v / p of a second. */
  predicate WholeMillis(ms: int, v: int, p: int) {
    ms * p <= v * 1000 < (ms + 1) * p
  }

  /**
    The first three digits of a fraction, padded with zeros, are the whole
    number of milliseconds the fraction denotes: floor(0.d * 1000), with
    the product taken exactly.
   */
  lemma FractionMillis(digits: string)
    requires AllDigits(digits)
    ensures AllDigits(FirstThree(digits))
    ensures WholeMillis(DigitsValue(FirstThree(digits)), DigitsValue(digits), Pow10(|digits|))
  {
    if |digits| >= 3 {
      LongFraction(digits);
    } else {
      ShortFraction(digits);
    }
  }

  /** Four or more fraction digits: the digits after the third are cut off. */
  lemma LongFraction(digits: string)
    requires AllDigits(digits) && |digits| >= 3
    ensures AllDigits(FirstThree(digits))
    ensures WholeMillis(DigitsValue(FirstThree(digits)), DigitsValue(digits), Pow10(|digits|))
  {
    SplitThree(digits);
    ScaledBounds(DigitsValue(FirstThree(digits)), Pow10(|digits| - 3), DigitsValue(digits[3..]),
                 DigitsValue(digits), Pow10(|digits|));
  }

  /** The value of a long fraction from its first three digits and the rest. */
  lemma SplitThree(digits: string)
    requires AllDigits(digits) && |digits| >= 3
    ensures AllDigits(digits[3..]) && AllDigits(FirstThree(digits))
    ensures DigitsValue(digits) == DigitsValue(FirstThree(digits)) * Pow10(|digits| - 3) + DigitsValue(digits[3..])
    ensures 0 <= DigitsValue(digits[3..]) < Pow10(|digits| - 3)
    ensures Pow10(|digits|) == 1000 * Pow10(|digits| - 3)
  {
    var first, rest := digits[..3], digits[3..];
    CutAtThree(digits);
    DigitsValueAppend(first, rest);
    DigitsValueBound(rest);
    Pow10Add(3, |rest|);
    assert Pow10(3) == 1000;
  }

  /** A text of three digits or more is its first three digits followed by the rest. */
  lemma CutAtThree(digits: string)
    requires AllDigits(digits) && |digits| >= 3
    ensures FirstThree(digits) == digits[..3] && digits[..3] + digits[3..] == digits
    ensures AllDigits(digits[..3]) && AllDigits(digits[3..]) && |digits[3..]| == |digits| - 3
  {
    assert (digits + "000")[..3] == digits[..3];
  }

  /** With 0 <= y < q, the number f * q + y lies in the f-th block of q. */
  lemma ScaledBounds(f: int, q: int, y: int, v: int, p: int)
    requires 0 <= y < q && v == f * q + y && p == 1000 * q
    ensures WholeMillis(f, v, p)
  {
    assert f * (1000 * q) == (f * q) * 1000;
    assert (f + 1) * (1000 * q) == (f * q + q) * 1000;
  }

  /** Up to three fraction digits: the zeros appended make the value exact. */
  lemma ShortFraction(digits: string)
    requires AllDigits(digits) && |digits| < 3
    ensures AllDigits(FirstThree(digits))
    ensures WholeMillis(DigitsValue(FirstThree(digits)), DigitsValue(digits), Pow10(|digits|))
  {
    PadThree(digits);
    Reassociate(DigitsValue(digits), Pow10(3 - |digits|), Pow10(|digits|));
  }

  /** A short fraction padded with zeros to three digits is scaled up by the zeros. */
  lemma PadThree(digits: string)
    requires AllDigits(digits) && |digits| < 3
    ensures AllDigits(FirstThree(digits))
    ensures DigitsValue(FirstThree(digits)) == DigitsValue(digits) * Pow10(3 - |digits|) + 0
    ensures Pow10(3 - |digits|) * Pow10(|digits|) == 1000 && Pow10(|digits|) >= 1
  {
    var z := "000"[..3 - |digits|];
    assert FirstThree(digits) == digits + z;
    DigitsValueZeros(z);
    DigitsValueAppend(digits, z);
    Pow10Add(3 - |digits|, |digits|);
    assert Pow10(3) == 1000;
  }

  /** With p * q == 1000, the fraction d / q of a second is exactly d * p milliseconds. */
  lemma Reassociate(d: int, p: int, q: int)
    requires p * q == 1000 && q >= 1
    ensures WholeMillis(d * p + 0, d, q)
  {
    assert (d * p) * q == d * (p * q) == d * 1000;
  }

  /** (:(\d{2})(\.\d*)?)?(Z)?$ : optional seconds and fraction, then the end. */
  function MatchSeconds(u: string): Option<(nat, nat)> {
    if IsZoneEnd(u) then Some((0, 0))
    else if |u| >= 3 && u[0] == ':' && AllDigits(u[1..3]) then
      var sec := DigitsValue(u[1..3]);
      var r := u[3..];
      if IsZoneEnd(r) then Some((sec, 0))
      else if r[0] == '.' then
        var f := r[1..];
        var digits := if |f| > 0 && f[|f| - 1] == 'Z' then f[..|f| - 1] else f;
        if AllDigits(digits) then Some((sec, Millis(digits))) else None
      else None
    else None
  }

  /** ((T)(\d{2}):(\d{2})(...)?)?(Z)?$ : the optional time of day, then the end. */
  function MatchTimeTail(t: string): (r: Option<Clock>)
    ensures r.Some? && t != "" ==> t[0] == 'T' || t == "Z"
    ensures r.Some? ==> r.value.milli < 1000
  {
    if IsZoneEnd(t) then Some(Clock(0, 0, 0, 0))
    else if |t| >= 6 && t[0] == 'T' && AllDigits(t[1..3]) && t[3] == ':' && AllDigits(t[4..6]) then
      match MatchSeconds(t[6..])
      case None => None
      case Some(sm) => Some(Clock(DigitsValue(t[1..3]), DigitsValue(t[4..6]), sm.0, sm.1))
    else None
  }

  /** The pattern's captures, or None when the text does not match it. */
  function MatchIso(s: string): (r: Option<IsoFields>)
    ensures r.Some? ==>
              |s| >= 10 && s[4] == '-' && s[7] == '-'
              && AllDigits(s[..4]) && AllDigits(s[5..7]) && AllDigits(s[8..10])
              && r.value.year == DigitsValue(s[..4]) && r.value.month == DigitsValue(s[5..7])
              && r.value.day == DigitsValue(s[8..10])
    ensures r.Some? ==> r.value.milli < 1000
    ensures r.Some? && |s| == 10 ==> r.value.hour == r.value.minute == r.value.second == r.value.milli == 0
    ensures r.Some? && |s| > 10 ==> s[10] == 'T' || s[10..] == "Z"
  {
    if |s| >= 10 && AllDigits(s[..4]) && s[4] == '-' && AllDigits(s[5..7]) && s[7] == '-'
       && AllDigits(s[8..10])
    then
      match MatchTimeTail(s[10..])
      case None => None
      case Some(c) =>
        Some(IsoFields(DigitsValue(s[..4]), DigitsValue(s[5..7]), DigitsValue(s[8..10]),
                       c.hour, c.minute, c.second, c.milli))
    else None
  }

  /**
    Date.UTC(year, month - 1, day, hour, minute, second, milli): a year in
    0..99 is taken as 1900 + year; month, day and the clock fields may
    overflow into the next unit.
   */
  function DateUtc(f: IsoFields): (t: int)
    ensures f.hour == f.minute == f.second == f.milli == 0 ==>
              t % MsPerDay == 0 && t / MsPerDay == MakeDay(FullYear(f.year), f.month - 1, f.day)
  {
    var day := MakeDay(FullYear(f.year), f.month - 1, f.day);
    WholeDays(day);
    day * MsPerDay + f.hour * 3600000 + f.minute * 60000 + f.second * 1000 + f.milli
  }

  /**
    With a time of day inside one day, Date.UTC gives the day of the
    captured date and, within it, exactly the captured time of day.
   */
  lemma DateUtcClock(f: IsoFields)
    requires f.hour < 24 && f.minute < 60 && f.second < 60 && f.milli < 1000
    ensures DateUtc(f) / MsPerDay == MakeDay(FullYear(f.year), f.month - 1, f.day)
    ensures DateUtc(f) % MsPerDay == ClockMillis(f.hour, f.minute, f.second, f.milli)
  {
    var day := MakeDay(FullYear(f.year), f.month - 1, f.day);
    var clock := ClockMillis(f.hour, f.minute, f.second, f.milli);
    assert DateUtc(f) == day * MsPerDay + clock;
    DayAndClock(day, clock);
  }

  /** The milliseconds since midnight of a time of day. */
  function ClockMillis(hour: nat, minute: nat, second: nat, milli: nat): (ms: nat)
    ensures hour < 24 && minute < 60 && second < 60 && milli < 1000 ==> ms < MsPerDay
  {
    hour * 3600000 + minute * 60000 + second * 1000 + milli
  }

  /** A whole number of days in milliseconds divides back exactly. */
  lemma WholeDays(d: int)
    ensures (d * MsPerDay) % MsPerDay == 0 && (d * MsPerDay) / MsPerDay == d
  {
  }

  /** Days plus a time of day within one day split back into the two. */
  lemma DayAndClock(d: int, c: int)
    requires 0 <= c < MsPerDay
    ensures (d * MsPerDay + c) / MsPerDay == d && (d * MsPerDay + c) % MsPerDay == c
  {
  }

  /** Date.UTC's reading of a year: 0..99 stands for 1900..1999. */
  function FullYear(year: nat): int {
    if year <= 99 then 1900 + year else year
  }

  /** The regular-expression date parser: the time value of an ISO date text, if it is one. */
  function ParseIsoDate(s: string): (r: Option<int>)
    ensures r.Some? <==> MatchIso(s).Some?
    ensures r.Some? && |s| == 10 ==>
              r.value % MsPerDay == 0
              && r.value / MsPerDay == MakeDay(FullYear(DigitsValue(s[..4])), DigitsValue(s[5..7]) - 1, DigitsValue(s[8..10]))
  {
    match MatchIso(s)
    case None => None
    case Some(f) => Some(DateUtc(f))
  }

  /**
    parseValue: the stored text coerced to the declared type. Text is kept,
    numbers go through the host's Number, booleans through MatchesTrue, and
    dates through the ISO parser with the host's generic parse as fallback.
   */
  function Coerce(host: Host, raw: string, tag: Tag): (v: Value)
    ensures TagOf(v) == tag
    ensures tag == Text ==> v == Str(raw)
    ensures tag == Boolean ==> (v.b <==> LowerAsciiText(raw) in {"t", "true"})
    ensures tag == DateTime && ParseIsoDate(raw).Some? ==> v == Date(ParseIsoDate(raw).value)
  {
    match tag
    case Text => Str(raw)
    case Number => Num(host.number(raw))
    case Boolean => Bool(MatchesTrue(raw))
    case DateTime =>
      match ParseIsoDate(raw)
      case Some(t) => Date(t)
      case None =>
        match host.parseDate(raw)
        case Some(t) => Date(t)
        case None => InvalidDate
  }

  /** String(x) of a JSON number, boolean or null. */
  function PrimitiveText(e: Entry): string
    requires !e.Stored?
  {
    match e
    case JsonNumber(n) => IntText(n)
    case JsonBool(b) => if b then "true" else "false"
    case JsonNull => "null"
  }

  /** Number(x) of a JSON number, boolean or null: true is 1, false and null are 0. */
  function PrimitiveNumber(e: Entry): int
    requires !e.Stored?
  {
    match e
    case JsonNumber(n) => n
    case JsonBool(b) => if b then 1 else 0
    case JsonNull => 0
  }

  /**
    parseValue applied to what a source returned. Text goes through Coerce.
    A JSON number, boolean or null is converted by String or Number
    themselves, by the Boolean pattern applied to its String() form, or by
    new Date(x), which takes it as a time value (null being 0).
   */
  function ParseEntry(host: Host, e: Entry, tag: Tag): (v: Value)
    ensures TagOf(v) == tag
    ensures e.Stored? ==> v == Coerce(host, e.text, tag)
    ensures e.JsonNumber? && tag == Number ==> v == Num(e.n)
    ensures e.JsonNull? && tag == DateTime ==> v == Date(0)
  {
    match e
    case Stored(text) => Coerce(host, text, tag)
    case _ =>
      match tag
      case Text => Str(PrimitiveText(e))
      case Number => Num(PrimitiveNumber(e))
      case Boolean => Bool(MatchesTrue(PrimitiveText(e)))
      case DateTime => Date(PrimitiveNumber(e))
  }

  /**
    Round trip through the cookie: JSON.stringify, $.parseJSON and
    parseValue give every text, number and boolean back as it was, while an
    invalid date, which JSON writes as null, comes back as the epoch.
   */
  lemma CookieRoundTrip(host: Host, v: Value)
    requires !v.Date?
    ensures ParseEntry(host, ToJson(host, v), TagOf(v)) == if v.InvalidDate? then Date(0) else v
  {
    if v.Bool? {
      BooleanTexts();
    }
  }

  /** The Boolean pattern accepts "true" and rejects "false". */
  lemma BooleanTexts()
    ensures MatchesTrue("true") && !MatchesTrue("false")
  {
    assert LowerAsciiText("true") == "true";
    assert LowerAsciiText("false") == "false";
  }

  // ---------------------------------------------------------------------
  // The fragment writer's date format:
  //   (y + "-" + (m + 1) + "-" + d).replace(/-(\d)(?=-|$)/g, '-0$1')
  // ---------------------------------------------------------------------

  /**
    The global replacement of /-(\d)(?=-|$)/ by "-0" and the digit: every
    single digit standing between a '-' and either another '-' or the end
    gets a leading zero. Matching resumes after each replaced digit.
   */
  function PadFields(s: string): (r: string)
    ensures |s| <= |r|
    decreases |s|
  {
    if |s| >= 2 && s[0] == '-' && IsDigit(s[1]) && (|s| == 2 || s[2] == '-') then
      assert s == [s[0], s[1]] + s[2..];
      "-0" + [s[1]] + PadFields(s[2..])
    else if s == [] then []
    else
      assert s == [s[0]] + s[1..];
      [s[0]] + PadFields(s[1..])
  }

  /** A text without '-' passes through the replacement unchanged. */
  lemma {:induction false} PadFieldsNoDash(s: string)
    requires '-' !in s
    ensures PadFields(s) == s
    decreases |s|
  {
    if s != [] {
      assert s[0] != '-';
      assert '-' !in s[1..] by {
        forall k | 0 <= k < |s[1..]| ensures s[1..][k] != '-' { assert s[1..][k] == s[k + 1]; }
      }
      PadFieldsNoDash(s[1..]);
      assert s == [s[0]] + s[1..];
    }
  }

  /** A number of a month or a day written with two digits. */
  function TwoDigits(n: nat): string {
    if n < 10 then "0" + NatText(n) else NatText(n)
  }

  /** year + "-" + (month + 1) + "-" + date, with single-digit fields padded. */
  function FormatCivil(c: Civil): string {
    PadFields(IntText(c.year) + "-" + IntText(c.month) + "-" + IntText(c.day))
  }

  /** The text the fragment writer gives a date at UTC midnight. */
  function FormatUtcDate(t: int): string {
    FormatCivil(UtcCivil(t))
  }

  /** value % day in JavaScript, whose remainder takes the sign of the dividend. */
  function DayRem(t: int): (r: int)
    ensures -MsPerDay < r < MsPerDay
    ensures t >= 0 ==> r == t % MsPerDay
    ensures t % MsPerDay == 0 <==> r == 0
    ensures t < 0 ==> r <= 0
    ensures (t - r) % MsPerDay == 0
  {
    if t >= 0 then t % MsPerDay
    else
      var q := (-t) / MsPerDay;
      assert t - -((-t) % MsPerDay) == -q * MsPerDay;
      -((-t) % MsPerDay)
  }

  /** The time value shifted to local time: t minus the host's offset. */
  function LocalTime(host: Host, t: int): int {
    t - host.tzOffset(t) * 60000
  }

  /** A run of digits in front passes through the replacement unchanged. */
  lemma {:induction false} PadDigits(a: string, b: string)
    requires AllDigits(a)
    ensures PadFields(a + b) == a + PadFields(b)
    decreases |a|
  {
    if a != [] {
      var s := a + b;
      assert s[0] == a[0] && IsDigit(s[0]);
      assert s[1..] == a[1..] + b;
      assert PadFields(s) == [a[0]] + PadFields(a[1..] + b);
      PadDigits(a[1..], b);
      assert a == [a[0]] + a[1..];
    } else {
      assert a + b == b;
    }
  }

  /** A field "-n" followed by another field or the end is padded to two digits. */
  lemma PadField(n: nat, rest: string)
    requires rest == [] || rest[0] == '-'
    ensures PadFields("-" + NatText(n) + rest) == "-" + TwoDigits(n) + PadFields(rest)
  {
    if n < 10 {
      PadShortField(NatText(n), rest);
    } else {
      PadLongField(NatText(n), rest);
    }
  }

  lemma PadShortField(digits: string, rest: string)
    requires |digits| == 1 && IsDigit(digits[0])
    requires rest == [] || rest[0] == '-'
    ensures PadFields("-" + digits + rest) == "-" + ("0" + digits) + PadFields(rest)
  {
    var s := "-" + digits + rest;
    var d := digits[0];
    assert digits == [d];
    assert s == ['-', d] + rest;
    assert s[0] == '-' && s[1] == d && s[2..] == rest;
    assert |s| == 2 || s[2] == '-';
    assert PadFields(s) == "-0" + [d] + PadFields(rest);
    assert "-0" + [d] == "-" + ("0" + digits);
  }

  lemma PadLongField(digits: string, rest: string)
    requires |digits| >= 2 && AllDigits(digits)
    ensures PadFields("-" + digits + rest) == "-" + digits + PadFields(rest)
  {
    var s := "-" + digits + rest;
    assert s[0] == '-' && s[2] == digits[1] && IsDigit(s[2]);
    assert s[1..] == digits + rest;
    assert PadFields(s) == [s[0]] + PadFields(s[1..]);
    PadDigits(digits, rest);
  }

  /**
    For a non-negative year the fragment writer's text is the year, then the
    month and the day each zero-padded to two digits, separated by '-'.
   */
  lemma {:induction false} FormatUtcDateShape(t: int)
    requires UtcCivil(t).year >= 0
    ensures FormatUtcDate(t) == NatText(UtcCivil(t).year) + "-" + TwoDigits(UtcCivil(t).month)
                                + "-" + TwoDigits(UtcCivil(t).day)
  {
    var c := UtcCivil(t);
    PadDate(c.year, c.month, c.day);
  }

  lemma {:induction false} PadDate(year: nat, month: nat, day: nat)
    ensures PadFields(IntText(year) + "-" + IntText(month) + "-" + IntText(day))
            == NatText(year) + "-" + TwoDigits(month) + "-" + TwoDigits(day)
  {
    var y, m, d := NatText(year), NatText(month), NatText(day);
    assert IntText(year) == y && IntText(month) == m && IntText(day) == d;
    var rest := "-" + m + "-" + d;
    PadMonthDay(month, day);
    PadDigits(y, rest);
    Regroup(y, "-", m, "-", d);
    Regroup(y, "-", TwoDigits(month), "-", TwoDigits(day));
  }

  /** Concatenation regrouped so that the head stands apart. */
  lemma Regroup(a: string, b: string, c: string, d: string, e: string)
    ensures a + b + c + d + e == a + (b + c + d + e)
  {
    assert a + b + c + d + e == a + (b + (c + (d + e)));
    assert b + c + d + e == b + (c + (d + e));
  }

  lemma {:induction false} PadMonthDay(month: nat, day: nat)
    ensures PadFields("-" + NatText(month) + "-" + NatText(day))
            == "-" + TwoDigits(month) + "-" + TwoDigits(day)
  {
    var m, d := NatText(month), NatText(day);
    var tail := "-" + d;
    var padded := "-" + TwoDigits(day);
    assert tail[0] == '-';
    PadField(month, tail);
    PadLast(day);
    assert PadFields(tail) == padded;
    Append3("-", m, tail);
    Append3("-", TwoDigits(month), padded);
    Append3("-" + m, "-", d);
    Append3("-" + TwoDigits(month), "-", TwoDigits(day));
  }

  /** Concatenation of three strings regrouped. */
  lemma Append3(a: string, b: string, c: string)
    ensures a + b + c == a + (b + c)
  {
  }

  lemma {:induction false} PadLast(day: nat)
    ensures PadFields("-" + NatText(day)) == "-" + TwoDigits(day)
  {
    PadField(day, []);
    assert "-" + NatText(day) + [] == "-" + NatText(day);
    assert PadFields([]) == [];
    assert "-" + TwoDigits(day) + [] == "-" + TwoDigits(day);
  }

  lemma {:induction false} TwoDigitsValue(n: nat)
    requires 1 <= n <= 99
    ensures |TwoDigits(n)| == 2 && AllDigits(TwoDigits(n)) && DigitsValue(TwoDigits(n)) == n
  {
    NatTextLength(n);
    DigitsValueOfNatText(n);
    if n < 10 {
      var s := TwoDigits(n);
      assert s[..1] == "0";
      assert DigitsValue(s[..1]) == 0;
    }
  }

  /**
    Round trip of the fragment's date format: the ISO parser reads the text
    of a UTC-midnight date with a four-digit year back to the same time value.
   */
  lemma MidnightRoundTrip(t: int)
    requires t % MsPerDay == 0
    requires 1000 <= UtcCivil(t).year <= 9999
    ensures ParseIsoDate(FormatUtcDate(t)) == Some(t)
  {
    MidnightText(t);
    MidnightValue(t);
  }

  /** The date text of a four-digit year matches the pattern with the date's own fields. */
  lemma MidnightText(t: int)
    requires 1000 <= UtcCivil(t).year <= 9999
    ensures MatchIso(FormatUtcDate(t)) == Some(IsoFields(UtcCivil(t).year, UtcCivil(t).month, UtcCivil(t).day, 0, 0, 0, 0))
  {
    var c := UtcCivil(t);
    FormatUtcDateShape(t);
    NatTextLength(c.year);
    DigitsValueOfNatText(c.year);
    TwoDigitsValue(c.month);
    TwoDigitsValue(c.day);
    MatchDateOnly(NatText(c.year), TwoDigits(c.month), TwoDigits(c.day));
  }

  /** Date.UTC of a midnight's own date, with a zero clock, is that midnight. */
  lemma MidnightValue(t: int)
    requires t % MsPerDay == 0
    requires 1000 <= UtcCivil(t).year
    ensures DateUtc(IsoFields(UtcCivil(t).year, UtcCivil(t).month, UtcCivil(t).day, 0, 0, 0, 0)) == t
  {
    var c := UtcCivil(t);
    var z := t / MsPerDay;
    assert MakeDay(c.year, c.month - 1, c.day) == z;
    assert z * MsPerDay == t;
  }

  /** A bare date yyyy-MM-dd matches the pattern with a zero clock. */
  lemma {:induction false} MatchDateOnly(y: string, m: string, d: string)
    requires |y| == 4 && |m| == 2 && |d| == 2
    requires AllDigits(y) && AllDigits(m) && AllDigits(d)
    ensures MatchIso(y + "-" + m + "-" + d)
            == Some(IsoFields(DigitsValue(y), DigitsValue(m), DigitsValue(d), 0, 0, 0, 0))
  {
    var s := y + "-" + m + "-" + d;
    assert s[..4] == y;
    assert s[4] == '-';
    assert s[5..7] == m;
    assert s[7] == '-';
    assert s[8..10] == d;
    assert s[10..] == "";
  }

  /** The text JSON.stringify gives a date, yyyy-MM-ddTHH:mm:ss.fffZ, here with any number of fraction digits. */
  function Timestamp(y: string, mo: string, d: string, hh: string, mi: string, ss: string, f: string): string {
    y + "-" + mo + "-" + d + "T" + hh + ":" + mi + ":" + ss + "." + f + "Z"
  }

  /** Seconds, a fraction and the zone letter: :ss.fZ. */
  lemma MatchSecondsFraction(ss: string, f: string)
    requires |ss| == 2 && AllDigits(ss) && AllDigits(f)
    ensures MatchSeconds(":" + ss + "." + f + "Z") == Some((DigitsValue(ss), Millis(f)))
  {
    var fz := f + "Z";
    var r := "." + fz;
    var u := ":" + ss + r;
    assert u == ":" + ss + "." + f + "Z";
    assert |u| >= 3 && u[0] == ':' && !IsZoneEnd(u);
    assert u[1..3] == ss;
    assert u[3..] == r;
    assert |r| >= 2 && !IsZoneEnd(r) && r[0] == '.';
    assert r[1..] == fz;
    assert |fz| > 0 && fz[|fz| - 1] == 'Z' && fz[..|fz| - 1] == f;
  }

  /** The time of day of a timestamp: THH:mm followed by seconds the pattern accepts. */
  lemma MatchClock(hh: string, mi: string, rest: string)
    requires |hh| == 2 && |mi| == 2 && AllDigits(hh) && AllDigits(mi)
    requires MatchSeconds(rest).Some?
    ensures MatchTimeTail("T" + hh + ":" + mi + rest)
            == Some(Clock(DigitsValue(hh), DigitsValue(mi), MatchSeconds(rest).value.0, MatchSeconds(rest).value.1))
  {
    var t := "T" + hh + ":" + mi + rest;
    assert |t| >= 6 && t[0] == 'T' && t != "" && t != "Z";
    assert t[1..3] == hh;
    assert t[3] == ':';
    assert t[4..6] == mi;
    assert t[6..] == rest;
  }

  /** A text the pattern matches parses to Date.UTC of its captures. */
  lemma ParseMatched(s: string, fields: IsoFields)
    requires MatchIso(s) == Some(fields)
    ensures ParseIsoDate(s) == Some(DateUtc(fields))
  {
  }

  /** A timestamp matches the pattern, capturing its date, its time of day and its milliseconds. */
  lemma {:induction false} MatchTimestamp(y: string, mo: string, d: string, hh: string, mi: string, ss: string, f: string)
    requires |y| == 4 && |mo| == 2 && |d| == 2 && |hh| == 2 && |mi| == 2 && |ss| == 2
    requires AllDigits(y) && AllDigits(mo) && AllDigits(d)
    requires AllDigits(hh) && AllDigits(mi) && AllDigits(ss) && AllDigits(f)
    ensures MatchIso(Timestamp(y, mo, d, hh, mi, ss, f))
            == Some(IsoFields(DigitsValue(y), DigitsValue(mo), DigitsValue(d),
                              DigitsValue(hh), DigitsValue(mi), DigitsValue(ss), Millis(f)))
  {
    var s := Timestamp(y, mo, d, hh, mi, ss, f);
    assert s[..4] == y;
    assert s[4] == '-';
    assert s[5..7] == mo;
    assert s[7] == '-';
    assert s[8..10] == d;
    var rest := ":" + ss + "." + f + "Z";
    assert s[10..] == "T" + hh + ":" + mi + rest;
    MatchSecondsFraction(ss, f);
    MatchClock(hh, mi, rest);
  }

  /**
    A text the pattern matches, with a time of day inside one day, parses to
    the day of its captured date at exactly its captured time of day.
   */
  lemma ParseClock(s: string)
    requires MatchIso(s).Some?
    requires MatchIso(s).value.hour < 24 && MatchIso(s).value.minute < 60 && MatchIso(s).value.second < 60
    ensures ParseIsoDate(s).Some?
    ensures var f := MatchIso(s).value;
            ParseIsoDate(s).value / MsPerDay == MakeDay(FullYear(f.year), f.month - 1, f.day)
            && ParseIsoDate(s).value % MsPerDay == ClockMillis(f.hour, f.minute, f.second, f.milli)
  {
    var f := MatchIso(s).value;
    DateUtcClock(f);
    ParseMatched(s, f);
  }

  /**
    The form in which the fragment writer stores a value: a date whose time
    value is a whole number of days becomes its UTC date text; failing that,
    a date at local midnight (its remainder modulo a day equals the time-zone
    offset) becomes its local date text; every other value is left as it is.
   */
  function FragmentForm(host: Host, v: Value): (r: Value)
    ensures !v.Date? ==> r == v
    ensures v.Date? && v.ms % MsPerDay != 0 && DayRem(v.ms) != host.tzOffset(v.ms) * 60000 ==> r == v
    ensures v.Date? && v.ms % MsPerDay == 0 && UtcCivil(v.ms).year >= 0 ==>
              r == Str(NatText(UtcCivil(v.ms).year) + "-" + TwoDigits(UtcCivil(v.ms).month)
                       + "-" + TwoDigits(UtcCivil(v.ms).day))
    ensures v.Date? && v.ms % MsPerDay != 0 && DayRem(v.ms) == host.tzOffset(v.ms) * 60000 ==>
              r == Str(FormatCivil(UtcCivil(LocalTime(host, v.ms))))
  {
    if v.Date? && v.ms % MsPerDay == 0 then
      if UtcCivil(v.ms).year >= 0 then
        FormatUtcDateShape(v.ms);
        Str(FormatUtcDate(v.ms))
      else
        Str(FormatUtcDate(v.ms))
    else if v.Date? && DayRem(v.ms) == host.tzOffset(v.ms) * 60000 then
      Str(FormatCivil(UtcCivil(LocalTime(host, v.ms))))
    else v
  }

  /**
    Texts, booleans and UTC-midnight dates with four-digit years survive
    the trip through the fragment: formatting, String(), and coercion back
    to the value's own type give the value again.
   */
  lemma FragmentRoundTrip(host: Host, v: Value)
    requires v.Str? || v.Bool? || (v.Date? && v.ms % MsPerDay == 0 && 1000 <= UtcCivil(v.ms).year <= 9999)
    ensures Coerce(host, ToText(host, FragmentForm(host, v)), TagOf(v)) == v
  {
    if v.Date? {
      FragmentRoundTripDate(host, v.ms);
    } else if v.Bool? {
      BooleanTexts();
    }
  }

  /** A UTC midnight with a four-digit year is stored as its date text and parsed back. */
  lemma FragmentRoundTripDate(host: Host, t: int)
    requires t % MsPerDay == 0 && 1000 <= UtcCivil(t).year <= 9999
    ensures Coerce(host, ToText(host, FragmentForm(host, Date(t))), DateTime) == Date(t)
  {
    FormatUtcDateShape(t);
    assert FragmentForm(host, Date(t)) == Str(FormatUtcDate(t));
    MidnightRoundTrip(t);
  }

  /**
    East of UTC (a negative offset) the local-midnight test never holds for
    a time value after the epoch: value % day is then non-negative while the
    offset in milliseconds is negative. So a local midnight there that is
    not also a UTC midnight is stored with its full time.
   */
  lemma LocalMidnightEastOfUtc(host: Host, t: int)
    requires t >= 0 && t % MsPerDay != 0 && host.tzOffset(t) < 0
    requires LocalTime(host, t) % MsPerDay == 0
    ensures FragmentForm(host, Date(t)) == Date(t)
  {
  }
}
