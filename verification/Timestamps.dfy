/**
 Instants of the knowledge context: the accepted text form (the profile of section 5.6 of RFC 3339 with at
 most six fraction digits) and the UTC text `_utc_text` prints.
 */
module Timestamps {
  import opened Outcomes
  import opened Numerals

  /** A `datetime` with an offset, in minutes east of UTC. */
  datatype Instant = Instant(
    year: int,
    month: int,
    day: int,
    hour: int,
    minute: int,
    second: int,
    micro: int,
    offset: int)

  predicate IsLeap(y: int) {
    y % 4 == 0 && (y % 100 != 0 || y % 400 == 0)
  }

  function DaysInMonth(y: int, m: int): (d: int)
    requires 1 <= m <= 12
    ensures 28 <= d <= 31
  {
    if m == 2 then (if IsLeap(y) then 29 else 28)
    else if m == 4 || m == 6 || m == 9 || m == 11 then 30
    else 31
  }

  predicate ValidDate(y: int, m: int, d: int) {
    1 <= m <= 12 && 1 <= d <= DaysInMonth(y, m)
  }

  /** What `datetime` accepts as fields. */
  predicate Valid(t: Instant) {
    && 1 <= t.year <= 9999
    && ValidDate(t.year, t.month, t.day)
    && 0 <= t.hour < 24 && 0 <= t.minute < 60 && 0 <= t.second < 60
    && 0 <= t.micro < 1_000_000
    && -1440 < t.offset < 1440
  }

  // ----- the time line -----

  /** Days of the proleptic Gregorian calendar before year `y`. */
  function DaysBeforeYear(y: int): int {
    365 * (y - 1) + (y - 1) / 4 - (y - 1) / 100 + (y - 1) / 400
  }

  function DaysBeforeMonth(y: int, m: int): int
    requires 1 <= m <= 12
  {
    if m == 1 then 0 else DaysBeforeMonth(y, m - 1) + DaysInMonth(y, m - 1)
  }

  function Ordinal(y: int, m: int, d: int): int
    requires 1 <= m <= 12
  {
    DaysBeforeYear(y) + DaysBeforeMonth(y, m) + d
  }

  /** Microseconds from the start of year 1, UTC, to the instant: what two instants are compared by. */
  function Micros(t: Instant): int
    requires Valid(t)
  {
    (((Ordinal(t.year, t.month, t.day) * 24 + t.hour) * 60 + t.minute - t.offset) * 60 + t.second) * 1_000_000 + t.micro
  }

  lemma QuarterStep(y: int)
    ensures y / 4 - (y - 1) / 4 == if y % 4 == 0 then 1 else 0
  {
  }

  lemma CenturyStep(y: int)
    ensures y / 100 - (y - 1) / 100 == if y % 100 == 0 then 1 else 0
    ensures y % 100 == 0 ==> y % 4 == 0
  {
    assert y == 100 * (y / 100) + y % 100;
    assert y % 100 == 0 ==> y == 4 * (25 * (y / 100));
  }

  lemma FourCenturyStep(y: int)
    ensures y / 400 - (y - 1) / 400 == if y % 400 == 0 then 1 else 0
    ensures y % 400 == 0 ==> y % 100 == 0
  {
    assert y == 400 * (y / 400) + y % 400;
    assert y % 400 == 0 ==> y == 100 * (4 * (y / 400));
  }

  lemma YearLength(y: int)
    ensures DaysBeforeYear(y + 1) == DaysBeforeYear(y) + (if IsLeap(y) then 366 else 365)
  {
    QuarterStep(y);
    CenturyStep(y);
    FourCenturyStep(y);
  }

  lemma MonthsOfYear(y: int)
    ensures DaysBeforeMonth(y, 12) + 31 == if IsLeap(y) then 366 else 365
  {
    assert DaysBeforeMonth(y, 2) == 31;
    var feb := DaysInMonth(y, 2);
    assert DaysBeforeMonth(y, 4) == DaysBeforeMonth(y, 3) + 31 == feb + 62;
    assert DaysBeforeMonth(y, 6) == DaysBeforeMonth(y, 5) + 31 == feb + 123;
    assert DaysBeforeMonth(y, 8) == DaysBeforeMonth(y, 7) + 31 == feb + 184;
    assert DaysBeforeMonth(y, 10) == DaysBeforeMonth(y, 9) + 30 == feb + 245;
    assert DaysBeforeMonth(y, 12) == DaysBeforeMonth(y, 11) + 30 == feb + 306;
  }

  lemma {:induction false} MonthsIncrease(y: int, m: int, n: int)
    requires 1 <= m < n <= 12
    ensures DaysBeforeMonth(y, m) + DaysInMonth(y, m) <= DaysBeforeMonth(y, n)
    decreases n
  {
    if m < n - 1 {
      MonthsIncrease(y, m, n - 1);
    }
  }

  lemma {:induction false} YearsIncrease(y: int, z: int)
    requires y < z
    ensures DaysBeforeYear(y + 1) <= DaysBeforeYear(z)
    decreases z - y
  {
    if y + 1 < z {
      YearsIncrease(y, z - 1);
      YearLength(z - 1);
    }
  }

  lemma DayWithinYear(y: int, m: int, d: int)
    requires ValidDate(y, m, d)
    ensures DaysBeforeYear(y) < Ordinal(y, m, d) <= DaysBeforeYear(y + 1)
  {
    YearLength(y);
    MonthsOfYear(y);
    if m > 1 {
      MonthsIncrease(y, 1, m);
    }
    if m < 12 {
      MonthsIncrease(y, m, 12);
    }
  }

  /** Later dates have larger day numbers. */
  lemma OrdinalIncreases(y: int, m: int, d: int, z: int, n: int, e: int)
    requires ValidDate(y, m, d) && ValidDate(z, n, e)
    requires y < z || (y == z && (m < n || (m == n && d < e)))
    ensures Ordinal(y, m, d) < Ordinal(z, n, e)
  {
    if y < z {
      DayWithinYear(y, m, d);
      DayWithinYear(z, n, e);
      YearsIncrease(y, z);
    } else if m < n {
      MonthsIncrease(y, m, n);
    }
  }

  /** A day number determines its date. */
  lemma OrdinalInjective(y: int, m: int, d: int, z: int, n: int, e: int)
    requires ValidDate(y, m, d) && ValidDate(z, n, e) && Ordinal(y, m, d) == Ordinal(z, n, e)
    ensures y == z && m == n && d == e
  {
    if y < z || (y == z && (m < n || (m == n && d < e))) {
      OrdinalIncreases(y, m, d, z, n, e);
    } else if !(y == z && m == n && d == e) {
      OrdinalIncreases(z, n, e, y, m, d);
    }
  }

  // ----- conversion to UTC -----

  /** The date `k` days away, for a day before, the same day or a day after. */
  function ShiftDay(y: int, m: int, d: int, k: int): (r: (int, int, int))
    requires ValidDate(y, m, d) && -1 <= k <= 1
    ensures ValidDate(r.0, r.1, r.2)
  {
    if k == 0 then (y, m, d)
    else if k == 1 then
      if d < DaysInMonth(y, m) then (y, m, d + 1)
      else if m < 12 then (y, m + 1, 1)
      else (y + 1, 1, 1)
    else
      if d > 1 then (y, m, d - 1)
      else if m > 1 then (y, m - 1, DaysInMonth(y, m - 1))
      else (y - 1, 12, 31)
  }

  lemma ShiftDayOrdinal(y: int, m: int, d: int, k: int)
    requires ValidDate(y, m, d) && -1 <= k <= 1
    ensures var r := ShiftDay(y, m, d, k); Ordinal(r.0, r.1, r.2) == Ordinal(y, m, d) + k
  {
    YearLength(y);
    YearLength(y - 1);
    MonthsOfYear(y);
    MonthsOfYear(y - 1);
  }

  /** `t.astimezone(timezone.utc)`, None where it overflows the range of years. */
  function ToUtc(t: Instant): Option<Instant>
    requires Valid(t)
  {
    var minutes := t.hour * 60 + t.minute - t.offset;
    var k := if minutes < 0 then -1 else if minutes >= 1440 then 1 else 0;
    var (y, m, d) := ShiftDay(t.year, t.month, t.day, k);
    var r := minutes - 1440 * k;
    if 1 <= y <= 9999 then Some(Instant(y, m, d, r / 60, r % 60, t.second, t.micro, 0)) else None
  }

  /** Converting to UTC keeps the instant. */
  lemma ToUtcKeepsInstant(t: Instant)
    requires Valid(t) && ToUtc(t).Some?
    ensures Valid(ToUtc(t).value) && ToUtc(t).value.offset == 0
    ensures Micros(ToUtc(t).value) == Micros(t)
  {
    var minutes := t.hour * 60 + t.minute - t.offset;
    var k := if minutes < 0 then -1 else if minutes >= 1440 then 1 else 0;
    ShiftDayOrdinal(t.year, t.month, t.day, k);
    var u := ToUtc(t).value;
    assert u.hour * 60 + u.minute == minutes - 1440 * k;
  }

  /** In UTC an instant has one set of fields. */
  lemma UtcFieldsUnique(a: Instant, b: Instant)
    requires Valid(a) && Valid(b) && a.offset == 0 && b.offset == 0 && Micros(a) == Micros(b)
    ensures a == b
  {
    var i, j := Ordinal(a.year, a.month, a.day), Ordinal(b.year, b.month, b.day);
    var x := ((a.hour * 60 + a.minute) * 60 + a.second) * 1_000_000 + a.micro;
    var z := ((b.hour * 60 + b.minute) * 60 + b.second) * 1_000_000 + b.micro;
    assert Micros(a) == i * 86_400_000_000 + x && Micros(b) == j * 86_400_000_000 + z;
    assert 0 <= x < 86_400_000_000 && 0 <= z < 86_400_000_000;
    assert i == j && x == z;
    OrdinalInjective(a.year, a.month, a.day, b.year, b.month, b.day);
  }

  // ----- the text form -----

  /** `n` in exactly `width` decimal digits. */
  function Padded(n: nat, width: nat): (s: string)
    ensures |s| == width
    ensures forall i :: 0 <= i < width ==> IsDigit(s[i])
  {
    if width == 0 then "" else Padded(n / 10, width - 1) + [DigitChar(n % 10)]
  }

  function Power10(k: nat): nat {
    if k == 0 then 1 else 10 * Power10(k - 1)
  }

  predicate DigitsAt(s: string, i: nat, k: nat) {
    i + k <= |s| && forall j :: i <= j < i + k ==> IsDigit(s[j])
  }

  /** The value of the `k` digits at `i`. */
  function NumberAt(s: string, i: nat, k: nat): nat
    requires DigitsAt(s, i, k)
  {
    if k == 0 then 0 else NumberAt(s, i, k - 1) * 10 + DigitValue(s[i + k - 1])
  }

  /** Padding writes a number that is read back wherever the text stands. */
  lemma {:induction false} PaddedAt(s: string, i: nat, n: nat, width: nat)
    requires n < Power10(width) && i + width <= |s|
    requires forall j :: i <= j < i + width ==> s[j] == Padded(n, width)[j - i]
    ensures DigitsAt(s, i, width) && NumberAt(s, i, width) == n
  {
    if width > 0 {
      PaddedAt(s, i, n / 10, width - 1);
      assert s[i + width - 1] == DigitChar(n % 10);
    }
  }

  predicate CharAt(s: string, i: nat, c: char) {
    i < |s| && s[i] == c
  }

  /** The first nineteen characters: `YYYY-MM-DDTHH:MM:SS`. */
  predicate DateTimeShape(s: string) {
    && DigitsAt(s, 0, 4) && CharAt(s, 4, '-')
    && DigitsAt(s, 5, 2) && CharAt(s, 7, '-')
    && DigitsAt(s, 8, 2) && CharAt(s, 10, 'T')
    && DigitsAt(s, 11, 2) && CharAt(s, 13, ':')
    && DigitsAt(s, 14, 2) && CharAt(s, 16, ':')
    && DigitsAt(s, 17, 2)
  }

  /** Where the optional fraction of one to six digits ends; None for a malformed one. */
  function FractionDigits(s: string): (n: Option<nat>)
    requires |s| >= 19
    ensures n.Some? ==> n.value <= 6
    ensures n.Some? && n.value > 0 ==> DigitsAt(s, 20, n.value)
  {
    if !CharAt(s, 19, '.') then Some(0)
    else
      var n := DigitsEnd(s, 20) - 20;
      DigitsEndDigits(s, 20);
      if 1 <= n <= 6 then Some(n) else None
  }

  /** `Z`, or a sign and `HH:MM`, up to the end of the text: the offset in minutes. */
  function OffsetAt(s: string, i: nat): Option<int>
    requires i <= |s|
  {
    if CharAt(s, i, 'Z') && |s| == i + 1 then Some(0)
    else if (CharAt(s, i, '+') || CharAt(s, i, '-')) && |s| == i + 6
            && DigitsAt(s, i + 1, 2) && CharAt(s, i + 3, ':') && DigitsAt(s, i + 4, 2) then
      var h, m := NumberAt(s, i + 1, 2), NumberAt(s, i + 4, 2);
      if h < 24 && m < 60 then Some(if s[i] == '+' then h * 60 + m else -(h * 60 + m) as int) else None
    else None
  }

  /** A fraction padded to six digits: `".5"` is 500000 microseconds. */
  function FractionMicros(s: string, n: nat): int
    requires n <= 6 && (n > 0 ==> DigitsAt(s, 20, n))
  {
    if n == 0 then 0 else NumberAt(s, 20, n) * Power10(6 - n)
  }

  /** The fields of a text of the accepted shape, before they are checked. */
  function ParseFields(s: string): Option<Instant> {
    if !DateTimeShape(s) then None
    else
      match FractionDigits(s)
      case None => None
      case Some(n) =>
        match OffsetAt(s, if n == 0 then 19 else 20 + n)
        case None => None
        case Some(offset) =>
          Some(Instant(NumberAt(s, 0, 4), NumberAt(s, 5, 2), NumberAt(s, 8, 2), NumberAt(s, 11, 2),
                       NumberAt(s, 14, 2), NumberAt(s, 17, 2), FractionMicros(s, n), offset))
  }

  /** `_require_iso_with_offset`: the instant of an accepted text. */
  function Accept(s: string): (r: Option<Instant>)
    ensures r.Some? ==> Valid(r.value) && ToUtc(r.value).Some?
  {
    match ParseFields(s)
    case None => None
    case Some(t) => if Valid(t) && ToUtc(t).Some? then Some(t) else None
  }

  /** Fields that fit the digits of the text form. */
  predicate InDigits(t: Instant) {
    && 0 <= t.year < 10_000 && 0 <= t.month < 100 && 0 <= t.day < 100
    && 0 <= t.hour < 100 && 0 <= t.minute < 100 && 0 <= t.second < 100
  }

  function DateText(t: Instant): (s: string)
    requires InDigits(t)
    ensures |s| == 10
  {
    Padded(t.year, 4) + "-" + Padded(t.month, 2) + "-" + Padded(t.day, 2)
  }

  function TimeText(t: Instant): (s: string)
    requires InDigits(t)
    ensures |s| == 8
  {
    Padded(t.hour, 2) + ":" + Padded(t.minute, 2) + ":" + Padded(t.second, 2)
  }

  function DateTimeText(t: Instant): (s: string)
    requires InDigits(t)
    ensures |s| == 19
  {
    DateText(t) + "T" + TimeText(t)
  }

  /** `_utc_text`: seconds, or microseconds when there are any, and `Z` for the offset. */
  function UtcText(t: Instant): string
    requires Valid(t) && ToUtc(t).Some?
  {
    var u := ToUtc(t).value;
    ToUtcKeepsInstant(t);
    DateTimeText(u) + (if u.micro == 0 then "" else "." + Padded(u.micro, 6)) + "Z"
  }

  // ----- printing and accepting -----

  lemma DateTextAt(t: Instant, s: string)
    requires InDigits(t) && |s| >= 10 && forall j :: 0 <= j < 10 ==> s[j] == DateText(t)[j]
    ensures DigitsAt(s, 0, 4) && CharAt(s, 4, '-') && DigitsAt(s, 5, 2) && CharAt(s, 7, '-') && DigitsAt(s, 8, 2)
    ensures NumberAt(s, 0, 4) == t.year && NumberAt(s, 5, 2) == t.month && NumberAt(s, 8, 2) == t.day
  {
    assert Power10(2) == 100 && Power10(4) == 10000;
    PaddedAt(s, 0, t.year, 4);
    PaddedAt(s, 5, t.month, 2);
    PaddedAt(s, 8, t.day, 2);
  }

  lemma TimeTextAt(t: Instant, s: string)
    requires InDigits(t) && |s| >= 19 && forall j :: 11 <= j < 19 ==> s[j] == TimeText(t)[j - 11]
    ensures DigitsAt(s, 11, 2) && CharAt(s, 13, ':') && DigitsAt(s, 14, 2) && CharAt(s, 16, ':') && DigitsAt(s, 17, 2)
    ensures NumberAt(s, 11, 2) == t.hour && NumberAt(s, 14, 2) == t.minute && NumberAt(s, 17, 2) == t.second
  {
    assert Power10(2) == 100;
    PaddedAt(s, 11, t.hour, 2);
    PaddedAt(s, 14, t.minute, 2);
    PaddedAt(s, 17, t.second, 2);
  }

  lemma DateTimeTextAt(t: Instant, after: string)
    requires InDigits(t)
    ensures var s := DateTimeText(t) + after;
            && DateTimeShape(s)
            && NumberAt(s, 0, 4) == t.year && NumberAt(s, 5, 2) == t.month && NumberAt(s, 8, 2) == t.day
            && NumberAt(s, 11, 2) == t.hour && NumberAt(s, 14, 2) == t.minute && NumberAt(s, 17, 2) == t.second
  {
    var s := DateTimeText(t) + after;
    DateTextAt(t, s);
    TimeTextAt(t, s);
  }

  /** The fraction and the final `Z` of a printed instant. */
  function Ending(micro: int): string
    requires 0 <= micro < 1_000_000
  {
    (if micro == 0 then "" else "." + Padded(micro, 6)) + "Z"
  }

  lemma EndingAt(s: string, micro: int)
    requires 0 <= micro < 1_000_000 && |s| == 19 + |Ending(micro)|
    requires forall j :: 19 <= j < |s| ==> s[j] == Ending(micro)[j - 19]
    ensures FractionDigits(s) == Some(if micro == 0 then 0 else 6)
    ensures FractionMicros(s, if micro == 0 then 0 else 6) == micro
    ensures OffsetAt(s, if micro == 0 then 19 else 26) == Some(0)
  {
    if micro != 0 {
      assert Power10(6) == 1_000_000;
      PaddedAt(s, 20, micro, 6);
      DigitsEndIs(s, 20, 26);
      assert Power10(0) == 1;
    }
  }

  lemma DigitsEndIs(s: string, i: nat, j: nat)
    requires i <= j < |s| && !IsDigit(s[j]) && forall k :: i <= k < j ==> IsDigit(s[k])
    ensures DigitsEnd(s, i) == j
    decreases j - i
  {
  }

  /** Printing UTC fields and reading the text gives the fields back. */
  lemma ParsePrintedUtc(u: Instant)
    requires Valid(u) && u.offset == 0
    ensures ParseFields(DateTimeText(u) + Ending(u.micro)) == Some(u)
  {
    var s := DateTimeText(u) + Ending(u.micro);
    DateTimeTextAt(u, Ending(u.micro));
    EndingAt(s, u.micro);
  }

  lemma UtcIsItsOwnUtc(u: Instant)
    requires Valid(u) && u.offset == 0
    ensures ToUtc(u) == Some(u)
  {
  }

  /** `_utc_text` prints a text that is accepted and denotes the same instant, in UTC. */
  lemma UtcTextRoundTrip(s: string)
    requires Accept(s).Some?
    ensures var t := Accept(s).value;
            && Accept(UtcText(t)) == ToUtc(t)
            && Accept(UtcText(t)).value.offset == 0
            && Micros(Accept(UtcText(t)).value) == Micros(t)
  {
    var t := Accept(s).value;
    var u := ToUtc(t).value;
    ToUtcKeepsInstant(t);
    UtcIsItsOwnUtc(u);
    ParsePrintedUtc(u);
    UtcTextIs(t);
  }

  lemma UtcTextIs(t: Instant)
    requires Valid(t) && ToUtc(t).Some?
    ensures Valid(ToUtc(t).value)
    ensures UtcText(t) == DateTimeText(ToUtc(t).value) + Ending(ToUtc(t).value.micro)
  {
    ToUtcKeepsInstant(t);
    var u := ToUtc(t).value;
    var f := if u.micro == 0 then "" else "." + Padded(u.micro, 6);
    assert DateTimeText(u) + f + "Z" == DateTimeText(u) + (f + "Z");
  }

  /** Two accepted spellings print the same text exactly when they denote the same instant. */
  lemma UtcTextDeterminesInstant(a: string, b: string)
    requires Accept(a).Some? && Accept(b).Some?
    ensures UtcText(Accept(a).value) == UtcText(Accept(b).value) <==>
            Micros(Accept(a).value) == Micros(Accept(b).value)
  {
    var s, t := Accept(a).value, Accept(b).value;
    UtcTextRoundTrip(a);
    UtcTextRoundTrip(b);
    ToUtcKeepsInstant(s);
    ToUtcKeepsInstant(t);
    if Micros(s) == Micros(t) {
      UtcFieldsUnique(ToUtc(s).value, ToUtc(t).value);
    }
  }

  /** Canonical UTC texts are fixed: printing what a printed text denotes prints it again. */
  lemma UtcTextIsFixed(s: string)
    requires Accept(s).Some?
    ensures var once := UtcText(Accept(s).value);
            Accept(once).Some? && UtcText(Accept(once).value) == once
  {
    UtcTextRoundTrip(s);
    UtcTextDeterminesInstant(s, UtcText(Accept(s).value));
  }

  // ----- what an offset and a fraction denote -----

  /** A sign and `HH:MM`. */
  function ZoneText(sign: char, h: nat, m: nat): (s: string)
    ensures |s| == 6
  {
    [sign] + Padded(h, 2) + ":" + Padded(m, 2)
  }

  lemma ZoneAt(s: string, i: nat, sign: char, h: nat, m: nat)
    requires h < 24 && m < 60 && (sign == '+' || sign == '-')
    requires |s| == i + 6 && s[i..] == ZoneText(sign, h, m)
    ensures OffsetAt(s, i) == Some(if sign == '+' then h * 60 + m else 0 - (h * 60 + m))
  {
    var zone := ZoneText(sign, h, m);
    assert Power10(2) == 100;
    assert forall j :: i <= j < i + 6 ==> s[j] == zone[j - i];
    PaddedAt(s, i + 1, h, 2);
    PaddedAt(s, i + 4, m, 2);
  }

  /** No fraction, or a point and `k` digits. */
  function FractionText(n: nat, k: nat): string {
    if k == 0 then "" else "." + Padded(n, k)
  }

  lemma FractionAt(s: string, n: nat, k: nat)
    requires k <= 6 && n < Power10(k) && |s| > 19 + |FractionText(n, k)|
    requires forall j :: 19 <= j < 19 + |FractionText(n, k)| ==> s[j] == FractionText(n, k)[j - 19]
    requires var c := s[19 + |FractionText(n, k)|]; !IsDigit(c) && c != '.'
    ensures FractionDigits(s) == Some(k) && FractionMicros(s, k) == n * Power10(6 - k)
  {
    if k > 0 {
      var text := FractionText(n, k);
      assert forall j :: 20 <= j < 20 + k ==> s[j] == Padded(n, k)[j - 20] by {
        forall j | 20 <= j < 20 + k ensures s[j] == Padded(n, k)[j - 20] {
          assert s[j] == text[j - 19];
        }
      }
      PaddedAt(s, 20, n, k);
      DigitsEndIs(s, 20, 20 + k);
    }
  }

  lemma TextIsRead(t: Instant, n: nat, k: nat, zone: string, offset: int)
    requires InDigits(t) && k <= 6 && n < Power10(k)
    requires zone != "" && !IsDigit(zone[0]) && zone[0] != '.'
    requires forall s: string, i: nat :: i <= |s| && s[i..] == zone ==> OffsetAt(s, i) == Some(offset)
    ensures ParseFields(DateTimeText(t) + FractionText(n, k) + zone) ==
            Some(t.(micro := n * Power10(6 - k), offset := offset))
  {
    var fraction := FractionText(n, k);
    var s := DateTimeText(t) + fraction + zone;
    assert s == DateTimeText(t) + (fraction + zone);
    DateTimeTextAt(t, fraction + zone);
    FractionAt(s, n, k);
    assert s[19 + |fraction|..] == zone;
  }

  /** Read in UTC. */
  lemma ZuluIsRead(t: Instant, n: nat, k: nat)
    requires InDigits(t) && k <= 6 && n < Power10(k)
    ensures ParseFields(DateTimeText(t) + FractionText(n, k) + "Z") ==
            Some(t.(micro := n * Power10(6 - k), offset := 0))
  {
    TextIsRead(t, n, k, "Z", 0);
  }

  /** Read with an offset: east of Greenwich is plus. */
  lemma ZoneIsRead(t: Instant, n: nat, k: nat, sign: char, h: nat, m: nat)
    requires InDigits(t) && k <= 6 && n < Power10(k)
    requires h < 24 && m < 60 && (sign == '+' || sign == '-')
    ensures ParseFields(DateTimeText(t) + FractionText(n, k) + ZoneText(sign, h, m)) ==
            Some(t.(micro := n * Power10(6 - k), offset := if sign == '+' then h * 60 + m else 0 - (h * 60 + m)))
  {
    var offset := if sign == '+' then h * 60 + m else 0 - (h * 60 + m);
    forall s: string, i: nat | i <= |s| && s[i..] == ZoneText(sign, h, m) ensures OffsetAt(s, i) == Some(offset) {
      ZoneAt(s, i, sign, h, m);
    }
    TextIsRead(t, n, k, ZoneText(sign, h, m), offset);
  }

  // ----- the instant of a text -----

  /** Whole days of the calendar, from 0001-01-01 to the end of 9999-12-31, in microseconds. */
  predicate InCalendar(micros: int) {
    86_400_000_000 <= micros < 3_652_060 * 86_400_000_000
  }

  lemma DayInCalendar(y: int, m: int, d: int)
    requires ValidDate(y, m, d)
    ensures 1 <= y <= 9999 <==> 1 <= Ordinal(y, m, d) <= 3_652_059
  {
    DayWithinYear(y, m, d);
    assert DaysBeforeYear(1) == 0 && DaysBeforeYear(10000) == 3_652_059;
    if y > 1 {
      YearsIncrease(1, y);
      YearLength(1);
    }
    if y < 0 {
      YearsIncrease(y, 1);
    }
    if y < 9999 {
      YearsIncrease(y, 10000);
    }
    if y > 10000 {
      YearsIncrease(10000, y);
      YearLength(10000);
    }
  }

  /** The conversion to UTC overflows exactly when the instant lies outside the calendar. */
  lemma ToUtcExactlyWhen(t: Instant)
    requires Valid(t)
    ensures ToUtc(t).Some? <==> InCalendar(Micros(t))
  {
    var minutes := t.hour * 60 + t.minute - t.offset;
    var k := if minutes < 0 then -1 else if minutes >= 1440 then 1 else 0;
    var r := ShiftDay(t.year, t.month, t.day, k);
    ShiftDayOrdinal(t.year, t.month, t.day, k);
    DayInCalendar(r.0, r.1, r.2);
    var day := Ordinal(r.0, r.1, r.2);
    var rest := ((minutes - 1440 * k) * 60 + t.second) * 1_000_000 + t.micro;
    assert Micros(t) == day * 86_400_000_000 + rest && 0 <= rest < 86_400_000_000;
  }

  /** The instant of a text, for a text that is accepted. */
  ghost predicate Denotes(s: string, micros: int) {
    && (Accept(s).Some? <==> InCalendar(micros))
    && (Accept(s).Some? ==> Micros(Accept(s).value) == micros)
  }

  lemma ReadDenotes(s: string, t: Instant)
    requires Valid(t) && ParseFields(s) == Some(t)
    ensures Denotes(s, Micros(t))
  {
    ToUtcExactlyWhen(t);
  }

  lemma MovedInstant(t: Instant, micro: int, offset: int)
    requires Valid(t) && t.offset == 0 && t.micro == 0 && 0 <= micro < 1_000_000 && -1440 < offset < 1440
    ensures Valid(t.(micro := micro, offset := offset))
    ensures Micros(t.(micro := micro, offset := offset)) == Micros(t) - offset * 60_000_000 + micro
  {
  }

  /** `YYYY-MM-DDTHH:MM:SSZ` is always accepted and denotes its fields. */
  lemma ZuluDenotes(t: Instant)
    requires Valid(t) && t.offset == 0 && t.micro == 0
    ensures Accept(DateTimeText(t) + "Z") == Some(t)
  {
    ZuluIsRead(t, 0, 0);
    assert DateTimeText(t) + FractionText(0, 0) == DateTimeText(t);
    UtcIsItsOwnUtc(t);
  }

  lemma ZoneDenotes(t: Instant, sign: char, h: nat, m: nat, zulu: int)
    requires Valid(t) && t.offset == 0 && t.micro == 0 && h < 24 && m < 60 && (sign == '+' || sign == '-')
    requires zulu == Micros(t)
    ensures Denotes(DateTimeText(t) + ZoneText(sign, h, m),
                    if sign == '+' then zulu - (h * 60 + m) * 60_000_000 else zulu + (h * 60 + m) * 60_000_000)
  {
    var offset := if sign == '+' then h * 60 + m else 0 - (h * 60 + m);
    ZoneIsRead(t, 0, 0, sign, h, m);
    assert DateTimeText(t) + FractionText(0, 0) == DateTimeText(t);
    MovedInstant(t, 0, offset);
    ReadDenotes(DateTimeText(t) + ZoneText(sign, h, m), t.(micro := 0, offset := offset));
  }

  /**
   A time of day east of Greenwich is that many minutes earlier in UTC, one west of it that many later; the text
   is accepted exactly when the instant lies in the calendar.
   */
  lemma OffsetDenotes(t: Instant, h: nat, m: nat)
    requires Valid(t) && t.offset == 0 && t.micro == 0 && h < 24 && m < 60
    ensures Accept(DateTimeText(t) + "Z").Some?
    ensures var zulu, minutes := Micros(Accept(DateTimeText(t) + "Z").value), h * 60 + m;
            && Denotes(DateTimeText(t) + ("+" + Padded(h, 2) + ":" + Padded(m, 2)), zulu - minutes * 60_000_000)
            && Denotes(DateTimeText(t) + ("-" + Padded(h, 2) + ":" + Padded(m, 2)), zulu + minutes * 60_000_000)
  {
    ZuluDenotes(t);
    ZoneDenotes(t, '+', h, m, Micros(t));
    ZoneDenotes(t, '-', h, m, Micros(t));
  }

  lemma FractionBelowOne(n: nat, k: nat)
    requires k <= 6 && n < Power10(k)
    ensures 0 <= n * Power10(6 - k) < 1_000_000
  {
    assert Power10(0) == 1 && Power10(1) == 10 && Power10(2) == 100 && Power10(3) == 1000;
    assert Power10(4) == 10_000 && Power10(5) == 100_000 && Power10(6) == 1_000_000;
  }

  lemma MicroDenotes(t: Instant, s: string, micro: int)
    requires Valid(t) && t.offset == 0 && t.micro == 0 && 0 <= micro < 1_000_000
    requires ParseFields(s) == Some(t.(micro := micro, offset := 0))
    ensures Accept(s).Some? && Micros(Accept(s).value) == Micros(t) + micro
  {
    MovedInstant(t, micro, 0);
    UtcIsItsOwnUtc(t.(micro := micro));
  }

  lemma FractionIsRead(t: Instant, n: nat, k: nat, s: string, micro: int)
    requires Valid(t) && 1 <= k <= 6 && n < Power10(k)
    requires s == DateTimeText(t) + ("." + Padded(n, k)) + "Z" && micro == n * Power10(6 - k)
    ensures ParseFields(s) == Some(t.(micro := micro, offset := 0))
  {
    ZuluIsRead(t, n, k);
  }

  /** A fraction of `k` digits with value `n` adds `n` times ten to the `6 - k` microseconds. */
  lemma FractionDenotes(t: Instant, n: nat, k: nat, s: string)
    requires Valid(t) && t.offset == 0 && t.micro == 0 && 1 <= k <= 6 && n < Power10(k)
    requires s == DateTimeText(t) + ("." + Padded(n, k)) + "Z"
    ensures Accept(DateTimeText(t) + "Z").Some? && Accept(s).Some?
    ensures Micros(Accept(s).value) == Micros(Accept(DateTimeText(t) + "Z").value) + n * Power10(6 - k)
  {
    ZuluDenotes(t);
    FractionBelowOne(n, k);
    FractionIsRead(t, n, k, s, n * Power10(6 - k));
    MicroDenotes(t, s, n * Power10(6 - k));
  }

  /** The fields a calendar and a clock have. */
  predicate OnCalendarAndClock(t: Instant) {
    && 1 <= t.year <= 9999 && 1 <= t.month <= 12 && 1 <= t.day <= DaysInMonth(t.year, t.month)
    && t.hour <= 23 && t.minute <= 59 && t.second <= 59
  }

  lemma AcceptedInUtc(t: Instant, s: string, micro: int)
    requires InDigits(t) && 0 <= micro < 1_000_000 && ParseFields(s) == Some(t.(micro := micro, offset := 0))
    ensures Accept(s).Some? <==> OnCalendarAndClock(t)
  {
    var u := t.(micro := micro, offset := 0);
    if Valid(u) {
      UtcIsItsOwnUtc(u);
    }
  }

  lemma AcceptedWithOffset(t: Instant, s: string, micro: int, offset: int)
    requires InDigits(t) && 0 <= micro < 1_000_000 && -1440 < offset < 1440
    requires ParseFields(s) == Some(t.(micro := micro, offset := offset))
    ensures OnCalendarAndClock(t) ==> Valid(t.(micro := micro, offset := offset))
    ensures Accept(s).Some? <==> OnCalendarAndClock(t) && InCalendar(Micros(t.(micro := micro, offset := offset)))
  {
    var u := t.(micro := micro, offset := offset);
    if Valid(u) {
      ToUtcExactlyWhen(u);
    }
  }

  /** A text of digits in the accepted form, in UTC: accepted exactly for fields of the calendar and the clock. */
  lemma ZuluExactlyWhen(t: Instant, n: nat, k: nat)
    requires InDigits(t) && k <= 6 && n < Power10(k)
    ensures Accept(DateTimeText(t) + FractionText(n, k) + "Z").Some? <==> OnCalendarAndClock(t)
  {
    ZuluIsRead(t, n, k);
    FractionBelowOne(n, k);
    AcceptedInUtc(t, DateTimeText(t) + FractionText(n, k) + "Z", n * Power10(6 - k));
  }

  /** With an offset: for such fields, of an instant in the calendar. */
  lemma ZoneExactlyWhen(t: Instant, n: nat, k: nat, sign: char, h: nat, m: nat, offset: int)
    requires InDigits(t) && k <= 6 && n < Power10(k)
    requires h < 24 && m < 60 && (sign == '+' || sign == '-')
    requires offset == if sign == '+' then h * 60 + m else 0 - (h * 60 + m)
    ensures OnCalendarAndClock(t) ==> Valid(t.(micro := n * Power10(6 - k), offset := offset))
    ensures Accept(DateTimeText(t) + FractionText(n, k) + ZoneText(sign, h, m)).Some? <==>
            OnCalendarAndClock(t) && InCalendar(Micros(t.(micro := n * Power10(6 - k), offset := offset)))
  {
    ZoneIsRead(t, n, k, sign, h, m);
    FractionBelowOne(n, k);
    AcceptedWithOffset(t, DateTimeText(t) + FractionText(n, k) + ZoneText(sign, h, m), n * Power10(6 - k), offset);
  }

  // ----- nothing else is accepted -----

  lemma {:induction false} DigitsArePadded(s: string, i: nat, k: nat)
    requires DigitsAt(s, i, k)
    ensures NumberAt(s, i, k) < Power10(k)
    ensures Padded(NumberAt(s, i, k), k) == s[i..i + k]
  {
    if k > 0 {
      DigitsArePadded(s, i, k - 1);
      var front, last := NumberAt(s, i, k - 1), DigitValue(s[i + k - 1]);
      assert (front * 10 + last) / 10 == front && (front * 10 + last) % 10 == last;
      assert DigitChar(last) == s[i + k - 1];
      assert s[i..i + k] == s[i..i + k - 1] + [s[i + k - 1]];
    }
  }

  lemma DateIsSpelled(s: string, t: Instant)
    requires DateTimeShape(s) && InDigits(t)
    requires NumberAt(s, 0, 4) == t.year && NumberAt(s, 5, 2) == t.month && NumberAt(s, 8, 2) == t.day
    ensures |s| >= 19 && s[..10] == DateText(t)
  {
    DigitsArePadded(s, 0, 4);
    DigitsArePadded(s, 5, 2);
    DigitsArePadded(s, 8, 2);
    InFive(s, 0, 4, 5, 7, 8, 10);
    assert s[..10] == s[0..10];
  }

  lemma TimeIsSpelled(s: string, t: Instant)
    requires DateTimeShape(s) && InDigits(t)
    requires NumberAt(s, 11, 2) == t.hour && NumberAt(s, 14, 2) == t.minute && NumberAt(s, 17, 2) == t.second
    ensures |s| >= 19 && s[11..19] == TimeText(t)
  {
    DigitsArePadded(s, 11, 2);
    DigitsArePadded(s, 14, 2);
    DigitsArePadded(s, 17, 2);
    InFive(s, 11, 13, 14, 16, 17, 19);
  }

  lemma InFive(s: string, a: nat, b: nat, c: nat, d: nat, e: nat, f: nat)
    requires a <= b < c <= d < e <= f <= |s| && c == b + 1 && e == d + 1
    ensures s[a..f] == s[a..b] + [s[b]] + s[c..d] + [s[d]] + s[e..f]
  {
  }

  lemma FractionIsSpelled(s: string, k: nat) returns (n: nat)
    requires |s| >= 19 && FractionDigits(s) == Some(k)
    ensures n < Power10(k) && 19 + |FractionText(n, k)| <= |s|
    ensures s[19..19 + |FractionText(n, k)|] == FractionText(n, k)
    ensures 19 + |FractionText(n, k)| == if k == 0 then 19 else 20 + k
  {
    if k == 0 {
      n := 0;
    } else {
      n := NumberAt(s, 20, k);
      DigitsArePadded(s, 20, k);
      assert s[19..20 + k] == [s[19]] + s[20..20 + k];
    }
  }

  /** `Z`, or a sign and hours and minutes of a clock. */
  ghost predicate IsZone(zone: string) {
    zone == "Z" ||
    exists h: nat, m: nat :: h < 24 && m < 60 && (zone == ZoneText('+', h, m) || zone == ZoneText('-', h, m))
  }

  lemma ZoneIsSpelled(s: string, i: nat)
    requires i <= |s| && OffsetAt(s, i).Some?
    ensures IsZone(s[i..])
  {
    if CharAt(s, i, 'Z') && |s| == i + 1 {
      assert s[i..] == "Z";
    } else {
      var h, m := NumberAt(s, i + 1, 2), NumberAt(s, i + 4, 2);
      DigitsArePadded(s, i + 1, 2);
      DigitsArePadded(s, i + 4, 2);
      assert s[i..] == [s[i]] + s[i + 1..i + 3] + [s[i + 3]] + s[i + 4..i + 6];
      assert s[i..] == ZoneText(s[i], h, m);
    }
  }

  /** Every accepted text is the date and time of its fields, a fraction of up to six digits, and a zone. */
  lemma AcceptedIsSpelled(s: string) returns (n: nat, k: nat, zone: string)
    requires Accept(s).Some?
    ensures k <= 6 && n < Power10(k) && IsZone(zone) && InDigits(Accept(s).value)
    ensures s == DateTimeText(Accept(s).value) + FractionText(n, k) + zone
  {
    var t := Accept(s).value;
    k := FractionDigits(s).value;
    n := FractionIsSpelled(s, k);
    var i := 19 + |FractionText(n, k)|;
    zone := s[i..];
    ZoneIsSpelled(s, i);
    DateIsSpelled(s, t);
    TimeIsSpelled(s, t);
    WholeText(s, i);
  }

  lemma WholeText(s: string, i: nat)
    requires 19 <= i <= |s|
    ensures s == s[..10] + [s[10]] + s[11..19] + s[19..i] + s[i..]
  {
  }
}
