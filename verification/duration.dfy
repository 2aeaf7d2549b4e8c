/** Course durations of client/src/lib/duration.ts: the total of the module
    durations in minutes, and its rendering as "Hh Mm", "Hh" or "Mm". Module
    durations are whole minutes here. */
module Duration {
  import opened Common
  import opened Seqs
  import opened Store

  function ModuleMinutes(m: CourseModule): int {
    m.duration
  }

  /** The total of the module durations (the reduce starting at 0). */
  function TotalMinutes(ms: seq<CourseModule>): (t: nat)
    decreases |ms|
  {
    if |ms| == 0 then 0 else ms[0].duration + TotalMinutes(ms[1..])
  }

  /** The total is the sum of the durations: 0 for no modules, additive over
      concatenation, and independent of module order. */
  lemma {:induction false} TotalMinutesIsSum(ms: seq<CourseModule>)
    ensures TotalMinutes(ms) == Sum(ms, ModuleMinutes)
    ensures |ms| == 0 ==> TotalMinutes(ms) == 0
    decreases |ms|
  {
    if |ms| > 0 {
      TotalMinutesIsSum(ms[1..]);
    }
  }

  lemma TotalMinutesAppend(a: seq<CourseModule>, b: seq<CourseModule>)
    ensures TotalMinutes(a + b) == TotalMinutes(a) + TotalMinutes(b)
  {
    TotalMinutesIsSum(a);
    TotalMinutesIsSum(b);
    TotalMinutesIsSum(a + b);
    SumAppend(a, b, ModuleMinutes);
  }

  lemma TotalMinutesOrderFree(a: seq<CourseModule>, b: seq<CourseModule>)
    requires multiset(a) == multiset(b)
    ensures TotalMinutes(a) == TotalMinutes(b)
  {
    TotalMinutesIsSum(a);
    TotalMinutesIsSum(b);
    SumPermutation(a, b, ModuleMinutes);
  }

  // Decimal numerals

  predicate IsDigit(c: char) {
    '0' <= c <= '9'
  }

  predicate AllDigits(s: string) {
    forall i :: 0 <= i < |s| ==> IsDigit(s[i])
  }

  function DigitChar(d: nat): (c: char)
    requires d < 10
    ensures IsDigit(c)
  {
    ['0', '1', '2', '3', '4', '5', '6', '7', '8', '9'][d]
  }

  function DigitValue(c: char): (d: nat)
    requires IsDigit(c)
    ensures d < 10 && DigitChar(d) == c
  {
    (c as int - '0' as int) as nat
  }

  /** The decimal numeral of `n`, as a template literal prints it. */
  function Numeral(n: nat): (s: string)
    ensures |s| > 0 && AllDigits(s)
    ensures n > 0 ==> s[0] != '0'
    decreases n
  {
    if n < 10 then [DigitChar(n)] else Numeral(n / 10) + [DigitChar(n % 10)]
  }

  /** The value of a string of decimal digits. */
  function NumeralValue(s: string): nat
    requires AllDigits(s)
    decreases |s|
  {
    if |s| == 0 then 0 else 10 * NumeralValue(s[..|s| - 1]) + DigitValue(s[|s| - 1])
  }

  lemma {:induction false} NumeralRoundTrip(n: nat)
    ensures NumeralValue(Numeral(n)) == n
    decreases n
  {
    if n >= 10 {
      var s := Numeral(n);
      assert s[..|s| - 1] == Numeral(n / 10);
      NumeralRoundTrip(n / 10);
    }
  }

  /** The number of leading digits of `s`. */
  function LeadingDigits(s: string): (k: nat)
    ensures k <= |s|
    ensures AllDigits(s[..k])
    ensures k < |s| ==> !IsDigit(s[k])
    decreases |s|
  {
    if |s| > 0 && IsDigit(s[0]) then 1 + LeadingDigits(s[1..]) else 0
  }

  lemma {:induction false} LeadingDigitsOfNumeral(d: string, rest: string)
    requires AllDigits(d)
    requires |rest| > 0 && !IsDigit(rest[0])
    ensures LeadingDigits(d + rest) == |d|
    decreases |d|
  {
    if |d| > 0 {
      assert (d + rest)[1..] == d[1..] + rest;
      LeadingDigitsOfNumeral(d[1..], rest);
    }
  }

  /** formatDuration: hours and minutes when both are positive, hours alone
      for a whole number of hours, and minutes alone below an hour (so "0m"
      for zero). */
  function Format(total: nat): (s: string)
    ensures total == 0 ==> s == "0m"
    ensures 0 < total < 60 ==> s == Numeral(total) + "m"
    ensures total >= 60 && total % 60 == 0 ==> s == Numeral(total / 60) + "h"
    ensures total >= 60 && total % 60 != 0 ==> s == Numeral(total / 60) + "h " + Numeral(total % 60) + "m"
  {
    var hours := total / 60;
    var minutes := total % 60;
    if hours > 0 && minutes > 0 then Numeral(hours) + "h " + Numeral(minutes) + "m"
    else if hours > 0 then Numeral(hours) + "h"
    else Numeral(minutes) + "m"
  }

  /** The split into hours and minutes loses nothing. */
  lemma HoursMinutesSplit(total: nat)
    ensures (total / 60) * 60 + total % 60 == total
    ensures total % 60 < 60
    ensures total / 60 > 0 <==> total >= 60
  {
  }

  /** The value of a non-empty numeral; None for anything else. */
  function ParseNumeral(s: string): (r: Option<nat>)
    ensures r.Some? <==> |s| > 0 && AllDigits(s)
  {
    if |s| > 0 && AllDigits(s) then Some(NumeralValue(s)) else None
  }

  /** Reads back "Hh Mm" given the text before the final 'm', with the hours
      numeral ending at `k`. */
  function ParseHoursAt(body: string, k: nat): Option<nat> {
    if k + 2 <= |body| && body[k] == 'h' && body[k + 1] == ' ' then
      var hours := ParseNumeral(body[..k]);
      var minutes := ParseNumeral(body[k + 2..]);
      if hours.Some? && minutes.Some? then Some(60 * hours.value + minutes.value) else None
    else None
  }

  /** Reads back "Hh Mm" given the text before the final 'm'. */
  function ParseHoursAndMinutes(body: string): Option<nat> {
    ParseHoursAt(body, LeadingDigits(body))
  }

  /** Reads back a formatted duration; None for text that is not of one of
      the three shapes. */
  function Parse(s: string): (r: Option<nat>)
  {
    if |s| == 0 then None
    else
      var body := s[..|s| - 1];
      if s[|s| - 1] == 'h' then
        match ParseNumeral(body)
        case Some(h) => Some(60 * h)
        case None => None
      else if s[|s| - 1] == 'm' then
        if AllDigits(body) then ParseNumeral(body) else ParseHoursAndMinutes(body)
      else None
  }

  lemma ParseMinutes(m: string, minutes: nat)
    requires ParseNumeral(m) == Some(minutes)
    ensures Parse(m + "m") == Some(minutes)
  {
    var s := m + "m";
    assert s[..|s| - 1] == m;
  }

  lemma ParseHours(h: string, hours: nat)
    requires ParseNumeral(h) == Some(hours)
    ensures Parse(h + "h") == Some(60 * hours)
  {
    var s := h + "h";
    assert s[..|s| - 1] == h;
  }

  lemma ParseHoursAtValue(body: string, k: nat, hours: nat, minutes: nat)
    requires k + 2 <= |body| && body[k] == 'h' && body[k + 1] == ' '
    requires ParseNumeral(body[..k]) == Some(hours) && ParseNumeral(body[k + 2..]) == Some(minutes)
    ensures ParseHoursAt(body, k) == Some(60 * hours + minutes)
  {
  }

  lemma ParseHoursAndMinutesOf(h: string, m: string, hours: nat, minutes: nat)
    requires ParseNumeral(h) == Some(hours) && ParseNumeral(m) == Some(minutes)
    ensures ParseHoursAndMinutes(h + ("h " + m)) == Some(60 * hours + minutes)
  {
    var rest := "h " + m;
    var body := h + rest;
    assert rest[0] == 'h';
    LeadingDigitsOfNumeral(h, rest);
    var k := |h|;
    assert body[k] == 'h' && body[k + 1] == ' ';
    assert body[..k] == h;
    assert body[k..] == rest;
    assert body[k + 2..] == m by {
      assert body[k + 2..] == body[k..][2..];
    }
    ParseHoursAtValue(body, k, hours, minutes);
  }

  lemma ParseHoursMinutes(h: string, m: string, hours: nat, minutes: nat)
    requires ParseNumeral(h) == Some(hours) && ParseNumeral(m) == Some(minutes)
    ensures Parse(h + "h " + m + "m") == Some(60 * hours + minutes)
  {
    var s := h + "h " + m + "m";
    var body := h + ("h " + m);
    assert s == body + "m";
    assert s[..|s| - 1] == body;
    assert body[|h|] == 'h';
    ParseHoursAndMinutesOf(h, m, hours, minutes);
  }

  /** Parse inverts Format. */
  lemma FormatRoundTrip(total: nat)
    ensures Parse(Format(total)) == Some(total)
  {
    var hours := total / 60;
    var minutes := total % 60;
    NumeralRoundTrip(hours);
    NumeralRoundTrip(minutes);
    if hours > 0 && minutes > 0 {
      assert Format(total) == Numeral(hours) + "h " + Numeral(minutes) + "m";
      ParseHoursMinutes(Numeral(hours), Numeral(minutes), hours, minutes);
    } else if hours > 0 {
      assert Format(total) == Numeral(hours) + "h";
      ParseHours(Numeral(hours), hours);
    } else {
      assert Format(total) == Numeral(minutes) + "m";
      ParseMinutes(Numeral(minutes), minutes);
    }
  }

  /** Distinct totals format to distinct strings. */
  lemma FormatInjective(a: nat, b: nat)
    requires Format(a) == Format(b)
    ensures a == b
  {
    FormatRoundTrip(a);
    FormatRoundTrip(b);
  }

  /** calculateCourseDuration: the same rendering, written out again over the
      modules' total. */
  function CalculateCourseDuration(ms: seq<CourseModule>): (s: string)
  {
    var total := TotalMinutes(ms);
    var hours := total / 60;
    var minutes := total % 60;
    if hours > 0 && minutes > 0 then Numeral(hours) + "h " + Numeral(minutes) + "m"
    else if hours > 0 then Numeral(hours) + "h"
    else Numeral(minutes) + "m"
  }

  /** The two copies agree: a course's duration is the formatted total. */
  lemma CalculateIsFormatOfTotal(ms: seq<CourseModule>)
    ensures CalculateCourseDuration(ms) == Format(TotalMinutes(ms))
    ensures Parse(CalculateCourseDuration(ms)) == Some(TotalMinutes(ms))
  {
    FormatRoundTrip(TotalMinutes(ms));
  }
}
