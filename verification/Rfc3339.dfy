// Date-time text as RFC 3339 section 5.6 defines it, printed in UTC the way Go's
// time.RFC3339 and time.RFC3339Nano layouts do. Instants are nanoseconds counted from
// 0000-01-01T00:00:00Z.
module Rfc3339 {
  import opened Wrappers
  import opened Text
  import opened Calendar

  const NANOS := 1_000_000_000

  function Pow10(w: nat): (p: nat)
    ensures p > 0
  {
    if w == 0 then 1 else 10 * Pow10(w - 1)
  }

  predicate IsDigit(c: char) {
    '0' <= c <= '9'
  }

  predicate AllDigits(s: string) {
    forall i :: 0 <= i < |s| ==> IsDigit(s[i])
  }

  function DigitChar(d: int): (c: char)
    requires 0 <= d < 10
    ensures IsDigit(c)
  {
    ('0' as int + d) as char
  }

  function DigitValue(c: char): (d: nat)
    requires IsDigit(c)
    ensures d < 10
  {
    c as int - '0' as int
  }

  lemma {:induction false} LeadingDigit(n: nat, p: nat)
    requires 0 < p && n < 10 * p
    ensures 0 <= n / p < 10 && 0 <= n % p < p && n == n / p * p + n % p
  {
  }

  lemma {:induction false} ProductAtLeast(d: int, p: int)
    requires 1 <= d && 0 < p
    ensures p <= d * p
    decreases d
  {
    if d > 1 {
      ProductAtLeast(d - 1, p);
      assert d * p == (d - 1) * p + p;
    }
  }

  lemma {:induction false} Distributes(q: int, d: int, p: int)
    ensures (q + d) * p == q * p + d * p
  {
  }

  lemma {:induction false} QuotientStep(q: int, r: int, u: int, v: int, p: int)
    requires 0 <= r < p && 0 <= v < p && q < u
    ensures q * p + r < u * p + v
  {
    ProductAtLeast(u - q, p);
    Distributes(q, u - q, p);
  }

  lemma {:induction false} QuotientOrder(a: int, q: int, r: int, b: int, u: int, v: int, p: int)
    requires 0 <= r < p && 0 <= v < p && a == q * p + r && b == u * p + v
    ensures a < b <==> q < u || (q == u && r < v)
    ensures a == b <==> q == u && r == v
  {
    if q < u {
      QuotientStep(q, r, u, v, p);
    } else if u < q {
      QuotientStep(u, v, q, r, p);
    }
  }

  // The last w decimal digits of n, with leading zeros.
  function Digits(n: nat, w: nat): (s: string)
    requires n < Pow10(w)
    ensures |s| == w && AllDigits(s)
  {
    if w == 0 then "" else
      LeadingDigit(n, Pow10(w - 1));
      [DigitChar(n / Pow10(w - 1))] + Digits(n % Pow10(w - 1), w - 1)
  }

  function Value(s: string): nat
    requires AllDigits(s)
  {
    if s == "" then 0 else DigitValue(s[0]) * Pow10(|s| - 1) + Value(s[1..])
  }

  lemma {:induction false} ValueOfDigits(n: nat, w: nat)
    requires n < Pow10(w)
    ensures Value(Digits(n, w)) == n
  {
    if w > 0 {
      var p := Pow10(w - 1);
      LeadingDigit(n, p);
      ValueOfDigits(n % p, w - 1);
      assert Digits(n, w)[1..] == Digits(n % p, w - 1);
    }
  }

  lemma {:induction false} ConsLess(c: char, x: string, d: char, y: string)
    ensures Less([c] + x, [d] + y) <==> c < d || (c == d && Less(x, y))
  {
    assert ([c] + x)[1..] == x && ([d] + y)[1..] == y;
  }

  lemma {:induction false} DigitsSplit(a: nat, w: nat) returns (q: nat, r: nat)
    requires 0 < w && a < Pow10(w)
    ensures q < 10 && r < Pow10(w - 1) && a == q * Pow10(w - 1) + r
    ensures Digits(a, w) == [DigitChar(q)] + Digits(r, w - 1)
  {
    LeadingDigit(a, Pow10(w - 1));
    q, r := a / Pow10(w - 1), a % Pow10(w - 1);
  }

  lemma {:induction false} DigitsOrderStep(a: nat, q: nat, r: nat, b: nat, u: nat, v: nat, w: nat, x: string, y: string)
    requires 0 < w && a < Pow10(w) && b < Pow10(w) && q < 10 && u < 10 && r < Pow10(w - 1) && v < Pow10(w - 1)
    requires Digits(a, w) == [DigitChar(q)] + Digits(r, w - 1)
    requires Digits(b, w) == [DigitChar(u)] + Digits(v, w - 1)
    requires Less(Digits(r, w - 1) + x, Digits(v, w - 1) + y) <==> r < v || (r == v && Less(x, y))
    ensures Less(Digits(a, w) + x, Digits(b, w) + y) <==> q < u || (q == u && (r < v || (r == v && Less(x, y))))
  {
    ConsLess(DigitChar(q), Digits(r, w - 1) + x, DigitChar(u), Digits(v, w - 1) + y);
    assert Digits(a, w) + x == [DigitChar(q)] + (Digits(r, w - 1) + x);
    assert Digits(b, w) + y == [DigitChar(u)] + (Digits(v, w - 1) + y);
  }

  // Fixed-width numbers order as text the way they order as numbers.
  lemma {:induction false} DigitsOrder(a: nat, b: nat, w: nat, x: string, y: string)
    requires a < Pow10(w) && b < Pow10(w)
    ensures Less(Digits(a, w) + x, Digits(b, w) + y) <==> a < b || (a == b && Less(x, y))
  {
    if w == 0 {
      assert Digits(a, w) + x == x && Digits(b, w) + y == y;
    } else {
      var q, r := DigitsSplit(a, w);
      var u, v := DigitsSplit(b, w);
      DigitsOrder(r, v, w - 1, x, y);
      DigitsOrderStep(a, q, r, b, u, v, w, x, y);
      QuotientOrder(a, q, r, b, u, v, Pow10(w - 1));
    }
  }

  // A fraction in units of 10^-w, without trailing zeros.
  function FractionDigits(n: nat, w: nat): (s: string)
    requires n < Pow10(w)
    ensures |s| <= w && AllDigits(s) && (n > 0 ==> s != "")
  {
    if n == 0 then "" else
      LeadingDigit(n, Pow10(w - 1));
      [DigitChar(n / Pow10(w - 1))] + FractionDigits(n % Pow10(w - 1), w - 1)
  }

  // The value of fraction digits in units of 10^-w; digits past the w-th are dropped.
  function FractionValue(s: string, w: nat): nat
    requires AllDigits(s)
  {
    if s == "" || w == 0 then 0 else DigitValue(s[0]) * Pow10(w - 1) + FractionValue(s[1..], w - 1)
  }

  lemma {:induction false} ValueOfFraction(n: nat, w: nat)
    requires n < Pow10(w)
    ensures FractionValue(FractionDigits(n, w), w) == n
  {
    if n > 0 {
      var p := Pow10(w - 1);
      LeadingDigit(n, p);
      ValueOfFraction(n % p, w - 1);
      assert FractionDigits(n, w)[1..] == FractionDigits(n % p, w - 1);
    }
  }

  function Decimal(n: nat): string {
    if n < 10 then [DigitChar(n)] else Decimal(n / 10) + [DigitChar(n % 10)]
  }

  // At least four digits, with a sign for years before year 0.
  function YearText(y: int): string
    decreases y < 0
  {
    if y < 0 then "-" + YearText(-y)
    else if y < Pow10(4) then Digits(y, 4)
    else Decimal(y)
  }

  function DateTimeText(c: Civil, suffix: string): string
    requires Valid(c)
  {
    YearText(c.year) + RestText(c, suffix)
  }

  function RestText(c: Civil, suffix: string): string
    requires Valid(c)
  {
    "-" + (Digits(c.month, 2) + ("-" + (Digits(c.day, 2) + TimeText(c, suffix))))
  }

  function TimeText(c: Civil, suffix: string): string
    requires Valid(c)
  {
    "T" + (Digits(c.hour, 2) + (":" + (Digits(c.minute, 2) + (":" + (Digits(c.second, 2) + suffix)))))
  }

  function FractionText(ns: nat): (s: string)
    requires ns < NANOS
    ensures |s| == 0 || 2 <= |s| <= 10
  {
    if ns == 0 then "" else "." + FractionDigits(ns, 9)
  }

  // UTC().Format(time.RFC3339): the fraction is cut off.
  function Format(t: int): string {
    DateTimeText(CivilOf(t / NANOS), "Z")
  }

  // UTC().Format(time.RFC3339Nano).
  function FormatNano(t: int): string {
    DateTimeText(CivilOf(t / NANOS), FractionText(t % NANOS) + "Z")
  }

  // UTC().Format("20060102T150405Z"), for file names.
  function FormatCompact(t: int): string {
    var c := CivilOf(t / NANOS);
    YearText(c.year) + Digits(c.month, 2) + Digits(c.day, 2) + "T" + Digits(c.hour, 2) + Digits(c.minute, 2) +
    Digits(c.second, 2) + "Z"
  }

  // The instants RFC 3339 can write: from 0000-01-01 up to 10000-01-01, in days since the former.
  predicate Writable(t: int) {
    0 <= t < 3_652_425 * SECONDS_PER_DAY * NANOS
  }

  lemma {:induction false} WritableYears(t: int)
    ensures Writable(t) <==> 0 <= CivilOf(t / NANOS).year <= 9999
  {
    hide CivilOf, DateOf, YearOf, MonthOf;
    var c := CivilOf(t / NANOS);
    var day := DayNumber(c.year, c.month, c.day);
    DayBounds(c.year, c.month, c.day);
    assert 0 <= t / NANOS < 3_652_425 * SECONDS_PER_DAY <==> Writable(t);
    assert 0 <= day < 3_652_425 <==> 0 <= t / NANOS < 3_652_425 * SECONDS_PER_DAY;
    assert DaysBeforeYear(0) == 0 && DaysBeforeYear(10000) == 3_652_425;
    if c.year < 0 {
      YearsMonotone(c.year + 1, 0);
    } else if c.year > 9999 {
      YearsMonotone(10000, c.year);
    } else {
      YearsMonotone(0, c.year);
      YearsMonotone(c.year + 1, 10000);
    }
  }

  lemma {:induction false} FormatNanoLength(t: int)
    requires Writable(t)
    ensures |Format(t)| == 20 && 20 <= |FormatNano(t)| <= 30
  {
    hide CivilOf;
    WritableYears(t);
  }

  lemma {:induction false} DecimalDigits(n: nat)
    ensures AllDigits(Decimal(n)) && 1 <= |Decimal(n)|
    ensures n >= 10 ==> 2 <= |Decimal(n)|
    ensures n >= 100 ==> 3 <= |Decimal(n)|
    ensures n >= 1000 ==> 4 <= |Decimal(n)|
    ensures n >= 10000 ==> 5 <= |Decimal(n)|
  {
    if n >= 10 {
      DecimalDigits(n / 10);
    }
  }

  // A year's text starts with a digit, or with a sign if the year is before year 0.
  lemma {:induction false} YearStarts(y: int)
    ensures YearText(y) != "" && (if y < 0 then YearText(y)[0] == '-' else AllDigits(YearText(y)))
    ensures 0 <= y <= 9999 ==> YearText(y) == Digits(y, 4)
    ensures y > 9999 ==> YearText(y) == Decimal(y) && 5 <= |YearText(y)|
  {
    assert Pow10(4) == 10000 by {
      assert Pow10(1) == 10 && Pow10(2) == 100 && Pow10(3) == 1000;
    }
    if y > 9999 {
      DecimalDigits(y);
    }
  }

  lemma {:induction false} FormatIsTrimmed(t: int)
    ensures TrimSpace(Format(t)) == Format(t) && Format(t) != ""
  {
    hide CivilOf, YearText;
    var c := CivilOf(t / NANOS);
    YearStarts(c.year);
    var text := Format(t);
    assert text == YearText(c.year) + RestText(c, "Z") && text[0] == YearText(c.year)[0];
    assert RestText(c, "Z")[|RestText(c, "Z")| - 1] == 'Z';
    assert c.year >= 0 ==> IsDigit(text[0]);
    assert Trimmed(text);
  }

  function TakeNumber(s: string, w: nat): Option<(nat, string)> {
    if |s| >= w && AllDigits(s[..w]) then Some((Value(s[..w]), s[w..])) else None
  }

  function Expect(s: string, c: char): Option<string> {
    if s != "" && s[0] == c then Some(s[1..]) else None
  }

  function DigitRun(s: string): (k: nat)
    ensures k <= |s| && AllDigits(s[..k]) && (k < |s| ==> !IsDigit(s[k]))
  {
    if s == "" || !IsDigit(s[0]) then 0 else
      assert s[..1 + DigitRun(s[1..])] == [s[0]] + s[1..][..DigitRun(s[1..])];
      1 + DigitRun(s[1..])
  }

  function ParseFraction(s: string): Option<(nat, string)> {
    if s == "" || s[0] != '.' then Some((0, s))
    else
      var k := DigitRun(s[1..]);
      if k == 0 then None else Some((FractionValue(s[1..][..k], 9), s[1..][k..]))
  }

  // The zone offset in seconds east of UTC; it ends the text.
  function ParseZone(s: string): Option<int> {
    if s == "Z" then Some(0)
    else if s == "" || (s[0] != '+' && s[0] != '-') then None
    else
      var (h, s1) :- TakeNumber(s[1..], 2);
      var s2 :- Expect(s1, ':');
      var (m, s3) :- TakeNumber(s2, 2);
      if s3 != "" || h > 23 || m > 59 then None
      else Some(if s[0] == '+' then h * 3600 + m * 60 else -(h * 3600 + m * 60))
  }

  function ParseDate(s: string): Option<(Date, string)> {
    var (y, s1) :- TakeNumber(s, 4);
    var s2 :- Expect(s1, '-');
    var (m, s3) :- TakeNumber(s2, 2);
    var s4 :- Expect(s3, '-');
    var (d, s5) :- TakeNumber(s4, 2);
    Some((Date(y, m, d), s5))
  }

  function ParseTime(s: string): Option<((nat, nat, nat), string)> {
    var s1 :- Expect(s, 'T');
    var (h, s2) :- TakeNumber(s1, 2);
    var s3 :- Expect(s2, ':');
    var (m, s4) :- TakeNumber(s3, 2);
    var s5 :- Expect(s4, ':');
    var (sec, s6) :- TakeNumber(s5, 2);
    Some(((h, m, sec), s6))
  }

  // time.Parse(time.RFC3339, s): the instant, or None when the text is not a date-time.
  function Parse(s: string): Option<int> {
    var (date, s1) :- ParseDate(s);
    var (time, s2) :- ParseTime(s1);
    var (ns, s3) :- ParseFraction(s2);
    var offset :- ParseZone(s3);
    InstantOf(Civil(date.year, date.month, date.day, time.0, time.1, time.2), ns, offset)
  }

  // The instant of a civil time read at a zone offset, if there is such a civil time.
  function InstantOf(c: Civil, ns: nat, offset: int): Option<int> {
    if Valid(c) then Some((ToSeconds(c) - offset) * NANOS + ns) else None
  }

  lemma {:induction false} TakeDigits(n: nat, w: nat, rest: string)
    requires n < Pow10(w)
    ensures TakeNumber(Digits(n, w) + rest, w) == Some((n, rest))
  {
    ValueOfDigits(n, w);
    assert (Digits(n, w) + rest)[..w] == Digits(n, w);
    assert (Digits(n, w) + rest)[w..] == rest;
  }

  lemma {:induction false} ExpectHead(c: char, rest: string)
    ensures Expect([c] + rest, c) == Some(rest)
  {
  }

  lemma {:induction false} TwoDigitsFit(n: nat)
    requires n < 100
    ensures n < Pow10(2)
  {
    assert Pow10(2) == 10 * Pow10(1) == 100;
  }

  lemma {:induction false} ParseDateText(c: Civil, rest: string)
    requires Valid(c) && 0 <= c.year <= 9999
    ensures ParseDate(YearText(c.year) + ("-" + (Digits(c.month, 2) + ("-" + (Digits(c.day, 2) + rest)))))
            == Some((Date(c.year, c.month, c.day), rest))
  {
    var s4 := Digits(c.day, 2) + rest;
    var s3 := "-" + s4;
    var s2 := Digits(c.month, 2) + s3;
    TakeDigits(c.year, 4, "-" + s2);
    ExpectHead('-', s2);
    TakeDigits(c.month, 2, s3);
    ExpectHead('-', s4);
    TakeDigits(c.day, 2, rest);
  }

  lemma {:induction false} ParseTimeText(c: Civil, rest: string)
    requires Valid(c)
    ensures ParseTime(TimeText(c, rest)) == Some(((c.hour, c.minute, c.second), rest))
  {
    var s5 := Digits(c.second, 2) + rest;
    var s4 := ":" + s5;
    var s3 := Digits(c.minute, 2) + s4;
    var s2 := ":" + s3;
    ExpectHead('T', Digits(c.hour, 2) + s2);
    TakeDigits(c.hour, 2, s2);
    ExpectHead(':', s3);
    TakeDigits(c.minute, 2, s4);
    ExpectHead(':', s5);
    TakeDigits(c.second, 2, rest);
  }

  lemma {:induction false} DigitRunStops(digits: string, rest: string)
    requires AllDigits(digits) && rest != "" && !IsDigit(rest[0])
    ensures DigitRun(digits + rest) == |digits|
  {
    if digits == "" {
      assert digits + rest == rest;
    } else {
      assert (digits + rest)[1..] == digits[1..] + rest;
      DigitRunStops(digits[1..], rest);
    }
  }

  lemma {:induction false} ParseFractionText(ns: nat)
    requires ns < NANOS
    ensures ParseFraction(FractionText(ns) + "Z") == Some((ns, "Z"))
  {
    if ns == 0 {
      assert FractionText(ns) + "Z" == "Z";
    } else {
      var digits := FractionDigits(ns, 9);
      var s := FractionText(ns) + "Z";
      assert s[1..] == digits + "Z";
      DigitRunStops(digits, "Z");
      assert (digits + "Z")[..|digits|] == digits && (digits + "Z")[|digits|..] == "Z";
      ValueOfFraction(ns, 9);
    }
  }

  lemma {:induction false} ParseSteps(s: string, date: Date, s1: string, time: (nat, nat, nat), s2: string, ns: nat,
                                      s3: string, offset: int)
    requires ParseDate(s) == Some((date, s1)) && ParseTime(s1) == Some((time, s2))
    requires ParseFraction(s2) == Some((ns, s3)) && ParseZone(s3) == Some(offset)
    ensures Parse(s) == InstantOf(Civil(date.year, date.month, date.day, time.0, time.1, time.2), ns, offset)
  {
  }

  lemma {:induction false} ParseDateTimeText(c: Civil, ns: nat)
    requires Valid(c) && 0 <= c.year <= 9999 && ns < NANOS
    ensures Parse(DateTimeText(c, FractionText(ns) + "Z")) == InstantOf(c, ns, 0)
  {
    var suffix := FractionText(ns) + "Z";
    ParseDateText(c, TimeText(c, suffix));
    ParseTimeText(c, suffix);
    ParseFractionText(ns);
    ParseSteps(DateTimeText(c, suffix), Date(c.year, c.month, c.day), TimeText(c, suffix),
               (c.hour, c.minute, c.second), suffix, ns, "Z", 0);
  }

  lemma {:induction false} FormatNanoParts(t: int) returns (c: Civil, ns: nat)
    ensures Valid(c) && ns < NANOS && c == CivilOf(t / NANOS) && ToSeconds(c) * NANOS + ns == t
    ensures FormatNano(t) == DateTimeText(c, FractionText(ns) + "Z")
  {
    c, ns := CivilOf(t / NANOS), t % NANOS;
  }

  lemma {:induction false} InstantAtUtc(c: Civil, ns: nat)
    requires Valid(c)
    ensures InstantOf(c, ns, 0) == Some(ToSeconds(c) * NANOS + ns)
  {
  }

  // The expiry printer and parser undo each other at nanosecond precision.
  lemma {:induction false} ParseFormatNano(t: int)
    requires Writable(t)
    ensures Parse(FormatNano(t)) == Some(t)
  {
    hide Parse, CivilOf, DateTimeText, FractionText, InstantOf;
    WritableYears(t);
    var c, ns := FormatNanoParts(t);
    ParseDateTimeText(c, ns);
    InstantAtUtc(c, ns);
  }

  // Whole-second text keeps the second and loses the fraction.
  lemma {:induction false} ParseFormat(t: int)
    requires Writable(t)
    ensures Parse(Format(t)) == Some(t / NANOS * NANOS)
  {
    WritableYears(t);
    ParseDateTimeText(CivilOf(t / NANOS), 0);
    assert FractionText(0) + "Z" == "Z";
  }

  lemma {:induction false} FormatCutsFraction(t: int)
    ensures Format(t / NANOS * NANOS) == Format(t)
  {
    hide CivilOf, DateTimeText;
    assert t / NANOS * NANOS / NANOS == t / NANOS;
  }

  lemma {:induction false} FieldOrder(c: char, a: nat, b: nat, x: string, y: string)
    requires a < 100 && b < 100
    ensures Pow10(2) == 100
    ensures Less([c] + (Digits(a, 2) + x), [c] + (Digits(b, 2) + y)) <==> a < b || (a == b && Less(x, y))
  {
    TwoDigitsFit(a);
    DigitsOrder(a, b, 2, x, y);
    LessAfterPrefix([c], Digits(a, 2) + x, Digits(b, 2) + y);
  }

  // Within a year.
  lemma {:induction false} RestOrder(a: Civil, b: Civil, suffix: string)
    requires Valid(a) && Valid(b) && a.year == b.year
    ensures Less(RestText(a, suffix), RestText(b, suffix)) <==> Earlier(a, b)
  {
    LessIrreflexive(suffix);
    var a5, b5 := ":" + (Digits(a.second, 2) + suffix), ":" + (Digits(b.second, 2) + suffix);
    FieldOrder(':', a.second, b.second, suffix, suffix);
    var a4, b4 := ":" + (Digits(a.minute, 2) + a5), ":" + (Digits(b.minute, 2) + b5);
    FieldOrder(':', a.minute, b.minute, a5, b5);
    FieldOrder('T', a.hour, b.hour, a4, b4);
    var a3, b3 := TimeText(a, suffix), TimeText(b, suffix);
    FieldOrder('-', a.day, b.day, a3, b3);
    FieldOrder('-', a.month, b.month, "-" + (Digits(a.day, 2) + a3), "-" + (Digits(b.day, 2) + b3));
  }

  // The instants a text can be read as: a zone offset reaches into the years -1 and 10000.
  predicate Readable(t: int) {
    -1 <= YearAt(t) <= 10000
  }

  function YearAt(t: int): int {
    CivilOf(t / NANOS).year
  }

  // One instant is in year 10000, whose text has five digits, and the other in a year whose text is above "1000".
  predicate Misordered(s: int, t: int) {
    var y, z := YearAt(s), YearAt(t);
    (y == 10000 && 1001 <= z <= 9999) || (z == 10000 && 1001 <= y <= 9999)
  }

  lemma {:induction false} YearDigits()
    ensures Decimal(10000) == "10000" && Pow10(4) == 10000 && Digits(1000, 4) == "1000"
  {
    assert Pow10(1) == 10 && Pow10(2) == 100 && Pow10(3) == 1000;
    assert Decimal(10) == Decimal(1) + "0";
    assert Decimal(100) == Decimal(10) + "0";
    assert Decimal(1000) == Decimal(100) + "0";
    assert Decimal(10000) == Decimal(1000) + "0";
    assert Digits(0, 3) == "0" + Digits(0, 2) && Digits(0, 2) == "0" + Digits(0, 1) &&
           Digits(0, 1) == "0" + Digits(0, 0);
    assert Digits(1000, 4) == "1" + Digits(0, 3);
  }

  // Year 10000 against a four-digit year: as text it stands between 1000 and 1001.
  lemma {:induction false} FiveDigitYear(y: int, x: string, z: string)
    requires 0 <= y <= 9999
    ensures Less(Digits(y, 4) + ("-" + x), Decimal(10000) + ("-" + z)) <==> y <= 1000
    ensures Less(Decimal(10000) + ("-" + z), Digits(y, 4) + ("-" + x)) <==> 1001 <= y
  {
    YearDigits();
    var five := "0" + ("-" + z);
    assert Decimal(10000) + ("-" + z) == Digits(1000, 4) + five;
    DigitsOrder(y, 1000, 4, "-" + x, five);
    DigitsOrder(1000, y, 4, five, "-" + x);
    assert Less("-" + x, five) && !Less(five, "-" + x);
  }

  // Text order of UTC date-times, years apart.
  lemma {:induction false} YearOrder(a: Civil, b: Civil, suffix: string)
    requires Valid(a) && Valid(b) && -1 <= a.year < b.year <= 10000
    ensures Less(DateTimeText(a, suffix), DateTimeText(b, suffix)) <==> !(b.year == 10000 && 1001 <= a.year)
    ensures Less(DateTimeText(b, suffix), DateTimeText(a, suffix)) <==> b.year == 10000 && 1001 <= a.year
  {
    hide YearText, Digits, TimeText;
    YearStarts(a.year);
    YearStarts(b.year);
    var x, y := DateTimeText(a, suffix), DateTimeText(b, suffix);
    if a.year == -1 {
      assert x[0] == YearText(a.year)[0] && y[0] == YearText(b.year)[0] && IsDigit(y[0]);
    } else if b.year == 10000 {
      var tailA := Digits(a.month, 2) + ("-" + (Digits(a.day, 2) + TimeText(a, suffix)));
      var tailB := Digits(b.month, 2) + ("-" + (Digits(b.day, 2) + TimeText(b, suffix)));
      FiveDigitYear(a.year, tailA, tailB);
    } else {
      YearDigits();
      DigitsOrder(a.year, b.year, 4, RestText(a, suffix), RestText(b, suffix));
      DigitsOrder(b.year, a.year, 4, RestText(b, suffix), RestText(a, suffix));
    }
  }

  lemma {:induction false} SameYearOrder(a: Civil, b: Civil, suffix: string)
    requires Valid(a) && Valid(b) && a.year == b.year
    ensures Less(DateTimeText(a, suffix), DateTimeText(b, suffix)) <==> Earlier(a, b)
  {
    hide RestText, YearText;
    RestOrder(a, b, suffix);
    LessAfterPrefix(YearText(a.year), RestText(a, suffix), RestText(b, suffix));
  }

  // Text order is time order for every two instants a text can be read as, except exactly when one is in
  // year 10000 and the other in the years 1001 to 9999.
  lemma {:induction false} TextOrderExactly(s: int, t: int)
    requires Readable(s) && Readable(t)
    ensures (Less(Format(s), Format(t)) <==> s / NANOS < t / NANOS) <==> !Misordered(s, t)
  {
    hide CivilOf, DateTimeText;
    var a, b := CivilOf(s / NANOS), CivilOf(t / NANOS);
    SecondsOrder(a, b);
    SecondsOrder(b, a);
    if a.year == b.year {
      SameYearOrder(a, b, "Z");
    } else if a.year < b.year {
      YearOrder(a, b, "Z");
    } else {
      YearOrder(b, a, "Z");
    }
  }

  // Section 5.1 of RFC 3339: for UTC text of one shape, text order is time order.
  lemma {:induction false} FormatOrder(s: int, t: int)
    requires Writable(s) && Writable(t)
    ensures Less(Format(s), Format(t)) <==> s / NANOS < t / NANOS
    ensures Format(s) == Format(t) <==> s / NANOS == t / NANOS
  {
    hide CivilOf, DateTimeText;
    WritableYears(s);
    WritableYears(t);
    TextOrderExactly(s, t);
    TextOrderExactly(t, s);
    SecondsOrder(CivilOf(s / NANOS), CivilOf(t / NANOS));
    LessIrreflexive(Format(s));
  }

  // ---------- what can be read, and read again ----------

  lemma {:induction false} ValueBelow(s: string)
    requires AllDigits(s)
    ensures Value(s) < Pow10(|s|)
  {
    if s != "" {
      ValueBelow(s[1..]);
      DigitTimes(DigitValue(s[0]), Pow10(|s| - 1));
    }
  }

  lemma {:induction false} DigitTimes(d: nat, p: nat)
    requires d < 10
    ensures d * p + p <= 10 * p
  {
    assert (d + 1) * p <= 10 * p;
  }

  lemma {:induction false} FractionBelow(s: string, w: nat)
    requires AllDigits(s)
    ensures FractionValue(s, w) < Pow10(w)
  {
    if s != "" && w > 0 {
      FractionBelow(s[1..], w - 1);
      DigitTimes(DigitValue(s[0]), Pow10(w - 1));
    }
  }

  lemma {:induction false} NineDigits()
    ensures Pow10(4) == 10000 && Pow10(9) == NANOS
  {
    assert Pow10(1) == 10 && Pow10(2) == 100 && Pow10(3) == 1000 && Pow10(4) == 10000 && Pow10(5) == 100_000;
    assert Pow10(6) == 1_000_000 && Pow10(7) == 10_000_000 && Pow10(8) == 100_000_000;
  }

  // What a successful parse read.
  lemma {:induction false} ParsedParts(s: string) returns (c: Civil, ns: nat, offset: int)
    requires Parse(s).Some?
    ensures Valid(c) && 0 <= c.year <= 9999 && ns < NANOS && -86400 < offset < 86400
    ensures Parse(s) == Some((ToSeconds(c) - offset) * NANOS + ns)
  {
    hide ToSeconds, Valid, Value, FractionValue;
    NineDigits();
    var (date, s1) := ParseDate(s).value;
    var (time, s2) := ParseTime(s1).value;
    var fraction := ParseFraction(s2).value;
    ValueBelow(s[..4]);
    if s2 != "" && s2[0] == '.' {
      FractionBelow(s2[1..][..DigitRun(s2[1..])], 9);
    }
    c, ns, offset := Civil(date.year, date.month, date.day, time.0, time.1, time.2), fraction.0,
      ParseZone(fraction.1).value;
    ZoneBelow(fraction.1);
  }

  lemma {:induction false} ZoneBelow(s: string)
    requires ParseZone(s).Some?
    ensures -86400 < ParseZone(s).value < 86400
  {
  }

  lemma {:induction false} ParsedIsReadable(s: string)
    requires Parse(s).Some?
    ensures Readable(Parse(s).value)
  {
    hide Parse, CivilOf, DateOf;
    var c, ns, offset := ParsedParts(s);
    var t := Parse(s).value;
    assert t / NANOS == ToSeconds(c) - offset;
    SecondsNearYears(c, ToSeconds(c) - offset);
  }

  lemma {:induction false} SecondsNearYears(c: Civil, seconds: int)
    requires Valid(c) && 0 <= c.year <= 9999 && ToSeconds(c) - 86400 < seconds < ToSeconds(c) + 86400
    ensures -1 <= CivilOf(seconds).year <= 10000
  {
    hide CivilOf, DateOf, YearOf, MonthOf, DaysBeforeYear;
    var d := CivilOf(seconds);
    DayBounds(c.year, c.month, c.day);
    DayBounds(d.year, d.month, d.day);
    YearsMonotone(0, c.year);
    YearsMonotone(c.year + 1, 10000);
    EdgeYears();
    if d.year < -1 {
      YearsMonotone(d.year + 1, -1);
    } else if d.year > 10000 {
      YearsMonotone(10001, d.year);
    }
  }

  lemma {:induction false} EdgeYears()
    ensures DaysBeforeYear(-1) == DaysBeforeYear(0) - 365 && DaysBeforeYear(10001) == DaysBeforeYear(10000) + 366
  {
  }

  // Text of a year before year 0 or after year 9999 cannot be read back.
  lemma {:induction false} UnwritableIsUnreadable(t: int)
    requires !Writable(t)
    ensures Parse(Format(t)).None?
  {
    hide CivilOf, Digits, Decimal, Value;
    WritableYears(t);
    var c := CivilOf(t / NANOS);
    YearStarts(c.year);
    var text := Format(t);
    assert text == YearText(c.year) + RestText(c, "Z");
    if c.year < 0 {
      assert text[..4][0] == '-';
    } else {
      assert text[4] == YearText(c.year)[4] && IsDigit(text[4]);
      assert ParseDate(text).None? by {
        if TakeNumber(text, 4).Some? {
          assert text[4..][0] == text[4];
        }
      }
    }
  }

  lemma {:induction false} MisorderedFormats(s: int, t: int)
    requires Misordered(s, t)
    ensures Less(Format(s), Format(t)) || Less(Format(t), Format(s))
  {
    hide CivilOf, DateTimeText;
    var a, b := CivilOf(s / NANOS), CivilOf(t / NANOS);
    if a.year < b.year {
      YearOrder(a, b, "Z");
    } else {
      YearOrder(b, a, "Z");
    }
  }

  // ---------- two texts ----------

  lemma {:induction false} TwoDigitText(n: nat)
    requires n < 100
    ensures Pow10(2) == 100 && Digits(n, 2) == [DigitChar(n / 10), DigitChar(n % 10)]
  {
    assert Pow10(1) == 10 && Pow10(0) == 1;
    assert Digits(n % 10, 1) == [DigitChar(n % 10)] + Digits(0, 0);
    assert Digits(n, 2) == [DigitChar(n / 10)] + Digits(n % 10, 1);
  }

  lemma {:induction false} FourDigitText(a: nat, b: nat, rest: nat)
    requires a < 10 && b < 10 && rest < 100
    ensures Pow10(4) == 10000 && 1000 * a + 100 * b + rest < 10000
    ensures Digits(1000 * a + 100 * b + rest, 4) == [DigitChar(a), DigitChar(b)] + Digits(rest, 2)
  {
    TenPowers();
    hide Pow10, Digits;
    FirstDigit(1000 * a + 100 * b + rest, a, 100 * b + rest, 4);
    FirstDigit(100 * b + rest, b, rest, 3);
  }

  lemma {:induction false} TenPowers()
    ensures Pow10(2) == 100 && Pow10(3) == 1000 && Pow10(4) == 10000
  {
    assert Pow10(0) == 1 && Pow10(1) == 10;
  }

  lemma {:induction false} FirstDigit(n: nat, d: nat, rest: nat, w: nat)
    requires w > 0 && d < 10 && rest < Pow10(w - 1) && n == d * Pow10(w - 1) + rest && n < Pow10(w)
    ensures Digits(n, w) == [DigitChar(d)] + Digits(rest, w - 1)
  {
    var q, r := DigitsSplit(n, w);
    QuotientOrder(n, q, r, n, d, rest, Pow10(w - 1));
  }

  lemma {:induction false} TwoDigitTexts()
    ensures Pow10(2) == 100 && Pow10(4) == 10000
    ensures Digits(0, 2) == "00" && Digits(1, 2) == "01" && Digits(12, 2) == "12" && Digits(23, 2) == "23"
    ensures Digits(31, 2) == "31" && Digits(59, 2) == "59"
    ensures Digits(2024, 4) == "2024" && Digits(9999, 4) == "9999"
  {
    hide Digits, Pow10;
    TwoDigitText(0);
    TwoDigitText(1);
    TwoDigitText(12);
    TwoDigitText(23);
    TwoDigitText(31);
    TwoDigitText(59);
    TwoDigitText(24);
    TwoDigitText(99);
    FourDigitText(2, 0, 24);
    FourDigitText(9, 9, 99);
  }

  lemma {:induction false} ParseOffsetText(c: Civil, suffix: string, offset: int)
    requires Valid(c) && 0 <= c.year <= 9999 && suffix != "" && suffix[0] != '.' && ParseZone(suffix) == Some(offset)
    ensures Parse(DateTimeText(c, suffix)) == Some((ToSeconds(c) - offset) * NANOS)
  {
    hide ParseDate, ParseTime, ParseZone, Parse, YearText, Digits, TimeText, ToSeconds;
    ParseDateText(c, TimeText(c, suffix));
    ParseTimeText(c, suffix);
    ParseSteps(DateTimeText(c, suffix), Date(c.year, c.month, c.day), TimeText(c, suffix),
               (c.hour, c.minute, c.second), suffix, 0, suffix, offset);
  }

  lemma {:induction false} OneHourWest()
    ensures ParseZone("-01:00") == Some(-3600)
  {
    TwoDigitTexts();
    var s := "-01:00";
    assert s[1..] == Digits(1, 2) + ":00" && ":00" == ":" + Digits(0, 2);
    TakeDigits(1, 2, ":00");
    ExpectHead(':', Digits(0, 2));
    assert Digits(0, 2) + "" == Digits(0, 2);
    TakeDigits(0, 2, "");
  }

  lemma {:induction false} ExampleTexts()
    ensures DateTimeText(Civil(2024, 1, 1, 0, 0, 0), "Z") == "2024-01-01T00:00:00Z"
    ensures DateTimeText(Civil(9999, 12, 31, 23, 59, 59), "-01:00") == "9999-12-31T23:59:59-01:00"
  {
    hide Digits;
    TwoDigitTexts();
    var a, b := Civil(2024, 1, 1, 0, 0, 0), Civil(9999, 12, 31, 23, 59, 59);
    TextFrom(a, "Z", "2024", "01", "01", "00", "00", "00");
    TextFrom(b, "-01:00", "9999", "12", "31", "23", "59", "59");
    assert "2024" + "-" + "01" + "-" + "01" == "2024-01-01" && "T" + "00" + ":" + "00" + ":" + "00" == "T00:00:00";
    assert "2024-01-01" + "T00:00:00" + "Z" == "2024-01-01T00:00:00Z";
    assert "9999" + "-" + "12" + "-" + "31" == "9999-12-31" && "T" + "23" + ":" + "59" + ":" + "59" == "T23:59:59";
    assert "9999-12-31" + "T23:59:59" + "-01:00" == "9999-12-31T23:59:59-01:00";
  }

  lemma {:induction false} TextFrom(c: Civil, suffix: string, y: string, m: string, d: string, h: string, n: string,
                                    s: string)
    requires Valid(c) && YearText(c.year) == y && Digits(c.month, 2) == m && Digits(c.day, 2) == d
    requires Digits(c.hour, 2) == h && Digits(c.minute, 2) == n && Digits(c.second, 2) == s
    ensures DateTimeText(c, suffix) == (y + "-" + m + "-" + d) + ("T" + h + ":" + n + ":" + s) + suffix
  {
    hide Digits, YearText;
    assert TimeText(c, suffix) == ("T" + h + ":" + n + ":" + s) + suffix;
    assert RestText(c, suffix) == ("-" + m + "-" + d) + TimeText(c, suffix);
    assert y + ("-" + m + "-" + d) == y + "-" + m + "-" + d;
  }

  // The year 2024, and an instant that is in year 9999 where it is written and in year 10000 of UTC.
  lemma {:induction false} ExampleTimes(t: int)
    requires 2000 <= YearAt(t) <= 2999
    ensures var from, to := Parse("2024-01-01T00:00:00Z"), Parse("9999-12-31T23:59:59-01:00");
            from.Some? && to.Some? && from.value < to.value && t < to.value &&
            Misordered(from.value, to.value) && Misordered(to.value, t) && Readable(from.value) &&
              Readable(to.value) && Readable(t)
  {
    hide Parse, DateTimeText, CivilOf, ToSeconds;
    var a, b := Civil(2024, 1, 1, 0, 0, 0), Civil(9999, 12, 31, 23, 59, 59);
    ExampleTexts();
    OneHourWest();
    ParseOffsetText(a, "Z", 0);
    ParseOffsetText(b, "-01:00", -3600);
    ExampleYears(a, b, t);
  }

  lemma {:induction false} ExampleYears(a: Civil, b: Civil, t: int)
    requires a == Civil(2024, 1, 1, 0, 0, 0) && b == Civil(9999, 12, 31, 23, 59, 59) && 2000 <= YearAt(t) <= 2999
    ensures YearAt(ToSeconds(a) * NANOS) == 2024 && YearAt((ToSeconds(b) + 3600) * NANOS) == 10000
    ensures ToSeconds(a) < ToSeconds(b) && t < (ToSeconds(b) + 3600) * NANOS
  {
    hide CivilOf, ToSeconds;
    var c := Civil(10000, 1, 1, 0, 59, 59);
    HourLater(b, c);
    SecondsOrder(a, CivilOf(ToSeconds(a)));
    SecondsOrder(c, CivilOf(ToSeconds(c)));
    SecondsOrder(a, b);
    SecondsOrder(CivilOf(t / NANOS), c);
  }

  lemma {:induction false} HourLater(b: Civil, c: Civil)
    requires b == Civil(9999, 12, 31, 23, 59, 59) && c == Civil(10000, 1, 1, 0, 59, 59)
    ensures ToSeconds(c) == ToSeconds(b) + 3600
  {
    hide DaysBeforeYear;
    YearLength(9999);
    MonthsFillYear(9999);
  }

  // The file-name form is the RFC 3339 text without its separators.
  lemma {:induction false} FormatCompactIsFormat(t: int)
    requires Writable(t)
    ensures var text := Format(t);
            |text| == 20 && FormatCompact(t) == text[..4] + text[5..7] + text[8..13] + text[14..16] + text[17..]
  {
    hide CivilOf, Digits;
    WritableYears(t);
    var c := CivilOf(t / NANOS);
    YearStarts(c.year);
    CompactOf(YearText(c.year), Digits(c.month, 2), Digits(c.day, 2), Digits(c.hour, 2), Digits(c.minute, 2),
              Digits(c.second, 2));
    TextFrom(c, "Z", YearText(c.year), Digits(c.month, 2), Digits(c.day, 2), Digits(c.hour, 2), Digits(c.minute, 2),
             Digits(c.second, 2));
  }

  lemma {:induction false} CompactOf(y: string, m: string, d: string, h: string, n: string, s: string)
    requires |y| == 4 && |m| == 2 && |d| == 2 && |h| == 2 && |n| == 2 && |s| == 2
    ensures var text := (y + "-" + m + "-" + d) + ("T" + h + ":" + n + ":" + s) + "Z";
            |text| == 20 &&
            y + m + d + "T" + h + n + s + "Z" == text[..4] + text[5..7] + text[8..13] + text[14..16] + text[17..]
  {
    var text := (y + "-" + m + "-" + d) + ("T" + h + ":" + n + ":" + s) + "Z";
    assert text[..4] == y && text[5..7] == m && text[8..13] == d + "T" + h && text[14..16] == n &&
           text[17..] == s + "Z";
  }
}
