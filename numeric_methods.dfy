/** NumericMethods.cs: positivity of nullable integers, the primality loop,
    widening, and the rendering of a millisecond count as a clock reading. */
module NumericMethods {
  import opened Wrappers
  import opened Text

  /** A C# `int`. */
  type int32 = x: int | -0x8000_0000 <= x < 0x8000_0000

  /** A C# `long`. */
  type int64 = x: int | -0x8000_0000_0000_0000 <= x < 0x8000_0000_0000_0000

  /** `IsPositiveValue(this int? nullableInteger)`. */
  function IsPositiveValue(nullableInteger: Option<int32>): (r: bool)
    ensures r <==> nullableInteger.Some? && nullableInteger.value > 0
  {
    nullableInteger.Some? && nullableInteger.value > 0
  }

  /** `IsPositiveValue(this long? nullableInteger)`. */
  function IsPositiveLongValue(nullableInteger: Option<int64>): (r: bool)
    ensures r <==> nullableInteger.Some? && nullableInteger.value > 0
  {
    nullableInteger.Some? && nullableInteger.value > 0
  }

  /** `ToLong`: widening keeps the value, so every `int` is a `long`. */
  function ToLong(i: int32): (r: int64)
    ensures r as int == i as int
  {
    i as int
  }

  function OptionToLong(n: Option<int32>): Option<int64> {
    match n
    case None => None
    case Some(i) => Some(ToLong(i))
  }

  /** The two overloads agree: a nullable `int` is positive exactly when its
      widening to a nullable `long` is, and null is never positive. */
  lemma IsPositiveOverloadsAgree(n: Option<int32>)
    ensures IsPositiveValue(n) == IsPositiveLongValue(OptionToLong(n))
    ensures IsPositiveValue(n) <==> n.Some? && n.value > 0
    ensures !IsPositiveValue(None) && !IsPositiveLongValue(None)
  {
  }

  // ---------------------------------------------------------------------------
  // IsPrime
  // ---------------------------------------------------------------------------

  /** What `IsPrime` answers: not 1, and no `i` with `2 <= i < number`
      divides `number`. For `number <= 0` there is no such `i`. */
  predicate NoDivisorBelow(number: int) {
    number != 1 && forall i :: 2 <= i < number ==> number % i != 0
  }

  /** Primality in the usual sense. */
  predicate Prime(n: int) {
    n >= 2 && forall d :: 1 <= d <= n && n % d == 0 ==> d == 1 || d == n
  }

  /** `IsPrime`: 1 is not prime and 2 is; otherwise the candidates from 2 up
      to `number - 1` are tried in order and the first divisor ends the
      search. */
  method IsPrime(number: int32) returns (r: bool)
    ensures r <==> NoDivisorBelow(number)
    ensures number == 1 ==> !r
    ensures number == 2 ==> r
    ensures number <= 0 ==> r
    ensures number >= 1 ==> (r <==> Prime(number))
  {
    if number == 1 {
      return false;
    }
    if number == 2 {
      PrimeIffNoDivisor(number);
      return true;
    }
    var i := 2;
    while i < number
      invariant 2 <= i && (number >= 2 ==> i <= number)
      invariant forall j :: 2 <= j < i ==> number % j != 0
    {
      if number % i == 0 {
        if number >= 1 {
          PrimeIffNoDivisor(number);
        }
        return false;
      }
      i := i + 1;
    }
    if number >= 1 {
      PrimeIffNoDivisor(number);
    }
    return true;
  }

  /** As written, `IsPrime` answers true for every number below 1, none of
      which is prime: the loop runs no turn and falls through to `true`. */
  lemma IsPrimeNonPositive(number: int32)
    requires number <= 0
    ensures NoDivisorBelow(number) && !Prime(number)
  {
  }

  /** `IsPrime` as its documentation describes it: true exactly for primes. */
  function IsPrimeIntended(number: int32): (r: bool)
    ensures r <==> Prime(number)
    ensures number >= 1 ==> (r <==> NoDivisorBelow(number))
  {
    if number >= 1 then PrimeIffNoDivisor(number); NoDivisorBelow(number) else false
  }

  /** For positive numbers the loop's test is primality. */
  lemma PrimeIffNoDivisor(n: int)
    requires n >= 1
    ensures NoDivisorBelow(n) <==> Prime(n)
  {
    if NoDivisorBelow(n) {
      assert n != 1;
      forall d | 1 <= d <= n && n % d == 0
        ensures d == 1 || d == n
      {
        if 2 <= d < n {
          assert false;
        }
      }
    }
    if Prime(n) {
      forall i | 2 <= i < n
        ensures n % i != 0
      {
        assert !(i == 1 || i == n);
      }
    }
  }

  // ---------------------------------------------------------------------------
  // ToHoursMinutesSecondsAndMiliseconds
  // ---------------------------------------------------------------------------

  /** `long.MaxValue / TimeSpan.TicksPerMillisecond`: the largest magnitude
      `TimeSpan.FromMilliseconds` accepts. */
  const MaxMilliseconds: int := 922337203685477

  /** `n.ToString("D2")`: the magnitude zero-padded to two digits, after a
      minus sign when negative. */
  function D2(n: int): (r: string)
    ensures n >= 0 ==> |r| >= 2
  {
    if n < 0 then "-" + PadLeft(NatToString(-n), 2, '0') else PadLeft(NatToString(n), 2, '0')
  }

  /** `ToHoursMinutesSecondsAndMiliseconds`: hours (days dropped), minutes,
      seconds and milliseconds of `TimeSpan.FromMilliseconds(miliseconds)`,
      each as `D2`; an out-of-range count throws `OverflowException`. */
  function ToHoursMinutesSecondsAndMiliseconds(miliseconds: int64): (r: Result<string>)
    ensures r.Err? <==> miliseconds > MaxMilliseconds || miliseconds < -MaxMilliseconds
    ensures r.Err? ==> r.error == Overflow
  {
    if miliseconds > MaxMilliseconds || miliseconds < -MaxMilliseconds then Err(Overflow)
    else Ok(ClockText(miliseconds))
  }

  /** The reading of a count `TimeSpan` accepts. */
  function ClockText(miliseconds: int): string {
    Layout(D2(TruncRem(TruncDiv(miliseconds, 3600000), 24)), D2(TruncRem(TruncDiv(miliseconds, 60000), 60)),
           D2(TruncRem(TruncDiv(miliseconds, 1000), 60)), D2(TruncRem(miliseconds, 1000)))
  }

  /** The interpolated string "{h}h:{m}m:{s}s:{f}ms". */
  function Layout(h: string, m: string, s: string, f: string): (r: string)
    ensures |r| == |h| + |m| + |s| + |f| + 8
  {
    h + "h:" + m + "m:" + s + "s:" + f + "ms"
  }

  /** With two-character hour, minute and second parts, every part sits at a
      fixed place. */
  lemma LayoutFields(h: string, m: string, s: string, f: string)
    requires |h| == 2 && |m| == 2 && |s| == 2
    ensures Layout(h, m, s, f)[..2] == h && Layout(h, m, s, f)[2..4] == "h:"
    ensures Layout(h, m, s, f)[4..6] == m && Layout(h, m, s, f)[6..8] == "m:"
    ensures Layout(h, m, s, f)[8..10] == s && Layout(h, m, s, f)[10..12] == "s:"
    ensures Layout(h, m, s, f)[12..|f| + 12] == f && Layout(h, m, s, f)[|f| + 12..] == "ms"
  {
  }

  lemma NatToStringShort(n: nat)
    requires n < 100
    ensures |NatToString(n)| == if n < 10 then 1 else 2
  {
    if n >= 10 {
      assert NatToString(n) == NatToString(n / 10) + [Digit(n % 10)];
    }
  }

  function Zeros(k: nat): (r: string)
    ensures |r| == k && forall i :: 0 <= i < k ==> r[i] == '0'
  {
    seq(k, _ => '0')
  }

  /** Leading zeros do not change a number's value. */
  lemma {:induction false} ParseNatLeadingZeros(k: nat, s: string)
    requires forall i :: 0 <= i < |s| ==> IsDigit(s[i])
    ensures forall i :: 0 <= i < k + |s| ==> IsDigit((Zeros(k) + s)[i])
    ensures ParseNat(Zeros(k) + s) == ParseNat(s)
    decreases k + |s|
  {
    var z := Zeros(k);
    var t := z + s;
    if s == [] {
      assert t == z;
      if k > 0 {
        var z' := Zeros(k - 1);
        assert t[..|t| - 1] == z' + [];
        ParseNatLeadingZeros(k - 1, []);
      }
    } else {
      var init := s[..|s| - 1];
      assert t[..|t| - 1] == z + init;
      ParseNatLeadingZeros(k, init);
    }
  }

  /** A component below 100 renders as exactly two digits that read back as
      the component. */
  lemma D2RoundTrip(n: nat)
    requires n < 100
    ensures |D2(n)| == 2
    ensures forall i :: 0 <= i < 2 ==> IsDigit(D2(n)[i])
    ensures ParseNat(D2(n)) == n
  {
    var s := NatToString(n);
    NatToStringShort(n);
    ParseNatToString(n);
    ParseNatLeadingZeros(2 - |s|, s);
    assert D2(n) == Zeros(2 - |s|) + s;
  }

  /** The milliseconds component renders as two or three digits that read
      back as the component. */
  lemma D2Milliseconds(n: nat)
    requires n < 1000
    ensures 2 <= |D2(n)| <= 3
    ensures forall i :: 0 <= i < |D2(n)| ==> IsDigit(D2(n)[i])
    ensures ParseNat(D2(n)) == n
  {
    if n < 100 {
      D2RoundTrip(n);
    } else {
      var s := NatToString(n);
      assert s == NatToString(n / 10) + [Digit(n % 10)];
      NatToStringShort(n / 10);
      ParseNatToString(n);
    }
  }

  predicate AllDigits(s: string) {
    forall i :: 0 <= i < |s| ==> IsDigit(s[i])
  }

  /** The reading of four components. */
  function Reading(h: nat, m: nat, sec: nat, f: nat): string {
    Layout(D2(h), D2(m), D2(sec), D2(f))
  }

  /** Components below 100 (milliseconds below 1000) give "HHh:MMm:SSs:FFms"
      with every field in its place and reading back as its component. */
  lemma ReadingFields(h: nat, m: nat, sec: nat, f: nat)
    requires h < 100 && m < 100 && sec < 100 && f < 1000
    ensures 16 <= |Reading(h, m, sec, f)| <= 17
    ensures Reading(h, m, sec, f)[2..4] == "h:" && Reading(h, m, sec, f)[6..8] == "m:"
    ensures Reading(h, m, sec, f)[10..12] == "s:" && Reading(h, m, sec, f)[|Reading(h, m, sec, f)| - 2..] == "ms"
    ensures AllDigits(Reading(h, m, sec, f)[..2]) && AllDigits(Reading(h, m, sec, f)[4..6])
    ensures AllDigits(Reading(h, m, sec, f)[8..10]) && AllDigits(Reading(h, m, sec, f)[12..|Reading(h, m, sec, f)| - 2])
    ensures ParseNat(Reading(h, m, sec, f)[..2]) == h
    ensures ParseNat(Reading(h, m, sec, f)[4..6]) == m
    ensures ParseNat(Reading(h, m, sec, f)[8..10]) == sec
    ensures ParseNat(Reading(h, m, sec, f)[12..|Reading(h, m, sec, f)| - 2]) == f
  {
    D2RoundTrip(h);
    D2RoundTrip(m);
    D2RoundTrip(sec);
    D2Milliseconds(f);
    LayoutFields(D2(h), D2(m), D2(sec), D2(f));
    var t := Reading(h, m, sec, f);
    assert t == Layout(D2(h), D2(m), D2(sec), D2(f));
    assert t[..2] == D2(h) && t[4..6] == D2(m) && t[8..10] == D2(sec);
    assert t[12..|t| - 2] == D2(f);
  }

  /** For a count in range and not negative, the reading shows hours modulo
      a day, minutes, seconds and milliseconds of the count. */
  lemma ClockReading(ms: int64)
    requires 0 <= ms <= MaxMilliseconds
    ensures ToHoursMinutesSecondsAndMiliseconds(ms)
            == Ok(Reading((ms / 3600000) % 24, (ms / 60000) % 60, (ms / 1000) % 60, ms % 1000))
  {
  }

  /** The four fields of the reading determine the count modulo a day. */
  lemma ClockFieldsRecoverTimeOfDay(ms: nat)
    ensures (((ms / 3600000) % 24 * 60 + (ms / 60000) % 60) * 60 + (ms / 1000) % 60) * 1000 + ms % 1000
            == ms % 86400000
  {
    var secs := ms / 1000;
    var mins := secs / 60;
    var hours := mins / 60;
    assert ms / 60000 == mins;
    assert ms / 3600000 == hours;
    assert ms == secs * 1000 + ms % 1000;
    assert secs == mins * 60 + secs % 60;
    assert mins == hours * 60 + mins % 60;
    assert hours == (hours / 24) * 24 + hours % 24;
    var tod := ((hours % 24 * 60 + mins % 60) * 60 + secs % 60) * 1000 + ms % 1000;
    assert ms == (hours / 24) * 86400000 + tod;
    assert 0 <= tod < 86400000;
  }
}
