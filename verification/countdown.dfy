/**
 * The countdown on the invitation page (script.js): the milliseconds left
 * until the event are split into whole days, hours and minutes, and each is
 * shown as at least two digits; once the event has started every field
 * shows "00". The current time is a parameter.
 */
module Countdown {
  import opened Wrappers
  import Strings

  const MsPerMinute: nat := 1000 * 60
  const MsPerHour: nat := 1000 * 60 * 60
  const MsPerDay: nat := 1000 * 60 * 60 * 24

  datatype Parts = Parts(days: nat, hours: nat, minutes: nat)

  /** The milliseconds a decomposition stands for. */
  function Span(p: Parts): nat {
    p.days * MsPerDay + p.hours * MsPerHour + p.minutes * MsPerMinute
  }

  /** Taking the remainder by a day first and then by an hour is taking it by an hour. */
  lemma ModDayThenHour(t: nat)
    ensures (t % MsPerDay) % MsPerHour == t % MsPerHour
    ensures (t % MsPerHour) / MsPerMinute < 60
    ensures (t % MsPerDay) / MsPerHour < 24
  {
    var q := t / MsPerDay;
    var r := t % MsPerDay;
    var h := r / MsPerHour;
    var r2 := r % MsPerHour;
    assert t == (q * 24 + h) * MsPerHour + r2;
    UniqueDivMod(t, MsPerHour, q * 24 + h, r2);
  }

  /** Division with remainder is unique. */
  lemma UniqueDivMod(t: nat, d: nat, q: nat, r: nat)
    requires d > 0 && r < d && t == q * d + r
    ensures t / d == q && t % d == r
  {
    var q' := t / d;
    MulStep(q', q, d);
    MulStep(q, q', d);
  }

  /** If `a < b` then `a * d + d <= b * d`. */
  lemma MulStep(a: nat, b: nat, d: nat)
    ensures a < b ==> a * d + d <= b * d
  {
    if a < b {
      var k := b - a - 1;
      assert b * d == a * d + d + k * d;
    }
  }

  /** `days`, `hours`, `minutes` for a positive `timeLeft`. */
  function Decompose(t: nat): (p: Parts)
    requires t > 0
  {
    Parts(t / MsPerDay, (t % MsPerDay) / MsPerHour, (t % MsPerHour) / MsPerMinute)
  }

  /** Hours fall in 0..23 and minutes in 0..59, and the parts add up to the time left minus less than a minute. */
  lemma DecomposeBounds(t: nat)
    requires t > 0
    ensures var p := Decompose(t);
            p.hours < 24 && p.minutes < 60 && Span(p) <= t < Span(p) + MsPerMinute
  {
    var p := Decompose(t);
    ModDayThenHour(t);
    var r := t % MsPerDay;
    assert t == p.days * MsPerDay + r;
    assert r == p.hours * MsPerHour + t % MsPerHour;
    assert t % MsPerHour == p.minutes * MsPerMinute + (t % MsPerHour) % MsPerMinute;
  }

  /** Any split with hours below 24 and minutes below 60 that accounts for the time left to within a minute is the computed one. */
  lemma DecomposeUnique(t: nat, p: Parts)
    requires t > 0 && p.hours < 24 && p.minutes < 60 && Span(p) <= t < Span(p) + MsPerMinute
    ensures p == Decompose(t)
  {
    var rest := t - Span(p);
    var inHour := p.minutes * MsPerMinute + rest;
    var inDay := p.hours * MsPerHour + inHour;
    assert t == p.days * MsPerDay + inDay;
    UniqueDivMod(t, MsPerDay, p.days, inDay);
    UniqueDivMod(inDay, MsPerHour, p.hours, inHour);
    UniqueDivMod(inHour, MsPerMinute, p.minutes, rest);
    ModDayThenHour(t);
  }

  datatype Display = Display(days: string, hours: string, minutes: string)

  /** `String(n).padStart(2, '0')` */
  function TwoDigits(n: nat): string {
    Strings.PadStart(Strings.NatToString(n), 2, '0')
  }

  /** The three fields `updateCountdown` writes for `timeLeft = eventDate - now`. */
  function Render(eventDate: int, now: int): (d: Display)
  {
    var t := eventDate - now;
    if t > 0 then
      var p := Decompose(t);
      Display(TwoDigits(p.days), TwoDigits(p.hours), TwoDigits(p.minutes))
    else Display("00", "00", "00")
  }

  /** Zeros in front of digits do not change their value. */
  lemma {:induction false} LeadingZeros(z: string, s: string)
    requires (forall k :: 0 <= k < |z| ==> z[k] == '0') && Strings.AllDigits(s)
    ensures Strings.AllDigits(z + s) && Strings.DigitsValue(z + s) == Strings.DigitsValue(s)
    decreases |s|
  {
    if s == [] {
      assert z + s == z;
      ZerosValue(z);
    } else {
      var init := s[..|s| - 1];
      LeadingZeros(z, init);
      assert (z + s)[..|z + s| - 1] == z + init;
    }
  }

  lemma {:induction false} ZerosValue(z: string)
    requires forall k :: 0 <= k < |z| ==> z[k] == '0'
    ensures Strings.AllDigits(z) && Strings.DigitsValue(z) == 0
    decreases |z|
  {
    if z != [] {
      ZerosValue(z[..|z| - 1]);
    }
  }

  /** Every field has at least two characters; before the event each reads back, with `parseInt`, as its part; afterwards each is "00". */
  lemma RenderReadsBack(eventDate: int, now: int)
    ensures var d := Render(eventDate, now);
            |d.days| >= 2 && |d.hours| >= 2 && |d.minutes| >= 2
    ensures eventDate - now <= 0 ==> Render(eventDate, now) == Display("00", "00", "00")
    ensures eventDate - now > 0 ==>
              var d := Render(eventDate, now);
              var p := Decompose(eventDate - now);
              Strings.ParseInt(d.days) == Some(p.days as int)
              && Strings.ParseInt(d.hours) == Some(p.hours as int)
              && Strings.ParseInt(d.minutes) == Some(p.minutes as int)
              && |d.hours| == 2 && |d.minutes| == 2
  {
    var t := eventDate - now;
    if t > 0 {
      var p := Decompose(t);
      DecomposeBounds(t);
      TwoDigitsReadsBack(p.days);
      TwoDigitsReadsBack(p.hours);
      TwoDigitsReadsBack(p.minutes);
    }
  }

  lemma TwoDigitsReadsBack(n: nat)
    ensures |TwoDigits(n)| >= 2
    ensures n < 100 ==> |TwoDigits(n)| == 2
    ensures Strings.ParseInt(TwoDigits(n)) == Some(n as int)
  {
    TwoDigitsValue(n);
    ParseIntDigits(TwoDigits(n));
    if n < 100 {
      NatToStringShort(n);
    }
  }

  /** The padded text is all digits and still denotes `n`. */
  lemma TwoDigitsValue(n: nat)
    ensures Strings.AllDigits(TwoDigits(n)) && Strings.DigitsValue(TwoDigits(n)) == n
  {
    var s := Strings.NatToString(n);
    var r := TwoDigits(n);
    var z := r[..|r| - |s|];
    assert r == z + s;
    LeadingZeros(z, s);
    Strings.NatToStringValue(n);
  }

  /** `parseInt` of a non-empty run of digits is its value. */
  lemma ParseIntDigits(r: string)
    requires r != [] && Strings.AllDigits(r)
    ensures Strings.ParseInt(r) == Some(Strings.DigitsValue(r) as int)
  {
    assert Strings.TrimStart(r) == r by {
      assert !Strings.IsWhitespace(r[0]);
    }
    assert Strings.SignDropped(r) == r;
    DigitsPrefixAll(r);
  }

  lemma {:induction false} DigitsPrefixAll(s: string)
    requires Strings.AllDigits(s)
    ensures Strings.DigitsPrefix(s) == s
    decreases |s|
  {
    if s != [] {
      DigitsPrefixAll(s[1..]);
    }
  }

  lemma NatToStringShort(n: nat)
    requires n < 100
    ensures |Strings.NatToString(n)| <= 2
  {
  }
}
