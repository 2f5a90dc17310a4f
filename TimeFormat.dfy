/** `convert_to_hms` (app/transcribers/whisperx.py): a time offset rendered
    as `HH:MM:SS.mmm`. Offsets are whole milliseconds, so the `divmod` chain
    is exact; `HmsOfSeconds` takes a real number of seconds and shows that
    the sub-millisecond part is truncated, not rounded. */
module TimeFormat {
  import opened Wrappers
  import opened Text

  const MillisPerSecond: nat := 1000
  const MillisPerMinute: nat := 60000
  const MillisPerHour: nat := 3600000

  /** The four fields the source computes with `divmod`. */
  datatype Clock = Clock(hours: nat, minutes: nat, seconds: nat, millis: nat)

  predicate ValidClock(c: Clock)
  {
    c.minutes < 60 && c.seconds < 60 && c.millis < 1000
  }

  function Total(c: Clock): nat
  {
    c.hours * MillisPerHour + c.minutes * MillisPerMinute + c.seconds * MillisPerSecond + c.millis
  }

  /** `divmod(seconds, 3600)`, then `divmod(remainder, 60)`, then the
      fractional second in whole milliseconds. */
  function Split(ms: nat): (c: Clock)
    ensures ValidClock(c) && Total(c) == ms
  {
    var hours := ms / MillisPerHour;
    var remainder := ms % MillisPerHour;
    var minutes := remainder / MillisPerMinute;
    var rest := remainder % MillisPerMinute;
    Clock(hours, minutes, rest / MillisPerSecond, rest % MillisPerSecond)
  }

  /** The fields are determined by the offset: any in-range clock with the
      same total is the one `Split` returns. */
  lemma {:induction false} SplitUnique(ms: nat, c: Clock)
    requires ValidClock(c) && Total(c) == ms
    ensures c == Split(ms)
  {
    var d := Split(ms);
    var below := c.minutes * MillisPerMinute + c.seconds * MillisPerSecond + c.millis;
    var belowD := d.minutes * MillisPerMinute + d.seconds * MillisPerSecond + d.millis;
    assert 0 <= below < MillisPerHour && 0 <= belowD < MillisPerHour;
    assert c.hours == d.hours;
    assert c.minutes == d.minutes;
    assert c.seconds == d.seconds;
  }

  /** The f-string `{h:02}:{m:02}:{s:02}.{ms:03}`. */
  function Format(c: Clock): string
  {
    ZeroPad(c.hours, 2) + ":" + ZeroPad(c.minutes, 2) + ":" + ZeroPad(c.seconds, 2)
      + "." + ZeroPad(c.millis, 3)
  }

  /** `convert_to_hms` on a whole number of milliseconds. The hour field is
      two digits below 100 hours and grows beyond that; the minute, second
      and millisecond fields always have fixed width. */
  function Hms(ms: nat): (r: string)
    ensures |r| >= 12
    ensures ms < 100 * MillisPerHour <==> |r| == 12
    ensures r[|r| - 10] == ':' && r[|r| - 7] == ':' && r[|r| - 4] == '.'
  {
    var c := Split(ms);
    assert c.hours < 100 <==> ms < 100 * MillisPerHour;
    assert Pow10(2) == 100 && Pow10(3) == 1000;
    assert c.hours >= 100 ==> |Decimal(c.hours)| > 2 by {
      if c.hours >= 100 { DecimalValueBound(c.hours); }
    }
    Format(c)
  }

  /** A value of at least 100 has at least three digits. */
  lemma {:induction false} DecimalValueBound(n: nat)
    requires n >= 100
    ensures |Decimal(n)| >= 3
  {
    assert n / 10 >= 10;
  }

  /** Reads a rendered timestamp back: an hour field of two or more digits,
      then `:MM:SS.mmm` with minutes and seconds below 60. */
  function ParseHms(s: string): (r: Option<nat>)
  {
    var n := |s|;
    if n < 12 || s[n - 10] != ':' || s[n - 7] != ':' || s[n - 4] != '.' then None
    else
      var hh, mm, ss, fff := s[..n - 10], s[n - 9..n - 7], s[n - 6..n - 4], s[n - 3..];
      if !(AllDigits(hh) && AllDigits(mm) && AllDigits(ss) && AllDigits(fff)) then None
      else
        var c := Clock(DigitsValue(hh), DigitsValue(mm), DigitsValue(ss), DigitsValue(fff));
        if ValidClock(c) then Some(Total(c)) else None
  }

  /** Every rendered offset reads back as itself, so `Hms` loses nothing:
      hours, minutes, seconds and milliseconds recombine to the input. */
  lemma {:induction false} HmsRoundTrip(ms: nat)
    ensures ParseHms(Hms(ms)) == Some(ms)
  {
    var c := Split(ms);
    var h, m, s, f := ZeroPad(c.hours, 2), ZeroPad(c.minutes, 2), ZeroPad(c.seconds, 2), ZeroPad(c.millis, 3);
    assert Pow10(2) == 100 && Pow10(3) == 1000;
    assert |h| >= 2 && |m| == 2 && |s| == 2 && |f| == 3;
    assert Hms(ms) == h + ":" + m + ":" + s + "." + f;
    ParseFields(h, m, s, f);
  }

  /** Reading back four digit fields joined by the separators gives the
      clock they spell. */
  lemma {:induction false} ParseFields(h: string, m: string, s: string, f: string)
    requires |h| >= 2 && |m| == 2 && |s| == 2 && |f| == 3
    requires AllDigits(h) && AllDigits(m) && AllDigits(s) && AllDigits(f)
    ensures var c := Clock(DigitsValue(h), DigitsValue(m), DigitsValue(s), DigitsValue(f));
      ParseHms(h + ":" + m + ":" + s + "." + f) == if ValidClock(c) then Some(Total(c)) else None
  {
    var r := h + ":" + m + ":" + s + "." + f;
    FieldsLayout(h, m, s, f);
    var n := |r|;
    assert r[..n - 10] == h && r[n - 9..n - 7] == m && r[n - 6..n - 4] == s && r[n - 3..] == f;
  }

  /** Where the fields and separators of a rendered timestamp sit. */
  lemma {:induction false} FieldsLayout(h: string, m: string, s: string, f: string)
    requires |m| == 2 && |s| == 2 && |f| == 3
    ensures var r := h + ":" + m + ":" + s + "." + f;
      var n := |r|;
      && n == |h| + 10
      && r[n - 10] == ':' && r[n - 7] == ':' && r[n - 4] == '.'
      && r[..n - 10] == h && r[n - 9..n - 7] == m && r[n - 6..n - 4] == s && r[n - 3..] == f
  {
    var r := h + ":" + m + ":" + s + "." + f;
    var n := |r|;
    assert r[..n - 10] == h;
    assert r[n - 9..n - 7] == m;
    assert r[n - 6..n - 4] == s;
    assert r[n - 3..] == f;
  }

  lemma {:induction false} HmsZero()
    ensures Hms(0) == "00:00:00.000"
  {
    assert Decimal(0) == "0";
    assert ZeroPad(0, 2) == "00";
    assert ZeroPad(0, 3) == "000";
  }

  /** `convert_to_hms` on an exact (non-negative) number of seconds: the
      rendering of the fields lines 11-13 compute from `x`, which is the
      offset truncated to whole milliseconds. */
  function HmsOfSeconds(x: real): (r: string)
    requires x >= 0.0
    ensures r == Format(DivmodFields(x))
    ensures ParseHms(r) == Some(MillisOf(x))
  {
    DivmodAgrees(x);
    HmsRoundTrip(MillisOf(x));
    Hms(MillisOf(x))
  }

  /** Lines 11-13 on an exact real number of seconds: `divmod` by 3600,
      then `divmod` of the remainder by 60, then the whole seconds and the
      fraction of the last second in whole milliseconds. */
  function DivmodFields(x: real): (c: Clock)
    requires x >= 0.0
  {
    var hours := (x / 3600.0).Floor;
    var remainder := x - hours as real * 3600.0;
    var minutes := (remainder / 60.0).Floor;
    var seconds := remainder - minutes as real * 60.0;
    Clock(hours, minutes, seconds.Floor, ((seconds - seconds.Floor as real) * 1000.0).Floor)
  }

  /** The divmod chain on the real offset gives the fields of the offset
      truncated to whole milliseconds. */
  lemma {:induction false} DivmodAgrees(x: real)
    requires x >= 0.0
    ensures Split(MillisOf(x)) == DivmodFields(x)
  {
    var c := DivmodFields(x);
    var hours := (x / 3600.0).Floor;
    var remainder := x - hours as real * 3600.0;
    var minutes := (remainder / 60.0).Floor;
    var seconds := remainder - minutes as real * 60.0;
    var whole := seconds.Floor;
    var frac := seconds - whole as real;
    assert 0.0 <= remainder < 3600.0;
    assert 0.0 <= seconds < 60.0;
    assert 0.0 <= frac < 1.0;
    assert ValidClock(c);
    var n := Total(c);
    assert x * 1000.0 == (hours * 3600000 + minutes * 60000 + whole * 1000) as real + frac * 1000.0;
    assert n as real <= x * 1000.0 < n as real + 1.0;
    assert MillisOf(x) == n;
    SplitUnique(n, c);
  }

  function MillisOf(x: real): (ms: nat)
    requires x >= 0.0
    ensures ms as real <= x * 1000.0 < ms as real + 1.0
  {
    (x * 1000.0).Floor
  }

  /** The millisecond field is `floor((x % 1) * 1000)` and the clock fields
      before it are whole hours, minutes and seconds of `floor(x)`: the
      fraction of a second is truncated, never rounded up. */
  lemma {:induction false} Truncation(x: real)
    requires x >= 0.0
    ensures Split(MillisOf(x)).millis == ((x - x.Floor as real) * 1000.0).Floor
    ensures MillisOf(x) / MillisPerSecond == x.Floor
  {
    var t := MillisOf(x);
    var q := t / 1000;
    assert q * 1000 <= t < q * 1000 + 1000;
    assert x.Floor == q by {
      assert q as real <= x;
      assert x < q as real + 1.0;
    }
    assert Split(t).millis == t - 1000 * q;
    assert (x - q as real) * 1000.0 == x * 1000.0 - (1000 * q) as real;
  }

  /** `Split` orders clocks field by field: an earlier offset has a smaller
      hour, or the same hour and a smaller minute, and so on down to the
      milliseconds. */
  lemma {:induction false} ClockOrder(a: nat, b: nat)
    requires a < b
    ensures var ca, cb := Split(a), Split(b);
      || ca.hours < cb.hours
      || (ca.hours == cb.hours && ca.minutes < cb.minutes)
      || (ca.hours == cb.hours && ca.minutes == cb.minutes && ca.seconds < cb.seconds)
      || (ca.hours == cb.hours && ca.minutes == cb.minutes && ca.seconds == cb.seconds && ca.millis < cb.millis)
  {
    var ca, cb := Split(a), Split(b);
    assert ca.hours <= cb.hours;
    if ca.hours == cb.hours {
      assert ca.minutes <= cb.minutes;
      if ca.minutes == cb.minutes {
        assert ca.seconds <= cb.seconds;
      }
    }
  }

  /** Below 100 hours a later offset renders as a string that does not sort
      before the earlier one: the timestamps of a transcript order as text
      the way they order in time. */
  lemma {:induction false} HmsMonotone(a: nat, b: nat)
    requires a <= b < 100 * MillisPerHour
    ensures LexLe(Hms(a), Hms(b))
  {
    if a < b {
      var ca, cb := Split(a), Split(b);
      ClockOrder(a, b);
      assert Pow10(2) == 100 && Pow10(3) == 1000;
      var ha, ma, sa, fa := ZeroPad(ca.hours, 2), ZeroPad(ca.minutes, 2), ZeroPad(ca.seconds, 2), ZeroPad(ca.millis, 3);
      var hb, mb, sb, fb := ZeroPad(cb.hours, 2), ZeroPad(cb.minutes, 2), ZeroPad(cb.seconds, 2), ZeroPad(cb.millis, 3);
      var a1, b1 := ha + ":", hb + ":";
      var a2, b2 := a1 + ma, b1 + mb;
      var a3, b3 := a2 + ":", b2 + ":";
      var a4, b4 := a3 + sa, b3 + sb;
      var a5, b5 := a4 + ".", b4 + ".";
      assert Hms(a) == a5 + fa && Hms(b) == b5 + fb;
      if ca.hours != cb.hours || ca.minutes != cb.minutes || ca.seconds != cb.seconds {
        if ca.hours != cb.hours || ca.minutes != cb.minutes {
          if ca.hours < cb.hours {
            DigitsOrder(ha, hb);
            LexLessAppend(ha, hb, ":", ":");
            LexLessAppend(a1, b1, ma, mb);
          } else {
            DigitsOrder(ma, mb);
            LexLessPrefix(a1, ma, mb);
          }
          LexLessAppend(a2, b2, ":", ":");
          LexLessAppend(a3, b3, sa, sb);
        } else {
          DigitsOrder(sa, sb);
          LexLessPrefix(a3, sa, sb);
        }
        LexLessAppend(a4, b4, ".", ".");
        LexLessAppend(a5, b5, fa, fb);
      } else {
        DigitsOrder(fa, fb);
        LexLessPrefix(a5, fa, fb);
      }
    }
  }

  /** From 100 hours on the hour field has three digits and the order
      breaks: `100:00:00.000` sorts before `99:59:59.999`. */
  lemma {:induction false} HmsOrderBreaks()
    ensures LexLess(Hms(100 * MillisPerHour), Hms(100 * MillisPerHour - 1))
  {
    var a, b := 100 * MillisPerHour, 100 * MillisPerHour - 1;
    assert Split(a) == Clock(100, 0, 0, 0);
    assert Split(b) == Clock(99, 59, 59, 999);
    var ha, hb := ZeroPad(100, 2), ZeroPad(99, 2);
    assert Decimal(10) == Decimal(1) + ['0'];
    assert Decimal(100) == Decimal(10) + ['0'];
    assert ha == Zeros(0) + Decimal(100);
    assert ha[0] == '1';
    assert Decimal(99) == Decimal(9) + ['9'];
    assert hb == Zeros(0) + Decimal(99);
    assert hb[0] == '9';
    assert Hms(a)[0] == ha[0] && Hms(b)[0] == hb[0];
  }

  /** The worked example: 3725.4567 s is 1 h 2 min 5 s and 456.7 ms. */
  lemma {:induction false} HmsExample()
    ensures HmsOfSeconds(3725.4567) == "01:02:05.456"
  {
    assert MillisOf(3725.4567) == 3725456;
    assert Split(3725456) == Clock(1, 2, 5, 456);
    ExampleFields();
  }

  lemma {:induction false} ExampleFields()
    ensures ZeroPad(1, 2) == "01" && ZeroPad(2, 2) == "02" && ZeroPad(5, 2) == "05"
    ensures ZeroPad(456, 3) == "456"
  {
    assert Decimal(1) == "1" && Decimal(2) == "2" && Decimal(5) == "5";
    assert Decimal(456) == "456";
  }
}
