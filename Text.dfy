/** The small part of Python's string behaviour that the transcript code
    relies on: `str.lstrip()`, formatting a non-negative `int` with `{}` and
    `{:0w}`, `str.split(sep)[0]`, and the order of `<` on strings. */
module Text {

  /** Concatenation is associative; stated once so that proofs about
      recursively defined sequences can regroup without extensionality. */
  lemma {:induction false} AppendAssoc<T>(x: seq<T>, y: seq<T>, z: seq<T>)
    ensures (x + y) + z == x + (y + z)
  {
    assert |(x + y) + z| == |x + (y + z)|;
    forall i | 0 <= i < |x| + |y| + |z| ensures ((x + y) + z)[i] == (x + (y + z))[i] {
      if i < |x| + |y| { assert ((x + y) + z)[i] == (x + y)[i]; }
    }
  }

  lemma {:induction false} AppendEmpty<T>(x: seq<T>)
    ensures [] + x == x && x + [] == x
  {
    assert |[] + x| == |x|;
    forall i | 0 <= i < |x| ensures ([] + x)[i] == x[i] { }
  }

  /** `f` applied to every element, in order. */
  function Map<A, B>(f: A -> B, s: seq<A>): (r: seq<B>)
    ensures |r| == |s|
  {
    if s == [] then [] else Map(f, s[..|s| - 1]) + [f(s[|s| - 1])]
  }

  lemma {:induction false} MapIndex<A, B>(f: A -> B, s: seq<A>, k: nat)
    requires k < |s|
    ensures Map(f, s)[k] == f(s[k])
  {
    var init := s[..|s| - 1];
    if k < |init| {
      MapIndex(f, init, k);
      assert init[k] == s[k];
    }
  }

  lemma {:induction false} MapSnoc<A, B>(f: A -> B, s: seq<A>, x: A)
    ensures Map(f, s + [x]) == Map(f, s) + [f(x)]
  {
    assert (s + [x])[..|s|] == s;
  }

  /** A character that Python's `str.isspace` (and so `str.lstrip()` with no
      argument) treats as whitespace. */
  predicate IsSpace(c: char)
  {
    ('\U{9}' <= c <= '\U{D}') || ('\U{1C}' <= c <= ' ') ||
    c == '\U{85}' || c == '\U{A0}' || c == '\U{1680}' ||
    ('\U{2000}' <= c <= '\U{200A}') || c == '\U{2028}' || c == '\U{2029}' ||
    c == '\U{202F}' || c == '\U{205F}' || c == '\U{3000}'
  }

  /** `s.lstrip()`: the longest suffix of `s` that does not start with
      whitespace. Only a leading run of whitespace is removed. */
  function LStrip(s: string): (r: string)
    ensures |r| <= |s| && r == s[|s| - |r|..]
    ensures forall i :: 0 <= i < |s| - |r| ==> IsSpace(s[i])
    ensures r == [] || !IsSpace(r[0])
  {
    if s != [] && IsSpace(s[0]) then LStrip(s[1..]) else s
  }

  predicate IsDigit(c: char)
  {
    '0' <= c <= '9'
  }

  predicate AllDigits(s: string)
  {
    forall i :: 0 <= i < |s| ==> IsDigit(s[i])
  }

  function DigitChar(d: nat): (c: char)
    requires d < 10
    ensures IsDigit(c) && c as int - '0' as int == d
  {
    ('0' as int + d) as char
  }

  /** Python's `str(n)` (and `f"{n}"`) for a non-negative integer: its
      decimal digits, most significant first, with no leading zero. */
  function Decimal(n: nat): (r: string)
    ensures |r| >= 1 && AllDigits(r)
    ensures |r| > 1 ==> r[0] != '0'
  {
    if n < 10 then [DigitChar(n)] else Decimal(n / 10) + [DigitChar(n % 10)]
  }

  /** The number a string of decimal digits denotes (leading zeros allowed). */
  function DigitsValue(s: string): nat
    requires AllDigits(s)
  {
    if s == [] then 0
    else DigitsValue(s[..|s| - 1]) * 10 + (s[|s| - 1] as int - '0' as int)
  }

  function Pow10(k: nat): (p: nat)
    ensures p >= 1
  {
    if k == 0 then 1 else 10 * Pow10(k - 1)
  }

  lemma {:induction false} DecimalRoundTrip(n: nat)
    ensures DigitsValue(Decimal(n)) == n
  {
    if n >= 10 {
      DecimalRoundTrip(n / 10);
      var r := Decimal(n);
      assert r[..|r| - 1] == Decimal(n / 10);
    }
  }

  /** A number below `10^w` has at most `w` decimal digits. */
  lemma {:induction false} DecimalLength(n: nat, w: nat)
    requires 1 <= w && n < Pow10(w)
    ensures |Decimal(n)| <= w
  {
    if n >= 10 {
      DecimalLength(n / 10, w - 1);
    }
  }

  lemma {:induction false} DecimalFits(n: nat, w: nat)
    ensures 1 <= w && n < Pow10(w) ==> |Decimal(n)| <= w
  {
    if 1 <= w && n < Pow10(w) { DecimalLength(n, w); }
  }

  /** Leading zeros do not change the value of a digit string. */
  lemma {:induction false} LeadingZerosValue(k: nat, s: string)
    requires AllDigits(s)
    ensures AllDigits(Zeros(k) + s) && DigitsValue(Zeros(k) + s) == DigitsValue(s)
  {
    if s == [] {
      assert Zeros(k) + s == Zeros(k);
      ZerosValue(k);
    } else {
      var t := Zeros(k) + s;
      assert t[..|t| - 1] == Zeros(k) + s[..|s| - 1];
      LeadingZerosValue(k, s[..|s| - 1]);
    }
  }

  lemma {:induction false} ZerosValue(k: nat)
    ensures AllDigits(Zeros(k)) && DigitsValue(Zeros(k)) == 0
  {
    if k > 0 {
      assert Zeros(k)[..k - 1] == Zeros(k - 1);
      ZerosValue(k - 1);
    }
  }

  function Zeros(k: nat): (r: string)
    ensures |r| == k && forall i :: 0 <= i < k ==> r[i] == '0'
  {
    seq(k, _ => '0')
  }

  /** Python's `f"{n:0w}"` for a non-negative integer: the decimal digits of
      `n`, left-padded with zeros to width `w`; never truncated, so a number
      with more than `w` digits is printed in full. */
  function ZeroPad(n: nat, w: nat): (r: string)
    ensures |r| == if |Decimal(n)| <= w then w else |Decimal(n)|
    ensures AllDigits(r) && DigitsValue(r) == n
    ensures 1 <= w && n < Pow10(w) ==> |r| == w
  {
    var d := Decimal(n);
    var k := if |d| <= w then w - |d| else 0;
    LeadingZerosValue(k, d);
    DecimalRoundTrip(n);
    DecimalFits(n, w);
    Zeros(k) + d
  }

  /** Python's `a < b` on strings: the first differing character decides,
      and a proper prefix comes first. */
  predicate LexLess(a: string, b: string)
    decreases |a|
  {
    b != [] && (a == [] || a[0] < b[0] || (a[0] == b[0] && LexLess(a[1..], b[1..])))
  }

  /** Python's `a <= b` on strings. */
  predicate LexLe(a: string, b: string)
  {
    a == b || LexLess(a, b)
  }

  /** Whatever follows two equally long strings, their order decides. */
  lemma {:induction false} LexLessAppend(p: string, q: string, r: string, s: string)
    requires |p| == |q| && LexLess(p, q)
    ensures LexLess(p + r, q + s)
  {
    assert (p + r)[0] == p[0] && (q + s)[0] == q[0];
    if p[0] == q[0] {
      assert (p + r)[1..] == p[1..] + r;
      assert (q + s)[1..] == q[1..] + s;
      LexLessAppend(p[1..], q[1..], r, s);
    }
  }

  /** A common prefix leaves the order of what follows it unchanged. */
  lemma {:induction false} LexLessPrefix(p: string, r: string, s: string)
    requires LexLess(r, s)
    ensures LexLess(p + r, p + s)
  {
    if p == [] {
      AppendEmpty(r);
      AppendEmpty(s);
    } else {
      assert (p + r)[0] == p[0] && (p + s)[0] == p[0];
      assert (p + r)[1..] == p[1..] + r;
      assert (p + s)[1..] == p[1..] + s;
      LexLessPrefix(p[1..], r, s);
    }
  }

  /** Two digit strings of one length with the same value are the same. */
  lemma {:induction false} DigitsInjective(a: string, b: string)
    requires |a| == |b| && AllDigits(a) && AllDigits(b)
    requires DigitsValue(a) == DigitsValue(b)
    ensures a == b
  {
    if a != [] {
      var n := |a|;
      var a', b' := a[..n - 1], b[..n - 1];
      assert AllDigits(a') && AllDigits(b');
      var x, y := a[n - 1] as int - '0' as int, b[n - 1] as int - '0' as int;
      assert DigitsValue(a') * 10 + x == DigitsValue(b') * 10 + y;
      assert DigitsValue(a') == DigitsValue(b') && x == y;
      DigitsInjective(a', b');
      assert a == a' + [a[n - 1]] && b == b' + [b[n - 1]];
    }
  }

  /** Among digit strings of one length, a smaller value is a string that
      sorts first, so zero-padded numbers sort as text the way they sort as
      numbers. */
  lemma {:induction false} DigitsOrder(a: string, b: string)
    requires |a| == |b| && AllDigits(a) && AllDigits(b)
    requires DigitsValue(a) < DigitsValue(b)
    ensures LexLess(a, b)
  {
    var n := |a|;
    var a', b' := a[..n - 1], b[..n - 1];
    assert AllDigits(a') && AllDigits(b');
    var x, y := a[n - 1] as int - '0' as int, b[n - 1] as int - '0' as int;
    assert DigitsValue(a') * 10 + x < DigitsValue(b') * 10 + y;
    assert a == a' + [a[n - 1]] && b == b' + [b[n - 1]];
    if DigitsValue(a') < DigitsValue(b') {
      DigitsOrder(a', b');
      LexLessAppend(a', b', [a[n - 1]], [b[n - 1]]);
    } else {
      assert DigitsValue(a') == DigitsValue(b') && x < y;
      DigitsInjective(a', b');
      assert LexLess([a[n - 1]], [b[n - 1]]);
      LexLessPrefix(a', [a[n - 1]], [b[n - 1]]);
    }
  }

  /** `s.split(sep)[0]`: everything before the first `sep`, or all of `s`
      when it has none. */
  function BeforeFirst(s: string, sep: char): (p: string)
    ensures |p| <= |s| && p == s[..|p|]
    ensures sep !in p
    ensures |p| == |s| || s[|p|] == sep
  {
    if s == [] || s[0] == sep then [] else [s[0]] + BeforeFirst(s[1..], sep)
  }

  /** The field before the first separator is exactly the part written
      before it, when that part holds no separator. */
  lemma {:induction false} BeforeFirstOf(p: string, sep: char, rest: string)
    requires sep !in p
    ensures BeforeFirst(p + [sep] + rest, sep) == p
  {
    var s := p + [sep] + rest;
    if p != [] {
      assert s[0] == p[0] && s[1..] == p[1..] + [sep] + rest;
      BeforeFirstOf(p[1..], sep, rest);
      assert [p[0]] + p[1..] == p;
    }
  }
}
