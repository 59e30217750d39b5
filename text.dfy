/**
 * The handful of Python string operations the crawlers rely on:
 * str.split with an explicit separator, startswith/endswith, str(n) and
 * int(s) on non-negative decimals, '%0Nd' padding, str.zfill and
 * str.lstrip of one character.
 */
module Text {
  import opened Base

  predicate IsDigit(c: char) { '0' <= c <= '9' }

  predicate AllDigits(s: string) { forall i :: 0 <= i < |s| ==> IsDigit(s[i]) }

  function DigitChar(d: nat): (c: char)
    requires d < 10
    ensures IsDigit(c) && c as int - '0' as int == d
  {
    (d + '0' as int) as char
  }

  function Pow10(w: nat): (p: nat)
    ensures p >= 1
  {
    if w == 0 then 1 else 10 * Pow10(w - 1)
  }

  lemma Pow10Values()
    ensures Pow10(2) == 100 && Pow10(4) == 10000
  {
    assert Pow10(1) == 10;
    assert Pow10(3) == 1000;
  }

  /** The value of a string of decimal digits, most significant first. */
  function DigitsValue(s: string): nat
    requires AllDigits(s)
    decreases |s|
  {
    if s == [] then 0
    else 10 * DigitsValue(s[..|s| - 1]) + (s[|s| - 1] as int - '0' as int)
  }

  /** str(n) for n >= 0: the shortest decimal rendering, no leading zero. */
  function Str(n: nat): (s: string)
    ensures 1 <= |s| && AllDigits(s)
    ensures DigitsValue(s) == n
    ensures s[0] == '0' ==> n == 0 && s == "0"
    decreases n
  {
    if n < 10 then [DigitChar(n)]
    else
      var s := Str(n / 10) + [DigitChar(n % 10)];
      assert s[..|s| - 1] == Str(n / 10);
      s
  }

  /**
   * int(s) on a string of ASCII digits; every other string raises
   * ValueError (the empty string included).
   */
  function ParseNat(s: string): Result<nat>
  {
    if |s| > 0 && AllDigits(s) then Ok(DigitsValue(s)) else Err(ValueError)
  }

  /** int(str(n)) == n. */
  lemma ParseStr(n: nat)
    ensures ParseNat(Str(n)) == Ok(n)
  {
  }

  /** '%0{w}d' % v for 0 <= v < 10^w: exactly w digits, worth v. */
  function Pad(v: nat, w: nat): (s: string)
    requires v < Pow10(w)
    ensures |s| == w && AllDigits(s)
    ensures DigitsValue(s) == v
    decreases w
  {
    if w == 0 then []
    else
      var s := Pad(v / 10, w - 1) + [DigitChar(v % 10)];
      assert s[..|s| - 1] == Pad(v / 10, w - 1);
      s
  }

  /** The remainder is the only c in [0, m) with v == a * m + c. */
  lemma ModUnique(v: int, m: int, a: int, c: int)
    requires m > 0 && 0 <= c < m && v == a * m + c
    ensures v % m == c
  {
    var a', c' := v / m, v % m;
    assert (a - a') * m == c' - c;
    if a - a' >= 1 {
      MulAtLeast(a - a', m);
    } else if a' - a >= 1 {
      MulAtLeast(a' - a, m);
    }
  }

  lemma MulAtLeast(k: int, m: int)
    requires k >= 1 && m > 0
    ensures k * m >= m
  {
  }

  /** Leading zeros do not change the value of a digit string. */
  lemma {:induction false} ZerosPrefixValue(k: nat, s: string)
    requires AllDigits(s)
    ensures AllDigits(Zeros(k) + s)
    ensures DigitsValue(Zeros(k) + s) == DigitsValue(s)
    decreases |s|, k
  {
    if s == [] {
      assert Zeros(k) + s == Zeros(k);
      ZerosValue(k);
    } else {
      var t := Zeros(k) + s;
      assert t[..|t| - 1] == Zeros(k) + s[..|s| - 1];
      ZerosPrefixValue(k, s[..|s| - 1]);
    }
  }

  lemma {:induction false} ZerosValue(k: nat)
    ensures AllDigits(Zeros(k)) && DigitsValue(Zeros(k)) == 0
  {
    if k > 0 {
      assert Zeros(k)[..k - 1] == Zeros(k - 1);
      ZerosValue(k - 1);
    }
  }

  function Zeros(k: nat): (z: string)
    ensures |z| == k && forall i :: 0 <= i < k ==> z[i] == '0'
  {
    seq(k, _ => '0')
  }

  /** str.zfill(w) of a string without a sign: left-filled with '0' up to w. */
  function ZFill(s: string, w: nat): (r: string)
    ensures |r| == if |s| >= w then |s| else w
    ensures r[|r| - |s|..] == s
    ensures forall i :: 0 <= i < |r| - |s| ==> r[i] == '0'
  {
    if |s| >= w then s else Zeros(w - |s|) + s
  }

  /** str(i).zfill(w) still reads back as i, and is never truncated. */
  lemma ZFillStr(i: nat, w: nat)
    ensures AllDigits(ZFill(Str(i), w))
    ensures DigitsValue(ZFill(Str(i), w)) == i
    ensures |ZFill(Str(i), w)| == if |Str(i)| >= w then |Str(i)| else w
  {
    if |Str(i)| < w {
      ZerosPrefixValue(w - |Str(i)|, Str(i));
    }
  }

  /** s.lstrip(c) for a single character c. */
  function LStrip(s: string, c: char): (r: string)
    ensures |r| <= |s| && r == s[|s| - |r|..]
    ensures forall i :: 0 <= i < |s| - |r| ==> s[i] == c
    ensures r == [] || r[0] != c
    decreases |s|
  {
    if |s| > 0 && s[0] == c then LStrip(s[1..], c) else s
  }

  predicate StartsWith(s: string, prefix: string)
  {
    |prefix| <= |s| && s[..|prefix|] == prefix
  }

  predicate EndsWith(s: string, suffix: string)
  {
    |suffix| <= |s| && s[|s| - |suffix|..] == suffix
  }

  /** s.split(c): the maximal pieces between occurrences of c, in order. */
  function Split(s: string, c: char): (parts: seq<string>)
    ensures |parts| >= 1
    ensures forall k :: 0 <= k < |parts| ==> c !in parts[k]
    decreases |s|
  {
    if |s| == 0 then [""]
    else
      var rest := Split(s[1..], c);
      if s[0] == c then [""] + rest
      else [[s[0]] + rest[0]] + rest[1..]
  }

  /** A string without the separator splits into itself alone. */
  lemma {:induction false} SplitWithout(s: string, c: char)
    requires c !in s
    ensures Split(s, c) == [s]
    decreases |s|
  {
    if |s| > 0 {
      SplitWithout(s[1..], c);
      assert [s[0]] + s[1..] == s;
    }
  }

  /** The first separator cuts off the first piece. */
  lemma {:induction false} SplitAt(a: string, c: char, b: string)
    requires c !in a
    ensures Split(a + [c] + b, c) == [a] + Split(b, c)
    decreases |a|
  {
    var s := a + [c] + b;
    if |a| == 0 {
      assert s[1..] == b;
    } else {
      assert s[1..] == a[1..] + [c] + b;
      SplitAt(a[1..], c, b);
      assert [a[0]] + a[1..] == a;
    }
  }

  /** The string of digits never holds a separator like '-' or ','. */
  lemma DigitsHaveNo(s: string, c: char)
    requires AllDigits(s) && !IsDigit(c)
    ensures c !in s
  {
  }

  /** Three fields joined by a separator none of them holds split back into the fields. */
  lemma SplitFields(a: string, b: string, d: string, c: char)
    requires c !in a && c !in b && c !in d
    ensures Split(a + [c] + b + [c] + d, c) == [a, b, d]
  {
    SplitWithout(d, c);
    SplitAt(b, c, d);
    SplitAt(a, c, b + [c] + d);
    assert a + [c] + b + [c] + d == a + [c] + (b + [c] + d);
  }

  /** int(s.lstrip('0')) reads a digit string with a nonzero value as that value. */
  lemma LStripZerosValue(s: string)
    requires AllDigits(s) && DigitsValue(s) >= 1
    ensures ParseNat(LStrip(s, '0')) == Ok(DigitsValue(s))
  {
    var r := LStrip(s, '0');
    var k := |s| - |r|;
    assert s == Zeros(k) + r;
    assert AllDigits(r);
    ZerosPrefixValue(k, r);
  }
}
