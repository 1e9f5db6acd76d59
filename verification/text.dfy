/** String helpers the scripts rely on: Python's `str(n)` for a natural
    number, `str.zfill`, and "does this name contain that tag". */
module Text {

  // ---------------------------------------------------------------------
  // Decimal digits
  // ---------------------------------------------------------------------

  predicate IsDigit(c: char) { '0' <= c <= '9' }

  predicate AllDigits(s: string) {
    forall i | 0 <= i < |s| :: IsDigit(s[i])
  }

  function DigitChar(d: nat): (c: char)
    requires d < 10
    ensures IsDigit(c) && c as int - '0' as int == d
  {
    (d + '0' as int) as char
  }

  /** Python's `str(n)` for a non-negative integer: its decimal digits,
      most significant first, with no leading zero (except for 0 itself). */
  function DecimalString(n: nat): (s: string)
    ensures |s| >= 1 && AllDigits(s)
    ensures |s| > 1 ==> s[0] != '0'
    decreases n
  {
    if n < 10 then [DigitChar(n)] else DecimalString(n / 10) + [DigitChar(n % 10)]
  }

  /** The number a string of decimal digits denotes (the inverse of
      DecimalString, and of Python's `int(s)` on such a string). */
  function DigitsValue(s: string): nat
    requires AllDigits(s)
    decreases |s|
  {
    if s == [] then 0
    else DigitsValue(s[..|s| - 1]) * 10 + (s[|s| - 1] as int - '0' as int)
  }

  function Zeros(k: nat): (z: string)
    ensures |z| == k && AllDigits(z)
  {
    seq(k, _ => '0')
  }

  /** Python's `str.zfill(width)`: pad on the left with '0' up to `width`
      characters, keeping a leading sign in front of the padding; a string
      already at least `width` long is returned unchanged. */
  function ZFill(s: string, width: int): (r: string)
    ensures |r| == if |s| >= width then |s| else width
    ensures |s| >= width ==> r == s
  {
    if |s| >= width then s
    else if |s| > 0 && (s[0] == '+' || s[0] == '-') then [s[0]] + Zeros(width - |s|) + s[1..]
    else Zeros(width - |s|) + s
  }

  function Pow10(k: nat): (p: nat)
    ensures p >= 1
  {
    if k == 0 then 1 else 10 * Pow10(k - 1)
  }

  lemma {:induction false} DecimalRoundTrip(n: nat)
    ensures DigitsValue(DecimalString(n)) == n
    decreases n
  {
    var s := DecimalString(n);
    if n >= 10 {
      var hi := DecimalString(n / 10);
      assert s[..|s| - 1] == hi;
      DecimalRoundTrip(n / 10);
    }
  }

  /** A number below 10^k needs at most k digits (k >= 1). */
  lemma {:induction false} DecimalLength(n: nat, k: nat)
    requires k >= 1 && n < Pow10(k)
    ensures |DecimalString(n)| <= k
    decreases n
  {
    if n >= 10 {
      assert k >= 2;
      assert n / 10 < Pow10(k - 1);
      DecimalLength(n / 10, k - 1);
    }
  }

  /** Leading zeros do not change the value of a digit string. */
  lemma {:induction false} LeadingZerosValue(k: nat, s: string)
    requires AllDigits(s)
    ensures AllDigits(Zeros(k) + s) && DigitsValue(Zeros(k) + s) == DigitsValue(s)
    decreases |s| + k
  {
    var z := Zeros(k);
    if s == [] {
      assert z + s == z;
      if k > 0 {
        assert z[..k - 1] == Zeros(k - 1);
        LeadingZerosValue(k - 1, []);
        assert Zeros(k - 1) + [] == Zeros(k - 1);
      }
    } else {
      assert (z + s)[..|z + s| - 1] == z + s[..|s| - 1];
      LeadingZerosValue(k, s[..|s| - 1]);
    }
  }

  /** zfill of a digit string keeps it a digit string of the same value. */
  lemma ZFillDigits(s: string, width: int)
    requires AllDigits(s) && |s| >= 1
    ensures AllDigits(ZFill(s, width)) && DigitsValue(ZFill(s, width)) == DigitsValue(s)
  {
    if |s| < width {
      assert s[0] != '+' && s[0] != '-';
      LeadingZerosValue(width - |s|, s);
    }
  }

  // ---------------------------------------------------------------------
  // Occurrence of a tag inside a name
  // ---------------------------------------------------------------------

  predicate OccursAt(t: string, s: string, i: int) {
    0 <= i && i + |t| <= |s| && s[i..i + |t|] == t
  }

  /** `t in s` for Python strings: t is a contiguous block of s. */
  ghost predicate Occurs(t: string, s: string) {
    exists i :: OccursAt(t, s, i)
  }

  lemma OccursInside(a: string, t: string, b: string)
    ensures Occurs(t, a + t + b)
  {
    assert (a + t + b)[|a|..|a| + |t|] == t;
    assert OccursAt(t, a + t + b, |a|);
  }

  /** A tag found in a name is still found after a prefix is put before
      the name. */
  lemma OccursInPrefixed(a: string, t: string, s: string)
    requires Occurs(t, s)
    ensures Occurs(t, a + s)
  {
    var i :| OccursAt(t, s, i);
    assert (a + s)[|a| + i..|a| + i + |t|] == s[i..i + |t|];
    assert OccursAt(t, a + s, |a| + i);
  }

  /** A tag cannot occur in a name lacking one of the tag's characters. */
  lemma AbsentChar(t: string, s: string, c: char)
    requires c in t && c !in s
    ensures !Occurs(t, s)
  {
  }

  /** No position of `s` holds `x` immediately followed by `y`. */
  ghost predicate NoPair(s: string, x: char, y: char) {
    forall i | 0 <= i < |s| - 1 :: !(s[i] == x && s[i + 1] == y)
  }

  /** A tag cannot occur in a name lacking the tag's first two characters
      side by side. */
  lemma AbsentPair(t: string, s: string)
    requires |t| >= 2 && NoPair(s, t[0], t[1])
    ensures !Occurs(t, s)
  {
  }

  lemma NoPairConcat(a: string, b: string, x: char, y: char)
    requires NoPair(a, x, y) && NoPair(b, x, y)
    requires a != [] && b != [] ==> !(a[|a| - 1] == x && b[0] == y)
    ensures NoPair(a + b, x, y)
  {
    forall i | 0 <= i < |a + b| - 1
      ensures !((a + b)[i] == x && (a + b)[i + 1] == y)
    {
      if i + 1 < |a| {
        assert (a + b)[i] == a[i] && (a + b)[i + 1] == a[i + 1];
      } else if i >= |a| {
        assert (a + b)[i] == b[i - |a|] && (a + b)[i + 1] == b[i - |a| + 1];
      }
    }
  }
}
