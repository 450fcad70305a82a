/** An optional value: JavaScript's `undefined`/`null` versus a present value. */
module Wrappers {
  datatype Option<+T> = None | Some(value: T)
}

/**
  The few string operations the shell relies on: `startsWith`, `endsWith`,
  the ASCII part of `toLowerCase`, and `s.split(sep).pop()` (the segment after
  the last separator).  Strings are sequences of UTF-16 code units in the
  source; here they are `seq<char>`, sequences of Unicode scalar values.
 */
module Strings {

  predicate StartsWith(s: string, prefix: string) {
    |prefix| <= |s| && s[..|prefix|] == prefix
  }

  predicate EndsWith(s: string, suffix: string) {
    |suffix| <= |s| && s[|s| - |suffix|..] == suffix
  }

  predicate IsUpperAscii(c: char) {
    'A' <= c <= 'Z'
  }

  predicate IsAsciiLetter(c: char) {
    'A' <= c <= 'Z' || 'a' <= c <= 'z'
  }

  function LowerChar(c: char): char {
    if IsUpperAscii(c) then (c as int + 32) as char else c
  }

  /** `toLowerCase`, on the ASCII letters (see README for why that is enough here). */
  function Lower(s: string): (r: string)
    ensures |r| == |s|
    ensures forall i :: 0 <= i < |s| ==> r[i] == LowerChar(s[i])
  {
    seq(|s|, i requires 0 <= i < |s| => LowerChar(s[i]))
  }

  lemma LowerConcat(a: string, b: string)
    ensures Lower(a + b) == Lower(a) + Lower(b)
  {
  }

  /** Lower-casing a second time changes nothing. */
  lemma LowerIdempotent(s: string)
    ensures Lower(Lower(s)) == Lower(s)
  {
  }

  /**
    `s.split(sep).pop()`: `split` always yields at least one piece, and the
    last piece is the longest suffix of `s` that contains no `sep`.  The three
    postconditions determine the result uniquely.
   */
  function LastSegment(s: string, sep: char): (r: string)
    ensures sep !in r
    ensures |r| <= |s| && r == s[|s| - |r|..]
    ensures |r| < |s| ==> s[|s| - |r| - 1] == sep
    decreases |s|
  {
    if s == [] || s[|s| - 1] == sep then []
    else LastSegment(s[..|s| - 1], sep) + [s[|s| - 1]]
  }

  /** A string without the separator is its own last segment. */
  lemma LastSegmentWhole(s: string, sep: char)
    requires sep !in s
    ensures LastSegment(s, sep) == s
  {
  }

  /**
    A suffix that ends a separator-free run at the front (it is all of `s`
    or follows a separator) is at least as long as any separator-free suffix.
   */
  lemma SegmentBound(s: string, sep: char, r: string, q: string)
    requires |r| <= |s| && (|r| < |s| ==> s[|s| - |r| - 1] == sep)
    requires sep !in q && |q| <= |s| && q == s[|s| - |q|..]
    ensures |q| <= |r|
  {
    if |r| < |q| {
      assert false;
    }
  }

  /** The last segment is the only separator-free suffix that is all of `s` or follows a separator. */
  lemma LastSegmentUnique(s: string, sep: char, r: string)
    requires sep !in r && |r| <= |s| && r == s[|s| - |r|..]
    requires |r| < |s| ==> s[|s| - |r| - 1] == sep
    ensures LastSegment(s, sep) == r
  {
    var q := LastSegment(s, sep);
    SegmentBound(s, sep, r, q);
    SegmentBound(s, sep, q, r);
  }

  lemma LowerCharIsSep(c: char, sep: char)
    requires !IsAsciiLetter(sep)
    ensures LowerChar(c) == sep <==> c == sep
  {
  }

  /**
    Taking the last segment commutes with lower-casing when the separator is
    not a letter: this is what makes an extension test case-insensitive.
   */
  lemma {:induction false} LastSegmentLower(s: string, sep: char)
    requires !IsAsciiLetter(sep)
    ensures LastSegment(Lower(s), sep) == Lower(LastSegment(s, sep))
  {
    var seg := LastSegment(s, sep);
    var t, r := Lower(s), Lower(seg);
    var n := |s| - |seg|;
    forall k | 0 <= k < |r|
      ensures r[k] == t[n + k] && r[k] != sep
    {
      assert seg[k] == s[n + k];
      LowerCharIsSep(seg[k], sep);
    }
    assert r == t[n..];
    if n > 0 {
      LowerCharIsSep(s[n - 1], sep);
    }
    LastSegmentUnique(t, sep, r);
  }


  /** One decimal digit. */
  function DigitChar(d: nat): (c: char)
    requires d < 10
    ensures '0' <= c <= '9'
  {
    (48 + d) as char
  }

  /** The decimal numeral of `n`, without leading zeros. */
  function Decimal(n: nat): (r: string)
    ensures |r| > 0
    ensures forall i :: 0 <= i < |r| ==> '0' <= r[i] <= '9'
    ensures |r| > 1 ==> r[0] != '0'
    decreases n
  {
    if n < 10 then [DigitChar(n)] else Decimal(n / 10) + [DigitChar(n % 10)]
  }

  /** The value of a string of decimal digits. */
  function ParseDigits(s: string): nat
    requires forall i :: 0 <= i < |s| ==> '0' <= s[i] <= '9'
    decreases |s|
  {
    if s == [] then 0
    else ParseDigits(s[..|s| - 1]) * 10 + (s[|s| - 1] as int - 48)
  }

  /** Reading a numeral back gives the number that was written. */
  lemma {:induction false} ParseDecimal(n: nat)
    ensures ParseDigits(Decimal(n)) == n
    decreases n
  {
    if n >= 10 {
      var d := Decimal(n);
      assert d[..|d| - 1] == Decimal(n / 10);
      ParseDecimal(n / 10);
    }
  }

  /** A string of decimal digits: non-empty, and with no leading zero unless it is `0` itself. */
  predicate IsNumeral(s: string) {
    && s != []
    && (forall i :: 0 <= i < |s| ==> '0' <= s[i] <= '9')
    && (|s| == 1 || s[0] != '0')
  }

  lemma {:induction false} ParseLeadingNonZero(s: string)
    requires s != [] && s[0] != '0'
    requires forall i :: 0 <= i < |s| ==> '0' <= s[i] <= '9'
    ensures ParseDigits(s) > 0
    decreases |s|
  {
    if |s| > 1 {
      var init := s[..|s| - 1];
      assert init[0] == s[0];
      ParseLeadingNonZero(init);
    }
  }

  /** Every numeral is the one `Decimal` writes for its value. */
  lemma {:induction false} DecimalOfNumeral(s: string)
    requires IsNumeral(s)
    ensures Decimal(ParseDigits(s)) == s
    decreases |s|
  {
    var init, c := s[..|s| - 1], s[|s| - 1];
    var d := c as int - 48;
    var n := ParseDigits(s);
    assert n == ParseDigits(init) * 10 + d;
    if |s| == 1 {
      assert init == [];
      assert [DigitChar(d)] == [c];
    } else {
      assert init[0] == s[0];
      ParseLeadingNonZero(init);
      DecimalOfNumeral(init);
      assert n / 10 == ParseDigits(init) && n % 10 == d;
      assert DigitChar(d) == c;
      assert s == init + [c];
    }
  }
}
