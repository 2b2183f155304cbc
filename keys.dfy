/**
 * Archive key names of the off-memory buckets: the ride file's stem, `_no`,
 * the bucket index zero-filled to five digits, and `_bucket_incident` or
 * `_bucket` depending on the label; rotated copies replace the suffix.
 */
module BucketKeys {

  predicate IsDigit(c: char) {
    '0' <= c <= '9'
  }

  predicate AllDigits(s: string) {
    forall i :: 0 <= i < |s| ==> IsDigit(s[i])
  }

  function DigitChar(d: nat): (c: char)
    requires d < 10
    ensures IsDigit(c) && c as int - '0' as int == d
  {
    (d + '0' as int) as char
  }

  /** `str(n)` for a natural number: decimal digits without leading zeros. */
  function Digits(n: nat): (s: string)
    ensures |s| > 0 && AllDigits(s)
    ensures s[0] == '0' ==> n == 0
  {
    if n < 10 then [DigitChar(n)] else Digits(n / 10) + [DigitChar(n % 10)]
  }

  /** The number a string of decimal digits denotes (leading zeros allowed). */
  function ParseDigits(s: string): nat
    requires AllDigits(s)
  {
    if s == [] then 0
    else 10 * ParseDigits(s[..|s| - 1]) + (s[|s| - 1] as int - '0' as int)
  }

  /** `str.zfill(width)`: left-padded with zeros to at least `width` characters. */
  function ZFill(s: string, width: nat): (o: string)
    ensures |o| == if |s| < width then width else |s|
    ensures o[|o| - |s|..] == s
    ensures forall i :: 0 <= i < |o| - |s| ==> o[i] == '0'
  {
    if |s| < width then seq(width - |s|, _ => '0') + s else s
  }

  /** Reading back the digits of `n` gives `n`. */
  lemma {:induction false} ParseDigitsOfDigits(n: nat)
    ensures ParseDigits(Digits(n)) == n
  {
    if n >= 10 {
      ParseDigitsOfDigits(n / 10);
      var d := Digits(n);
      assert d[..|d| - 1] == Digits(n / 10);
    }
  }

  /** A leading zero does not change the value. */
  lemma {:induction false} LeadingZeroIsIgnored(s: string)
    requires AllDigits(s)
    ensures ParseDigits(['0'] + s) == ParseDigits(s)
  {
    if s != [] {
      var z := ['0'] + s;
      assert z[..|z| - 1] == ['0'] + s[..|s| - 1];
      LeadingZeroIsIgnored(s[..|s| - 1]);
    }
  }

  lemma {:induction false} LeadingZerosAreIgnored(k: nat, s: string)
    requires AllDigits(s)
    ensures AllDigits(seq(k, _ => '0') + s)
    ensures ParseDigits(seq(k, _ => '0') + s) == ParseDigits(s)
  {
    if k > 0 {
      LeadingZerosAreIgnored(k - 1, s);
      var rest := seq(k - 1, _ => '0') + s;
      assert seq(k, _ => '0') + s == ['0'] + rest;
      LeadingZeroIsIgnored(rest);
    } else {
      assert seq(k, _ => '0') + s == s;
    }
  }

  /** The zero-filled index reads back as the index. */
  lemma ZFillRoundTrip(n: nat, width: nat)
    ensures AllDigits(ZFill(Digits(n), width))
    ensures ParseDigits(ZFill(Digits(n), width)) == n
  {
    var d := Digits(n);
    ParseDigitsOfDigits(n);
    if |d| < width {
      LeadingZerosAreIgnored(width - |d|, d);
    }
  }

  function Suffix(incident: bool): string {
    if incident then "_bucket_incident" else "_bucket"
  }

  /** The key of bucket `i` of the ride file with stem `stem`. */
  function BucketKey(stem: string, i: nat, incident: bool): (k: string)
  {
    stem + "_no" + ZFill(Digits(i), 5) + Suffix(incident)
  }

  /** Length of the leading run of digits. */
  function DigitRun(s: string): (n: nat)
    ensures n <= |s| && AllDigits(s[..n])
  {
    if s == [] || !IsDigit(s[0]) then 0
    else
      var r := DigitRun(s[1..]);
      assert s[..r + 1] == [s[0]] + s[1..][..r];
      r + 1
  }

  lemma {:induction false} DigitRunStopsAtSuffix(d: string, u: string)
    requires AllDigits(d) && |u| > 0 && !IsDigit(u[0])
    ensures DigitRun(d + u) == |d|
  {
    if d != [] {
      assert (d + u)[1..] == d[1..] + u;
      DigitRunStopsAtSuffix(d[1..], u);
    } else {
      assert (d + u)[0] == u[0];
    }
  }

  /** A run of digits followed by a non-digit splits one way only. */
  lemma DigitsThenSuffixSplit(d1: string, u1: string, d2: string, u2: string)
    requires AllDigits(d1) && |u1| > 0 && !IsDigit(u1[0])
    requires AllDigits(d2) && |u2| > 0 && !IsDigit(u2[0])
    requires d1 + u1 == d2 + u2
    ensures d1 == d2 && u1 == u2
  {
    DigitRunStopsAtSuffix(d1, u1);
    DigitRunStopsAtSuffix(d2, u2);
    assert d1 == (d1 + u1)[..|d1|];
    assert d2 == (d2 + u2)[..|d2|];
    assert u1 == (d1 + u1)[|d1|..];
    assert u2 == (d2 + u2)[|d2|..];
  }

  lemma BucketKeyTail(stem: string, i: nat, a: bool)
    ensures BucketKey(stem, i, a)[|stem| + 3..] == ZFill(Digits(i), 5) + Suffix(a)
  {
    assert BucketKey(stem, i, a) == (stem + "_no") + (ZFill(Digits(i), 5) + Suffix(a));
  }

  /** Within one ride file, different buckets have different keys, and the key tells the label. */
  lemma BucketKeyIsInjective(stem: string, i: nat, j: nat, a: bool, b: bool)
    requires BucketKey(stem, i, a) == BucketKey(stem, j, b)
    ensures i == j && a == b
  {
    BucketKeyTail(stem, i, a);
    BucketKeyTail(stem, j, b);
    ZFillRoundTrip(i, 5);
    ZFillRoundTrip(j, 5);
    DigitsThenSuffixSplit(ZFill(Digits(i), 5), Suffix(a), ZFill(Digits(j), 5), Suffix(b));
  }

  /** `s.replace(pat, '')`: left to right, non-overlapping occurrences removed. */
  function RemoveAll(s: string, pat: string): (o: string)
    requires |pat| > 0
    ensures |o| <= |s|
  {
    if |s| < |pat| then s
    else if s[..|pat|] == pat then RemoveAll(s[|pat|..], pat)
    else [s[0]] + RemoveAll(s[1..], pat)
  }

  /** The key of a copy rotated about `axis` ('X', 'Y' or 'Z'). */
  function RotatedKey(key: string, axis: char): (k: string)
    ensures |k| >= |Suffix(true)| && k[|k| - |Suffix(true)|..] == Suffix(true)
  {
    RemoveAll(key, "_bucket_incident") + "_rotated_" + [axis] + "_bucket_incident"
  }

  /** The three rotated copies of a bucket get three different keys. */
  lemma RotatedKeysDiffer(key: string, a: char, b: char)
    requires a != b
    ensures RotatedKey(key, a) != RotatedKey(key, b)
  {
    var base := RemoveAll(key, "_bucket_incident") + "_rotated_";
    assert RotatedKey(key, a)[|base|] == a;
    assert RotatedKey(key, b)[|base|] == b;
  }
}
