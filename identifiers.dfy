/**
 * The naming scheme of `web_crawler` (web_crawlar/script.py:48, 70): seed
 * number `k` (counted from 0) is named `"url" + str(k + 1)`, and the `i`-th
 * link taken from a page (counted from 1) is named after the page's name
 * followed by `str(i)`.
 */
module Identifiers {
  import opened Text

  function DigitChar(d: nat): (c: char)
    requires d < 10
    ensures IsDigit(c)
  {
    (48 + d) as char
  }

  /** `str(n)` for a natural number: decimal digits, with a leading `0` only for `0` itself. */
  function DecimalString(n: nat): (s: string)
    ensures |s| >= 1 && forall i :: 0 <= i < |s| ==> IsDigit(s[i])
    ensures s[0] == '0' <==> n == 0
    decreases n
  {
    if n < 10 then [DigitChar(n)]
    else
      var high := DecimalString(n / 10);
      assert (high + [DigitChar(n % 10)])[0] == high[0];
      high + [DigitChar(n % 10)]
  }

  predicate IsDigits(s: string) { forall i :: 0 <= i < |s| ==> IsDigit(s[i]) }

  /** `int(s)` for a string of decimal digits. */
  function DigitsValue(s: string): nat
    requires IsDigits(s)
  {
    if s == [] then 0 else DigitsValue(s[..|s| - 1]) * 10 + (s[|s| - 1] as int - 48)
  }

  /** `int(str(n)) == n` */
  lemma {:induction false} DecimalRoundTrip(n: nat)
    ensures DigitsValue(DecimalString(n)) == n
    decreases n
  {
    if n >= 10 {
      var s := DecimalString(n);
      assert s[..|s| - 1] == DecimalString(n / 10);
      DecimalRoundTrip(n / 10);
    }
  }

  /** `f"url{idx+1}"` */
  function SeedId(k: nat): string { "url" + DecimalString(k + 1) }

  /** `f"{identifier}{i}"` */
  function ChildId(parent: string, rank: nat): string { parent + DecimalString(rank) }

  /** A sequence of ranks taken from pages that yield at most two links. */
  predicate IsRankPath(p: string) { forall i :: 0 <= i < |p| ==> p[i] == '1' || p[i] == '2' }

  /** Seeds get different names. */
  lemma SeedIdsDistinct(k1: nat, k2: nat)
    requires k1 != k2
    ensures SeedId(k1) != SeedId(k2)
  {
    if SeedId(k1) == SeedId(k2) {
      assert DecimalString(k1 + 1) == SeedId(k1)[3..];
      DecimalRoundTrip(k1 + 1);
      DecimalRoundTrip(k2 + 1);
    }
  }

  /**
   * With at most ten seeds, a name determines its seed and its path of
   * ranks: `"url10"` is the only two-digit seed name, and no rank is `0`.
   */
  lemma UniqueUpToTenSeeds(k1: nat, p1: string, k2: nat, p2: string)
    requires k1 < 10 && k2 < 10
    requires IsRankPath(p1) && IsRankPath(p2)
    requires SeedId(k1) + p1 == SeedId(k2) + p2
    ensures k1 == k2 && p1 == p2
  {
    var x := SeedId(k1) + p1;
    SeedIdChars(k1, p1);
    SeedIdChars(k2, p2);
    if k1 < 9 && k2 < 9 {
      assert DigitChar(k1 + 1) == DigitChar(k2 + 1);
      assert p1 == x[4..] == p2;
    } else if k1 == 9 && k2 == 9 {
      assert p1 == x[5..] == p2;
    } else {
      assert false;
    }
  }

  /** The characters after `"url"` in a name below the eleventh seed. */
  lemma SeedIdChars(k: nat, p: string)
    requires k < 10
    ensures var x := SeedId(k) + p;
            && (k < 9 ==> |x| == 4 + |p| && x[3] == DigitChar(k + 1) && x[4..] == p && (|p| > 0 ==> x[4] == p[0]))
            && (k == 9 ==> |x| == 5 + |p| && x[3] == '1' && x[4] == '0' && x[5..] == p)
  {
    assert DecimalString(10) == "10";
  }

  /** From the eleventh seed on names collide: seed 11 is called like the first link of seed 1. */
  lemma EleventhSeedCollides()
    ensures SeedId(10) == ChildId(SeedId(0), 1)
  {
    assert DecimalString(11) == "11";
  }
}
