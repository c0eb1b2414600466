/**
 * Character classes of Python's `re` module and the scanning primitives the
 * regular expressions of the crawler are built from.
 *
 * `\w`, `\d` and `\s` are modelled on ASCII: `\w` is a letter, a digit or `_`,
 * `\d` a decimal digit, and `\s` the characters `str.isspace()` accepts below
 * 128 (tab to carriage return, the four separators 0x1C to 0x1F, space).
 */
module Text {
  import opened Wrappers

  /** `\d` */
  predicate IsDigit(c: char) { '0' <= c <= '9' }

  /** `\w` */
  predicate IsWord(c: char) { 'a' <= c <= 'z' || 'A' <= c <= 'Z' || IsDigit(c) || c == '_' }

  /** `\s`, and what `str.strip()` removes */
  predicate IsSpace(c: char) { c == ' ' || '\t' <= c <= '\r' || '\U{1C}' <= c <= '\U{1F}' }

  predicate StartsWith(s: string, prefix: string) {
    |prefix| <= |s| && s[..|prefix|] == prefix
  }

  /** `pat` occurs in `s` at index `j`. */
  predicate OccursAt(s: string, pat: string, j: nat) {
    j + |pat| <= |s| && s[j..j + |pat|] == pat
  }

  /** The first index at or after `from` where `pat` occurs: what a lazy `.*?pat` stops at. */
  function FindFrom(s: string, pat: string, from: nat): (r: Option<nat>)
    decreases |s| - from
    ensures r.Some? ==> from <= r.value && OccursAt(s, pat, r.value)
    ensures r.Some? ==> forall j :: from <= j < r.value ==> !OccursAt(s, pat, j)
    ensures r.None? ==> forall j :: from <= j ==> !OccursAt(s, pat, j)
  {
    if from + |pat| > |s| then None
    else if s[from..from + |pat|] == pat then Some(from)
    else FindFrom(s, pat, from + 1)
  }

  /** The end of the longest run of characters satisfying `p` that starts at `i`: what a greedy `[...]*` takes. */
  function RunEnd(s: string, i: nat, p: char -> bool): (m: nat)
    requires i <= |s|
    decreases |s| - i
    ensures i <= m <= |s|
    ensures forall j :: i <= j < m ==> p(s[j])
    ensures m < |s| ==> !p(s[m])
  {
    if i < |s| && p(s[i]) then RunEnd(s, i + 1, p) else i
  }

  /** A run that ends where `p` first fails is the one `RunEnd` finds. */
  lemma {:induction false} RunEndIs(s: string, i: nat, p: char -> bool, k: nat)
    requires i <= k <= |s|
    requires forall j :: i <= j < k ==> p(s[j])
    requires k < |s| ==> !p(s[k])
    ensures RunEnd(s, i, p) == k
    decreases k - i
  {
    if i < k {
      RunEndIs(s, i + 1, p, k);
    }
  }
}
