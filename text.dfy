/**
 * The string operations `parse_markdown` (igwill.py) relies on: Python's
 * `str.strip()` and finding a separator for `split(sep, 1)`.
 */
module Text {

  /** Python's `str.isspace` for one character. */
  predicate IsSpace(c: char)
  {
    || c == ' '
    || '\t' <= c <= '\r'
    || '\U{1c}' <= c <= '\U{1f}'
    || c == '\U{85}' || c == '\U{a0}' || c == '\U{1680}'
    || '\U{2000}' <= c <= '\U{200a}'
    || c == '\U{2028}' || c == '\U{2029}' || c == '\U{202f}' || c == '\U{205f}' || c == '\U{3000}'
  }

  /** Every character of `s` from `lo` to `hi` is whitespace. */
  predicate SpacesIn(s: string, lo: int, hi: int)
    requires 0 <= lo && hi <= |s|
  {
    forall i :: lo <= i < hi ==> IsSpace(s[i])
  }

  /** Index of the first non-space character, or `|s|`. */
  function Lead(s: string): (k: nat)
    ensures k <= |s| && SpacesIn(s, 0, k)
    ensures k < |s| ==> !IsSpace(s[k])
  {
    if s == [] || !IsSpace(s[0]) then 0
    else 1 + Lead(s[1..])
  }

  /** One past the last non-space character, or 0. */
  function End(s: string): (k: nat)
    ensures k <= |s| && SpacesIn(s, k, |s|)
    ensures k > 0 ==> !IsSpace(s[k - 1])
  {
    if s == [] || !IsSpace(s[|s| - 1]) then |s|
    else End(s[..|s| - 1])
  }

  /** Neither starts nor ends with whitespace. */
  predicate Trimmed(r: string)
  {
    r == [] || (!IsSpace(r[0]) && !IsSpace(r[|r| - 1]))
  }

  /**
   * `s.strip()`: `s` without its leading and trailing whitespace.  The
   * result sits inside `s` with only whitespace around it, and neither
   * starts nor ends with whitespace.
   */
  function Strip(s: string): (r: string)
    ensures Trimmed(r)
    ensures exists a :: 0 <= a && a + |r| <= |s| && r == s[a..a + |r|]
                         && SpacesIn(s, 0, a) && SpacesIn(s, a + |r|, |s|)
  {
    var a, b := Lead(s), End(s);
    if b <= a then
      assert b == 0;
      assert s[0..0] == [];
      []
    else
      s[a..b]
  }

  /**
   * Strip is determined by that contract: whitespace around a core that
   * neither starts nor ends with whitespace is exactly what it removes.
   */
  lemma StripExact(s: string, lo: nat, hi: nat)
    requires lo <= hi <= |s|
    requires SpacesIn(s, 0, lo) && SpacesIn(s, hi, |s|) && Trimmed(s[lo..hi])
    ensures Strip(s) == s[lo..hi]
  {
    if lo < hi {
      assert s[lo] == s[lo..hi][0] && s[hi - 1] == s[lo..hi][hi - 1 - lo];
      LeadIs(s, lo);
      EndIs(s, hi);
    } else {
      EndIs(s, 0);
    }
  }

  /** Lead is the first non-space character, wherever that is shown to be. */
  lemma LeadIs(s: string, lo: nat)
    requires lo < |s| && SpacesIn(s, 0, lo) && !IsSpace(s[lo])
    ensures Lead(s) == lo
  {
  }

  /** End is one past the last non-space character, wherever that is shown to be. */
  lemma EndIs(s: string, hi: nat)
    requires hi <= |s| && SpacesIn(s, hi, |s|) && (hi > 0 ==> !IsSpace(s[hi - 1]))
    ensures End(s) == hi
  {
  }

  /** `pat` occurs in `s` starting at `j`. */
  predicate OccursAt(s: string, pat: string, j: nat)
  {
    j + |pat| <= |s| && s[j..j + |pat|] == pat
  }

  /** `pat in s`. */
  predicate Contains(s: string, pat: string)
  {
    exists j :: 0 <= j <= |s| && OccursAt(s, pat, j)
  }

  /** `s.find(pat)` from `from` on, answering `|s|` for "not found". */
  function FindFrom(s: string, pat: string, from: nat): (k: nat)
    requires pat != [] && from <= |s|
    ensures from <= k <= |s|
    ensures forall j :: from <= j < k ==> !OccursAt(s, pat, j)
    ensures k < |s| ==> OccursAt(s, pat, k)
    decreases |s| - from
  {
    if from == |s| then |s|
    else if OccursAt(s, pat, from) then from
    else FindFrom(s, pat, from + 1)
  }

  /** The first occurrence of `pat` in `s`, or `|s|`; `pat in s` exactly when it is below `|s|`. */
  function Find(s: string, pat: string): (k: nat)
    requires pat != []
    ensures k <= |s|
    ensures k < |s| <==> Contains(s, pat)
    ensures forall j :: 0 <= j < k ==> !OccursAt(s, pat, j)
    ensures k < |s| ==> OccursAt(s, pat, k)
  {
    FindFrom(s, pat, 0)
  }
}
