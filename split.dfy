/**
 * Python's `str.split(sep, maxsplit)` for a one-character separator, and its
 * inverse `sep.join(parts)`.  The drop store decodes every stored name with
 * `name.split('-', 3)`.
 */
module Split {

  /** Index of the first `c` in `s`, or `|s|` when there is none. */
  function FindChar(s: string, c: char): (k: nat)
    ensures k <= |s|
    ensures forall j :: 0 <= j < k ==> s[j] != c
    ensures k < |s| ==> s[k] == c
  {
    if s == [] then 0
    else if s[0] == c then 0
    else 1 + FindChar(s[1..], c)
  }

  /** `sep.join(parts)`. */
  function Join(parts: seq<string>, sep: char): string
  {
    if parts == [] then ""
    else if |parts| == 1 then parts[0]
    else parts[0] + [sep] + Join(parts[1..], sep)
  }

  /**
   * `s.split(sep, n)`: cut at the first `n` separators, left to right.  The
   * result has between 1 and n + 1 parts, joins back to `s`, and only the
   * last part can still hold a separator — and only when all n cuts were made.
   */
  function SplitN(s: string, sep: char, n: nat): (parts: seq<string>)
    ensures Splittable(parts, sep, n) && Join(parts, sep) == s
  {
    var k := FindChar(s, sep);
    if n == 0 || k == |s| then
      [s]
    else
      var rest := SplitN(s[k + 1..], sep, n - 1);
      assert s == s[..k] + [sep] + s[k + 1..];
      assert sep !in s[..k] by {
        forall j | 0 <= j < k ensures s[..k][j] != sep { }
      }
      [s[..k]] + rest
  }

  /**
   * The contract of SplitN pins its result down: any parts meeting it are
   * exactly what splitting their join gives back.
   */
  lemma {:induction false} SplitJoin(parts: seq<string>, sep: char, n: nat)
    requires Splittable(parts, sep, n)
    ensures SplitN(Join(parts, sep), sep, n) == parts
  {
    if |parts| == 1 {
      SplitOne(parts, sep, n);
    } else {
      SplittableRest(parts, sep, n);
      SplitJoin(parts[1..], sep, n - 1);
      SplitJoinStep(parts, sep, n);
    }
  }

  /**
   * Parts as SplitN returns them: 1 to n + 1 of them, no separator in any
   * but the last, and none in the last either when fewer than n cuts were
   * made.
   */
  predicate Splittable(parts: seq<string>, sep: char, n: nat)
  {
    && 1 <= |parts| <= n + 1
    && (forall i :: 0 <= i < |parts| - 1 ==> sep !in parts[i])
    && (|parts| < n + 1 ==> sep !in parts[|parts| - 1])
  }

  /** Dropping the first of several such parts leaves such parts for one cut fewer. */
  lemma SplittableRest(parts: seq<string>, sep: char, n: nat)
    requires Splittable(parts, sep, n) && |parts| >= 2
    ensures n >= 1 && Splittable(parts[1..], sep, n - 1) && sep !in parts[0]
  {
    var rest := parts[1..];
    forall i | 0 <= i < |rest| - 1 ensures sep !in rest[i] {
      assert rest[i] == parts[i + 1];
    }
    assert rest[|rest| - 1] == parts[|parts| - 1];
  }

  /** One more part in front: its separator is the first cut. */
  lemma SplitJoinStep(parts: seq<string>, sep: char, n: nat)
    requires |parts| >= 2 && sep !in parts[0] && n > 0
    requires SplitN(Join(parts[1..], sep), sep, n - 1) == parts[1..]
    ensures SplitN(Join(parts, sep), sep, n) == parts
  {
    assert Join(parts, sep) == parts[0] + [sep] + Join(parts[1..], sep);
    SplitFirst(parts[0], sep, Join(parts[1..], sep), n);
    assert [parts[0]] + parts[1..] == parts;
  }

  /** A single part is its own join, and splitting it gives it back. */
  lemma SplitOne(parts: seq<string>, sep: char, n: nat)
    requires |parts| == 1 && Splittable(parts, sep, n)
    ensures SplitN(Join(parts, sep), sep, n) == parts
  {
    assert Join(parts, sep) == parts[0];
    SplitWhole(parts[0], sep, n);
    assert [parts[0]] == parts;
  }

  /** With no separator, or no cut allowed, the string is the only part. */
  lemma SplitWhole(s: string, sep: char, n: nat)
    requires n == 0 || sep !in s
    ensures SplitN(s, sep, n) == [s]
  {
  }

  /** The first cut of `p + [sep] + t` with no separator in `p` falls right after `p`. */
  lemma SplitFirst(p: string, sep: char, t: string, n: nat)
    requires sep !in p && n > 0
    ensures SplitN(p + [sep] + t, sep, n) == [p] + SplitN(t, sep, n - 1)
  {
    var s := p + [sep] + t;
    FindFirstSeparator(p, sep, t);
    assert s[..|p|] == p && s[|p| + 1..] == t;
  }

  /** In `p + [sep] + t` with no separator in `p`, the first separator ends `p`. */
  lemma FindFirstSeparator(p: string, sep: char, t: string)
    requires sep !in p
    ensures FindChar(p + [sep] + t, sep) == |p|
  {
    var s := p + [sep] + t;
    assert s[|p|] == sep;
    assert forall j :: 0 <= j < |p| ==> s[j] == p[j];
  }

  /**
   * Splitting `a-b-c-d` into four when a, b and c hold no separator gives
   * back a, b, c and d, whatever `d` contains.
   */
  lemma SplitFourFields(a: string, b: string, c: string, d: string, sep: char)
    requires sep !in a && sep !in b && sep !in c
    ensures SplitN(a + [sep] + b + [sep] + c + [sep] + d, sep, 3) == [a, b, c, d]
  {
    var parts := [a, b, c, d];
    assert Join(parts[3..], sep) == d;
    assert Join(parts[2..], sep) == c + [sep] + d;
    assert Join(parts[1..], sep) == b + [sep] + (c + [sep] + d);
    assert Join(parts, sep) == a + [sep] + (b + [sep] + (c + [sep] + d));
    assert a + [sep] + b + [sep] + c + [sep] + d == a + [sep] + (b + [sep] + (c + [sep] + d));
    assert Splittable(parts, sep, 3);
    SplitJoin(parts, sep, 3);
  }
}
