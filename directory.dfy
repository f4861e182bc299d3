/**
 * The upload folder as the sequence of names `os.listdir` enumerates, and
 * what `os.remove` does to it.
 */
module Directory {

  /** A directory never lists the same name twice. */
  predicate Distinct(names: seq<string>)
  {
    forall i, j :: 0 <= i < j < |names| ==> names[i] != names[j]
  }

  /** The listing after the file `x` is removed: every other name, in the same order. */
  function Without(names: seq<string>, x: string): (r: seq<string>)
    ensures forall n :: n in r <==> n in names && n != x
    ensures |r| <= |names|
  {
    if names == [] then []
    else (if names[0] == x then [] else [names[0]]) + Without(names[1..], x)
  }

  lemma {:induction false} WithoutConcat(a: seq<string>, b: seq<string>, x: string)
    ensures Without(a + b, x) == Without(a, x) + Without(b, x)
  {
    if a == [] {
      assert a + b == b;
    } else {
      assert (a + b)[1..] == a[1..] + b;
      WithoutConcat(a[1..], b, x);
    }
  }

  /** Removing a name that is not listed changes nothing. */
  lemma {:induction false} WithoutAbsent(names: seq<string>, x: string)
    requires x !in names
    ensures Without(names, x) == names
  {
    if names != [] {
      WithoutAbsent(names[1..], x);
    }
  }

  /** Removing a listed name takes out exactly that entry and keeps the others in place. */
  lemma WithoutPresent(before: seq<string>, x: string, after: seq<string>)
    requires x !in before && x !in after
    ensures Without(before + [x] + after, x) == before + after
  {
    assert Without([x], x) == [] by {
      assert [x][1..] == [];
    }
    WithoutConcat(before, [x], x);
    WithoutAbsent(before, x);
    assert Without(before + [x], x) == before;
    WithoutConcat(before + [x], after, x);
    WithoutAbsent(after, x);
  }

  /** Removing twice is removing once. */
  lemma {:induction false} WithoutIdempotent(names: seq<string>, x: string)
    ensures Without(Without(names, x), x) == Without(names, x)
  {
    WithoutAbsent(Without(names, x), x);
  }

  lemma {:induction false} WithoutDistinct(names: seq<string>, x: string)
    requires Distinct(names)
    ensures Distinct(Without(names, x))
  {
    if names != [] {
      var tail := names[1..];
      assert Distinct(tail);
      WithoutDistinct(tail, x);
      var w := Without(tail, x);
      assert names[0] !in tail;
      var r := (if names[0] == x then [] else [names[0]]) + w;
      forall i, j | 0 <= i < j < |r| ensures r[i] != r[j] {
        if names[0] != x && i == 0 {
          assert r[j] == w[j - 1];
        }
      }
    }
  }

  /** In a distinct listing, removing a present name removes one entry. */
  lemma WithoutCount(names: seq<string>, x: string)
    requires Distinct(names) && x in names
    ensures |Without(names, x)| == |names| - 1
  {
    var i :| 0 <= i < |names| && names[i] == x;
    assert names == names[..i] + [x] + names[i + 1..];
    assert x !in names[..i] && x !in names[i + 1..];
    WithoutPresent(names[..i], x, names[i + 1..]);
  }
}
