/**
 * The owner's listing (the GET branch of `index` in drop.py): one record
 * per name with four parts, sorted with
 * `files.sort(key=lambda x: x['timestamp'], reverse=True)` — newest stamp
 * string first, and, because Python's sort is stable also when reversed,
 * records with equal stamps in listing order.
 */
module Listing {
  import opened Codec
  import opened Sweep

  /** The dictionary built per file; the humanised age is not modelled. */
  datatype Record = Record(name: string, orig: string, code: string, timestamp: string)

  /** `t, code, who, orig = parts` for a name with four parts. */
  function RecordOf(name: string): (r: Record)
    requires |Parts(name)| == 4
    ensures r.name == name && r.timestamp == Parts(name)[0]
    ensures r.code == Parts(name)[1] && r.orig == Parts(name)[3]
  {
    var parts := Parts(name);
    Record(name, parts[3], parts[1], parts[0])
  }

  /**
   * The record of a stored name is the entry encoded in it: its stamp, its
   * code and the whole original name, `-` and all.
   */
  lemma RecordOfEncoded(e: Entry)
    requires '-' !in e.stamp && '-' !in e.code
    ensures |Parts(Encode(e))| == 4
    ensures RecordOf(Encode(e)) == Record(Encode(e), e.original, e.code, e.stamp)
  {
  }

  /** The records of the listing in listing order, names with fewer parts skipped. */
  function RecordsOf(names: seq<string>): (r: seq<Record>)
    ensures |r| <= |names|
    ensures forall i :: 0 <= i < |r| ==> r[i].name in names && |Parts(r[i].name)| == 4 && r[i] == RecordOf(r[i].name)
  {
    if names == [] then []
    else
      var last := names[|names| - 1];
      RecordsOf(names[..|names| - 1]) + (if |Parts(last)| == 4 then [RecordOf(last)] else [])
  }

  /** Exactly the four-part names get a record, and each record is its name's. */
  lemma {:induction false} RecordsOfNames(names: seq<string>)
    ensures forall r :: r in RecordsOf(names) ==> r.name in names && |Parts(r.name)| == 4 && r == RecordOf(r.name)
    ensures forall n :: n in names && |Parts(n)| == 4 ==> RecordOf(n) in RecordsOf(names)
  {
    if names != [] {
      var init := names[..|names| - 1];
      RecordsOfNames(init);
      assert names == init + [names[|names| - 1]];
    }
  }

  /** Each four-part name gets as many records as it occurs in the listing: one, in a folder. */
  lemma {:induction false} RecordsOfCount(names: seq<string>, n: string)
    requires |Parts(n)| == 4
    ensures multiset(RecordsOf(names))[RecordOf(n)] == multiset(names)[n]
  {
    if names != [] {
      var init, last := names[..|names| - 1], names[|names| - 1];
      RecordsOfCount(init, n);
      assert names == init + [last];
      if |Parts(last)| == 4 {
        assert RecordOf(last) == RecordOf(n) <==> last == n;
      }
    }
  }

  /** Python's `<` on strings: code point by code point, a proper prefix first. */
  predicate LexLess(a: string, b: string)
  {
    if a == [] then b != []
    else if b == [] then false
    else a[0] < b[0] || (a[0] == b[0] && LexLess(a[1..], b[1..]))
  }

  lemma {:induction false} LexIrreflexive(a: string)
    ensures !LexLess(a, a)
  {
    if a != [] {
      LexIrreflexive(a[1..]);
    }
  }

  lemma {:induction false} LexTransitive(a: string, b: string, c: string)
    requires LexLess(a, b) && LexLess(b, c)
    ensures LexLess(a, c)
  {
    if a != [] && a[0] == b[0] && b[0] == c[0] {
      LexTransitive(a[1..], b[1..], c[1..]);
    }
  }

  lemma {:induction false} LexTotal(a: string, b: string)
    requires a != b
    ensures LexLess(a, b) || LexLess(b, a)
  {
    if a != [] && b != [] && a[0] == b[0] {
      assert a == [a[0]] + a[1..] && b == [b[0]] + b[1..];
      LexTotal(a[1..], b[1..]);
    }
  }

  lemma LexAsymmetric(a: string, b: string)
    requires LexLess(a, b)
    ensures !LexLess(b, a)
  {
    if LexLess(b, a) {
      LexTransitive(a, b, a);
      LexIrreflexive(a);
    }
  }

  /** No record is followed by one with a later stamp. */
  predicate NewestFirst(s: seq<Record>)
  {
    forall i, j :: 0 <= i < j < |s| ==> !LexLess(s[i].timestamp, s[j].timestamp)
  }

  /** The records with stamp `t`, in order. */
  function WithStamp(s: seq<Record>, t: string): seq<Record>
  {
    if s == [] then [] else (if s[0].timestamp == t then [s[0]] else []) + WithStamp(s[1..], t)
  }

  lemma {:induction false} WithStampConcat(a: seq<Record>, b: seq<Record>, t: string)
    ensures WithStamp(a + b, t) == WithStamp(a, t) + WithStamp(b, t)
  {
    if a == [] {
      assert a + b == b;
    } else {
      var h: seq<Record> := if a[0].timestamp == t then [a[0]] else [];
      assert (a + b)[0] == a[0] && (a + b)[1..] == a[1..] + b;
      WithStampConcat(a[1..], b, t);
      var x, y := WithStamp(a[1..], t), WithStamp(b, t);
      assert WithStamp(a + b, t) == h + (x + y);
      assert WithStamp(a, t) == h + x;
      assert h + (x + y) == (h + x) + y;
    }
  }

  lemma {:induction false} WithStampNone(s: seq<Record>, t: string)
    requires forall i :: 0 <= i < |s| ==> s[i].timestamp != t
    ensures WithStamp(s, t) == []
  {
    if s != [] {
      WithStampNone(s[1..], t);
    }
  }

  /**
   * Put `x` into the newest-first `s` after every record at least as new:
   * the result is newest first, holds one more `x`, and `x` comes after
   * the records with its own stamp.
   */
  function Insert(s: seq<Record>, x: Record): (r: seq<Record>)
    requires NewestFirst(s)
    ensures NewestFirst(r)
    ensures multiset(r) == multiset(s) + multiset{x}
    ensures forall t :: WithStamp(r, t) == WithStamp(s, t) + WithStamp([x], t)
  {
    if s == [] then [x]
    else if LexLess(s[0].timestamp, x.timestamp) then
      InsertFront(s, x);
      [x] + s
    else
      var rest := Insert(s[1..], x);
      assert s == [s[0]] + s[1..];
      InsertBehind(s, x, rest);
      [s[0]] + rest
  }

  /** Everything in `s` is older than `x`, so `x` goes in front. */
  lemma InsertFront(s: seq<Record>, x: Record)
    requires NewestFirst(s) && s != [] && LexLess(s[0].timestamp, x.timestamp)
    ensures NewestFirst([x] + s)
    ensures forall t :: WithStamp([x] + s, t) == WithStamp(s, t) + WithStamp([x], t)
  {
    forall j | 0 <= j < |s| ensures LexLess(s[j].timestamp, x.timestamp) {
      if j > 0 && s[j].timestamp != s[0].timestamp {
        LexTotal(s[j].timestamp, s[0].timestamp);
        LexTransitive(s[j].timestamp, s[0].timestamp, x.timestamp);
      }
    }
    forall j | 0 <= j < |s| ensures !LexLess(x.timestamp, s[j].timestamp) {
      LexAsymmetric(s[j].timestamp, x.timestamp);
    }
    var r := [x] + s;
    forall i, j | 0 <= i < j < |r| ensures !LexLess(r[i].timestamp, r[j].timestamp) {
      if i > 0 {
        assert r[i] == s[i - 1] && r[j] == s[j - 1];
      }
    }
    forall t ensures WithStamp([x] + s, t) == WithStamp(s, t) + WithStamp([x], t) {
      WithStampConcat([x], s, t);
      if x.timestamp == t {
        forall j | 0 <= j < |s| ensures s[j].timestamp != t {
          LexIrreflexive(t);
        }
        WithStampNone(s, t);
      }
    }
  }

  /** `s[0]` is at least as new as `x`, so it stays in front of the rest. */
  lemma InsertBehind(s: seq<Record>, x: Record, rest: seq<Record>)
    requires NewestFirst(s) && s != [] && !LexLess(s[0].timestamp, x.timestamp)
    requires NewestFirst(rest) && multiset(rest) == multiset(s[1..]) + multiset{x}
    requires forall t :: WithStamp(rest, t) == WithStamp(s[1..], t) + WithStamp([x], t)
    ensures NewestFirst([s[0]] + rest)
    ensures forall t :: WithStamp([s[0]] + rest, t) == WithStamp(s, t) + WithStamp([x], t)
  {
    HeadStaysNewest(s, x, rest);
    forall t ensures WithStamp([s[0]] + rest, t) == WithStamp(s, t) + WithStamp([x], t) {
      BehindWithStamp(s, x, rest, t);
    }
  }

  /** The records with one stamp, when `s[0]` is put in front of `rest`. */
  lemma BehindWithStamp(s: seq<Record>, x: Record, rest: seq<Record>, t: string)
    requires s != [] && WithStamp(rest, t) == WithStamp(s[1..], t) + WithStamp([x], t)
    ensures WithStamp([s[0]] + rest, t) == WithStamp(s, t) + WithStamp([x], t)
  {
    var h: seq<Record> := if s[0].timestamp == t then [s[0]] else [];
    assert ([s[0]] + rest)[1..] == rest;
    assert WithStamp([s[0]] + rest, t) == h + WithStamp(rest, t);
    assert WithStamp(s, t) == h + WithStamp(s[1..], t);
    var a, b := WithStamp(s[1..], t), WithStamp([x], t);
    assert h + (a + b) == (h + a) + b;
  }

  lemma HeadStaysNewest(s: seq<Record>, x: Record, rest: seq<Record>)
    requires NewestFirst(s) && s != [] && !LexLess(s[0].timestamp, x.timestamp)
    requires NewestFirst(rest) && multiset(rest) == multiset(s[1..]) + multiset{x}
    ensures NewestFirst([s[0]] + rest)
  {
    var r := [s[0]] + rest;
    forall j | 0 <= j < |rest| ensures !LexLess(s[0].timestamp, rest[j].timestamp) {
      var y := rest[j];
      assert y in multiset(rest);
      assert y in multiset(s[1..]) || y == x;
      if y != x {
        assert y in s[1..];
        var k :| 0 <= k < |s[1..]| && s[1..][k] == y;
        assert s[k + 1] == y;
      }
    }
    forall i, j | 0 <= i < j < |r| ensures !LexLess(r[i].timestamp, r[j].timestamp) {
      assert r[j] == rest[j - 1];
      if i > 0 {
        assert r[i] == rest[i - 1];
      }
    }
  }

  /**
   * `sorted(s, key=timestamp, reverse=True)`: newest first, a permutation of
   * `s`, and for every stamp its records in their original order (stable).
   */
  function SortNewestFirst(s: seq<Record>): (r: seq<Record>)
    ensures NewestFirst(r)
    ensures multiset(r) == multiset(s)
    ensures forall t :: WithStamp(r, t) == WithStamp(s, t)
  {
    if s == [] then []
    else
      var init := s[..|s| - 1];
      var last := s[|s| - 1];
      var r := Insert(SortNewestFirst(init), last);
      assert s == init + [last];
      forall t ensures WithStamp(r, t) == WithStamp(s, t) {
        WithStampConcat(init, [last], t);
      }
      r
  }

  /**
   * What the owner sees: one record per four-part name, newest stamp first;
   * a visitor who is not logged in sees an empty listing.
   */
  function ListingOf(names: seq<string>, authenticated: bool): (r: seq<Record>)
    ensures NewestFirst(r)
    ensures !authenticated ==> r == []
    ensures authenticated ==> multiset(r) == multiset(RecordsOf(names))
    ensures authenticated ==> forall rec :: rec in r <==> rec.name in names && |Parts(rec.name)| == 4 && rec == RecordOf(rec.name)
  {
    if authenticated then
      var recs := RecordsOf(names);
      var r := SortNewestFirst(recs);
      RecordsOfNames(names);
      assert forall rec :: rec in r <==> rec in multiset(recs);
      r
    else []
  }
}
