/**
 * `clean_files` (drop.py), run before every request: each listed name is
 * split with `split('-', 3)`; a name with fewer than four parts is removed
 * at once; otherwise its first part is read as a stamp and the file is
 * removed when more than 24 hours have passed since it.  A four-part name
 * whose stamp `strptime` rejects raises, which ends the sweep there: the
 * names before it have been handled, it and the rest stay.
 *
 * The source stamps uploads with the UTC clock but compares them with the
 * local clock; here both readings come from the UTC clock, the intended
 * behaviour (`Stamp.ExpiredAgainstLocalClock` shows what the offset does).
 */
module Sweep {
  import opened Options
  import opened Split
  import opened Stamp
  import opened Codec
  import opened Directory

  /** `name.split('-', 3)`. */
  function Parts(name: string): seq<string>
  {
    SplitN(name, '-', 3)
  }

  /** Fewer than four parts: removed whatever its age. */
  predicate Malformed(name: string)
  {
    |Parts(name)| < 4
  }

  /** Four parts but a stamp `strptime` rejects: the sweep raises on it. */
  predicate Unparseable(name: string)
  {
    |Parts(name)| == 4 && ParseStamp(Parts(name)[0]).None?
  }

  /** Kept by the sweep: four parts, a valid stamp, and at most 24 hours old. */
  predicate Survives(name: string, now: int)
  {
    |Parts(name)| == 4 && ParseStamp(Parts(name)[0]).Some?
    && !Expired(ParseStamp(Parts(name)[0]).value, now)
  }

  /** What one sweep leaves in the folder, and the name it raised on, if any. */
  datatype SweepResult = SweepResult(kept: seq<string>, failed: Option<string>)

  /** What the sweep does with one name. */
  datatype Verdict = Keep | Remove | Raise

  /** The verdict `clean_files` reaches on `name` at time `now`. */
  function VerdictOf(name: string, now: int): (v: Verdict)
    ensures v == Raise <==> Unparseable(name)
    ensures v == Keep <==> Survives(name, now)
  {
    if Unparseable(name) then Raise else if Survives(name, now) then Keep else Remove
  }

  /** The verdicts of the sweep at time `now`, one name at a time. */
  function Verdicts(now: int): string -> Verdict
  {
    n => VerdictOf(n, now)
  }

  /**
   * A sweep in which `judge` decides each name in listing order: kept
   * names stay, removed ones go, and the first name judged `Raise` stops
   * the sweep with itself and everything after it still in place.
   */
  function SweepBy(names: seq<string>, judge: string -> Verdict): SweepResult
  {
    if names == [] then SweepResult([], None)
    else match judge(names[0])
      case Raise => SweepResult(names, Some(names[0]))
      case Keep =>
        var rest := SweepBy(names[1..], judge);
        SweepResult([names[0]] + rest.kept, rest.failed)
      case Remove => SweepBy(names[1..], judge)
  }

  /**
   * `clean_files()` over the listing `names` at time `now` (microseconds):
   * it only removes names, and when it raises, it does so on a listed name
   * whose stamp `strptime` rejects.
   */
  function SweepOf(names: seq<string>, now: int): (r: SweepResult)
    ensures forall n :: n in r.kept ==> n in names
    ensures r.failed.Some? ==> r.failed.value in names && Unparseable(r.failed.value)
  {
    var r := SweepBy(names, Verdicts(now));
    SweepBySubset(names, Verdicts(now));
    SweepByFailed(names, Verdicts(now));
    assert r.failed.Some? ==> Verdicts(now)(r.failed.value) == VerdictOf(r.failed.value, now);
    r
  }

  lemma {:induction false} SweepByAppend(pre: seq<string>, post: seq<string>, judge: string -> Verdict)
    requires SweepBy(pre, judge).failed == None
    ensures SweepBy(pre + post, judge)
         == SweepResult(SweepBy(pre, judge).kept + SweepBy(post, judge).kept, SweepBy(post, judge).failed)
  {
    if pre == [] {
      assert pre + post == post;
    } else {
      assert (pre + post)[0] == pre[0] && (pre + post)[1..] == pre[1..] + post;
      SweepByAppend(pre[1..], post, judge);
      var a, b := SweepBy(pre[1..], judge).kept, SweepBy(post, judge).kept;
      assert [pre[0]] + (a + b) == ([pre[0]] + a) + b;
    }
  }

  lemma {:induction false} SweepByKeeps(names: seq<string>, judge: string -> Verdict)
    requires SweepBy(names, judge).failed == None
    ensures forall n :: n in SweepBy(names, judge).kept <==> n in names && judge(n) == Keep
    ensures forall n :: n in names ==> judge(n) != Raise
  {
    if names != [] {
      SweepByKeeps(names[1..], judge);
    }
  }

  lemma {:induction false} SweepByFinishes(names: seq<string>, judge: string -> Verdict)
    requires forall j :: 0 <= j < |names| ==> judge(names[j]) != Raise
    ensures SweepBy(names, judge).failed == None
  {
    if names != [] {
      SweepByFinishes(names[1..], judge);
    }
  }

  lemma {:induction false} SweepByFailed(names: seq<string>, judge: string -> Verdict)
    ensures var r := SweepBy(names, judge);
            r.failed.Some? ==> r.failed.value in names && judge(r.failed.value) == Raise
  {
    if names != [] && judge(names[0]) != Raise {
      SweepByFailed(names[1..], judge);
    }
  }

  lemma {:induction false} SweepBySubset(names: seq<string>, judge: string -> Verdict)
    ensures forall n :: n in SweepBy(names, judge).kept ==> n in names
  {
    if names != [] && judge(names[0]) != Raise {
      SweepBySubset(names[1..], judge);
    }
  }

  lemma {:induction false} SweepByDistinct(names: seq<string>, judge: string -> Verdict)
    requires Distinct(names)
    ensures Distinct(SweepBy(names, judge).kept)
  {
    if names != [] && judge(names[0]) != Raise {
      assert Distinct(names[1..]);
      SweepByDistinct(names[1..], judge);
      SweepBySubset(names[1..], judge);
      var rest := SweepBy(names[1..], judge).kept;
      var kept := SweepBy(names, judge).kept;
      assert names[0] !in names[1..];
      assert names[0] !in rest;
      forall i, j | 0 <= i < j < |kept| ensures kept[i] != kept[j] {
        if judge(names[0]) == Keep && i == 0 {
          assert kept[j] == rest[j - 1];
        }
      }
    }
  }

  lemma {:induction false} SweepByIdempotent(names: seq<string>, judge: string -> Verdict)
    requires SweepBy(names, judge).failed == None
    ensures SweepBy(SweepBy(names, judge).kept, judge) == SweepBy(names, judge)
  {
    if names != [] {
      SweepByIdempotent(names[1..], judge);
      var rest := SweepBy(names[1..], judge);
      if judge(names[0]) == Keep {
        assert ([names[0]] + rest.kept)[1..] == rest.kept;
      }
    }
  }

  /** A sweep that gets through a prefix carries on with the rest of the listing. */
  lemma SweepAppend(pre: seq<string>, post: seq<string>, now: int)
    requires SweepOf(pre, now).failed == None
    ensures SweepOf(pre + post, now)
         == SweepResult(SweepOf(pre, now).kept + SweepOf(post, now).kept, SweepOf(post, now).failed)
  {
    SweepByAppend(pre, post, Verdicts(now));
  }

  /**
   * A sweep that completes keeps exactly the surviving names, in their
   * listing order: malformed and expired names are gone, nothing else is.
   */
  lemma SweepKeepsSurvivors(names: seq<string>, now: int)
    requires SweepOf(names, now).failed == None
    ensures forall n :: n in SweepOf(names, now).kept <==> n in names && Survives(n, now)
    ensures forall n :: n in names ==> !Unparseable(n)
  {
    SweepByKeeps(names, Verdicts(now));
    forall n ensures n in SweepOf(names, now).kept <==> n in names && Survives(n, now) {
      assert Verdicts(now)(n) == VerdictOf(n, now);
    }
    forall n | n in names ensures !Unparseable(n) {
      assert Verdicts(now)(n) == VerdictOf(n, now);
    }
  }

  /** One more name handled: a parseable name is kept exactly when it survives. */
  lemma SweepStep(listing: seq<string>, i: nat, now: int)
    requires i < |listing| && SweepOf(listing[..i], now).failed == None
    requires !Unparseable(listing[i])
    ensures SweepOf(listing[..i + 1], now)
         == SweepResult(SweepOf(listing[..i], now).kept + (if Survives(listing[i], now) then [listing[i]] else []), None)
  {
    assert listing[..i + 1] == listing[..i] + [listing[i]];
    SweepAppend(listing[..i], [listing[i]], now);
    SweepSingle(listing[i], now);
  }

  /** The sweep of a one-name listing with a readable stamp. */
  lemma SweepSingle(x: string, now: int)
    requires !Unparseable(x)
    ensures SweepOf([x], now) == SweepResult(if Survives(x, now) then [x] else [], None)
  {
    assert Verdicts(now)(x) == VerdictOf(x, now);
    assert [x][0] == x && [x][1..] == [];
    assert SweepBy([], Verdicts(now)) == SweepResult([], None);
    assert SweepOf([x], now) == SweepBy([x], Verdicts(now));
  }

  /** Reaching an unparseable name ends the sweep with the rest of the listing untouched. */
  lemma SweepAbort(listing: seq<string>, i: nat, now: int)
    requires i < |listing| && SweepOf(listing[..i], now).failed == None
    requires Unparseable(listing[i])
    ensures SweepOf(listing, now)
         == SweepResult(SweepOf(listing[..i], now).kept + listing[i..], Some(listing[i]))
  {
    SweepAppend(listing[..i], listing[i..], now);
    assert listing[..i] + listing[i..] == listing;
  }

  /** Index of the first unparseable name of the listing, or its length. */
  function FirstUnparseable(names: seq<string>): (k: nat)
    ensures k <= |names|
    ensures forall j :: 0 <= j < k ==> !Unparseable(names[j])
    ensures k < |names| ==> Unparseable(names[k])
  {
    if names == [] then 0
    else if Unparseable(names[0]) then 0
    else 1 + FirstUnparseable(names[1..])
  }

  lemma SweepWithoutUnparseable(names: seq<string>, now: int)
    requires forall j :: 0 <= j < |names| ==> !Unparseable(names[j])
    ensures SweepOf(names, now).failed == None
  {
    forall j | 0 <= j < |names| ensures Verdicts(now)(names[j]) != Raise {
      assert Verdicts(now)(names[j]) == VerdictOf(names[j], now);
    }
    SweepByFinishes(names, Verdicts(now));
  }

  /**
   * The sweep raises exactly when some four-part name has a bad stamp, and
   * then on the first one; the names before it are swept, that name and
   * all after it stay.
   */
  lemma SweepStopsAtUnparseable(names: seq<string>, now: int)
    ensures var k := FirstUnparseable(names);
            && SweepOf(names, now).failed == (if k < |names| then Some(names[k]) else None)
            && (k < |names| ==> SweepOf(names, now).kept == SweepOf(names[..k], now).kept + names[k..])
  {
    var k := FirstUnparseable(names);
    if k < |names| {
      SweepStopsAt(names, k, now);
    } else {
      SweepWithoutUnparseable(names, now);
    }
  }

  /** A sweep that meets its first bad stamp at `k`. */
  lemma SweepStopsAt(names: seq<string>, k: nat, now: int)
    requires k < |names| && Unparseable(names[k])
    requires forall j :: 0 <= j < k ==> !Unparseable(names[j])
    ensures SweepOf(names, now) == SweepResult(SweepOf(names[..k], now).kept + names[k..], Some(names[k]))
  {
    SweepCleanPrefix(names, k, now);
    SweepAbort(names, k, now);
  }

  /** A prefix without bad stamps is swept without raising. */
  lemma SweepCleanPrefix(names: seq<string>, k: nat, now: int)
    requires k <= |names| && forall j :: 0 <= j < k ==> !Unparseable(names[j])
    ensures SweepOf(names[..k], now).failed == None
  {
    var pre := names[..k];
    forall j | 0 <= j < |pre| ensures !Unparseable(pre[j]) {
      assert pre[j] == names[j];
    }
    SweepWithoutUnparseable(pre, now);
  }

  /** The sweep only ever removes: what it keeps of a distinct listing stays distinct. */
  lemma SweepKeptDistinct(names: seq<string>, now: int)
    requires Distinct(names)
    ensures Distinct(SweepOf(names, now).kept)
  {
    SweepByDistinct(names, Verdicts(now));
  }

  /** Sweeping again at the same time removes nothing more. */
  lemma SweepIdempotent(names: seq<string>, now: int)
    requires SweepOf(names, now).failed == None
    ensures SweepOf(SweepOf(names, now).kept, now) == SweepOf(names, now)
  {
    SweepByIdempotent(names, Verdicts(now));
  }

  /** Expiry is strict: a stamp exactly 24 hours old survives, one microsecond more does not. */
  lemma ExpiryBoundary(name: string, dt: DateTime, now: int)
    requires |Parts(name)| == 4 && ParseStamp(Parts(name)[0]) == Some(dt)
    ensures now == Seconds(dt) * 1000000 + TtlMicros ==> Survives(name, now)
    ensures now == Seconds(dt) * 1000000 + TtlMicros + 1 ==> !Survives(name, now) && !Unparseable(name)
  {
  }

  /** A name with fewer than four parts is removed however young. */
  lemma MalformedPurged(name: string, now: int)
    requires Malformed(name)
    ensures SweepOf([name], now) == SweepResult([], None)
  {
    SweepSingle(name, now);
  }

  /** A name without any `-`, such as `garbage.txt`, is a single part. */
  lemma NoDashMalformed(name: string)
    requires '-' !in name
    ensures Parts(name) == [name] && Malformed(name)
  {
    SplitWhole(name, '-', 3);
  }

  /** A name saved by an upload at `utc` is kept by every sweep within the next 24 hours. */
  lemma FreshNameSurvives(utc: DateTime, code: string, who: Role, filename: string, now: int)
    requires ValidDateTime(utc) && IsCode(code)
    requires now - Seconds(utc) * 1000000 <= TtlMicros
    ensures Survives(SaveName(utc, code, who, filename), now)
  {
    var e := Entry(FormatStamp(utc), code, who, filename);
    assert forall i :: 0 <= i < |e.stamp| ==> e.stamp[i] != '-';
    assert forall i :: 0 <= i < |e.code| ==> e.code[i] != '-';
    SplitEncoded(e);
    ParseFormat(utc);
  }
}
