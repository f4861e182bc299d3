/**
 * The upload folder of drop.py as an object: `names` is what `os.listdir`
 * returns, in its enumeration order.  Every request first sweeps it; the
 * routes then look a code up, list it, delete from it or save into it.
 */
module Store {
  import opened Options
  import opened Split
  import opened Stamp
  import opened Codec
  import opened Directory
  import opened Sweep
  import opened Lookup
  import opened Listing

  /** Why an upload stored nothing: no `file` part, or a part without a file name. */
  datatype Rejection = NoFilePart | EmptyFilename

  /** The flashed confirmation: the code for the owner, the file name otherwise. */
  datatype Notice = CodeIssued(code: string) | NameEchoed(filename: string)

  /** `WriteFailed` is `file.save` raising: no code is handed out. */
  datatype UploadOutcome = Rejected(reason: Rejection) | Stored(name: string, notice: Notice) | WriteFailed

  /** `'adm' if current_user.is_authenticated else 'ano'`. */
  function RoleFor(authenticated: bool): (who: Role)
    ensures who == Admin <==> authenticated
  {
    if authenticated then Admin else Anonymous
  }

  /**
   * The listing after `file.save` writes `name`: a new name joins the
   * folder, an existing one is overwritten and keeps its place.
   */
  function AddName(names: seq<string>, name: string): (r: seq<string>)
    ensures forall n :: n in r <==> n in names || n == name
    ensures Distinct(names) ==> Distinct(r)
    ensures |names| <= |r| <= |names| + 1 && r[..|names|] == names
    ensures name in names ==> r == names
  {
    if name in names then names else names + [name]
  }

  /**
   * The role token saved in an upload's name reads back as the uploader's
   * role: `adm` exactly when the user was logged in.
   */
  lemma SavedRole(utc: DateTime, draw: seq<nat>, authenticated: bool, filename: string)
    requires ValidDateTime(utc) && IsDraw(draw)
    ensures var parts := SplitN(SaveName(utc, FileCode(draw), RoleFor(authenticated), filename), '-', 3);
            && |parts| == 4
            && RoleOfToken(parts[2]) == Some(RoleFor(authenticated))
            && (parts[2] == "adm" <==> authenticated)
  {
  }

  /**
   * The owner's listing after an upload is saved shows it, with the upload
   * time, the code drawn for it and the client's file name.
   */
  lemma UploadListed(names: seq<string>, utc: DateTime, draw: seq<nat>, who: Role, filename: string)
    requires ValidDateTime(utc) && IsDraw(draw)
    ensures var name := SaveName(utc, FileCode(draw), who, filename);
            Record(name, filename, FileCode(draw), FormatStamp(utc)) in ListingOf(AddName(names, name), true)
  {
    var code := FileCode(draw);
    var e := Entry(FormatStamp(utc), code, who, filename);
    var name := Encode(e);
    assert forall i :: 0 <= i < |e.stamp| ==> e.stamp[i] != '-';
    assert forall i :: 0 <= i < |code| ==> code[i] != '-';
    SplitEncoded(e);
    var all := AddName(names, name);
    RecordsOfNames(all);
    assert RecordOf(name) in RecordsOf(all);
    assert RecordOf(name) in multiset(ListingOf(all, true));
  }

  class DropStore {
    var names: seq<string>

    ghost predicate Valid()
      reads this
    {
      Distinct(names)
    }

    constructor (listing: seq<string>)
      requires Distinct(listing)
      ensures Valid() && names == listing
    {
      names := listing;
    }

    /** `clean_files()`: returns the name it raised on, if it did. */
    method Sweep(now: int) returns (failed: Option<string>)
      requires Valid()
      modifies this
      ensures Valid()
      ensures names == SweepOf(old(names), now).kept
      ensures failed == SweepOf(old(names), now).failed
    {
      var listing := names;
      SweepKeptDistinct(listing, now);
      failed := None;
      var i := 0;
      ghost var kept: seq<string> := [];
      while i < |listing|
        invariant 0 <= i <= |listing| && listing == old(names)
        invariant SweepOf(listing[..i], now) == SweepResult(kept, None)
        invariant names == kept + listing[i..]
      {
        var raised, remove := Judge(listing[i], now);
        if raised {
          SweepAbort(listing, i, now);
          failed := Some(listing[i]);
          return;
        }
        SweepStep(listing, i, now);
        if remove {
          RemoveListed(listing, i, kept);
        } else {
          KeepListed(listing, i, kept);
          kept := kept + [listing[i]];
        }
        i := i + 1;
      }
      assert listing[..i] == listing;
    }

    /**
     * The test the sweep applies to one name: `strptime` raises on a
     * four-part name with a bad stamp; otherwise the name goes when it has
     * fewer than four parts or is more than 24 hours old.
     */
    static method Judge(f: string, now: int) returns (raised: bool, remove: bool)
      ensures raised <==> Unparseable(f)
      ensures !raised ==> (remove <==> !Survives(f, now))
    {
      var parts := SplitN(f, '-', 3);
      raised, remove := false, true;
      if |parts| == 4 {
        var dt := ParseStamp(parts[0]);
        if dt.None? {
          raised := true;
        } else {
          remove := Expired(dt.value, now);
        }
      }
    }

    /** A surviving name stays where it is. */
    static lemma KeepListed(listing: seq<string>, i: nat, kept: seq<string>)
      requires i < |listing|
      ensures kept + listing[i..] == (kept + [listing[i]]) + listing[i + 1..]
    {
      assert listing[i..] == [listing[i]] + listing[i + 1..];
    }

    /** `os.remove` on the `i`-th listed name while the sweep is at it. */
    method RemoveListed(listing: seq<string>, i: nat, ghost kept: seq<string>)
      requires Distinct(listing) && i < |listing|
      requires forall n :: n in kept ==> n in listing[..i]
      requires names == kept + listing[i..]
      modifies this
      ensures names == kept + listing[i + 1..]
    {
      var f := listing[i];
      assert f !in kept by {
        forall j | 0 <= j < i ensures listing[j] != f { }
      }
      assert f !in listing[i + 1..] by {
        forall j | i + 1 <= j < |listing| ensures listing[j] != f { }
      }
      assert names == kept + [f] + listing[i + 1..];
      WithoutPresent(kept, f, listing[i + 1..]);
      names := Without(names, f);
    }

    /**
     * The code branch of `index`: the first listed name whose second part is
     * the upper-cased code, served under its original name.
     */
    method FindByCode(typed: string) returns (found: Option<Download>)
      ensures found == LookupOf(names, typed)
      ensures found.None? <==> forall j :: 0 <= j < |names| ==> !CodeMatches(names[j], Upper(typed))
      ensures found.Some? ==> found.value.name in names && CodeMatches(found.value.name, Upper(typed))
                              && found.value.downloadName == OriginalName(found.value.name)
    {
      var code := Upper(typed);
      var listing := names;
      for i := 0 to |listing|
        invariant forall j :: 0 <= j < i ==> !CodeMatches(listing[j], code)
      {
        var f := listing[i];
        var parts := SplitN(f, '-', 3);
        if |parts| >= 3 && parts[1] == code {
          assert CodeMatches(listing[i], code);
          assert FirstMatch(listing, code) == i;
          var m := MatchName(f);
          var original := if m.Some? then m.value.original else f;
          found := Some(Download(f, original));
          return;
        }
      }
      assert FirstMatch(listing, code) == |listing|;
      found := None;
    }

    /** The listing branch of `index`. */
    method List(authenticated: bool) returns (files: seq<Record>)
      ensures files == ListingOf(names, authenticated)
      ensures NewestFirst(files)
      ensures !authenticated ==> files == []
      ensures authenticated ==> multiset(files) == multiset(RecordsOf(names))
      ensures authenticated ==> forall r :: r in files <==> r.name in names && |Parts(r.name)| == 4 && r == RecordOf(r.name)
    {
      files := [];
      if authenticated {
        var listing := names;
        for i := 0 to |listing|
          invariant files == RecordsOf(listing[..i])
        {
          var f := listing[i];
          assert listing[..i + 1][..i] == listing[..i];
          var parts := SplitN(f, '-', 3);
          if |parts| < 4 {
            continue;
          }
          files := files + [Record(f, parts[3], parts[1], parts[0])];
        }
        assert listing[..|listing|] == listing;
        RecordsOfNames(listing);
        var unsorted := files;
        files := SortNewestFirst(files);
        assert forall r :: r in files <==> r in multiset(unsorted);
      }
    }

    /**
     * `del_file`: behind `@login_required`, a visitor who is not logged in
     * deletes nothing; the owner removes the file if it exists, and
     * otherwise nothing happens.
     */
    method Delete(fname: string, authenticated: bool)
      requires Valid()
      modifies this
      ensures Valid()
      ensures !authenticated ==> names == old(names)
      ensures authenticated ==> names == Without(old(names), fname)
      ensures authenticated ==> fname !in names && forall n :: n in names <==> n in old(names) && n != fname
      ensures authenticated && fname in old(names) ==> |names| == |old(names)| - 1
    {
      if !authenticated {
        return;
      }
      if fname in names {
        WithoutDistinct(names, fname);
        WithoutCount(names, fname);
        names := Without(names, fname);
      } else {
        WithoutAbsent(names, fname);
      }
    }

    /** `file.save(savename)`, when the write succeeds. */
    method Save(savename: string, saved: bool)
      requires Valid()
      modifies this
      ensures Valid()
      ensures names == if saved then AddName(old(names), savename) else old(names)
    {
      if saved {
        names := AddName(names, savename);
      }
    }

    /** The `/upload` route; the clock reading and the code draw are inputs. */
    method Upload(file: Option<string>, authenticated: bool, utc: DateTime, draw: seq<nat>, saved: bool)
      returns (outcome: UploadOutcome)
      requires Valid() && ValidDateTime(utc) && IsDraw(draw)
      modifies this
      ensures Valid()
      ensures file.None? ==> outcome == Rejected(NoFilePart) && names == old(names)
      ensures file == Some("") ==> outcome == Rejected(EmptyFilename) && names == old(names)
      ensures file.Some? && file.value != "" ==>
                var who := RoleFor(authenticated);
                var name := SaveName(utc, FileCode(draw), who, file.value);
                && names == (if saved then AddName(old(names), name) else old(names))
                && outcome == (if !saved then WriteFailed
                               else if who == Admin then Stored(name, CodeIssued(FileCode(draw)))
                               else Stored(name, NameEchoed(file.value)))
    {
      if file.None? {
        return Rejected(NoFilePart);
      }
      var filename := file.value;
      if filename == "" {
        return Rejected(EmptyFilename);
      }
      var stamp := FormatStamp(utc);
      var code := FileCode(draw);
      var who := if authenticated then Admin else Anonymous;
      var savename := Encode(Entry(stamp, code, who, filename));
      Save(savename, saved);
      if !saved {
        return WriteFailed;
      }
      if who == Admin {
        outcome := Stored(savename, CodeIssued(code));
      } else {
        outcome := Stored(savename, NameEchoed(filename));
      }
    }

    /** The `/share` route: stores like `/upload` but always echoes the file name. */
    method Share(file: Option<string>, authenticated: bool, utc: DateTime, draw: seq<nat>, saved: bool)
      returns (outcome: UploadOutcome)
      requires Valid() && ValidDateTime(utc) && IsDraw(draw)
      modifies this
      ensures Valid()
      ensures file.None? ==> outcome == Rejected(NoFilePart) && names == old(names)
      ensures file == Some("") ==> outcome == Rejected(EmptyFilename) && names == old(names)
      ensures file.Some? && file.value != "" ==>
                var name := SaveName(utc, FileCode(draw), RoleFor(authenticated), file.value);
                && names == (if saved then AddName(old(names), name) else old(names))
                && outcome == (if saved then Stored(name, NameEchoed(file.value)) else WriteFailed)
    {
      if file.None? {
        return Rejected(NoFilePart);
      }
      var filename := file.value;
      if filename == "" {
        return Rejected(EmptyFilename);
      }
      var stamp := FormatStamp(utc);
      var code := FileCode(draw);
      var who := Anonymous;
      if authenticated {
        who := Admin;
      }
      var savename := Encode(Entry(stamp, code, who, filename));
      Save(savename, saved);
      if !saved {
        return WriteFailed;
      }
      outcome := Stored(savename, NameEchoed(filename));
    }
  }
}
