/**
 * Download by code (the POST branch of `index` in drop.py): the typed code
 * is upper-cased, and the first listed name with at least three parts
 * whose second part equals it is served under its original file name.
 */
module Lookup {
  import opened Options
  import opened Stamp
  import opened Codec
  import opened Sweep

  /** `str.upper` on ASCII letters; every other character is left as it is. */
  function UpperChar(c: char): char
  {
    if 'a' <= c <= 'z' then ((c as int) - 32) as char else c
  }

  function Upper(s: string): (r: string)
    ensures |r| == |s| && forall i :: 0 <= i < |s| ==> r[i] == UpperChar(s[i])
  {
    if s == [] then [] else [UpperChar(s[0])] + Upper(s[1..])
  }

  /** `len(parts) >= 3 and parts[1] == code`. */
  predicate CodeMatches(name: string, code: string)
  {
    |Parts(name)| >= 3 && Parts(name)[1] == code
  }

  /** The file served: its stored name and the name the browser saves it under. */
  datatype Download = Download(name: string, downloadName: string)

  /** Index of the first name matching `code`, or `|names|`: first match wins. */
  function FirstMatch(names: seq<string>, code: string): (k: nat)
    ensures k <= |names|
    ensures forall j :: 0 <= j < k ==> !CodeMatches(names[j], code)
    ensures k < |names| ==> CodeMatches(names[k], code)
  {
    if names == [] then 0
    else if CodeMatches(names[0], code) then 0
    else 1 + FirstMatch(names[1..], code)
  }

  /**
   * What a code lookup over the listing `names` serves: the first listed
   * name whose second part is the upper-cased code, under its original
   * name; None ("Falscher Code!") exactly when no listed name has that code.
   */
  function LookupOf(names: seq<string>, typed: string): (r: Option<Download>)
    ensures r.None? <==> forall j :: 0 <= j < |names| ==> !CodeMatches(names[j], Upper(typed))
    ensures r.Some? ==> exists k :: 0 <= k < |names| && names[k] == r.value.name
                          && CodeMatches(names[k], Upper(typed))
                          && (forall j :: 0 <= j < k ==> !CodeMatches(names[j], Upper(typed)))
    ensures r.Some? ==> r.value.downloadName == OriginalName(r.value.name)
  {
    var k := FirstMatch(names, Upper(typed));
    if k < |names| then Some(Download(names[k], OriginalName(names[k]))) else None
  }

  /** A name found in front of the listing hides every later one with its code. */
  lemma {:induction false} LookupPrefix(pre: seq<string>, post: seq<string>, code: string)
    requires FirstMatch(pre, code) < |pre|
    ensures FirstMatch(pre + post, code) == FirstMatch(pre, code)
  {
    if !CodeMatches(pre[0], code) {
      assert (pre + post)[1..] == pre[1..] + post;
      LookupPrefix(pre[1..], post, code);
    }
  }

  /** Names without the code are skipped: the lookup continues past them. */
  lemma {:induction false} LookupSkips(pre: seq<string>, post: seq<string>, code: string)
    requires forall j :: 0 <= j < |pre| ==> !CodeMatches(pre[j], code)
    ensures FirstMatch(pre + post, code) == |pre| + FirstMatch(post, code)
  {
    if pre == [] {
      assert pre + post == post;
    } else {
      assert (pre + post)[1..] == pre[1..] + post;
      LookupSkips(pre[1..], post, code);
    }
  }

  /**
   * An upload whose code no other listed name carries is found by that
   * code typed in any letter case, and served under the uploaded name.
   */
  lemma LookupFindsUpload(names: seq<string>, e: Entry, typed: string)
    requires WellFormed(e)
    requires Upper(typed) == e.code
    requires forall j :: 0 <= j < |names| ==> !CodeMatches(names[j], e.code)
    ensures LookupOf(names + [Encode(e)], typed) == Some(Download(Encode(e), e.original))
  {
    SplitWellFormed(e);
    LookupSkips(names, [Encode(e)], e.code);
    OriginalOfEncoded(e);
  }

  /**
   * The worked example: a guest uploads `notes.txt` and draws K7Q2; typing
   * `k7q2` then serves the file as `notes.txt`.
   */
  lemma LowerCaseCodeScenario(utc: DateTime)
    requires ValidDateTime(utc)
    ensures var name := SaveName(utc, "K7Q2", Anonymous, "notes.txt");
            LookupOf([name], "k7q2") == Some(Download(name, "notes.txt"))
  {
    var e := Entry(FormatStamp(utc), "K7Q2", Anonymous, "notes.txt");
    assert Upper("k7q2") == "K7Q2";
    LookupFindsUpload([], e, "k7q2");
    assert [] + [Encode(e)] == [Encode(e)];
  }
}
