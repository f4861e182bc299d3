/**
 * The stored-name format `stamp-code-who-original` (drop.py), the regular
 * expression `^(\d{14})-([A-Z0-9]{4})-(adm|ano)-(.*)$` that recovers the
 * uploaded file name from it, and the draw of the 4-character code.
 */
module Codec {
  import opened Options
  import opened Split
  import opened Stamp

  /** Who uploaded: the logged-in administrator (`adm`) or an anonymous guest (`ano`). */
  datatype Role = Admin | Anonymous

  function RoleToken(who: Role): (t: string)
    ensures |t| == 3 && '-' !in t && '\n' !in t
  {
    match who
    case Admin => "adm"
    case Anonymous => "ano"
  }

  /** The alternation `(adm|ano)`. */
  function RoleOfToken(t: string): (r: Option<Role>)
    ensures r.Some? <==> t == "adm" || t == "ano"
    ensures r.Some? ==> RoleToken(r.value) == t
  {
    if t == "adm" then Some(Admin)
    else if t == "ano" then Some(Anonymous)
    else None
  }

  /** The size of `string.ascii_uppercase + string.digits`. */
  const AlphabetSize: nat := 36

  /** Character `k` of `string.ascii_uppercase + string.digits`: A to Z, then 0 to 9. */
  function AlphabetChar(k: nat): char
    requires k < AlphabetSize
  {
    if k < 26 then ('A' as int + k) as char else ('0' as int + k - 26) as char
  }

  /** The class `[A-Z0-9]`. */
  predicate IsCodeChar(c: char)
  {
    'A' <= c <= 'Z' || '0' <= c <= '9'
  }

  predicate IsCode(s: string)
  {
    |s| == 4 && forall i :: 0 <= i < |s| ==> IsCodeChar(s[i])
  }

  predicate IsDraw(draw: seq<nat>)
  {
    |draw| == 4 && forall i :: 0 <= i < 4 ==> draw[i] < AlphabetSize
  }

  /** `''.join(random.choices(alphabet, k=4))`, the four drawn positions given as input. */
  function FileCode(draw: seq<nat>): (code: string)
    requires IsDraw(draw)
    ensures IsCode(code)
  {
    [AlphabetChar(draw[0]), AlphabetChar(draw[1]), AlphabetChar(draw[2]), AlphabetChar(draw[3])]
  }

  /** Position of a code character in the alphabet. */
  function AlphabetIndex(c: char): (k: nat)
    requires IsCodeChar(c)
    ensures k < AlphabetSize && AlphabetChar(k) == c
  {
    if 'A' <= c <= 'Z' then (c as int) - ('A' as int) else 26 + (c as int) - ('0' as int)
  }

  /** Every code of the format `[A-Z0-9]{4}` can be drawn. */
  lemma FileCodeOnto(code: string)
    requires IsCode(code)
    ensures var draw := [AlphabetIndex(code[0]), AlphabetIndex(code[1]), AlphabetIndex(code[2]), AlphabetIndex(code[3])];
            IsDraw(draw) && FileCode(draw) == code
  {
  }

  /** Distinct draws give distinct codes: the alphabet has no repeated character. */
  lemma FileCodeInjective(d1: seq<nat>, d2: seq<nat>)
    requires IsDraw(d1) && IsDraw(d2)
    requires FileCode(d1) == FileCode(d2)
    ensures d1 == d2
  {
    forall i | 0 <= i < 4 ensures d1[i] == d2[i] {
      assert AlphabetChar(d1[i]) == FileCode(d1)[i] == FileCode(d2)[i] == AlphabetChar(d2[i]);
    }
  }

  /** The metadata one stored file carries in its name. */
  datatype Entry = Entry(stamp: string, code: string, who: Role, original: string)

  /**
   * `f"{stamp}-{code}-{who}-{filename}"`.  No escaping: when stamp and code
   * hold no `-`, `split('-', 3)` recovers all four fields, the file name
   * whole even if it holds `-` itself.
   */
  function Encode(e: Entry): (name: string)
    ensures '-' !in e.stamp && '-' !in e.code ==>
              SplitN(name, '-', 3) == [e.stamp, e.code, RoleToken(e.who), e.original]
  {
    var name := e.stamp + "-" + e.code + "-" + RoleToken(e.who) + "-" + e.original;
    assert '-' !in e.stamp && '-' !in e.code ==>
             SplitN(name, '-', 3) == [e.stamp, e.code, RoleToken(e.who), e.original] by {
      if '-' !in e.stamp && '-' !in e.code {
        SplitFourFields(e.stamp, e.code, RoleToken(e.who), e.original, '-');
      }
    }
    name
  }

  /** An entry the regular expression can read back: an original name without line break. */
  predicate WellFormed(e: Entry)
  {
    |e.stamp| == 14 && AllDigits(e.stamp) && IsCode(e.code) && '\n' !in e.original
  }

  /**
   * `re.match(r'^(\d{14})-([A-Z0-9]{4})-(adm|ano)-(.*)$', name)`.  `.` stops
   * at a line break and `$` also matches just before one final line break,
   * so a name matches when it is an encoded well-formed entry, possibly
   * followed by one `\n`; the groups are then the entry's fields.
   */
  function MatchName(name: string): (r: Option<Entry>)
    ensures r.Some? ==> WellFormed(r.value)
    ensures r.Some? ==> name == Encode(r.value) || name == Encode(r.value) + "\n"
  {
    if |name| >= 24 && AllDigits(name[..14]) && name[14] == '-' && IsCode(name[15..19])
       && name[19] == '-' && RoleOfToken(name[20..23]).Some? && name[23] == '-'
    then
      var who := RoleOfToken(name[20..23]).value;
      var rest := name[24..];
      assert name == name[..14] + "-" + name[15..19] + "-" + name[20..23] + "-" + rest;
      if '\n' !in rest then
        Some(Entry(name[..14], name[15..19], who, rest))
      else if rest[|rest| - 1] == '\n' && '\n' !in rest[..|rest| - 1] then
        assert rest == rest[..|rest| - 1] + "\n";
        Some(Entry(name[..14], name[15..19], who, rest[..|rest| - 1]))
      else None
    else None
  }

  /** Group 1 to 4 of the pattern are exactly the fields that Encode wrote. */
  lemma MatchEncode(e: Entry)
    requires WellFormed(e)
    ensures MatchName(Encode(e)) == Some(e)
    ensures MatchName(Encode(e) + "\n") == Some(e)
  {
    var name := Encode(e);
    assert name[..14] == e.stamp && name[14] == '-' && name[15..19] == e.code;
    assert name[19] == '-' && name[20..23] == RoleToken(e.who) && name[23] == '-';
    assert name[24..] == e.original;
    var nl := name + "\n";
    assert nl[..14] == e.stamp && nl[14] == '-' && nl[15..19] == e.code;
    assert nl[19] == '-' && nl[20..23] == RoleToken(e.who) && nl[23] == '-';
    assert nl[24..] == e.original + "\n";
  }

  /**
   * `match.group(4) if match else name`: the download name of a stored file
   * is either the whole name or the original name of the entry it encodes.
   */
  function OriginalName(name: string): (r: string)
    ensures r == name || exists e :: WellFormed(e) && (name == Encode(e) || name == Encode(e) + "\n") && r == e.original
  {
    match MatchName(name)
    case Some(e) => e.original
    case None => name
  }

  /** A freshly encoded name gives back the uploaded file name. */
  lemma OriginalOfEncoded(e: Entry)
    requires WellFormed(e)
    ensures OriginalName(Encode(e)) == e.original
  {
    MatchEncode(e);
  }

  /** A name outside the pattern is its own download name. */
  lemma OriginalOfUnmatched(name: string)
    requires forall e :: WellFormed(e) ==> name != Encode(e) && name != Encode(e) + "\n"
    ensures OriginalName(name) == name
  {
  }

  /**
   * Splitting an encoded name with `split('-', 3)` gives its four fields,
   * even when the original file name holds further `-`.
   */
  lemma SplitEncoded(e: Entry)
    requires '-' !in e.stamp && '-' !in e.code
    ensures SplitN(Encode(e), '-', 3) == [e.stamp, e.code, RoleToken(e.who), e.original]
  {
    SplitFourFields(e.stamp, e.code, RoleToken(e.who), e.original, '-');
  }

  /** Well-formed stamps and codes hold no `-`, so every well-formed entry splits back. */
  lemma SplitWellFormed(e: Entry)
    requires WellFormed(e)
    ensures SplitN(Encode(e), '-', 3) == [e.stamp, e.code, RoleToken(e.who), e.original]
  {
    assert forall i :: 0 <= i < |e.stamp| ==> e.stamp[i] != '-';
    assert forall i :: 0 <= i < |e.code| ==> e.code[i] != '-';
    SplitEncoded(e);
  }

  /**
   * The name an upload at `utc` is saved under.  With a drawn code, its
   * four parts read back as the upload time, the code, the uploader's role
   * and the file name; and it is served under that file name.
   */
  function SaveName(utc: DateTime, code: string, who: Role, filename: string): (name: string)
    requires ValidDateTime(utc)
    ensures IsCode(code) ==>
              var parts := SplitN(name, '-', 3);
              && parts == [FormatStamp(utc), code, RoleToken(who), filename]
              && ParseStamp(parts[0]) == Some(utc)
              && RoleOfToken(parts[2]) == Some(who)
    ensures IsCode(code) && '\n' !in filename ==> OriginalName(name) == filename
  {
    var e := Entry(FormatStamp(utc), code, who, filename);
    assert IsCode(code) ==>
             var parts := SplitN(Encode(e), '-', 3);
             && parts == [FormatStamp(utc), code, RoleToken(who), filename]
             && ParseStamp(parts[0]) == Some(utc)
             && RoleOfToken(parts[2]) == Some(who) by {
      if IsCode(code) {
        SavedFields(e, utc);
      }
    }
    assert IsCode(code) && '\n' !in filename ==> OriginalName(Encode(e)) == filename by {
      if IsCode(code) && '\n' !in filename {
        OriginalOfEncoded(e);
      }
    }
    Encode(e)
  }

  /** The four parts of the name of an upload at `utc` read back as its fields. */
  lemma SavedFields(e: Entry, utc: DateTime)
    requires ValidDateTime(utc) && e.stamp == FormatStamp(utc) && IsCode(e.code)
    ensures SplitN(Encode(e), '-', 3) == [e.stamp, e.code, RoleToken(e.who), e.original]
    ensures ParseStamp(e.stamp) == Some(utc)
    ensures RoleOfToken(RoleToken(e.who)) == Some(e.who)
  {
    assert forall i :: 0 <= i < |e.stamp| ==> e.stamp[i] != '-';
    assert forall i :: 0 <= i < |e.code| ==> e.code[i] != '-';
    SplitEncoded(e);
    ParseFormat(utc);
  }
}
