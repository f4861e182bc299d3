# igwill: the drop store and the wish-list parser, in Dafny

The repository holds two small Flask applications.

**The drop store (`drop.py`).** It keeps uploads in one folder and has no database. Each upload is stored under a name that carries its metadata: `stamp-code-who-original`.
- `stamp` is the 14-digit UTC time `YYYYMMDDHHmmss`.
- `code` is 4 characters drawn from `A-Z0-9`.
- `who` is `adm` or `ano`.
- `original` is the client's file name.

Every request first sweeps the folder. The sweep removes names with fewer than four `-`-separated parts and names older than 24 hours. The routes then work on the folder's names:
- look a file up by its code;
- list the folder newest first, for the logged-in owner;
- serve a file under its original name;
- delete a file;
- store uploads and shared files.

**The wish list (`igwill.py`).** `parse_markdown` turns each `- [x] ` or `- [ ] ` item of a Markdown document into a triple:
- the text before ` --> `;
- either the caption and URL of the first `[caption](url)` link after the arrow, or the rest of the item with no URL.

## Modules
- `Split`: `str.split` with a maximum split count, and `str.join`.
- `Stamp`: the 14-digit stamp as `strftime` writes it and `strptime` reads it, a seconds scale and the 24-hour expiry.
- `Codec`: file codes, the stored name, and the original-name pattern `^(\d{14})-([A-Z0-9]{4})-(adm|ano)-(.*)$`.
- `Directory`: removing one name from a listing.
- `Sweep`: `clean_files` as a function of the listing and the clock.
- `Lookup`: the download-by-code search.
- `Listing`: the owner's records and the stable newest-first sort.
- `Store`: the folder as the class `DropStore`, whose methods update its `names` in place. Each method is proved against the functions above.
- `Text`: `str.strip` and substring search.
- `Checklist`: `parse_markdown`.

Outside inputs are parameters:
- the clock: a `DateTime` for the upload stamp, an integer count of microseconds for the sweep;
- the random draw: four indices into the 36-character alphabet;
- whether the user is logged in;
- whether writing the file succeeded.

## Model

| member | source | states |
|---|---|---|
| Split.SplitN | drop.py:61 | `split('-', 3)` gives 1 to 4 parts. Joining them with `-` gives back the name. No part but the last holds `-`, and the last holds none when there are fewer than 4 parts. |
| Split.SplitJoin | drop.py:61 | Splitting a join of parts that meet those conditions gives back the same parts. |
| Split.SplitFourFields | drop.py:132 | Three fields without `-` and any fourth field, joined by `-`, split back into exactly those four. The fourth may itself hold `-`. |
| Stamp.DaysInMonth | drop.py:66 | A month has 28 to 31 days. It has 29 exactly for February of a leap year. |
| Stamp.FormatStamp | drop.py:129 | `strftime('%Y%m%d%H%M%S')` of a valid date-time is 14 digits. |
| Stamp.ParseStamp | drop.py:66 | What `strptime` accepts is a valid date-time, and writing it out again gives the same 14 characters. |
| Stamp.ParseFormat | drop.py:129 | Reading a written stamp gives back the date-time. |
| Stamp.ExpiredStaysExpired | drop.py:67 | Once a stamp is more than 24 hours old it stays expired at every later time. |
| Stamp.NumberOfPad | drop.py:129 | A zero-padded field reads back as its number. |
| Stamp.PadNumberOf | drop.py:66 | A digit field is its number, zero-padded to its width. |
| Stamp.LocalClockExpiresEarly | drop.py:67 | Comparing a UTC stamp with a clock 2 hours ahead expires a 23-hour-old upload. By UTC that upload is not expired. |
| Codec.RoleToken | drop.py:131 | The role token has 3 characters, no `-` and no line break. |
| Codec.RoleOfToken | drop.py:90 | The third group accepts exactly `adm` and `ano`, each its role's token. |
| Codec.FileCode | drop.py:74-75 | A file code is 4 characters from `A-Z0-9`. |
| Codec.AlphabetIndex | drop.py:75 | Every code character is drawn by exactly one alphabet index. |
| Codec.FileCodeOnto | drop.py:74-75 | Every 4-character code over `A-Z0-9` is drawn by some draw. |
| Codec.FileCodeInjective | drop.py:74-75 | Different draws give different codes. |
| Codec.MatchName | drop.py:90-91 | A name the pattern matches is a well-formed encoding, optionally followed by one final line break. |
| Codec.MatchEncode | drop.py:90-92 | The pattern matches every well-formed encoding, with or without one final line break, and gives back its fields. |
| Codec.OriginalOfEncoded | drop.py:162-164 | The download name of a freshly encoded name is the uploaded file name. |
| Codec.OriginalOfUnmatched | drop.py:164 | A name that is no encoding is served under its own name. |
| Codec.SplitEncoded | drop.py:132 | A name whose stamp and code hold no `-` splits into stamp, code, role token and the whole original name. |
| Codec.SplitWellFormed | drop.py:88 | Every well-formed name splits back into its four fields. |
| Codec.Encode | drop.py:132 | The stored name is built without escaping. When stamp and code hold no `-`, `split('-', 3)` gives back all four fields, with the original name whole. |
| Codec.SaveName | drop.py:129-133 | The name an upload is saved under splits into the stamp of the upload time, the drawn code, the role token and the file name. The stamp parses back to the upload time and the token to the role. Without a line break in the file name, it is served under that file name. |
| Codec.SavedFields | drop.py:129-132 | The parts of a saved name read back as the upload time, code and role. |
| Codec.OriginalName | drop.py:90-92 | The download name is either the whole stored name or the original name of the entry the stored name encodes. |
| Directory.Without | drop.py:177-178 | After removal a name is listed exactly when it was listed before and is not the removed name. |
| Directory.WithoutAbsent | drop.py:177 | Removing an absent name changes nothing. |
| Directory.WithoutPresent | drop.py:178 | Removing a name that occurs once keeps the names before and after it, in order. |
| Directory.WithoutIdempotent | drop.py:176-178 | Deleting twice is deleting once. |
| Directory.WithoutDistinct | drop.py:178 | Removal keeps the names of a folder distinct. |
| Directory.WithoutCount | drop.py:178 | Removing a present name shortens a folder by exactly one. |
| Sweep.SweepStopsAt | drop.py:66 | When the first bad stamp is at position k, the sweep reports that name. It keeps the swept prefix, then that name and all the names after it. |
| Sweep.SweepAppend | drop.py:60 | A sweep that gets through a prefix goes on with the rest of the listing. |
| Sweep.SweepKeepsSurvivors | drop.py:60-68 | A sweep that does not raise keeps exactly the four-part names with a valid stamp at most 24 hours old. |
| Sweep.FirstUnparseable | drop.py:66 | Locates the first four-part name whose stamp `strptime` rejects. |
| Sweep.SweepStopsAtUnparseable | drop.py:66 | The sweep raises exactly on that name. The names before it are swept, and it and the rest are kept. |
| Sweep.SweepWithoutUnparseable | drop.py:59-68 | A listing without such a name is swept without raising. |
| Sweep.SweepOf | drop.py:59-68 | `clean_files` over a listing only removes names. When it raises, it raises on a listed four-part name whose stamp `strptime` rejects. |
| Sweep.SweepKeptDistinct | drop.py:63-68 | The names left in a folder stay distinct. |
| Sweep.SweepIdempotent | drop.py:59-68 | Sweeping again at the same time removes nothing more. |
| Sweep.ExpiryBoundary | drop.py:67 | Expiry is strict: a name exactly 24 hours old survives, and one microsecond later it is removed. |
| Sweep.MalformedPurged | drop.py:62-64 | A name with fewer than four parts is removed whatever the time. |
| Sweep.NoDashMalformed | drop.py:61-62 | A name with no `-`, such as `garbage.txt`, splits into one part, so it counts as malformed. |
| Sweep.FreshNameSurvives | drop.py:67 | A saved upload survives every sweep within 24 hours of its stamp. |
| Sweep.SweepStep | drop.py:61-68 | One more name: the sweep of the longer prefix keeps that name exactly when it survives. |
| Sweep.SweepAbort | drop.py:66 | A sweep that reaches a name with a bad stamp returns the names seen so far, that name and the rest. |
| Lookup.Upper | drop.py:86 | Upper-casing maps each character on its own and keeps the length. |
| Lookup.FirstMatch | drop.py:87-89 | Finds the first name with at least 3 parts whose second part is the code, or says there is none. |
| Lookup.LookupOf | drop.py:85-100 | The lookup serves the first listed name whose second part is the upper-cased code, under its original name. It gives "not found" exactly when no listed name has that code. |
| Lookup.LookupPrefix | drop.py:94 | The first match hides every later name with the same code. |
| Lookup.LookupSkips | drop.py:87-89 | Names without the code are passed over. |
| Lookup.LookupFindsUpload | drop.py:85-99 | An upload whose code is listed nowhere else is found by that code typed in any letter case. It is served under its original name. |
| Lookup.LowerCaseCodeScenario | drop.py:86-98 | Typing `k7q2` serves a guest upload of `notes.txt` coded `K7Q2` as `notes.txt`. |
| Listing.RecordOfEncoded | drop.py:108-116 | The record of a stored name is the entry encoded in it: the name, its original name (with any `-` in it) as `orig`, its code and its stamp. |
| Listing.RecordsOfNames | drop.py:104-116 | Exactly the four-part names get a record, each built from its own name. |
| Listing.RecordsOfCount | drop.py:104-116 | A four-part name has as many records as it has listings. |
| Listing.RecordsOf | drop.py:104-116 | There are at most as many records as names. Each record belongs to a listed four-part name and is built from that name. |
| Listing.ListingOf | drop.py:102-117 | The listing is newest first. It is empty for a visitor who is not logged in. For the owner it is a permutation of the records, with exactly one record per four-part name. |
| Listing.LexIrreflexive | drop.py:117 | String order never puts a stamp before itself. |
| Listing.LexTransitive | drop.py:117 | String order is transitive. |
| Listing.LexTotal | drop.py:117 | Any two different strings are ordered. |
| Listing.LexAsymmetric | drop.py:117 | No two strings are each before the other. |
| Listing.WithStampConcat | drop.py:117 | The records with one stamp, taken from a concatenation, are those of each side in turn. |
| Listing.Insert | drop.py:117 | Inserting into a newest-first list keeps it newest first and adds just that record. A new record with a stamp already present goes behind the records with that stamp. |
| Listing.SortNewestFirst | drop.py:117 | The sort is newest first and a permutation. It is stable: the records with any one stamp keep their listing order. |
| Store.SavedRole | drop.py:131-132 | The role token in an upload's saved name reads back as the uploader's role, and it is `adm` exactly when the user was logged in. |
| Store.AddName | drop.py:133 | Saving adds the name to the folder and keeps its names distinct. The old names keep their order in front. If the name already exists, the file is overwritten and the folder is unchanged. |
| Store.UploadListed | drop.py:129-133 | After an upload is saved, the owner's listing shows it with its stamp, code and file name. |
| Store.DropStore.Sweep | drop.py:59-68 | Leaves exactly the names the sweep keeps and reports the name it raised on, removing names in place. |
| Store.DropStore.Judge | drop.py:61-67 | For one name, says whether `strptime` raises and otherwise whether the name is removed. |
| Store.DropStore.RemoveListed | drop.py:63 | Removes the current name from the folder. Names already kept and names not yet reached stay. |
| Store.DropStore.FindByCode | drop.py:85-99 | Returns the first match for the upper-cased code, with its download name. It returns None exactly when no name matches. |
| Store.DropStore.List | drop.py:102-117 | A visitor gets an empty list. The owner gets one record per four-part name, newest first, in the order of the stable sort. |
| Store.DropStore.Delete | drop.py:172-178 | A request without login deletes nothing. For the owner it removes the name if present and changes nothing else, and the folder shrinks by one exactly when the name was there. |
| Store.DropStore.Save | drop.py:133 | When the write succeeds the name joins the folder, and otherwise the folder is unchanged. |
| Store.DropStore.Upload | drop.py:121-140 | Rejects a request without a file part or with an empty file name, and otherwise saves the encoded name. The owner is shown the code; a guest is shown the file name. |
| Store.DropStore.Share | drop.py:182-210 | Stores like an upload but always echoes the file name. |
| Text.Lead | igwill.py:8 | Counts the leading whitespace of a string. |
| Text.End | igwill.py:8 | Gives the end of a string once trailing whitespace is dropped. |
| Text.Strip | igwill.py:8 | `strip()` gives a slice of its input with neither leading nor trailing whitespace, and only whitespace is cut around it. |
| Text.StripExact | igwill.py:8 | A slice surrounded by whitespace, with none at its own ends, is what `strip()` returns. |
| Text.Find | igwill.py:8 | `find` gives the first occurrence of the separator, or the length when there is none. |
| Checklist.FindAll | igwill.py:12 | No item holds a line break. |
| Checklist.Lines | igwill.py:12 | The lines of the document, joined by line breaks, give the document back, and no line holds a line break. |
| Checklist.FirstMarker | igwill.py:12 | Locates the first `- [x] ` or `- [ ] ` in a line. |
| Checklist.LineItem | igwill.py:12 | A line gives the text after its first marker, or nothing when it has no marker. |
| Checklist.FindAllFirstLine | igwill.py:12 | The search finishes the first line before it looks at the next. |
| Checklist.FindAllByLines | igwill.py:12 | `findall` gives one item per line with a marker, in document order: the rest of that line after its first marker. |
| Checklist.CheckboxIgnored | igwill.py:12 | A ticked and an unticked checkbox give the same item. |
| Checklist.UrlEnd | igwill.py:9 | The lazy URL group ends at the first `)`, unless a line break comes first. |
| Checklist.LabelEnd | igwill.py:9 | The lazy caption group ends at the first `](` from which the URL group closes. |
| Checklist.LinkFrom | igwill.py:9 | The match is the one with the leftmost `[`, then the shortest caption, then the shortest URL. If there is none, the tail holds no link. |
| Checklist.SearchLink | igwill.py:9 | `re.search` finds a link exactly when the tail holds one, and finds the first one the engine reaches. |
| Checklist.LinkDecomposed | igwill.py:9 | `[caption](url)` after a prefix without `[` is found at its brackets when the caption holds no `](` and the URL holds no `)`. |
| Checklist.LinkGroups | igwill.py:9 | The groups of such a link are its caption and URL. |
| Checklist.UrlStopsAtFirstClose | igwill.py:9 | The URL of the link found holds no `)` and no line break: the lazy group stops at the first `)`. |
| Checklist.AfterArrow | igwill.py:9 | After the arrow there is always a second field. There is a URL exactly when the tail holds a link, and the URL holds no `)`. Without a link, the second field is the stripped tail. |
| Checklist.ParseItem | igwill.py:8-10 | The text is stripped. There is a second field exactly when the item holds ` --> `. A URL comes only with a second field and never holds `)`. |
| Checklist.ParseMarkdownLines | igwill.py:7-12 | Gives one triple per line with a marker, in document order, each parsed from the text after that line's first marker. |
| Checklist.ItemWithoutArrow | igwill.py:10 | An item without ` --> ` gives its stripped text, None, None. |
| Checklist.ItemWithArrow | igwill.py:8-9 | An item is cut at its first ` --> ` only. The text is the stripped head, and later arrows stay in the tail. |
| Checklist.LinkWish | igwill.py:9 | A link in the tail gives the second and third fields. |
| Checklist.ItemWithLink | igwill.py:8-9 | `head --> pre[caption](url)post` gives the stripped head, the caption and the URL. |
| Checklist.ItemWithoutLink | igwill.py:9 | A tail without a link gives the stripped head, the stripped tail and no URL. |

## Findings

| source | as written | input that shows it | evidently intended | confidence | as-written member | corrected member |
|---|---|---|---|---|---|---|
| drop.py:67 | The stamp is written from `arrow.utcnow()` (drop.py:129). The sweep compares it with `datetime.datetime.now()`, the server's local clock. | A server 2 hours ahead of UTC deletes an upload 23 hours old. | Files live 24 hours, measured on one clock. | medium, not executed | Stamp.LocalClockExpiresEarly | Sweep.ExpiryBoundary |

`Stamp.ExpiredAgainstLocalClock` states the comparison as written, with the clock offset as a parameter. The rest of the model measures both readings on the UTC clock (`Stamp.Expired`).

## Left out
- Flask routing, templates, `flash` texts, redirects, `send_from_directory`, the manifest and style routes: HTTP glue. A served file is modelled as its stored name and its download name.
- Login, `flask_login` and the credential check: a logged-in user is a boolean input. `Store.DropStore.Delete` takes it as `@login_required` does. The login check on `get_file` is not modelled; the download name it serves is `Codec.OriginalName`.
- Rate limits (`flask_limiter`): external middleware.
- `human_age`: presentation text from a foreign library. `Listing.Record` has no `age` field.
- File contents and real I/O (`os.listdir`, `os.remove`, `file.save`, `os.path.exists`, reading `README.md`). The folder is a sequence of names in enumeration order. A saved name joins at the end. `file.save` failing is the input `saved`.
- The order of `os.listdir` is whatever the file system gives. The model takes it as the given sequence.
- Concurrency between requests: the source has no synchronisation.
- Path separators and `..` in names given to `del_file`, `get_file` and `file.save`: names are opaque strings.
- Stamp.ParseStamp: takes exactly 14 ASCII digits forming a valid date-time. Python's `strptime` also accepts shorter stamps with single-digit fields, space-padded fields such as a day written ` 1`, and other Unicode digits. Names with such stamps are treated as unparseable, so the sweep raises on them here.
- Codec.MatchName: `\d` is ASCII digits only. Python's `\d` also matches other Unicode decimal digits.
- Lookup.Upper: upper-cases ASCII letters only. Python's `str.upper` also maps other letters, and can lengthen a string.
- Stamp.FormatStamp: pads every year to four digits. CPython's `%Y` does not pad years below 1000 on some platforms. Such a year never comes from `arrow.utcnow()`.
- The sweep's `now` is an integer count of microseconds, and the upload clock a `DateTime`. The wall clock and `random.choices` are not modelled.
- Store.DropStore.List: sorts a value copy with a stable insertion sort. The in-place `list.sort` is modelled by what it yields.
- Text.Strip: whitespace is Python's `str.isspace` set.
- The role check: the model follows the code, which never checks the role when it reads a name back. It only splits and matches the pattern.
