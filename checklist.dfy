/**
 * `parse_markdown` (igwill.py): every `- [x] ` or `- [ ] ` item of a
 * Markdown wish list becomes a triple: the text before ` --> `, stripped;
 * then either the caption and URL of the first `[caption](url)` link after the
 * arrow, or the stripped rest with no URL; an item without arrow has
 * neither.
 */
module Checklist {
  import opened Options
  import opened Split
  import opened Text

  // ---------------------------------------------------------------------
  // Items: `re.findall(r"- \[[x ]\] (.*)", md)`
  // ---------------------------------------------------------------------

  /** The checkbox marker `- [x] ` or `- [ ] ` starts at `j`. */
  predicate MarkerAt(s: string, j: nat)
  {
    && j + 6 <= |s|
    && s[j] == '-' && s[j + 1] == ' ' && s[j + 2] == '['
    && (s[j + 3] == 'x' || s[j + 3] == ' ')
    && s[j + 4] == ']' && s[j + 5] == ' '
  }

  /**
   * The regular-expression search, as `findall` runs it: at each position
   * try the marker; on a match `(.*)` takes the rest of the line and the
   * search goes on where the match ended, otherwise one position further.
   */
  function FindAll(s: string): (items: seq<string>)
    ensures forall i :: 0 <= i < |items| ==> '\n' !in items[i]
    decreases |s|
  {
    if s == [] then []
    else if MarkerAt(s, 0) then
      var e := 6 + FindChar(s[6..], '\n');
      [s[6..e]] + FindAll(s[e..])
    else FindAll(s[1..])
  }

  /** `md.split('\n')`: the lines of the document. */
  function Lines(md: string): (lines: seq<string>)
    ensures |lines| >= 1 && Join(lines, '\n') == md
    ensures forall i :: 0 <= i < |lines| ==> '\n' !in lines[i]
    decreases |md|
  {
    var k := FindChar(md, '\n');
    if k == |md| then [md]
    else
      var rest := Lines(md[k + 1..]);
      assert md == md[..k] + ['\n'] + md[k + 1..];
      [md[..k]] + rest
  }

  /** Index of the first marker in `t`, or `|t|`. */
  function FirstMarker(t: string): (k: nat)
    ensures k <= |t|
    ensures forall j :: 0 <= j < k ==> !MarkerAt(t, j)
    ensures k < |t| ==> MarkerAt(t, k)
  {
    if t == [] || MarkerAt(t, 0) then 0
    else
      var k := 1 + FirstMarker(t[1..]);
      assert forall j :: 1 <= j < k ==> MarkerAt(t, j) == MarkerAt(t[1..], j - 1);
      assert k < |t| ==> MarkerAt(t[1..], k - 1);
      k
  }

  /**
   * What one line contributes: the text after its first marker, up to the
   * end of the line, or nothing when it has no marker.
   */
  function LineItem(line: string): (r: seq<string>)
    ensures var k := FirstMarker(line);
            r == if k < |line| then [line[k + 6..]] else []
  {
    if line == [] then []
    else if MarkerAt(line, 0) then [line[6..]]
    else
      var r := LineItem(line[1..]);
      assert forall j :: 0 <= j < |line| - 1 ==> MarkerAt(line, j + 1) == MarkerAt(line[1..], j);
      r
  }

  /** The items line by line, in document order. */
  function ItemsOfLines(lines: seq<string>): seq<string>
  {
    if lines == [] then [] else LineItem(lines[0]) + ItemsOfLines(lines[1..])
  }

  /** A marker lies inside one line, so the search meets the lines one after another. */
  lemma {:induction false} FindAllFirstLine(s: string)
    ensures var k := FindChar(s, '\n');
            FindAll(s) == LineItem(s[..k]) + FindAll(s[k..])
    decreases |s|
  {
    var k := FindChar(s, '\n');
    if s == [] {
    } else if MarkerAt(s, 0) {
      FirstLineMarked(s);
    } else if k == 0 {
      assert s[..0] == [] && s[0..] == s;
    } else {
      var t := s[1..];
      FindAllFirstLine(t);
      FindCharAfter(s, '\n', 1);
      assert t[..k - 1] == s[1..k] && t[k - 1..] == s[k..];
      FirstLineUnmarked(s, k);
    }
  }

  /** `FindChar` is the one index its contract describes. */
  lemma FindCharIs(s: string, c: char, k: nat)
    requires k <= |s| && (forall j :: 0 <= j < k ==> s[j] != c) && (k < |s| ==> s[k] == c)
    ensures FindChar(s, c) == k
  {
  }

  /** Past a stretch without `c`, the first `c` is that much nearer. */
  lemma FindCharAfter(s: string, c: char, d: nat)
    requires d <= FindChar(s, c)
    ensures FindChar(s[d..], c) == FindChar(s, c) - d
  {
    var k := FindChar(s, c);
    var t := s[d..];
    assert forall j :: 0 <= j < |t| ==> t[j] == s[j + d];
    FindCharIs(t, c, k - d);
  }

  /** A line that opens with a marker: its item is the rest of the line. */
  lemma FirstLineMarked(s: string)
    requires MarkerAt(s, 0)
    ensures var k := FindChar(s, '\n');
            FindAll(s) == LineItem(s[..k]) + FindAll(s[k..])
  {
    var k := FindChar(s, '\n');
    assert k >= 6;
    FindCharAfter(s, '\n', 6);
    assert MarkerAt(s[..k], 0);
    assert s[..k][6..] == s[6..k];
  }

  /** A line that does not open with a marker: the search moves one position on. */
  lemma FirstLineUnmarked(s: string, k: nat)
    requires s != [] && !MarkerAt(s, 0) && 0 < k <= |s|
    requires FindAll(s[1..]) == LineItem(s[1..k]) + FindAll(s[k..])
    ensures FindAll(s) == LineItem(s[..k]) + FindAll(s[k..])
  {
    assert FindAll(s) == FindAll(s[1..]);
    assert s[..k][1..] == s[1..k];
    LineItemSkips(s[..k]);
  }

  /** A line that does not open with a marker has the item of its rest. */
  lemma LineItemSkips(line: string)
    requires line != [] && !MarkerAt(line, 0)
    ensures LineItem(line) == LineItem(line[1..])
  {
  }

  /**
   * `findall` finds, line by line in document order, the text after each
   * line's first marker: one item per line that has a marker, none for
   * the others.
   */
  lemma {:induction false} FindAllByLines(md: string)
    ensures FindAll(md) == ItemsOfLines(Lines(md))
    decreases |md|
  {
    var k := FindChar(md, '\n');
    FindAllFirstLine(md);
    if k == |md| {
      assert md[..k] == md && md[k..] == [];
      assert ItemsOfLines([md]) == LineItem(md) + ItemsOfLines([]);
    } else {
      assert md[k..][1..] == md[k + 1..];
      assert !MarkerAt(md[k..], 0);
      FindAllByLines(md[k + 1..]);
    }
  }

  /**
   * The checkbox state is dropped: ticking or unticking the first marker of
   * a line leaves its item unchanged, and the item is what follows it.
   */
  lemma CheckboxIgnored(pre: string, rest: string)
    requires forall j :: 0 <= j < |pre| ==> !MarkerAt(pre + "- [x] " + rest, j)
    ensures LineItem(pre + "- [x] " + rest) == [rest]
    ensures LineItem(pre + "- [ ] " + rest) == [rest]
  {
    var ticked, open := pre + "- [x] " + rest, pre + "- [ ] " + rest;
    assert ticked[|pre|] == '-' && open[|pre|] == '-';
    forall j | 0 <= j < |pre| ensures MarkerAt(open, j) == MarkerAt(ticked, j) {
      if j + 5 < |pre| + 3 {
        assert open[j..j + 6] == ticked[j..j + 6];
      }
    }
    assert MarkerAt(ticked, |pre|) && MarkerAt(open, |pre|);
    assert ticked[|pre| + 6..] == rest && open[|pre| + 6..] == rest;
  }

  // ---------------------------------------------------------------------
  // Links: `re.search(r"\[(.*?)\]\((.*?)\)", tail)`
  // ---------------------------------------------------------------------

  /** No line break from `lo` to `hi`: the span `.` may cover. */
  predicate NoBreak(l: string, lo: int, hi: int)
    requires 0 <= lo && hi <= |l|
  {
    forall j :: lo <= j < hi ==> l[j] != '\n'
  }

  /** `](` at `p` and `)` at `q`, with a caption from `a` to `p` and a URL from `p + 2` to `q`. */
  predicate CloseShape(l: string, a: nat, p: nat, q: nat)
  {
    a <= p && p + 2 <= q < |l| && l[p] == ']' && l[p + 1] == '(' && l[q] == ')'
    && NoBreak(l, a, p) && NoBreak(l, p + 2, q)
  }

  /** A match of the link pattern: `[` at `i`, `](` at `p`, `)` at `q`. */
  predicate LinkShape(l: string, i: nat, p: nat, q: nat)
  {
    i < |l| && l[i] == '[' && CloseShape(l, i + 1, p, q)
  }

  /** Where a match is: the positions of `[`, of `](` and of `)`. */
  datatype LinkMatch = LinkMatch(open: nat, mid: nat, close: nat)

  /** `(u, v)` comes no later than `(u', v')` in the order the lazy groups are tried. */
  predicate PairLe(u: nat, v: nat, u': nat, v': nat)
  {
    u < u' || (u == u' && v <= v')
  }

  /** The lazy URL group: the first `)` from `q` on, unless a line break comes first. */
  function UrlEnd(l: string, q: nat): (r: Option<nat>)
    ensures r.Some? ==> q <= r.value < |l| && l[r.value] == ')' && NoBreak(l, q, r.value)
    ensures r.Some? ==> forall j :: q <= j < r.value ==> l[j] != ')'
    ensures r.None? ==> forall e :: q <= e < |l| && l[e] == ')' ==> !NoBreak(l, q, e)
    decreases |l| - q
  {
    if q >= |l| then None
    else if l[q] == ')' then Some(q)
    else if l[q] == '\n' then None
    else UrlEnd(l, q + 1)
  }

  /**
   * The lazy caption group from `a`, tried end by end from `p` on: the first
   * `](` after which the URL group closes.
   */
  function LabelEnd(l: string, a: nat, p: nat): (r: Option<(nat, nat)>)
    requires a <= p && NoBreak(l, a, Min(p, |l|))
    ensures r.Some? ==> CloseShape(l, a, r.value.0, r.value.1) && p <= r.value.0
    ensures r.Some? ==> forall p', q' :: p <= p' && CloseShape(l, a, p', q') ==> PairLe(r.value.0, r.value.1, p', q')
    ensures r.None? ==> forall p', q' :: p <= p' ==> !CloseShape(l, a, p', q')
    decreases |l| - p
  {
    if p + 1 >= |l| then None
    else if l[p] == ']' && l[p + 1] == '(' && UrlEnd(l, p + 2).Some? then
      Some((p, UrlEnd(l, p + 2).value))
    else if l[p] == '\n' then None
    else LabelEnd(l, a, p + 1)
  }

  function Min(x: int, y: int): int
  {
    if x <= y then x else y
  }

  /** The leftmost `[` from `i` on at which the whole pattern matches. */
  function LinkFrom(l: string, i: nat): (r: Option<LinkMatch>)
    ensures r.Some? ==> i <= r.value.open && LinkShape(l, r.value.open, r.value.mid, r.value.close)
    ensures r.Some? ==> forall i', p', q' :: i <= i' && LinkShape(l, i', p', q') ==>
                          r.value.open < i' || (r.value.open == i' && PairLe(r.value.mid, r.value.close, p', q'))
    ensures r.None? ==> forall i', p', q' :: i <= i' ==> !LinkShape(l, i', p', q')
    decreases |l| - i
  {
    if i >= |l| then None
    else if l[i] == '[' && i + 1 <= |l| && LabelEnd(l, i + 1, i + 1).Some? then
      var pq := LabelEnd(l, i + 1, i + 1).value;
      Some(LinkMatch(i, pq.0, pq.1))
    else LinkFrom(l, i + 1)
  }

  /**
   * `re.search` for the link pattern: the match that starts leftmost, and
   * among those the shortest caption, then the shortest URL — the first match
   * the backtracking engine finds.
   */
  function SearchLink(l: string): (r: Option<LinkMatch>)
    ensures r.Some? ==> LinkShape(l, r.value.open, r.value.mid, r.value.close)
    ensures r.Some? ==> forall i', p', q' :: LinkShape(l, i', p', q') ==>
                          r.value.open < i' || (r.value.open == i' && PairLe(r.value.mid, r.value.close, p', q'))
    ensures r.None? <==> forall i', p', q' :: !LinkShape(l, i', p', q')
  {
    LinkFrom(l, 0)
  }

  /** A line holding the link `[caption](url)` between `pre` and `post`. */
  function LinkText(pre: string, caption: string, url: string, post: string): string
  {
    pre + "[" + caption + "](" + url + ")" + post
  }

  /**
   * In a single line, the link found is `[caption](url)` after a prefix
   * without `[`, when the caption holds no `](` and the URL no `)`: the URL
   * ends at the first `)`.
   */
  lemma LinkDecomposed(pre: string, caption: string, url: string, post: string)
    requires '\n' !in pre + caption + url + post
    requires '[' !in pre && !Contains(caption, "](") && ')' !in url
    ensures var l := LinkText(pre, caption, url, post);
            SearchLink(l) == Some(LinkMatch(|pre|, |pre| + 1 + |caption|, |pre| + |caption| + 3 + |url|))
  {
    var l := LinkText(pre, caption, url, post);
    var i, p, q := |pre|, |pre| + 1 + |caption|, |pre| + |caption| + 3 + |url|;
    LinkTextLayout(pre, caption, url, post);
    LinkTextOneLine(pre, caption, url, post);
    assert LinkShape(l, i, p, q);
    forall m | i < m < p ensures !(l[m] == ']' && l[m + 1] == '(') {
      if m + 1 < p {
        var c := m - i - 1;
        assert !OccursAt(caption, "](", c);
        assert caption[c..c + 2] == [caption[c], caption[c + 1]];
      }
    }
  }

  /** Where the pieces of a link line sit. */
  lemma LinkTextLayout(pre: string, caption: string, url: string, post: string)
    ensures var l := LinkText(pre, caption, url, post);
            var i, p, q := |pre|, |pre| + 1 + |caption|, |pre| + |caption| + 3 + |url|;
            && |l| == q + 1 + |post|
            && l[i] == '[' && l[p] == ']' && l[p + 1] == '(' && l[q] == ')'
            && (forall j :: 0 <= j < i ==> l[j] == pre[j])
            && (forall j :: i < j < p ==> l[j] == caption[j - i - 1])
            && (forall j :: p + 2 <= j < q ==> l[j] == url[j - p - 2])
            && (forall j :: q < j < |l| ==> l[j] == post[j - q - 1])
  {
  }

  /** A link line built from pieces without line breaks has none. */
  lemma LinkTextOneLine(pre: string, caption: string, url: string, post: string)
    requires '\n' !in pre + caption + url + post
    ensures var l := LinkText(pre, caption, url, post);
            forall j :: 0 <= j < |l| ==> l[j] != '\n'
  {
    var l := LinkText(pre, caption, url, post);
    var all := pre + caption + url + post;
    LinkTextLayout(pre, caption, url, post);
    assert forall j :: 0 <= j < |all| ==> all[j] != '\n';
    var i, p, q := |pre|, |pre| + 1 + |caption|, |pre| + |caption| + 3 + |url|;
    forall j | 0 <= j < |l| ensures l[j] != '\n' {
      if j < i { assert l[j] == all[j]; }
      else if i < j < p { assert l[j] == all[j - 1]; }
      else if p + 1 < j < q { assert l[j] == all[j - 3]; }
      else if q < j { assert l[j] == all[j - 4]; }
    }
  }

  // ---------------------------------------------------------------------
  // The triples
  // ---------------------------------------------------------------------

  /** One wish: its text, then the link caption or the text after the arrow, then the URL. */
  datatype Wish = Wish(text: string, caption: Option<string>, url: Option<string>)

  const Arrow: string := " --> "

  /** The lazy URL group stops at the first `)`: the URL of the link found holds none. */
  lemma UrlStopsAtFirstClose(l: string)
    requires SearchLink(l).Some?
    ensures var lm := SearchLink(l).value;
            forall j :: lm.mid + 2 <= j < lm.close ==> l[j] != ')' && l[j] != '\n'
  {
    var lm := SearchLink(l).value;
    forall j | lm.mid + 2 <= j < lm.close ensures l[j] != ')' {
      if l[j] == ')' {
        assert LinkShape(l, lm.open, lm.mid, j);
        assert false;
      }
    }
  }

  /** No character `c` from `lo` to `hi` of `l` means no `c` in that slice. */
  lemma NotInSlice(l: string, lo: nat, hi: nat, c: char)
    requires lo <= hi <= |l| && forall j :: lo <= j < hi ==> l[j] != c
    ensures c !in l[lo..hi]
  {
    assert forall k :: 0 <= k < hi - lo ==> l[lo..hi][k] == l[lo + k];
  }

  /**
   * The wish for the text `text` whose item goes on with `tail` after the
   * arrow: it always has a second field; it has a URL exactly when the tail
   * holds a link, and that URL holds no `)` and no line break; without a
   * link the second field is the stripped tail.
   */
  function AfterArrow(text: string, tail: string): (r: Wish)
    ensures r.text == text && r.caption.Some?
    ensures r.url.None? <==> forall i, p, q :: !LinkShape(tail, i, p, q)
    ensures r.url.None? ==> r.caption == Some(Strip(tail))
    ensures r.url.Some? ==> ')' !in r.url.value && '\n' !in r.url.value && '\n' !in r.caption.value
  {
    match SearchLink(tail)
    case Some(lm) =>
      UrlStopsAtFirstClose(tail);
      NotInSlice(tail, lm.mid + 2, lm.close, ')');
      NotInSlice(tail, lm.mid + 2, lm.close, '\n');
      NotInSlice(tail, lm.open + 1, lm.mid, '\n');
      Wish(text, Some(tail[lm.open + 1..lm.mid]), Some(tail[lm.mid + 2..lm.close]))
    case None => Wish(text, Some(Strip(tail)), None)
  }

  /**
   * The function `f` applied to one item: a stripped text; a second field
   * exactly when the item holds ` --> `; a URL only with a second field,
   * and never holding `)`.
   */
  function ParseItem(m: string): (r: Wish)
    ensures Trimmed(r.text)
    ensures r.caption.None? <==> !Contains(m, Arrow)
    ensures r.caption.None? ==> r.url.None?
    ensures r.url.Some? ==> ')' !in r.url.value
  {
    var k := Find(m, Arrow);
    if k < |m| then
      AfterArrow(Strip(m[..k]), m[k + |Arrow|..])
    else
      Wish(Strip(m), None, None)
  }

  /** `parse_markdown(md)`: one triple per item, in document order. */
  function ParseMarkdown(md: string): (wishes: seq<Wish>)
    ensures |wishes| == |FindAll(md)|
    ensures forall i :: 0 <= i < |wishes| ==> wishes[i] == ParseItem(FindAll(md)[i])
  {
    var items := FindAll(md);
    seq(|items|, i requires 0 <= i < |items| => ParseItem(items[i]))
  }

  /**
   * `parse_markdown` line by line: one wish per line holding a marker, in
   * document order, parsed from the text after that line's first marker.
   */
  lemma ParseMarkdownLines(md: string)
    ensures var items := ItemsOfLines(Lines(md));
            |ParseMarkdown(md)| == |items| &&
            forall i :: 0 <= i < |items| ==> ParseMarkdown(md)[i] == ParseItem(items[i])
  {
    FindAllByLines(md);
  }

  /** An item without ` --> ` is its stripped text alone. */
  lemma ItemWithoutArrow(m: string)
    requires !Contains(m, Arrow)
    ensures ParseItem(m) == Wish(Strip(m), None, None)
  {
  }

  /**
   * An item is cut at its first ` --> ` only: the text is the stripped part
   * before it, and everything after it, further arrows included, is the
   * tail the link is looked for in.
   */
  lemma ItemWithArrow(head: string, tail: string)
    requires !Contains(head + " -->", Arrow)
    ensures ParseItem(head + Arrow + tail) == AfterArrow(Strip(head), tail)
  {
    var m := head + Arrow + tail;
    var k := Find(m, Arrow);
    assert OccursAt(m, Arrow, |head|);
    assert k == |head| by {
      if k < |head| {
        assert (head + " -->")[k..k + 5] == m[k..k + 5];
        assert OccursAt(head + " -->", Arrow, k);
      }
    }
    assert m[..k] == head && m[k + |Arrow|..] == tail;
  }

  /** Where the groups of a link sit in the text. */
  lemma LinkGroups(pre: string, caption: string, url: string, post: string)
    ensures var l := LinkText(pre, caption, url, post);
            var p := |pre| + 1 + |caption|;
            l[|pre| + 1..p] == caption && l[p + 2..p + 2 + |url|] == url
  {
  }

  /** With a link in the tail, the caption and URL are its groups; the URL holds no `)`. */
  lemma ItemWithLink(head: string, pre: string, caption: string, url: string, post: string)
    requires !Contains(head + " -->", Arrow)
    requires '\n' !in pre + caption + url + post
    requires '[' !in pre && !Contains(caption, "](") && ')' !in url
    ensures ParseItem(head + Arrow + LinkText(pre, caption, url, post))
         == Wish(Strip(head), Some(caption), Some(url))
  {
    ItemWithArrow(head, LinkText(pre, caption, url, post));
    LinkWish(Strip(head), pre, caption, url, post);
  }

  /** The caption and URL of a link the tail holds become the second and third fields. */
  lemma LinkWish(text: string, pre: string, caption: string, url: string, post: string)
    requires '\n' !in pre + caption + url + post
    requires '[' !in pre && !Contains(caption, "](") && ')' !in url
    ensures AfterArrow(text, LinkText(pre, caption, url, post)) == Wish(text, Some(caption), Some(url))
  {
    LinkDecomposed(pre, caption, url, post);
    LinkGroups(pre, caption, url, post);
  }

  /** With no link in the tail, the second field is the stripped tail and there is no URL. */
  lemma ItemWithoutLink(head: string, tail: string)
    requires !Contains(head + " -->", Arrow)
    requires forall i, p, q :: !LinkShape(tail, i, p, q)
    ensures ParseItem(head + Arrow + tail) == Wish(Strip(head), Some(Strip(tail)), None)
  {
    ItemWithArrow(head, tail);
  }
}
