/**
  The string logic of the page script (TPAM-project/app.js): `extractMain`, which
  takes the content of a fetched page's `<main>` region, and the filter that
  decides which navigation links are loaded in place.

  `extractMain` runs the regular expression `<main[^>]*>([\s\S]*?)<\/main>` with
  the `i` flag. `Matches` states what it means for that pattern to match at a
  position; `Reported` picks the match a backtracking engine reports (leftmost
  start, shortest lazy group); the scan below finds it.
 */
module PageText {
  import opened Web

  const OPEN_TAG: string := "<main"
  const CLOSE_TAG: string := "</main>"

  /** Letter case as the `i` flag (without `u`) ignores it for the ASCII patterns above:
      only A-Z and a-z are identified. */
  function Fold(c: char): char {
    if 'A' <= c <= 'Z' then (c as int + 32) as char else c
  }

  predicate FoldEq(a: string, b: string) {
    |a| == |b| && forall i :: 0 <= i < |a| ==> Fold(a[i]) == Fold(b[i])
  }

  /** `pat` occurs at position `i` of `s`, letter case aside. */
  predicate OccursAt(s: string, pat: string, i: int) {
    0 <= i && i + |pat| <= |s| && FoldEq(s[i..i + |pat|], pat)
  }

  /** The first position from `from` on that holds `c`. */
  function IndexOf(s: string, c: char, from: nat): (r: Option<nat>)
    ensures r.Some? ==> from <= r.value < |s| && s[r.value] == c
    ensures r.Some? ==> forall k :: from <= k < r.value ==> s[k] != c
    ensures r.None? ==> forall k :: from <= k < |s| ==> s[k] != c
    decreases |s| - from
  {
    if from >= |s| then None
    else if s[from] == c then Some(from)
    else IndexOf(s, c, from + 1)
  }

  /** The first position from `from` on where `pat` occurs, letter case aside. */
  function IndexOfFolded(s: string, pat: string, from: nat): (r: Option<nat>)
    ensures r.Some? ==> from <= r.value && OccursAt(s, pat, r.value)
    ensures r.Some? ==> forall k :: from <= k < r.value ==> !OccursAt(s, pat, k)
    ensures r.None? ==> forall k :: from <= k ==> !OccursAt(s, pat, k)
    decreases |s| - from
  {
    if from + |pat| > |s| then None
    else if OccursAt(s, pat, from) then Some(from)
    else IndexOfFolded(s, pat, from + 1)
  }

  /** The pattern matches `s[p..e + 7]`: the opening tag starts at `p`, its `[^>]*` part
      ends at the `>` at `q`, the group captures `s[q + 1..e]` and the closing tag starts
      at `e`. */
  predicate Matches(s: string, p: int, q: int, e: int) {
    && OccursAt(s, OPEN_TAG, p)
    && OccursAt(s, CLOSE_TAG, e)
    && p + |OPEN_TAG| <= q < e
    && s[q] == '>'
    && forall k :: p + |OPEN_TAG| <= k < q ==> s[k] != '>'
  }

  /** The match `exec` reports: the leftmost start, and for it the shortest group. */
  ghost predicate Reported(s: string, p: int, q: int, e: int) {
    && Matches(s, p, q, e)
    && (forall p', q', e' :: Matches(s, p', q', e') ==> p <= p')
    && (forall e' :: Matches(s, p, q, e') ==> e <= e')
  }

  /** For a given start, the tag can only end at the first `>`: `[^>]*` leaves no choice. */
  lemma TagEndUnique(s: string, p: int, q1: int, e1: int, q2: int, e2: int)
    requires Matches(s, p, q1, e1) && Matches(s, p, q2, e2)
    ensures q1 == q2
  {
  }

  /** There is at most one reported match. */
  lemma ReportedUnique(s: string, p1: int, q1: int, e1: int, p2: int, q2: int, e2: int)
    requires Reported(s, p1, q1, e1) && Reported(s, p2, q2, e2)
    ensures p1 == p2 && q1 == q2 && e1 == e2
  {
  }

  /** One attempt of the engine at start `p`: the tag end and the shortest group, if any. */
  function MatchAt(s: string, p: nat): (r: Option<(nat, nat)>)
    ensures r.Some? ==> Matches(s, p, r.value.0, r.value.1)
    ensures r.Some? ==> forall e' :: Matches(s, p, r.value.0, e') ==> r.value.1 <= e'
    ensures r.None? ==> forall q, e :: !Matches(s, p, q, e)
  {
    if !OccursAt(s, OPEN_TAG, p) then None
    else match IndexOf(s, '>', p + |OPEN_TAG|)
      case None => None
      case Some(q) =>
        match IndexOfFolded(s, CLOSE_TAG, q + 1)
        case None =>
          assert forall q', e' :: Matches(s, p, q', e') ==> q' == q;
          None
        case Some(e) => Some((q, e))
  }

  /** The engine's scan: attempts at `p`, `p + 1`, ... until one matches. */
  function FindMainFrom(s: string, p: nat): (r: Option<(nat, nat, nat)>)
    ensures r.Some? ==> p <= r.value.0 && Matches(s, r.value.0, r.value.1, r.value.2)
    ensures r.Some? ==> forall p', q', e' :: p <= p' < r.value.0 ==> !Matches(s, p', q', e')
    ensures r.Some? ==> forall e' :: Matches(s, r.value.0, r.value.1, e') ==> r.value.2 <= e'
    ensures r.None? ==> forall p', q', e' :: p <= p' ==> !Matches(s, p', q', e')
    decreases |s| - p
  {
    if p + |OPEN_TAG| > |s| then None
    else match MatchAt(s, p)
      case Some((q, e)) => Some((p, q, e))
      case None => FindMainFrom(s, p + 1)
  }

  /** `extractMain(htmlText)`: the group of the reported match, or the whole text when the
      pattern does not match. */
  function ExtractMain(html: string): (r: string)
    ensures (forall p, q, e :: !Matches(html, p, q, e)) ==> r == html
    ensures (exists p, q, e :: Matches(html, p, q, e)) ==>
      exists p, q, e :: Reported(html, p, q, e) && r == html[q + 1..e]
  {
    match FindMainFrom(html, 0)
    case None => html
    case Some((p, q, e)) =>
      assert Reported(html, p, q, e);
      html[q + 1..e]
  }

  /** An occurrence inside a slice is an occurrence in the whole text. */
  lemma OccursInSlice(s: string, a: int, b: int, pat: string, k: int)
    requires 0 <= a <= b <= |s| && OccursAt(s[a..b], pat, k)
    ensures OccursAt(s, pat, a + k)
  {
    var inner, outer := s[a..b][k..k + |pat|], s[a + k..a + k + |pat|];
    forall i | 0 <= i < |pat|
      ensures inner[i] == outer[i]
    {
    }
    assert inner == outer;
  }

  /** The group of a reported match holds no closing tag: the lazy group stops at the
      first one. */
  lemma GroupHasNoCloseTag(html: string, p: int, q: int, e: int, group: string)
    requires Reported(html, p, q, e) && group == html[q + 1..e]
    ensures forall k :: !OccursAt(group, CLOSE_TAG, k)
  {
    forall k | OccursAt(group, CLOSE_TAG, k)
      ensures false
    {
      OccursInSlice(html, q + 1, e, CLOSE_TAG, k);
      assert Matches(html, p, q, q + 1 + k);
    }
  }

  /** A matched region never contains a closing tag, in any letter case. */
  lemma ExtractedHasNoCloseTag(html: string)
    requires exists p, q, e :: Matches(html, p, q, e)
    ensures forall k :: !OccursAt(ExtractMain(html), CLOSE_TAG, k)
  {
    var r := ExtractMain(html);
    var p, q, e :| Reported(html, p, q, e) && r == html[q + 1..e];
    GroupHasNoCloseTag(html, p, q, e, r);
  }

  /** The opening tag may carry attributes and both tags may be written in any case. */
  lemma ExtractMainExample()
    ensures ExtractMain("<MAIN id=\"x\">hi</Main>") == "hi"
  {
    var s := "<MAIN id=\"x\">hi</Main>";
    assert OccursAt(s, OPEN_TAG, 0);
    assert OccursAt(s, CLOSE_TAG, 15);
    assert Matches(s, 0, 12, 15);
    forall e' | Matches(s, 0, 12, e')
      ensures 15 <= e'
    {
      assert s[13..20][0] == 'h' && s[14..21][0] == 'i';
    }
    assert Reported(s, 0, 12, 15);
    var p, q, e :| Reported(s, p, q, e) && ExtractMain(s) == s[q + 1..e];
    ReportedUnique(s, p, q, e, 0, 12, 15);
  }

  predicate StartsWith(s: string, prefix: string) {
    |prefix| <= |s| && s[..|prefix|] == prefix
  }

  /** The link filter of the navigation bar: an href is loaded in place when it is non-empty
      and starts with neither `http` nor `mailto:` (letter case counts). */
  predicate IsInternal(href: string)
    ensures IsInternal(href) <==>
      href != "" && (forall rest :: href != "http" + rest) && (forall rest :: href != "mailto:" + rest)
  {
    assert StartsWith(href, "http") ==> href == "http" + href[4..];
    assert StartsWith(href, "mailto:") ==> href == "mailto:" + href[7..];
    href != "" && !StartsWith(href, "http") && !StartsWith(href, "mailto:")
  }

  /** Absolute web and mail links are left to the browser. */
  lemma AbsoluteLinksNotIntercepted(rest: string)
    ensures !IsInternal("http://" + rest) && !IsInternal("https://" + rest)
    ensures !IsInternal("mailto:" + rest)
  {
  }

  /** A non-empty href whose first letter is neither `h` nor `m` is always intercepted. */
  lemma RelativeLinksIntercepted(href: string)
    requires href != "" && href[0] != 'h' && href[0] != 'm'
    ensures IsInternal(href)
  {
  }

  /** The test is on text, not on schemes: an upper-case scheme is intercepted, and a
      relative page whose name begins with `http` is not. */
  lemma LinkFilterIsTextual()
    ensures IsInternal("HTTPS://example.org/")
    ensures !IsInternal("http-notes.html")
  {
    assert "HTTPS://example.org/"[..4][0] == 'H';
    assert "http-notes.html"[..4] == "http";
  }
}
