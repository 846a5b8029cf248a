/**
 Highlighting the current page in the documentation sidebar: a link becomes
 active when the page path ends with its `href`, or with its `href` after the
 first ".html" in it is removed (JavaScript's `String.replace` with a string
 pattern replaces only the first occurrence). Links are never deactivated.
 */
module SidebarHighlight {
  import opened Wrappers

  /** A `.docs-sidebar-link`: its `href` attribute and whether it carries the
      `active` class. */
  datatype Link = Link(href: string, active: bool)

  const HtmlExtension: string := ".html"

  /** JavaScript's `String.prototype.endsWith`. */
  predicate EndsWith(s: string, suffix: string)
  {
    |suffix| <= |s| && s[|s| - |suffix|..] == suffix
  }

  /** `EndsWith` means `s` splits into some prefix followed by `suffix`. */
  lemma EndsWithSplit(s: string, suffix: string)
    ensures EndsWith(s, suffix) <==> exists prefix :: prefix + suffix == s
  {
    if EndsWith(s, suffix) {
      assert s[..|s| - |suffix|] + suffix == s;
    }
    if exists prefix :: prefix + suffix == s {
      var prefix :| prefix + suffix == s;
      assert s[|s| - |suffix|..] == suffix;
    }
  }

  predicate OccursAt(s: string, pattern: string, k: nat)
  {
    k + |pattern| <= |s| && s[k..k + |pattern|] == pattern
  }

  /** The first position at or after `from` where `pattern` occurs in `s`. */
  function IndexOf(s: string, pattern: string, from: nat): (r: Option<nat>)
    ensures r.Some? ==> from <= r.value && OccursAt(s, pattern, r.value)
    ensures r.Some? ==> forall k :: from <= k < r.value ==> !OccursAt(s, pattern, k)
    ensures r.None? ==> forall k :: from <= k ==> !OccursAt(s, pattern, k)
    decreases |s| - from
  {
    if from + |pattern| > |s| then None
    else if s[from..from + |pattern|] == pattern then Some(from)
    else IndexOf(s, pattern, from + 1)
  }

  /** JavaScript's `s.replace(pattern, replacement)` for a string pattern and
      a replacement without `$` patterns: the first occurrence is replaced,
      everything else is kept. */
  function ReplaceFirst(s: string, pattern: string, replacement: string): (r: string)
    ensures (forall k :: !OccursAt(s, pattern, k)) ==> r == s
    ensures IndexOf(s, pattern, 0).Some? ==>
              var k := IndexOf(s, pattern, 0).value;
              && |r| == |s| - |pattern| + |replacement|
              && r[..k] == s[..k]
              && r[k..k + |replacement|] == replacement
              && r[k + |replacement|..] == s[k + |pattern|..]
  {
    match IndexOf(s, pattern, 0)
    case None => s
    case Some(k) => s[..k] + replacement + s[k + |pattern|..]
  }

  /** Removing the first ".html" can be undone by putting it back where it
      was; when there is none, nothing is removed. */
  lemma StripHtmlInverse(href: string)
    ensures var stripped := ReplaceFirst(href, HtmlExtension, "");
            match IndexOf(href, HtmlExtension, 0)
            case None => stripped == href
            case Some(k) => k <= |stripped| && stripped[..k] + HtmlExtension + stripped[k..] == href
  {
    var stripped := ReplaceFirst(href, HtmlExtension, "");
    match IndexOf(href, HtmlExtension, 0)
    case None =>
    case Some(k) =>
      assert href == href[..k] + href[k..k + 5] + href[k + 5..];
  }

  /** Only the first ".html" goes: a later one survives. */
  lemma StripHtmlFirstOnly()
    ensures ReplaceFirst("guide.html.html", HtmlExtension, "") == "guide.html"
  {
    var s := "guide.html.html";
    assert s[5..10] == HtmlExtension;
    assert IndexOf(s, HtmlExtension, 5) == Some(5);
    assert s[4..9][0] != HtmlExtension[0];
    assert IndexOf(s, HtmlExtension, 4) == Some(5);
    assert s[3..8][0] != HtmlExtension[0];
    assert IndexOf(s, HtmlExtension, 3) == Some(5);
    assert s[2..7][0] != HtmlExtension[0];
    assert IndexOf(s, HtmlExtension, 2) == Some(5);
    assert s[1..6][0] != HtmlExtension[0];
    assert IndexOf(s, HtmlExtension, 1) == Some(5);
    assert s[0..5][0] != HtmlExtension[0];
    assert IndexOf(s, HtmlExtension, 0) == Some(5);
  }

  /** Only the first ".html" goes: every later occurrence survives in the
      stripped `href`, five characters further left. */
  lemma StripHtmlKeepsLater(href: string, j: nat)
    requires IndexOf(href, HtmlExtension, 0).Some?
    requires j >= IndexOf(href, HtmlExtension, 0).value + |HtmlExtension|
    requires OccursAt(href, HtmlExtension, j)
    ensures OccursAt(ReplaceFirst(href, HtmlExtension, ""), HtmlExtension, j - |HtmlExtension|)
  {
    var k := IndexOf(href, HtmlExtension, 0).value;
    var n := |HtmlExtension|;
    assert ReplaceFirst(href, HtmlExtension, "") == href[..k] + href[k + n..];
    CutKeepsLater(href, k, n, j);
  }

  /** Cutting `n` characters at `k` moves every later window `n` to the left. */
  lemma CutKeepsLater(s: string, k: nat, n: nat, j: nat)
    requires k + n <= j && j + n <= |s|
    ensures (s[..k] + s[k + n..])[j - n..j] == s[j..j + n]
  {
    var cut := s[..k] + s[k + n..];
    assert |cut| == |s| - n;
    forall i | j - n <= i < j
      ensures cut[i] == s[i + n]
    {
    }
  }

  /** The condition under which a link is highlighted on page `path`. */
  predicate Matches(path: string, href: string)
  {
    EndsWith(path, href) || EndsWith(path, ReplaceFirst(href, HtmlExtension, ""))
  }

  /** The sidebar pass over all links, in document order. */
  function Highlight(path: string, links: seq<Link>): (r: seq<Link>)
    ensures |r| == |links|
    ensures forall j :: 0 <= j < |links| ==> r[j].href == links[j].href
    ensures forall j :: 0 <= j < |links| ==>
              (r[j].active <==> links[j].active || Matches(path, links[j].href))
  {
    if links == [] then []
    else
      var link := links[0];
      [if Matches(path, link.href) then link.(active := true) else link] + Highlight(path, links[1..])
  }

  /** Running the pass again changes nothing. */
  lemma HighlightIdempotent(path: string, links: seq<Link>)
    ensures Highlight(path, Highlight(path, links)) == Highlight(path, links)
  {
    var once := Highlight(path, links);
    var twice := Highlight(path, once);
    assert forall j :: 0 <= j < |links| ==> twice[j] == once[j];
  }
}
