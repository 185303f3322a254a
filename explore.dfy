/**
 * The explore page's tab memory: the `explore-tab` cookie, read once when the
 * page loads and written whenever the tab changes. The review and trending
 * lists it shows are fixed demo data.
 */
module Explore {
  import opened Wrappers
  import opened Text
  import opened TabCookie

  const TAB_COOKIE := "explore-tab"

  /** `useState("trending")`. */
  const DEFAULT_TAB := "trending"

  /** The tab the explore page opens on, given the page's cookie header. */
  function InitialExploreTab(cookie: string): (tab: string)
    ensures tab == DEFAULT_TAB || SavedTab(cookie, TAB_COOKIE) == Some(tab)
    ensures SavedTab(cookie, TAB_COOKIE) == None || SavedTab(cookie, TAB_COOKIE) == Some("") ==> tab == DEFAULT_TAB
    ensures SavedTab(cookie, TAB_COOKIE).Some? && SavedTab(cookie, TAB_COOKIE).value != "" ==> tab == SavedTab(cookie, TAB_COOKIE).value
  {
    InitialTab(cookie, TAB_COOKIE, DEFAULT_TAB)
  }

  /** The string assigned to `document.cookie` when the tab becomes `tab`. */
  function ExploreCookie(tab: string): string {
    WrittenCookie(TAB_COOKIE, tab)
  }

  /** A segment that merely contains the name, such as `xexplore-tab=a`, is not the saved tab. */
  lemma PrefixMustBeExact()
    ensures SavedTab("xexplore-tab=a", TAB_COOKIE) == None
  {
    var cookie := "xexplore-tab=a";
    MissingCharExcludes(cookie, SEGMENT_SEPARATOR, 0);
    SingleSegment(cookie);
    assert cookie[0] != (TAB_COOKIE + VALUE_SEPARATOR)[0];
  }

  /** A saved value holding `=` is cut at its first `=`. */
  lemma ValueTruncatedAtSeparator(v: string, w: string)
    requires '=' !in v
    requires !Includes(TAB_COOKIE + VALUE_SEPARATOR + v + VALUE_SEPARATOR + w, SEGMENT_SEPARATOR)
    ensures SavedTab(TAB_COOKIE + VALUE_SEPARATOR + v + VALUE_SEPARATOR + w, TAB_COOKIE) == Some(v)
  {
    assert TAB_COOKIE + VALUE_SEPARATOR + v + VALUE_SEPARATOR + w == TAB_COOKIE + VALUE_SEPARATOR + (v + VALUE_SEPARATOR + w);
    assert '=' !in TAB_COOKIE;
    SavedSingleSegment(TAB_COOKIE, v + VALUE_SEPARATOR + w);
    UpToFirstSeparator(v, w);
  }

  /**
   * Round trip: the cookie written for `tab` reports back the segment
   * `explore-tab=tab`, and a header carrying that segment (with no earlier
   * `explore-tab=` segment) reopens the page on `tab`, provided `tab` is
   * non-empty and holds neither `=` nor `"; "`.
   */
  lemma {:induction false} TabRestored(before: seq<string>, after: seq<string>, tab: string)
    requires tab != "" && '=' !in tab && !Includes(tab, SEGMENT_SEPARATOR)
    requires forall k :: 0 <= k < |before| ==> !StartsWith(before[k], TAB_COOKIE + VALUE_SEPARATOR)
    requires forall k :: 0 <= k < |before| ==> !Includes(before[k], SEGMENT_SEPARATOR)
    requires forall k :: 0 <= k < |after| ==> !Includes(after[k], SEGMENT_SEPARATOR)
    ensures Split(ExploreCookie(tab), SEGMENT_SEPARATOR)[0] == Segment(TAB_COOKIE, tab)
    ensures InitialExploreTab(Join(before + [Segment(TAB_COOKIE, tab)] + after, SEGMENT_SEPARATOR)) == tab
  {
    var seg := Segment(TAB_COOKIE, tab);
    var prefix := TAB_COOKIE + VALUE_SEPARATOR;
    assert '=' !in TAB_COOKIE;
    assert ';' !in prefix;
    assert seg == prefix + tab;
    forall i | 0 <= i && i + 2 <= |seg|
      ensures !OccursAt(seg, SEGMENT_SEPARATOR, i)
    {
      if i >= |prefix| {
        assert seg[i..i + 2] == tab[i - |prefix|..i - |prefix| + 2];
        IncludesIff(tab, SEGMENT_SEPARATOR);
        assert !OccursAt(tab, SEGMENT_SEPARATOR, i - |prefix|);
      } else {
        assert seg[i] == prefix[i];
        assert prefix[i] in prefix;
        assert seg[i..i + 2][0] == seg[i];
      }
    }
    WrittenCookieSegment(TAB_COOKIE, tab);
    InitialTabRestoresSaved(before, after, TAB_COOKIE, tab, DEFAULT_TAB);
  }
}
