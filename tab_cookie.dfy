/**
 * The saved-tab cookie, read and written identically by the dashboard
 * (cookie `bookshelf-tab`) and the explore page (cookie `explore-tab`).
 *
 * Reading: `document.cookie.split("; ").find(row => row.startsWith(name + "="))?.split("=")[1]`.
 * Writing: `document.cookie = name + "=" + tab + "; path=/; max-age=2592000"`, after which
 * the browser reports the cookie back as the segment `name=tab`.
 */
module TabCookie {
  import opened Wrappers
  import opened Text

  const SEGMENT_SEPARATOR := "; "
  const VALUE_SEPARATOR := "="

  /** The attributes written after the `name=tab` segment: the whole site, for 2592000 seconds (30 days). */
  const ATTRIBUTES := "path=/; max-age=2592000"

  /** `rows.find(row => row.startsWith(prefix))`, as the index found. */
  function FirstWithPrefix(rows: seq<string>, prefix: string): (r: Option<nat>)
    ensures r.Some? ==> r.value < |rows| && StartsWith(rows[r.value], prefix)
    ensures r.Some? ==> forall j :: 0 <= j < r.value ==> !StartsWith(rows[j], prefix)
    ensures r.None? ==> forall j :: 0 <= j < |rows| ==> !StartsWith(rows[j], prefix)
  {
    if rows == [] then None
    else if StartsWith(rows[0], prefix) then Some(0)
    else match FirstWithPrefix(rows[1..], prefix)
      case None => None
      case Some(k) => Some(k + 1)
  }

  /** The saved value of cookie `name` in the cookie header `cookie`, or `None` for `undefined`. */
  function SavedTab(cookie: string, name: string): Option<string> {
    var rows := Split(cookie, SEGMENT_SEPARATOR);
    match FirstWithPrefix(rows, name + VALUE_SEPARATOR)
    case None => None
    case Some(k) =>
      var parts := Split(rows[k], VALUE_SEPARATOR);
      if |parts| > 1 then Some(parts[1]) else None
  }

  /** The active tab after the page loads: the saved value if truthy, else the default. */
  function InitialTab(cookie: string, name: string, default: string): (tab: string)
    ensures tab == default || SavedTab(cookie, name) == Some(tab)
    ensures tab != default ==> tab != ""
    ensures SavedTab(cookie, name).Some? && SavedTab(cookie, name).value != "" ==> tab == SavedTab(cookie, name).value
  {
    match SavedTab(cookie, name)
    case Some(v) => if v != "" then v else default
    case None => default
  }

  /** The string assigned to `document.cookie` when the tab changes. */
  function WrittenCookie(name: string, tab: string): string {
    Segment(name, tab) + SEGMENT_SEPARATOR + ATTRIBUTES
  }

  /** The `name=value` segment the browser reports back for a written cookie. */
  function Segment(name: string, tab: string): string {
    name + VALUE_SEPARATOR + tab
  }

  /**
   * What the parse yields, for a cookie name without `=`: the text after `name=` up to
   * the next `=` (or to the end) in the first segment that starts with `name=`,
   * and nothing when no segment does.
   */
  lemma SavedTabValue(cookie: string, name: string)
    requires '=' !in name
    ensures var rows := Split(cookie, SEGMENT_SEPARATOR);
      SavedTab(cookie, name) ==
        match FirstWithPrefix(rows, name + VALUE_SEPARATOR)
        case None => None
        case Some(k) => Some(UpToSeparator(rows[k][|name| + 1..]))
  {
    var rows := Split(cookie, SEGMENT_SEPARATOR);
    match FirstWithPrefix(rows, name + VALUE_SEPARATOR)
    case None =>
    case Some(k) =>
      var rest := rows[k][|name| + 1..];
      assert rows[k] == name + VALUE_SEPARATOR + rest;
      IncludesChar(name, '=');
      SplitAfterFirst(name, rest, VALUE_SEPARATOR);
      SplitHead(rest, VALUE_SEPARATOR);
  }

  /** A header without `"; "` is a single segment. */
  lemma SingleSegment(cookie: string)
    requires !Includes(cookie, SEGMENT_SEPARATOR)
    ensures Split(cookie, SEGMENT_SEPARATOR) == [cookie]
  {
  }

  /** A header that is the single segment `name=rest` saves `rest` up to its first `=`. */
  lemma SavedSingleSegment(name: string, rest: string)
    requires '=' !in name
    requires !Includes(name + VALUE_SEPARATOR + rest, SEGMENT_SEPARATOR)
    ensures SavedTab(name + VALUE_SEPARATOR + rest, name) == Some(UpToSeparator(rest))
  {
    var cookie := name + VALUE_SEPARATOR + rest;
    SingleSegment(cookie);
    assert cookie[..|name| + 1] == name + VALUE_SEPARATOR;
    SavedTabValue(cookie, name);
    assert cookie[|name| + 1..] == rest;
  }

  /** The value is cut at its first `=`: whatever follows is dropped. */
  lemma UpToFirstSeparator(v: string, w: string)
    requires '=' !in v
    ensures UpToSeparator(v + VALUE_SEPARATOR + w) == v
  {
    var s := v + VALUE_SEPARATOR + w;
    assert OccursAt(s, VALUE_SEPARATOR, |v|) by {
      assert s[|v|..|v| + 1] == VALUE_SEPARATOR;
    }
    forall j | 0 <= j < |v|
      ensures !OccursAt(s, VALUE_SEPARATOR, j)
    {
      assert s[j..j + 1] == [v[j]];
      assert v[j] in v;
    }
    IndexOfFirst(s, VALUE_SEPARATOR, |v|);
    assert s[..|v|] == v;
  }

  /** The text of `s` before its first `=`, or all of `s`. */
  function UpToSeparator(s: string): (r: string)
    ensures StartsWith(s, r)
    ensures '=' !in r
    ensures r != s ==> s[|r|] == '='
  {
    match IndexOf(s, VALUE_SEPARATOR)
    case None =>
      IncludesChar(s, '=');
      s
    case Some(i) =>
      assert s[i..i + 1] == "=";
      forall j | 0 <= j < i
        ensures s[j] != '='
      {
        assert !OccursAt(s, VALUE_SEPARATOR, j);
        assert s[j..j + 1] == [s[j]];
      }
      s[..i]
  }

  /**
   * Round trip: a cookie header holding the segment written for `tab`, after other
   * segments none of which starts with `name=`, gives back `tab`, provided `tab`
   * holds no `=` and no segment holds `"; "`.
   */
  lemma {:induction false} SavedTabRoundTrip(before: seq<string>, after: seq<string>, name: string, tab: string)
    requires '=' !in name && '=' !in tab
    requires forall k :: 0 <= k < |before| ==> !StartsWith(before[k], name + VALUE_SEPARATOR)
    requires !Includes(Segment(name, tab), SEGMENT_SEPARATOR)
    requires forall k :: 0 <= k < |before| ==> !Includes(before[k], SEGMENT_SEPARATOR)
    requires forall k :: 0 <= k < |after| ==> !Includes(after[k], SEGMENT_SEPARATOR)
    ensures SavedTab(Join(before + [Segment(name, tab)] + after, SEGMENT_SEPARATOR), name) == Some(tab)
  {
    var rows := before + [Segment(name, tab)] + after;
    forall k | 0 <= k < |rows|
      ensures !Includes(rows[k], SEGMENT_SEPARATOR)
    {
      if k < |before| {
        assert rows[k] == before[k];
      } else if k > |before| {
        assert rows[k] == after[k - |before| - 1];
      }
    }
    SplitJoin(rows, SEGMENT_SEPARATOR);
    var cookie := Join(rows, SEGMENT_SEPARATOR);
    assert StartsWith(rows[|before|], name + VALUE_SEPARATOR);
    assert FirstWithPrefix(rows, name + VALUE_SEPARATOR) == Some(|before|) by {
      var r := FirstWithPrefix(rows, name + VALUE_SEPARATOR);
      forall j | 0 <= j < |before|
        ensures !StartsWith(rows[j], name + VALUE_SEPARATOR)
      {
        assert rows[j] == before[j];
      }
    }
    SavedTabValue(cookie, name);
    assert rows[|before|][|name| + 1..] == tab;
    IncludesChar(tab, '=');
    SplitHead(tab, VALUE_SEPARATOR);
  }

  /**
   * The written assignment starts with the segment it reports back: its first
   * `"; "`-piece is `name=tab`, the rest being the cookie attributes.
   */
  lemma WrittenCookieSegment(name: string, tab: string)
    requires !Includes(Segment(name, tab), SEGMENT_SEPARATOR)
    ensures Split(WrittenCookie(name, tab), SEGMENT_SEPARATOR)[0] == Segment(name, tab)
  {
    SplitAfterFirst(Segment(name, tab), ATTRIBUTES, SEGMENT_SEPARATOR);
  }

  /** The tab a page starts on after it saved `tab`: `tab` itself when non-empty. */
  lemma {:induction false} InitialTabRestoresSaved(before: seq<string>, after: seq<string>, name: string, tab: string, default: string)
    requires '=' !in name && '=' !in tab
    requires forall k :: 0 <= k < |before| ==> !StartsWith(before[k], name + VALUE_SEPARATOR)
    requires !Includes(Segment(name, tab), SEGMENT_SEPARATOR)
    requires forall k :: 0 <= k < |before| ==> !Includes(before[k], SEGMENT_SEPARATOR)
    requires forall k :: 0 <= k < |after| ==> !Includes(after[k], SEGMENT_SEPARATOR)
    ensures InitialTab(Join(before + [Segment(name, tab)] + after, SEGMENT_SEPARATOR), name, default)
      == if tab != "" then tab else default
  {
    SavedTabRoundTrip(before, after, name, tab);
  }
}
