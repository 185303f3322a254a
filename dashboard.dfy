/**
 * The dashboard's shelf: the books GET /api/books returned, shown one status tab
 * at a time, narrowed by a case-insensitive search on title or author, with a
 * count per tab; and the tab remembered in the `bookshelf-tab` cookie.
 */
module Dashboard {
  import opened Wrappers
  import opened Seqs
  import opened Text
  import opened BooksRoute
  import opened TabCookie

  const TAB_COOKIE := "bookshelf-tab"

  /** `useState("reading")`. */
  const DEFAULT_TAB := READING

  /** The search half of the filter: an empty query keeps everything. */
  predicate MatchesSearch(b: Book, query: string) {
    || query == ""
    || Includes(ToLower(b.title), ToLower(query))
    || Includes(ToLower(b.author), ToLower(query))
  }

  /** `filteredBooks`: the books of the active tab that match the search, in shelf order. */
  function FilteredBooks(books: seq<Book>, activeTab: string, query: string): (r: seq<Book>)
    ensures Subsequence(r, books)
    ensures forall b :: b in r ==> b.status == activeTab && MatchesSearch(b, query)
    ensures forall b :: b in books && b.status == activeTab && MatchesSearch(b, query) ==> b in r
  {
    if books == [] then []
    else
      var rest := FilteredBooks(books[1..], activeTab, query);
      assert forall b :: b in books ==> b == books[0] || b in books[1..];
      if books[0].status == activeTab && MatchesSearch(books[0], query) then
        assert ([books[0]] + rest)[1..] == rest;
        [books[0]] + rest
      else rest
  }

  /** `books.filter(book => book.status === status)`. */
  function WithStatus(books: seq<Book>, status: string): (r: seq<Book>)
    ensures Subsequence(r, books)
    ensures forall b :: b in r ==> b.status == status
    ensures forall b :: b in books && b.status == status ==> b in r
  {
    if books == [] then []
    else
      var rest := WithStatus(books[1..], status);
      assert forall b :: b in books ==> b == books[0] || b in books[1..];
      if books[0].status == status then
        assert ([books[0]] + rest)[1..] == rest;
        [books[0]] + rest
      else rest
  }

  /** `getTabCount(status)`. */
  function TabCount(books: seq<Book>, status: string): nat {
    |WithStatus(books, status)|
  }

  /** With an empty search the shelf shows exactly the tab's books. */
  lemma {:induction false} EmptyQueryShowsTab(books: seq<Book>, activeTab: string)
    ensures FilteredBooks(books, activeTab, "") == WithStatus(books, activeTab)
  {
    if books != [] {
      EmptyQueryShowsTab(books[1..], activeTab);
    }
  }

  /** The shelf is the tab's books narrowed by the search, so never longer than the tab's count. */
  lemma {:induction false} FilteredWithinTab(books: seq<Book>, activeTab: string, query: string)
    ensures Subsequence(FilteredBooks(books, activeTab, query), WithStatus(books, activeTab))
    ensures |FilteredBooks(books, activeTab, query)| <= TabCount(books, activeTab)
  {
    if books != [] {
      FilteredWithinTab(books[1..], activeTab, query);
      var r := FilteredBooks(books[1..], activeTab, query);
      var w := WithStatus(books[1..], activeTab);
      if books[0].status == activeTab {
        assert ([books[0]] + w)[1..] == w;
        if MatchesSearch(books[0], query) {
          assert ([books[0]] + r)[1..] == r;
        } else {
          SkipHead(r, books[0], w);
        }
      }
    }
    SubsequenceLength(FilteredBooks(books, activeTab, query), WithStatus(books, activeTab));
  }

  /** A subsequence of a tail is a subsequence of the whole. */
  lemma SkipHead(a: seq<Book>, x: Book, b: seq<Book>)
    requires Subsequence(a, b)
    ensures Subsequence(a, [x] + b)
  {
    assert ([x] + b)[1..] == b;
  }

  /** Filtering keeps relative order: the shelf of a concatenation is the concatenation of shelves. */
  lemma {:induction false} FilteredConcat(xs: seq<Book>, ys: seq<Book>, activeTab: string, query: string)
    ensures FilteredBooks(xs + ys, activeTab, query)
      == FilteredBooks(xs, activeTab, query) + FilteredBooks(ys, activeTab, query)
  {
    if xs == [] {
      assert xs + ys == ys;
    } else {
      assert (xs + ys)[1..] == xs[1..] + ys;
      FilteredConcat(xs[1..], ys, activeTab, query);
    }
  }

  /** The tab counts add up over a concatenation. */
  lemma {:induction false} TabCountConcat(xs: seq<Book>, ys: seq<Book>, status: string)
    ensures WithStatus(xs + ys, status) == WithStatus(xs, status) + WithStatus(ys, status)
    ensures TabCount(xs + ys, status) == TabCount(xs, status) + TabCount(ys, status)
  {
    if xs == [] {
      assert xs + ys == ys;
    } else {
      assert (xs + ys)[1..] == xs[1..] + ys;
      TabCountConcat(xs[1..], ys, status);
    }
  }

  /** When every book carries one of the three declared statuses, the three tab counts sum to the shelf size. */
  lemma {:induction false} TabCountsSum(books: seq<Book>)
    requires forall b :: b in books ==> KnownStatus(b.status)
    ensures TabCount(books, READING) + TabCount(books, FINISHED) + TabCount(books, WANT_TO_READ) == |books|
  {
    if books != [] {
      assert books[0] in books;
      assert forall b :: b in books[1..] ==> b in books;
      TabCountsSum(books[1..]);
    }
  }

  /** The tab the dashboard opens on, given the page's cookie header. */
  function InitialDashboardTab(cookie: string): (tab: string)
    ensures tab == DEFAULT_TAB || SavedTab(cookie, TAB_COOKIE) == Some(tab)
    ensures SavedTab(cookie, TAB_COOKIE) == None || SavedTab(cookie, TAB_COOKIE) == Some("") ==> tab == DEFAULT_TAB
    ensures SavedTab(cookie, TAB_COOKIE).Some? && SavedTab(cookie, TAB_COOKIE).value != "" ==> tab == SavedTab(cookie, TAB_COOKIE).value
  {
    InitialTab(cookie, TAB_COOKIE, DEFAULT_TAB)
  }

  /** The saved dashboard tab is the text after `bookshelf-tab=` up to the next `=`, in the first such segment. */
  lemma SavedDashboardTab(cookie: string)
    ensures var rows := Split(cookie, SEGMENT_SEPARATOR);
      SavedTab(cookie, TAB_COOKIE) ==
        match FirstWithPrefix(rows, TAB_COOKIE + VALUE_SEPARATOR)
        case None => None
        case Some(k) => Some(UpToSeparator(rows[k][|TAB_COOKIE| + 1..]))
  {
    SavedTabValue(cookie, TAB_COOKIE);
  }
}
