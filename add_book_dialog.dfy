/**
 * The "Add a Book" dialog: a search box whose query goes to the catalogue search,
 * a list of results to pick from, and the payload POSTed to /api/books for the
 * picked result with the chosen status and notes. Network replies are parameters.
 */
module AddBookDialog {
  import opened Wrappers
  import opened Text
  import opened SearchRoute
  import BooksRoute

  const UNKNOWN_AUTHOR := "Unknown Author"
  const PLACEHOLDER_COVER := "/placeholder.svg?height=200&width=150"
  const AUTHOR_SEPARATOR := ", "

  /** `useState<...>("want-to-read")`. */
  const INITIAL_STATUS := BooksRoute.WANT_TO_READ

  /** The `q` a search sends: none at all for an empty or white-space-only query. */
  function SearchRequest(query: string): (q: Option<string>)
    ensures q.None? <==> forall k :: 0 <= k < |query| ==> IsSpace(query[k])
    ensures q.Some? ==> q.value == query
  {
    TrimEmpty(query);
    if Trim(query) == "" then None else Some(query)
  }

  /** A query the dialog sends is never the empty `q` the search route short-circuits on. */
  lemma SentQueryIsSearched(query: string)
    requires SearchRequest(query).Some?
    ensures Search(SearchRequest(query)) == FilterMatches(MOCK_BOOKS, ToLower(query))
  {
  }

  /** `authors?.[0] || "Unknown Author"`: a present, non-empty first author, else the fallback. */
  function PayloadAuthor(c: Candidate): (author: string)
    ensures author != ""
    ensures author == UNKNOWN_AUTHOR || (c.authors.Some? && |c.authors.value| > 0 && author == c.authors.value[0])
    ensures c.authors.Some? && |c.authors.value| > 0 && c.authors.value[0] != "" ==> author == c.authors.value[0]
  {
    if c.authors.Some? && |c.authors.value| > 0 && c.authors.value[0] != "" then c.authors.value[0]
    else UNKNOWN_AUTHOR
  }

  /** `imageLinks?.thumbnail || placeholder`: a present, non-empty thumbnail, else the placeholder. */
  function PayloadCover(c: Candidate): (cover: string)
    ensures cover != ""
    ensures cover == PLACEHOLDER_COVER || c.thumbnail == Some(cover)
    ensures c.thumbnail.Some? && c.thumbnail.value != "" ==> cover == c.thumbnail.value
  {
    if c.thumbnail.Some? && c.thumbnail.value != "" then c.thumbnail.value else PLACEHOLDER_COVER
  }

  /**
   * `bookData`, or nothing when no book is selected: the selection's title, its
   * author and cover with their fallbacks, and the form's status and notes verbatim.
   */
  function BookData(selected: Option<Candidate>, status: string, notes: string): (data: Option<BooksRoute.NewBookBody>)
    ensures data.None? <==> selected.None?
    ensures data.Some? ==>
      && data.value.title == selected.value.title
      && data.value.author == PayloadAuthor(selected.value)
      && data.value.cover == PayloadCover(selected.value)
      && data.value.status == status && data.value.notes == Some(notes)
  {
    match selected
    case None => None
    case Some(c) => Some(BooksRoute.NewBookBody(c.title, PayloadAuthor(c), PayloadCover(c), status, Some(notes)))
  }

  /** The line under a result's title: the authors joined by ", ", or the fallback when that is empty. */
  function AuthorLine(c: Candidate): (line: string)
    ensures line != ""
    ensures c.authors.Some? && Join(c.authors.value, AUTHOR_SEPARATOR) != "" ==> line == Join(c.authors.value, AUTHOR_SEPARATOR)
    ensures c.authors.None? ==> line == UNKNOWN_AUTHOR
    ensures c.authors.Some? && Join(c.authors.value, AUTHOR_SEPARATOR) == "" ==> line == UNKNOWN_AUTHOR
  {
    if c.authors.Some? && Join(c.authors.value, AUTHOR_SEPARATOR) != "" then Join(c.authors.value, AUTHOR_SEPARATOR)
    else UNKNOWN_AUTHOR
  }

  /** The fallback shows exactly when the authors are missing, none, or a single empty name (or join to the fallback itself). */
  lemma AuthorLineFallback(c: Candidate)
    ensures AuthorLine(c) == UNKNOWN_AUTHOR <==>
      || c.authors.None?
      || |c.authors.value| == 0
      || (|c.authors.value| == 1 && c.authors.value[0] == "")
      || Join(c.authors.value, AUTHOR_SEPARATOR) == UNKNOWN_AUTHOR
  {
    if c.authors.Some? {
      JoinEmpty(c.authors.value, AUTHOR_SEPARATOR);
    }
  }

  /** For a single non-empty author, the line shown and the author sent agree. */
  lemma SingleAuthorAgrees(c: Candidate)
    requires c.authors.Some? && |c.authors.value| == 1 && c.authors.value[0] != ""
    ensures AuthorLine(c) == PayloadAuthor(c)
  {
  }

  /** What a search request came back with: a failure, or a body whose `items` may be missing. */
  datatype SearchReply = Failed | Body(items: Option<seq<Candidate>>)

  /** The dialog's form state. */
  class AddBookForm {
    var searchQuery: string
    var searchResults: seq<Candidate>
    var selectedBook: Option<Candidate>
    var status: string
    var notes: string
    var loading: bool
    var searching: bool

    /** The state the dialog mounts with. */
    constructor ()
      ensures searchQuery == "" && searchResults == [] && selectedBook == None
      ensures status == INITIAL_STATUS && notes == ""
      ensures !loading && !searching
    {
      searchQuery, searchResults, selectedBook := "", [], None;
      status, notes := INITIAL_STATUS, "";
      loading, searching := false, false;
    }

    /** `resetForm`: the five form fields return to their initial values; the busy flags stay. */
    method ResetForm()
      modifies this
      ensures searchQuery == "" && searchResults == [] && selectedBook == None
      ensures status == INITIAL_STATUS && notes == ""
      ensures loading == old(loading) && searching == old(searching)
    {
      searchQuery := "";
      searchResults := [];
      selectedBook := None;
      status := INITIAL_STATUS;
      notes := "";
    }

    /**
     * `searchBooks`, given what the request for `SearchRequest(searchQuery)` came back
     * with: a blank query changes nothing; otherwise the results become the reply's
     * items (none when missing) unless the request failed.
     */
    method SearchBooks(reply: SearchReply) returns (sent: Option<string>)
      modifies this
      ensures sent == SearchRequest(old(searchQuery))
      ensures sent.None? ==> searchResults == old(searchResults) && searching == old(searching)
      ensures sent.Some? ==> !searching
      ensures sent.Some? && reply.Body? ==> searchResults == reply.items.GetOr([])
      ensures reply.Failed? ==> searchResults == old(searchResults)
      ensures searchQuery == old(searchQuery) && selectedBook == old(selectedBook)
      ensures status == old(status) && notes == old(notes) && loading == old(loading)
    {
      sent := SearchRequest(searchQuery);
      if sent.None? {
        return;
      }
      searching := true;
      if reply.Body? {
        searchResults := reply.items.GetOr([]);
      }
      searching := false;
    }

    /**
     * `addBook`, given whether the POST succeeded: without a selection nothing is sent
     * and nothing changes; otherwise `BookData` is sent, and on success the form is reset.
     */
    method AddBook(ok: bool) returns (sent: Option<BooksRoute.NewBookBody>)
      modifies this
      ensures sent == BookData(old(selectedBook), old(status), old(notes))
      ensures sent.None? ==>
        && searchQuery == old(searchQuery) && searchResults == old(searchResults)
        && selectedBook == old(selectedBook) && status == old(status) && notes == old(notes)
        && loading == old(loading) && searching == old(searching)
      ensures sent.Some? && ok ==>
        && searchQuery == "" && searchResults == [] && selectedBook == None
        && status == INITIAL_STATUS && notes == ""
      ensures sent.Some? && !ok ==>
        && searchQuery == old(searchQuery) && searchResults == old(searchResults)
        && selectedBook == old(selectedBook) && status == old(status) && notes == old(notes)
      ensures sent.Some? ==> !loading && searching == old(searching)
    {
      sent := BookData(selectedBook, status, notes);
      if sent.None? {
        return;
      }
      loading := true;
      if ok {
        ResetForm();
      }
      loading := false;
    }
  }

  /** Adding the selected result stores a record with the payload's fields for the signed-in user. */
  method AddSelected(form: AddBookForm, store: BooksRoute.BookStore, session: string, id: string, now: string)
    returns (r: BooksRoute.CreateResponse)
    requires session != "" && form.selectedBook.Some?
    modifies store
    ensures r.Created? && store.books == old(store.books) + [r.book]
    ensures r.book.title == form.selectedBook.value.title
    ensures r.book.author == PayloadAuthor(form.selectedBook.value) && r.book.author != ""
    ensures r.book.cover == PayloadCover(form.selectedBook.value) && r.book.cover != ""
    ensures r.book.status == form.status && r.book.notes == Some(form.notes)
  {
    var data := BookData(form.selectedBook, form.status, form.notes);
    r := store.Post(Some(session), data.value, id, now);
  }
}
