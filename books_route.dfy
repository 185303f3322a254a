/**
 * GET and POST /api/books: a module-level array of books shared by all users,
 * read through a per-user filter and grown by appends. The session is the raw
 * value of the `session` cookie; the random id and the creation timestamp of a
 * new book are parameters.
 */
module BooksRoute {
  import opened Wrappers
  import opened Seqs

  const READING := "reading"
  const FINISHED := "finished"
  const WANT_TO_READ := "want-to-read"

  /** The three values the `status` field is declared with. */
  predicate KnownStatus(status: string) {
    status == READING || status == FINISHED || status == WANT_TO_READ
  }

  /**
   * A stored book. `status` holds whatever the request body carried: the handler
   * does not check it against the declared union.
   */
  datatype Book = Book(
    id: string,
    userId: string,
    title: string,
    author: string,
    cover: string,
    status: string,
    rating: Option<int>,
    notes: Option<string>,
    dateAdded: string,
    dateFinished: Option<string>)

  /** The fields POST reads from the request body; `notes` may be absent. */
  datatype NewBookBody = NewBookBody(title: string, author: string, cover: string, status: string, notes: Option<string>)

  datatype ListResponse = BookList(items: seq<Book>) | ListError(status: int, error: string)

  datatype CreateResponse = Created(book: Book) | CreateError(status: int, error: string)

  const NOT_AUTHENTICATED := "Not authenticated"

  /** `if (!userId)` fails for a missing cookie and for an empty value alike. */
  predicate SignedIn(session: Option<string>) {
    session.Some? && session.value != ""
  }

  /** `books.filter(book => book.userId === userId)`. */
  function UserBooks(books: seq<Book>, userId: string): (r: seq<Book>)
    ensures Subsequence(r, books)
    ensures forall b :: b in r ==> b.userId == userId
    ensures forall b :: b in books && b.userId == userId ==> b in r
  {
    if books == [] then []
    else
      var rest := UserBooks(books[1..], userId);
      assert forall b :: b in books ==> b == books[0] || b in books[1..];
      if books[0].userId == userId then
        assert ([books[0]] + rest)[1..] == rest;
        [books[0]] + rest
      else rest
  }

  /** Appending a book extends its owner's list by that book and leaves every other list alone. */
  lemma {:induction false} UserBooksAppend(books: seq<Book>, b: Book, userId: string)
    ensures UserBooks(books + [b], userId) == UserBooks(books, userId) + (if b.userId == userId then [b] else [])
  {
    if books == [] {
      assert books + [b] == [b];
    } else {
      assert (books + [b])[1..] == books[1..] + [b];
      UserBooksAppend(books[1..], b, userId);
    }
  }

  /** The filter keeps every copy of a user's record and no copy of anyone else's. */
  lemma {:induction false} UserBooksCount(books: seq<Book>, userId: string)
    ensures forall b :: multiset(UserBooks(books, userId))[b] == if b.userId == userId then multiset(books)[b] else 0
  {
    if books != [] {
      UserBooksCount(books[1..], userId);
      assert books == [books[0]] + books[1..];
      assert multiset(books) == multiset([books[0]]) + multiset(books[1..]);
    }
  }

  /** The record POST builds: only the body's fields, no rating and no finish date. */
  function NewRecord(userId: string, body: NewBookBody, id: string, now: string): Book {
    Book(id, userId, body.title, body.author, body.cover, body.status, None, body.notes, now, None)
  }

  /** The module-level store. */
  class BookStore {
    var books: seq<Book>

    constructor ()
      ensures books == []
    {
      books := [];
    }

    /**
     * GET: 401 without a session; otherwise exactly the stored books owned by the
     * session's user, in insertion order. Reading leaves the store as it was.
     */
    function Get(session: Option<string>): (r: ListResponse)
      reads this
      ensures r.ListError? <==> !SignedIn(session)
      ensures r.ListError? ==> r == ListError(401, NOT_AUTHENTICATED)
      ensures r.BookList? ==> Subsequence(r.items, books)
      ensures r.BookList? ==> forall b :: b in r.items ==> b.userId == session.value
      ensures r.BookList? ==> forall b :: b in books && b.userId == session.value ==> b in r.items
      ensures r.BookList? ==> forall b :: multiset(r.items)[b] == if b.userId == session.value then multiset(books)[b] else 0
    {
      if !SignedIn(session) then ListError(401, NOT_AUTHENTICATED)
      else
        UserBooksCount(books, session.value);
        BookList(UserBooks(books, session.value))
    }

    /** POST: 401 and no change without a session; otherwise one new record, appended and returned. */
    method Post(session: Option<string>, body: NewBookBody, id: string, now: string) returns (r: CreateResponse)
      modifies this
      ensures !SignedIn(session) ==> r == CreateError(401, NOT_AUTHENTICATED) && books == old(books)
      ensures SignedIn(session) ==> r.Created? && books == old(books) + [r.book]
      ensures SignedIn(session) ==>
        && r.book.id == id && r.book.userId == session.value && r.book.dateAdded == now
        && r.book.title == body.title && r.book.author == body.author && r.book.cover == body.cover
        && r.book.status == body.status && r.book.notes == body.notes
        && r.book.rating == None && r.book.dateFinished == None
    {
      if !SignedIn(session) {
        return CreateError(401, NOT_AUTHENTICATED);
      }
      var book := NewRecord(session.value, body, id, now);
      books := books + [book];
      r := Created(book);
    }
  }

  /** One user's POST leaves every other user's GET as it was, and extends the poster's own list. */
  method PostIsolation(store: BookStore, user: string, other: string, body: NewBookBody, id: string, now: string)
    returns (r: CreateResponse)
    requires user != "" && other != user
    modifies store
    ensures r.Created?
    ensures store.Get(Some(other)) == old(store.Get(Some(other)))
    ensures store.Get(Some(user)) == BookList(old(UserBooks(store.books, user)) + [r.book])
  {
    r := store.Post(Some(user), body, id, now);
    UserBooksAppend(old(store.books), r.book, user);
    UserBooksAppend(old(store.books), r.book, other);
  }
}
