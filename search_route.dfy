/**
 * GET /api/books/search?q=: a fixed list of five catalogue entries, filtered by a
 * case-insensitive substring match of `q` against the title or any author.
 */
module SearchRoute {
  import opened Wrappers
  import opened Seqs
  import opened Text

  /** A catalogue entry in the shape of a Google Books volume. */
  datatype Candidate = Candidate(
    id: string,
    title: string,
    authors: Option<seq<string>>,
    thumbnail: Option<string>,
    description: Option<string>)

  const MOCK_THUMBNAIL := "/placeholder.svg?height=200&width=150"

  const MOCK_BOOKS: seq<Candidate> := [
    Candidate("1", "The Great Gatsby", Some(["F. Scott Fitzgerald"]), Some(MOCK_THUMBNAIL),
      Some("A classic American novel set in the Jazz Age.")),
    Candidate("2", "To Kill a Mockingbird", Some(["Harper Lee"]), Some(MOCK_THUMBNAIL),
      Some("A gripping tale of racial injustice and childhood innocence.")),
    Candidate("3", "1984", Some(["George Orwell"]), Some(MOCK_THUMBNAIL),
      Some("A dystopian social science fiction novel.")),
    Candidate("4", "Pride and Prejudice", Some(["Jane Austen"]), Some(MOCK_THUMBNAIL),
      Some("A romantic novel of manners.")),
    Candidate("5", "The Catcher in the Rye", Some(["J.D. Salinger"]), Some(MOCK_THUMBNAIL),
      Some("A controversial novel about teenage rebellion."))
  ]

  /** `authors.some(author => author.toLowerCase().includes(lowered))`. */
  predicate AnyAuthorIncludes(authors: seq<string>, lowered: string) {
    exists i :: 0 <= i < |authors| && Includes(ToLower(authors[i]), lowered)
  }

  /** The filter's test, for the already lower-cased query. */
  predicate Matches(c: Candidate, lowered: string) {
    || Includes(ToLower(c.title), lowered)
    || (c.authors.Some? && AnyAuthorIncludes(c.authors.value, lowered))
  }

  /** `candidates.filter(...)` with the lower-cased query. */
  function FilterMatches(candidates: seq<Candidate>, lowered: string): (r: seq<Candidate>)
    ensures Subsequence(r, candidates)
    ensures forall c :: c in r ==> Matches(c, lowered)
    ensures forall c :: c in candidates && Matches(c, lowered) ==> c in r
  {
    if candidates == [] then []
    else
      var rest := FilterMatches(candidates[1..], lowered);
      assert forall c :: c in candidates ==> c == candidates[0] || c in candidates[1..];
      if Matches(candidates[0], lowered) then
        assert ([candidates[0]] + rest)[1..] == rest;
        [candidates[0]] + rest
      else rest
  }

  /**
   * The handler's `items`: empty for a missing or empty `q`; otherwise exactly the
   * entries whose lower-cased title or some lower-cased author contains the
   * lower-cased `q`, in catalogue order, so at most five.
   */
  function Search(q: Option<string>): (items: seq<Candidate>)
    ensures q.None? || q == Some("") ==> items == []
    ensures Subsequence(items, MOCK_BOOKS) && |items| <= 5
    ensures forall c :: c in items ==> q.Some? && Matches(c, ToLower(q.value))
    ensures q.Some? && q.value != "" ==>
      forall c :: c in MOCK_BOOKS && Matches(c, ToLower(q.value)) ==> c in items
  {
    if q.None? || q.value == "" then []
    else
      var items := FilterMatches(MOCK_BOOKS, ToLower(q.value));
      SubsequenceLength(items, MOCK_BOOKS);
      items
  }

  /** Queries that lower-case alike get the same items. */
  lemma SearchDependsOnLowered(q1: string, q2: string)
    requires ToLower(q1) == ToLower(q2)
    ensures Search(Some(q1)) == Search(Some(q2))
  {
    assert |q1| == |ToLower(q1)| == |q2|;
  }

  /** `s` has no letter `w`, in either case. */
  predicate LacksW(s: string) {
    forall i :: 0 <= i < |s| ==> s[i] != 'w' && s[i] != 'W'
  }

  /** Text without the letter `w` cannot contain "orwell", whatever its case. */
  lemma NoOrwellIn(s: string)
    requires LacksW(s)
    ensures !Includes(ToLower(s), "orwell")
  {
    LowerCharAbsent(s, 'w');
    MissingCharExcludes(ToLower(s), "orwell", 2);
  }

  /** An entry with one author and no `w` in title or author does not match "orwell". */
  lemma NoOrwellEntry(c: Candidate, title: string, author: string)
    requires c.title == title && c.authors == Some([author])
    requires LacksW(title) && LacksW(author)
    ensures !Matches(c, "orwell")
  {
    NoOrwellIn(title);
    NoOrwellIn(author);
  }

  lemma OrwellMatches()
    ensures Matches(MOCK_BOOKS[2], "orwell")
  {
    var orwell := ToLower("George Orwell");
    assert orwell[7..13] == "orwell";
    assert OccursAt(orwell, "orwell", 7);
    assert MOCK_BOOKS[2].authors.value[0] == "George Orwell";
  }

  lemma Entry0Misses()
    ensures !Matches(MOCK_BOOKS[0], "orwell")
  {
    NoOrwellEntry(MOCK_BOOKS[0], "The Great Gatsby", "F. Scott Fitzgerald");
  }

  lemma Entry1Misses()
    ensures !Matches(MOCK_BOOKS[1], "orwell")
  {
    NoOrwellEntry(MOCK_BOOKS[1], "To Kill a Mockingbird", "Harper Lee");
  }

  lemma Entry3Misses()
    ensures !Matches(MOCK_BOOKS[3], "orwell")
  {
    NoOrwellEntry(MOCK_BOOKS[3], "Pride and Prejudice", "Jane Austen");
  }

  lemma Entry4Misses()
    ensures !Matches(MOCK_BOOKS[4], "orwell")
  {
    NoOrwellEntry(MOCK_BOOKS[4], "The Catcher in the Rye", "J.D. Salinger");
  }

  /** Filtering five entries of which only the middle one matches keeps just that one. */
  lemma FilterOnlyMiddle(a: Candidate, b: Candidate, c: Candidate, d: Candidate, e: Candidate, lowered: string)
    requires !Matches(a, lowered) && !Matches(b, lowered) && Matches(c, lowered)
    requires !Matches(d, lowered) && !Matches(e, lowered)
    ensures FilterMatches([a, b, c, d, e], lowered) == [c]
  {
    var s := [a, b, c, d, e];
    assert s[1..] == [b, c, d, e] && s[2..] == [c, d, e] && s[3..] == [d, e] && s[4..] == [e];
    assert FilterMatches([e], lowered) == [];
    assert FilterMatches([d, e], lowered) == [];
    assert FilterMatches([c, d, e], lowered) == [c];
  }

  lemma OrwellFilter()
    ensures FilterMatches(MOCK_BOOKS, "orwell") == [MOCK_BOOKS[2]]
  {
    Entry0Misses();
    Entry1Misses();
    Entry3Misses();
    Entry4Misses();
    OrwellMatches();
    FilterOnlyMiddle(MOCK_BOOKS[0], MOCK_BOOKS[1], MOCK_BOOKS[2], MOCK_BOOKS[3], MOCK_BOOKS[4], "orwell");
    assert MOCK_BOOKS == [MOCK_BOOKS[0], MOCK_BOOKS[1], MOCK_BOOKS[2], MOCK_BOOKS[3], MOCK_BOOKS[4]];
  }

  /** `q = "orwell"` finds exactly "1984" (entry "3"), through its author. */
  lemma OrwellExample()
    ensures Search(Some("orwell")) == [MOCK_BOOKS[2]]
    ensures MOCK_BOOKS[2].id == "3"
  {
    var q := "orwell";
    assert ToLower(q) == q;
    OrwellFilter();
  }
}
