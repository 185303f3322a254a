/**
 * The "Edit Book" dialog: a form seeded from a stored book (status, a 0-5 star
 * rating where 0 means none, and notes), the star buttons, and the PATCH payload
 * built from the form.
 */
module EditBookDialog {
  import opened Wrappers
  import opened Seqs
  import opened Text
  import opened BooksRoute

  const STAR_COUNT := 5

  datatype EditForm = EditForm(status: string, rating: int, notes: string)

  /** `{ status, rating, notes }`, with `undefined` fields as `None` (left out of the JSON). */
  datatype UpdateData = UpdateData(status: string, rating: Option<int>, notes: Option<string>)

  /** The form state the dialog starts with: the book's status, its rating or 0, its notes or "". */
  function InitialForm(book: Book): (f: EditForm)
    ensures f.status == book.status
    ensures f.rating == (if book.rating.Some? then book.rating.value else 0)
    ensures f.notes == (if book.notes.Some? then book.notes.value else "")
  {
    EditForm(book.status, book.rating.GetOr(0), book.notes.GetOr(""))
  }

  /** Clicking star `star` (1 to 5): the same star again clears the rating, any other sets it. */
  function ClickStar(rating: int, star: int): (r: int)
    ensures r == 0 || r == star
    ensures r == 0 <==> star == rating || star == 0
  {
    if star == rating then 0 else star
  }

  /** The rating after clicking the stars `stars` in turn. */
  function ApplyClicks(rating: int, stars: seq<int>): int
    decreases |stars|
  {
    if stars == [] then rating else ApplyClicks(ClickStar(rating, stars[0]), stars[1..])
  }

  /** Clicking only the five stars keeps a 0-5 rating within 0-5. */
  lemma {:induction false} ClicksStayInRange(rating: int, stars: seq<int>)
    requires 0 <= rating <= STAR_COUNT
    requires forall i :: 0 <= i < |stars| ==> 1 <= stars[i] <= STAR_COUNT
    decreases |stars|
    ensures 0 <= ApplyClicks(rating, stars) <= STAR_COUNT
  {
    if stars != [] {
      ClicksStayInRange(ClickStar(rating, stars[0]), stars[1..]);
    }
  }

  /** Clicking a star twice in a row from a different rating clears it; from the same rating, restores it. */
  lemma ClickTwice(rating: int, star: int)
    requires star != 0
    ensures ClickStar(ClickStar(rating, star), star) == if star == rating then star else 0
  {
  }

  /** `updateData`: the status as is, the rating only when positive, the trimmed notes only when non-empty. */
  function MakeUpdateData(form: EditForm): (d: UpdateData)
    ensures d.status == form.status
    ensures d.rating.Some? <==> form.rating > 0
    ensures d.rating.Some? ==> d.rating.value == form.rating
    ensures d.notes.Some? <==> exists k :: 0 <= k < |form.notes| && !IsSpace(form.notes[k])
    ensures d.notes.Some? ==> d.notes.value == Trim(form.notes) && d.notes.value != ""
  {
    TrimEmpty(form.notes);
    UpdateData(
      form.status,
      if form.rating > 0 then Some(form.rating) else None,
      if Trim(form.notes) != "" then Some(Trim(form.notes)) else None)
  }

  /**
   * Saving without touching the form writes back what the book holds, normalised:
   * a positive rating and non-empty notes without surrounding white space are kept,
   * a missing or zero rating and missing or empty notes are sent as absent.
   */
  lemma UnchangedFormRoundTrip(book: Book)
    requires book.rating.Some? ==> book.rating.value >= 0
    requires book.notes.Some? ==>
      book.notes.value != "" && !IsSpace(book.notes.value[0]) && !IsSpace(book.notes.value[|book.notes.value| - 1])
    ensures MakeUpdateData(InitialForm(book)) ==
      UpdateData(book.status,
        if book.rating.Some? && book.rating.value > 0 then book.rating else None,
        book.notes)
  {
    if book.notes.Some? {
      TrimTrimmed(book.notes.value);
    }
  }

  /** Star `i + 1` of the five is drawn filled when `star <= rating`. */
  function FilledStars(rating: int): (filled: seq<bool>)
    ensures |filled| == STAR_COUNT
    ensures forall i :: 0 <= i < STAR_COUNT ==> (filled[i] <==> i + 1 <= rating)
  {
    seq(STAR_COUNT, i requires 0 <= i < STAR_COUNT => i + 1 <= rating)
  }

  /** A 0-5 rating fills exactly that many stars. */
  lemma FilledStarsCount(rating: int)
    requires 0 <= rating <= STAR_COUNT
    ensures CountTrue(FilledStars(rating)) == rating
  {
    CountLeading(FilledStars(rating), rating);
  }
}
