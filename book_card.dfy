/**
 * A book's card on the shelf: the status badge (colour classes and label) and the
 * row of five stars shown for a rated book.
 */
module BookCard {
  import opened Wrappers
  import opened Seqs
  import opened BooksRoute
  import EditBookDialog

  const READING_COLOR := "bg-blue-100 text-blue-800"
  const FINISHED_COLOR := "bg-green-100 text-green-800"
  const WANT_TO_READ_COLOR := "bg-yellow-100 text-yellow-800"
  const DEFAULT_COLOR := "bg-gray-100 text-gray-800"
  const STAR_COUNT := 5

  /** `getStatusColor`: a colour per declared status, gray for any other string. */
  function StatusColor(status: string): (color: string)
    ensures status == READING ==> color == READING_COLOR
    ensures status == FINISHED ==> color == FINISHED_COLOR
    ensures status == WANT_TO_READ ==> color == WANT_TO_READ_COLOR
    ensures !KnownStatus(status) ==> color == DEFAULT_COLOR
  {
    if status == READING then READING_COLOR
    else if status == FINISHED then FINISHED_COLOR
    else if status == WANT_TO_READ then WANT_TO_READ_COLOR
    else DEFAULT_COLOR
  }

  /** The three declared statuses get three different colours, none of them the gray default. */
  lemma StatusColorsDistinct(s: string, t: string)
    requires KnownStatus(s) && KnownStatus(t) && s != t
    ensures StatusColor(s) != StatusColor(t)
    ensures StatusColor(s) != DEFAULT_COLOR
  {
  }

  /** The badge is gray exactly for a status outside the declared three. */
  lemma GrayIffUnknown(status: string)
    ensures StatusColor(status) == DEFAULT_COLOR <==> !KnownStatus(status)
  {
  }

  /** `getStatusLabel`: a readable label per declared status, any other string as it is. */
  function StatusLabel(status: string): (text: string)
    ensures status == READING ==> text == "Reading"
    ensures status == FINISHED ==> text == "Finished"
    ensures status == WANT_TO_READ ==> text == "Want to Read"
    ensures !KnownStatus(status) ==> text == status
  {
    if status == READING then "Reading"
    else if status == FINISHED then "Finished"
    else if status == WANT_TO_READ then "Want to Read"
    else status
  }

  /** Two statuses with the same colour and the same label are the same status. */
  lemma BadgeDeterminesStatus(s: string, t: string)
    requires StatusColor(s) == StatusColor(t) && StatusLabel(s) == StatusLabel(t)
    ensures s == t
  {
  }

  /**
   * `book.rating && [...Array(5)].map(...)`: no star row for a missing or zero rating;
   * otherwise five stars, star `i` filled when `i < rating`.
   */
  function StarRow(rating: Option<int>): (stars: Option<seq<bool>>)
    ensures stars.Some? <==> rating.Some? && rating.value != 0
    ensures stars.Some? ==> |stars.value| == STAR_COUNT
    ensures stars.Some? ==> forall i :: 0 <= i < STAR_COUNT ==> (stars.value[i] <==> i < rating.value)
  {
    if rating.Some? && rating.value != 0 then
      Some(seq(STAR_COUNT, i requires 0 <= i < STAR_COUNT => i < rating.value))
    else
      None
  }

  /** A shown rating fills exactly `rating` stars when it lies in 1-5, none below, all five above. */
  lemma StarRowCount(r: int)
    requires r != 0
    ensures CountTrue(StarRow(Some(r)).value) == if r < 0 then 0 else if r > STAR_COUNT then STAR_COUNT else r
  {
    CountLeading(StarRow(Some(r)).value, if r < 0 then 0 else if r > STAR_COUNT then STAR_COUNT else r);
  }

  /** The card and the edit dialog fill the same stars for the same non-zero rating. */
  lemma CardMatchesDialog(r: int)
    requires r != 0
    ensures StarRow(Some(r)).value == EditBookDialog.FilledStars(r)
  {
  }
}
