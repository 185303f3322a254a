# BookBurst reading tracker: a Dafny model of its core logic

BookBurst is a Next.js reading tracker. This project models its testable core
and proves properties about the model:

- **The in-memory API handlers.**
  - The book store answers `GET` and `POST /api/books`. It is a class holding the
    module-level array; `Post` appends to it.
  - Signup, login and "me" are the three authentication handlers. Each keeps its
    own `users` array, and the model keeps them apart.
  - The catalogue search filters a fixed list of five entries.
- **The page logic.**
  - The dashboard shelf: a status-tab filter, a case-insensitive search and the
    per-tab counts.
  - The saved-tab cookie. The dashboard and the explore page parse it with the
    same `split`/`find`/`split` chain, modelled once, with the cookie name as a
    parameter.
  - The reading timeline. A month-grouping `reduce` runs as a loop over a map.
    Descending sorts order the books of each group and the groups, and the
    year total is summed. Expanding a period toggles its membership in a set.
  - The payloads the add-book and edit-book dialogs send, with the add dialog's
    form state as a class.
  - The star-rating toggle and the book card's status badge and star row.

JavaScript's string built-ins live in module `Text`:

- `toLowerCase` over ASCII letters;
- `indexOf` and `includes`;
- `startsWith`;
- `split` with a non-empty separator, and `join`;
- `trim` over ASCII white space.

Everything outside the model's reach is a parameter:

- request bodies and cookie values;
- random ids and `new Date()` timestamps;
- the replies of `fetch`.

Where the code and its declared types or evident intent disagree, the model follows the code:

- `POST /api/books` copies `status` from the body without checking it against the
  three declared values. `Book.status` is therefore a string, and
  `TabCountsSum` states that the tab counts add up only for books whose status
  is one of the three.
- The three authentication handlers do not share one user store. An account
  created by signup can therefore neither log in nor be resolved by "me". See
  "Findings".

## Model

| member | source | states |
|---|---|---|
| BooksRoute.UserBooks | app/api/books/route.ts:31 | The result is a subsequence of the store in store order. It holds exactly the books whose owner is the given user. |
| BooksRoute.UserBooksCount | app/api/books/route.ts:31 | The filter keeps every copy of a record whose owner is the given user, as many times as the store holds it, and no copy of any other record. |
| BooksRoute.UserBooksAppend | app/api/books/route.ts:59 | Appending a book adds it to the end of its owner's list and leaves every other user's list unchanged. |
| BooksRoute.BookStore.constructor | app/api/books/route.ts:5-16 | The store starts empty. |
| BooksRoute.BookStore.Get | app/api/books/route.ts:24-37 | A missing or empty session gives 401. Otherwise the result is exactly the session user's books, in insertion order, each record as many times as the store holds it; the function only reads the store. |
| BooksRoute.BookStore.Post | app/api/books/route.ts:39-60 | Without a session: 401 and the store is unchanged. With one, exactly one record is appended and returned. Its owner is the session user; title, author, cover, status and notes are copied from the body; it has no rating and no finish date. |
| BooksRoute.PostIsolation | app/api/books/route.ts:31-59 | After user U's POST, every other user's GET returns what it returned before, and U's own list gains exactly the new record at its end. |
| SignupRoute.Register | app/api/auth/signup/route.ts:13-47 | Fails with 400 and no change exactly when the email is already taken (case-sensitive). Otherwise it appends one user with the given email, password, name and id. The response holds the public fields and the session cookie value equal to the new id. |
| SignupRoute.RegisterKeepsEmailsDistinct | app/api/auth/signup/route.ts:18-32 | Every signup keeps the stored emails pairwise distinct. |
| SignupRoute.RegisterTwiceRejected | app/api/auth/signup/route.ts:18-21 | Registering the same email twice in a row: the second call returns 400 and changes nothing. |
| SignupRoute.SignupStore.constructor | app/api/auth/signup/route.ts:5-11 | The signup store starts empty, with distinct emails. |
| SignupRoute.SignupStore.Post | app/api/auth/signup/route.ts:18-32 | The `find` loop and the `push` leave the store and the response exactly as `Register` says, and keep the emails distinct. |
| SignupRoute.SignupTwice | app/api/auth/signup/route.ts:18-32 | On a fresh store, a first signup succeeds with the given id and a second signup with the same email is refused with 400. |
| LoginRoute.FindByCredentials | app/api/auth/login/route.ts:26 | Finds the first user matching both email and password exactly, or reports that none matches. |
| LoginRoute.Post | app/api/auth/login/route.ts:21-44 | Succeeds iff some user has exactly this email and password. On success the response holds the first such user's public fields (never the password) and a session cookie equal to its id. On failure it is 401 with no cookie. |
| LoginRoute.OnlyDemoCredentials | app/api/auth/login/route.ts:5-26 | Against the seeded, never-written store, only the demo email and password log in, as the demo user. |
| MeRoute.FindById | app/api/auth/me/route.ts:30 | Finds the first user with the given id, or reports that none has it. |
| MeRoute.Get | app/api/auth/me/route.ts:21-39 | A missing or empty session gives 401, and an id that no user has gives 404. Otherwise the response holds the public fields of the first user with that id, so its id equals the session value. |
| MeRoute.OnlyDemoSession | app/api/auth/me/route.ts:5-33 | Against the seeded store, only the demo id resolves; every other non-empty session gives 404. |
| SearchRoute.FilterMatches | app/api/books/search/route.ts:72-76 | Sound, complete and order-preserving: exactly the entries whose lower-cased title, or some lower-cased author, contains the lowered query. |
| SearchRoute.Search | app/api/books/search/route.ts:3-78 | A missing or empty `q` gives no items. Otherwise the items are exactly the matching fixture entries, in fixture order, so there are at most five. |
| SearchRoute.SearchDependsOnLowered | app/api/books/search/route.ts:74-75 | Two queries that lower-case alike get the same items. |
| SearchRoute.OrwellFilter | app/api/books/search/route.ts:72-76 | Filtering the fixture by `orwell` keeps only the third entry. |
| SearchRoute.OrwellExample | app/api/books/search/route.ts:37-46 | `q = "orwell"` returns only the entry whose id is "3". |
| Dashboard.FilteredBooks | app/dashboard/page.tsx:82-89 | A subsequence of the books, in shelf order, holding exactly the books of the active tab that match the search. |
| Dashboard.WithStatus | app/dashboard/page.tsx:92 | A subsequence holding exactly the books with the given status. |
| Dashboard.EmptyQueryShowsTab | app/dashboard/page.tsx:84-85 | With an empty query, the shelf is exactly the tab's books. |
| Dashboard.FilteredWithinTab | app/dashboard/page.tsx:82-93 | The shelf is a subsequence of the tab's books, so its length is at most the tab's count. |
| Dashboard.FilteredConcat | app/dashboard/page.tsx:82 | Filtering distributes over concatenation, so relative order is kept. |
| Dashboard.TabCountConcat | app/dashboard/page.tsx:91-93 | The per-tab lists and counts add up over a concatenation. |
| Dashboard.TabCountsSum | app/dashboard/page.tsx:91-93 | When every book has one of the three declared statuses, the three tab counts sum to the number of books. |
| Dashboard.InitialDashboardTab | app/dashboard/page.tsx:44-51 | A non-empty saved value becomes the opening tab. It stays "reading" when nothing is saved or the saved value is empty. |
| Dashboard.SavedDashboardTab | app/dashboard/page.tsx:44-47 | The saved tab is the text after `bookshelf-tab=`, up to the next `=`, in the first `"; "` segment starting with that prefix. It is absent when no segment starts with it. |
| TabCookie.FirstWithPrefix | app/dashboard/page.tsx:46 | Finds the first segment starting with the prefix: every earlier segment does not, and none at all when absent. |
| TabCookie.InitialTab | app/dashboard/page.tsx:49-51 | A non-empty saved value becomes the tab; otherwise the tab is the default. The tab is never empty unless it is the default. |
| TabCookie.SavedTabValue | app/dashboard/page.tsx:44-47 | For a name without `=`, the parse yields the text after `name=` in the first matching segment, cut at its next `=`, or nothing. |
| TabCookie.UpToSeparator | app/dashboard/page.tsx:47 | The result is a prefix of the value, holds no `=`, and is followed by `=` unless it is the whole value. |
| TabCookie.SingleSegment | app/explore/page.tsx:40 | A header without `"; "` splits into itself alone. |
| TabCookie.SavedSingleSegment | app/explore/page.tsx:39-42 | A header that is the single segment `name=rest` saves `rest` up to its first `=`. |
| TabCookie.UpToFirstSeparator | app/explore/page.tsx:42 | A value `v=w`, where `v` has no `=`, is cut back to `v`. |
| TabCookie.SavedTabRoundTrip | app/explore/page.tsx:39-42 | A header with the segment `name=tab`, after segments not starting with `name=`, parses back to `tab`. This needs `tab` without `=` and no segment holding `"; "`. |
| TabCookie.WrittenCookieSegment | app/explore/page.tsx:51 | The first `"; "` piece of the written cookie string is the segment `name=tab`. |
| TabCookie.InitialTabRestoresSaved | app/dashboard/page.tsx:44-56 | After the tab is saved, the page reopens on it, or on the default when it is empty. |
| Explore.InitialExploreTab | app/explore/page.tsx:33-46 | A non-empty saved value becomes the opening tab. It stays "trending" when nothing is saved or the saved value is empty. |
| Explore.PrefixMustBeExact | app/explore/page.tsx:41 | The segment `xexplore-tab=a` is not the saved tab. |
| Explore.ValueTruncatedAtSeparator | app/explore/page.tsx:42 | A saved value `v=w` is read back as `v`. |
| Explore.TabRestored | app/explore/page.tsx:39-51 | The cookie written for a non-empty `tab` without `=` or `"; "` starts with the segment `explore-tab=tab`. A header carrying that segment reopens the page on `tab`. |
| Timeline.DayTimeOrder | app/timeline/page.tsx:135 | Between valid days, the time ordinal orders by year, then month, then day. |
| Timeline.RetainedSpec | app/timeline/page.tsx:112-115 | The year filter keeps exactly the books finished in the selected year. |
| Timeline.MembersSpec | app/timeline/page.tsx:117-125 | A period's members are exactly the books finished in that month and year. |
| Timeline.ReduceStart | app/timeline/page.tsx:128 | The empty accumulator is the grouping of no books. |
| Timeline.ReduceSkip | app/timeline/page.tsx:115 | A book of another year leaves the accumulator a valid grouping of the longer prefix. |
| Timeline.ReduceCreate | app/timeline/page.tsx:122-125 | The first book of a period creates that period's array, holding just it. |
| Timeline.ReducePush | app/timeline/page.tsx:125 | A later book of a period is pushed onto that period's array. |
| Timeline.GroupByPeriod | app/timeline/page.tsx:110-129 | The loop ends with distinct periods, one array per period met. Each array holds exactly that period's books of the year, in order; every book of the year has its period's array; and the sizes sum to the number of books of the year. |
| Timeline.InsertDesc | app/timeline/page.tsx:135 | Inserting into a newest-first sequence keeps it newest first and adds exactly one element. |
| Timeline.SortDesc | app/timeline/page.tsx:135-138 | The result is ordered largest key first and is a permutation of the input. |
| Timeline.GroupOf | app/timeline/page.tsx:133-137 | A group holds a permutation of its period's books, newest first, and `totalBooks` is its size. |
| Timeline.MakeGroups | app/timeline/page.tsx:132-137 | There is one group per period, in the accumulator's order. |
| Timeline.TotalBooksSorted | app/timeline/page.tsx:138 | Sorting the groups leaves the summed `totalBooks` unchanged. |
| Timeline.TotalBooksOfGroups | app/timeline/page.tsx:157 | The summed `totalBooks` of the groups equals the number of grouped books. |
| Timeline.BuildTimeline | app/timeline/page.tsx:110-138 | Only books of the selected year appear. Each appears in the group of its period, no two groups share a period, and each group's total is its size. Books and groups are newest first, and the totals sum to the number of books of the year. |
| Timeline.DemoYearTotals | app/timeline/page.tsx:51-107 | The demo books count two for 2024, four for 2023 and none for any other year. |
| Timeline.DemoTimeline | app/timeline/page.tsx:110-157 | The page's timeline over the demo books totals 2 for 2024, 4 for 2023 and 0 otherwise, with groups newest first. |
| Timeline.TogglePeriod | app/timeline/page.tsx:146-154 | Toggling flips the period's membership and leaves every other period's membership unchanged. |
| Timeline.ToggleTwice | app/timeline/page.tsx:146-153 | Toggling the same period twice restores the set. |
| AddBookDialog.SearchRequest | components/add-book-dialog.tsx:42 | No request is made exactly when the query is empty or all white space. Otherwise the query is sent unchanged. |
| AddBookDialog.SentQueryIsSearched | components/add-book-dialog.tsx:42-46 | A query the dialog sends is always filtered, never short-circuited to empty. |
| AddBookDialog.PayloadAuthor | components/add-book-dialog.tsx:70 | The first author when present and non-empty, else "Unknown Author"; never empty. |
| AddBookDialog.PayloadCover | components/add-book-dialog.tsx:71 | The thumbnail when present and non-empty, else the placeholder path; never empty. |
| AddBookDialog.BookData | components/add-book-dialog.tsx:64-74 | No payload without a selection. Otherwise the payload carries the selection's title, the fallback author and cover, and the form's status and notes unchanged. |
| AddBookDialog.AuthorLine | components/add-book-dialog.tsx:152 | The authors joined with ", ", or "Unknown Author" when the authors are missing or join to nothing. |
| AddBookDialog.AuthorLineFallback | components/add-book-dialog.tsx:152 | The fallback line shows exactly when authors are missing, none, a single empty name, or join to the fallback text. |
| AddBookDialog.SingleAuthorAgrees | components/add-book-dialog.tsx:152 | For a single non-empty author, the line shown and the author sent agree. |
| AddBookDialog.AddBookForm.constructor | components/add-book-dialog.tsx:32-38 | The form starts with an empty query, no results, no selection, status "want-to-read", empty notes and no busy flags. |
| AddBookDialog.AddBookForm.ResetForm | components/add-book-dialog.tsx:105-111 | The five form fields return exactly to their initial values; the busy flags are unchanged. |
| AddBookDialog.AddBookForm.SearchBooks | components/add-book-dialog.tsx:41-61 | A blank query changes nothing. Otherwise the results become the reply's items, or none when `items` is missing; after a failed request they stay as they were. Nothing else changes. |
| AddBookDialog.AddBookForm.AddBook | components/add-book-dialog.tsx:63-103 | Without a selection nothing is sent or changed. Otherwise `BookData` is sent, and the form is reset only on success. |
| AddBookDialog.AddSelected | components/add-book-dialog.tsx:63-79 | POSTing the selected result stores and returns a record with the payload's title, author, cover, status and notes. |
| EditBookDialog.InitialForm | components/edit-book-dialog.tsx:32-34 | The form starts with the book's status, its rating or 0, and its notes or "". |
| EditBookDialog.ClickStar | components/edit-book-dialog.tsx:114 | Clicking a star gives 0 exactly when it is the current rating; otherwise the rating becomes that star. |
| EditBookDialog.ClicksStayInRange | components/edit-book-dialog.tsx:110-114 | From a rating in 0..5, any sequence of clicks on the five stars keeps it in 0..5. |
| EditBookDialog.ClickTwice | components/edit-book-dialog.tsx:114 | Clicking a star twice clears the rating, or restores it when that star was the rating. |
| EditBookDialog.MakeUpdateData | components/edit-book-dialog.tsx:41-45 | The payload status is the form's. A rating is present iff it is positive, and then equals it. Notes are present iff they contain non-white-space, and then are the trimmed text. |
| EditBookDialog.UnchangedFormRoundTrip | components/edit-book-dialog.tsx:32-45 | Saving an untouched form writes back the book's status, its positive rating, and its notes when they are already trimmed. A zero or missing rating is sent as absent. |
| EditBookDialog.FilledStars | components/edit-book-dialog.tsx:117 | Star `i + 1` is filled iff it is at most the rating. |
| EditBookDialog.FilledStarsCount | components/edit-book-dialog.tsx:110-117 | A rating in 0..5 fills exactly that many stars. |
| BookCard.StatusColor | components/book-card.tsx:34-45 | Blue, green and yellow classes for the three statuses; gray for every other string. |
| BookCard.StatusColorsDistinct | components/book-card.tsx:35-41 | The three statuses get three different colours, none of them gray. |
| BookCard.GrayIffUnknown | components/book-card.tsx:42-43 | The badge is gray exactly for a status outside the three. |
| BookCard.StatusLabel | components/book-card.tsx:47-58 | "Reading", "Finished" and "Want to Read" for the three statuses; any other string is returned unchanged. |
| BookCard.BadgeDeterminesStatus | components/book-card.tsx:34-58 | Two statuses with the same colour and label are equal. |
| BookCard.StarRow | components/book-card.tsx:109-116 | No star row for a missing or zero rating. Otherwise there are five stars, and star `i` is filled iff `i` is less than the rating. |
| BookCard.StarRowCount | components/book-card.tsx:109-116 | A shown rating in 1..5 fills exactly that many stars; below that none, above that all five. |
| BookCard.CardMatchesDialog | components/book-card.tsx:114 | The card and the edit dialog fill the same stars for the same non-zero rating. |
| AuthFindings.SignupCannotLogIn | app/api/auth/login/route.ts:5-26 | With separate stores, a successful signup cannot log in unless its credentials are the demo ones. |
| AuthFindings.SignupSessionUnknown | app/api/auth/me/route.ts:5-33 | With separate stores, the session cookie set by signup resolves to 404 on "me". |
| AuthFindings.SignupThenLoginFails | app/api/auth/signup/route.ts:5-32 | Concretely, signing up `reader@example.com` succeeds, and logging in with it returns 401. |
| AuthFindings.SharedStoreLogin | app/api/auth/login/route.ts:26 | With one shared store, the credentials just registered log in as the new account. |
| AuthFindings.SharedStoreMe | app/api/auth/me/route.ts:30 | With one shared store, signup's session resolves on "me" to an account with that id. It is the new account unless an older one drew the same random id. |
| Text.ToLower | app/dashboard/page.tsx:86 | Same length, and each character is lower-cased. |
| Text.IncludesIff | app/dashboard/page.tsx:86-87 | `includes` holds iff the needle occurs at some index. |
| Text.Split | app/dashboard/page.tsx:45 | Joining the pieces with the separator gives back the input. |
| Text.SplitJoin | app/dashboard/page.tsx:45-47 | Splitting a join of pieces that do not hold the separator gives back the pieces. |
| Text.Trim | components/edit-book-dialog.tsx:44 | The result is a slice with only white space around it, and it neither starts nor ends with white space. |
| Text.TrimEmpty | components/add-book-dialog.tsx:42 | Trimming gives "" exactly when the text is all white space. |

## Left out

- I/O is not modelled. This covers `fetch`, `NextResponse`, `request.json()`, `cookies()` and `document.cookie`. Request fields, the session cookie's value and the outcome of each request are parameters.
- Random ids (`Math.random`) and timestamps (`new Date().toISOString()`) are parameters. The model does not assume ids are unique, because the code does not ensure it.
- Only cookie values are modelled. The attributes (`httpOnly`, `secure`, `sameSite`, `maxAge`) are not.
- The 500 paths are not modelled: they come from exceptions thrown by I/O.
- The per-book `PATCH`/`DELETE` handler (app/api/books/[id]/route.ts) is not part of this model, and neither is its `dateFinished` rule. It declares yet another empty `books` array of its own.
- React rendering, hooks, routing, redirects, toasts and Tailwind classes are not modelled; app/page.tsx is not part of this model. Page logic is modelled as functions over explicit state, and add-book form state as a class.
- Concurrency is not modelled: requests are handled one at a time.
- Timeline dates are abstracted.
  - Parsing, the local time zone and `toLocaleDateString` are left out.
  - A finish date is the local calendar day `Day(year, month, day)`, and a group key is `Period(year, month)`, standing for the "Month Year" label.
  - `getTime` is an integer ordinal that orders days the same way. The time of day is not modelled.
- The timeline's `avgRating` (a float average) is not modelled; neither is the explore page's float `avgRating` sort.
- The explore page's fixture reviews and trending books are left out: they are static data with no logic.
- Lower-casing covers ASCII letters only, and `trim` covers ASCII white space only. Unicode case mapping and Unicode white space are left out.
- Timeline.SortDesc: the contract states order and permutation but not stability (equal dates keeping their fixture order), although the insertion it is built from keeps equal keys in order.
- JavaScript's in-place `Array.sort` is modelled on values, as a stable insertion sort. Update in place and aliasing of the sorted arrays are therefore not captured.
- The timeline's `reduce` accumulator is a `map`. `Object.entries` order is modelled as the order in which periods were first met, which is insertion order for non-numeric keys.
- The demo books' finish dates are UTC midnights, and the model reads each as that calendar day. West of UTC each falls on the previous local day instead. None of them is on the first of a month, so no month or year changes and the grouping is the same.
- EditBookDialog.InitialForm: `book.rating || 0` also maps `NaN` to 0. Ratings are integers here, so that case does not arise.
- BookCard.StarRow: `book.rating && …` is modelled for integer ratings. `NaN` and fractional ratings are left out.

## Findings

| source | as written | input that shows it | evidently intended | confidence | as-written member | corrected member |
|---|---|---|---|---|---|---|
| app/api/auth/login/route.ts:5-19 | Login searches its own `users` array. That array holds only the demo account, and signup never writes to it. | Sign up `reader@example.com` / `secret` (200), then log in with the same email and password: 401 "Invalid credentials". | Login succeeds for any account signup registered, as with one shared user store. | not executed | AuthFindings.SignupThenLoginFails | AuthFindings.SharedStoreLogin |
| app/api/auth/me/route.ts:5-19 | "Me" resolves the session against its own `users` array, which holds only the demo account. | Sign up with id `u1` (this sets cookie `session=u1`), then GET /api/auth/me: 404 "User not found". | The session signup sets resolves to the new account. | not executed | AuthFindings.SignupSessionUnknown | AuthFindings.SharedStoreMe |
