/**
 * The reading timeline: the finished books of the selected year, grouped by the
 * month they were finished in, each group newest first and the groups newest
 * first; the year's total; and the set of expanded periods.
 *
 * A finish date is the local calendar day it falls on (what `getFullYear` and the
 * month name of `toLocaleDateString` see); `getTime` order is the order of days.
 */
module Timeline {
  import opened Wrappers

  datatype Day = Day(year: int, month: int, day: int)

  datatype TimelineBook = TimelineBook(
    id: string,
    title: string,
    author: string,
    cover: string,
    rating: Option<int>,
    notes: Option<string>,
    dateFinished: Day,
    reviewContent: Option<string>)

  /** The month-and-year a group is keyed by (the "January 2024" label). */
  datatype Period = Period(year: int, month: int)

  datatype TimelineGroup = TimelineGroup(period: Period, books: seq<TimelineBook>, totalBooks: int)

  function PeriodOf(d: Day): Period {
    Period(d.year, d.month)
  }

  /** A day's position in time: later days of valid dates get larger values. */
  function DayTime(d: Day): int {
    (d.year * 12 + d.month) * 32 + d.day
  }

  /** The position in time of a period's first day, `new Date(period).getTime()`. */
  function PeriodTime(p: Period): int {
    p.year * 12 + p.month
  }

  predicate ValidDay(d: Day) {
    1 <= d.month <= 12 && 1 <= d.day <= 31
  }

  /** Between valid days, the ordinal orders by year, then month, then day. */
  lemma DayTimeOrder(d: Day, e: Day)
    requires ValidDay(d) && ValidDay(e)
    ensures DayTime(d) < DayTime(e) <==>
      d.year < e.year || (d.year == e.year && (d.month < e.month || (d.month == e.month && d.day < e.day)))
  {
    var pd, pe := d.year * 12 + d.month, e.year * 12 + e.month;
    assert pd < pe <==> d.year < e.year || (d.year == e.year && d.month < e.month);
    if pd < pe {
      assert DayTime(d) < pd * 32 + 32 <= pe * 32 < DayTime(e);
    } else if pd > pe {
      assert DayTime(e) < pe * 32 + 32 <= pd * 32 < DayTime(d);
    }
  }

  function BookTime(b: TimelineBook): int {
    DayTime(b.dateFinished)
  }

  function GroupTime(g: TimelineGroup): int {
    PeriodTime(g.period)
  }

  // ---------------------------------------------------------------- specification of the grouping

  /** The books finished in `year`, in fixture order. */
  function Retained(books: seq<TimelineBook>, year: int): (r: seq<TimelineBook>)
    ensures |r| <= |books|
  {
    if books == [] then []
    else
      var last := books[|books| - 1];
      Retained(books[..|books| - 1], year) + (if last.dateFinished.year == year then [last] else [])
  }

  /** The books finished in period `p`, in fixture order. */
  function Members(books: seq<TimelineBook>, p: Period): (r: seq<TimelineBook>)
    ensures |r| <= |books|
  {
    if books == [] then []
    else
      var last := books[|books| - 1];
      Members(books[..|books| - 1], p) + (if PeriodOf(last.dateFinished) == p then [last] else [])
  }

  /** `Retained` keeps exactly the books of `year`. */
  lemma {:induction false} RetainedSpec(books: seq<TimelineBook>, year: int)
    ensures forall b :: b in Retained(books, year) <==> b in books && b.dateFinished.year == year
  {
    if books != [] {
      var init := books[..|books| - 1];
      RetainedSpec(init, year);
      assert books == init + [books[|books| - 1]];
    }
  }

  /** `Members` keeps exactly the books of period `p`. */
  lemma {:induction false} MembersSpec(books: seq<TimelineBook>, p: Period)
    ensures forall b :: b in Members(books, p) <==> b in books && PeriodOf(b.dateFinished) == p
  {
    if books != [] {
      var init := books[..|books| - 1];
      MembersSpec(init, p);
      assert books == init + [books[|books| - 1]];
    }
  }

  /** A period none of the books falls in has no members. */
  lemma {:induction false} MembersEmpty(books: seq<TimelineBook>, p: Period)
    requires forall k :: 0 <= k < |books| ==> PeriodOf(books[k].dateFinished) != p
    ensures Members(books, p) == []
  {
    if books != [] {
      MembersEmpty(books[..|books| - 1], p);
    }
  }

  predicate Distinct<T(==)>(s: seq<T>) {
    forall i, j :: 0 <= i < j < |s| ==> s[i] != s[j]
  }

  /** The number of books held by the periods of `order`. */
  function SumSizes(order: seq<Period>, grouped: map<Period, seq<TimelineBook>>): nat
    requires forall p :: p in order ==> p in grouped
  {
    if order == [] then 0
    else SumSizes(order[..|order| - 1], grouped) + |grouped[order[|order| - 1]]|
  }

  /** Changing the books of a period outside `order` does not change the sum. */
  lemma {:induction false} SumSizesFrame(order: seq<Period>, grouped: map<Period, seq<TimelineBook>>, p: Period, v: seq<TimelineBook>)
    requires forall q :: q in order ==> q in grouped
    requires p !in order
    ensures SumSizes(order, grouped[p := v]) == SumSizes(order, grouped)
  {
    if order != [] {
      assert order[|order| - 1] in order;
      SumSizesFrame(order[..|order| - 1], grouped, p, v);
    }
  }

  /** Changing the books of one period of `order` changes the sum by the change in its size. */
  lemma {:induction false} SumSizesUpdate(order: seq<Period>, grouped: map<Period, seq<TimelineBook>>, p: Period, v: seq<TimelineBook>)
    requires forall q :: q in order ==> q in grouped
    requires Distinct(order) && p in order
    ensures SumSizes(order, grouped[p := v]) == SumSizes(order, grouped) - |grouped[p]| + |v|
  {
    var init := order[..|order| - 1];
    var last := order[|order| - 1];
    if last == p {
      assert p !in init by {
        forall i | 0 <= i < |init|
          ensures init[i] != p
        {
          assert order[i] != order[|order| - 1];
        }
      }
      SumSizesFrame(init, grouped, p, v);
    } else {
      assert p in init by {
        var i :| 0 <= i < |order| && order[i] == p;
        assert init[i] == p;
      }
      SumSizesUpdate(init, grouped, p, v);
    }
  }

  /** Each period's array holds the period's books of `prefix`, and the periods are of `year`. */
  ghost predicate GroupsMatch(prefix: seq<TimelineBook>, year: int, grouped: map<Period, seq<TimelineBook>>) {
    forall p :: p in grouped ==> p.year == year && grouped[p] == Members(prefix, p) && grouped[p] != []
  }

  /** Every book of `year` in `prefix` has its period's array. */
  ghost predicate Covers(prefix: seq<TimelineBook>, year: int, grouped: map<Period, seq<TimelineBook>>) {
    forall b :: b in prefix && b.dateFinished.year == year ==> PeriodOf(b.dateFinished) in grouped
  }

  /** What the accumulator holds after the books of `prefix` have been reduced. */
  ghost predicate GroupedUpTo(prefix: seq<TimelineBook>, year: int, order: seq<Period>, grouped: map<Period, seq<TimelineBook>>) {
    && Distinct(order)
    && (forall p :: p in grouped <==> p in order)
    && GroupsMatch(prefix, year, grouped)
    && Covers(prefix, year, grouped)
    && SumSizes(order, grouped) == |Retained(prefix, year)|
  }

  lemma SnocMembers(prefix: seq<TimelineBook>, b: TimelineBook, p: Period)
    ensures Members(prefix + [b], p) == Members(prefix, p) + (if PeriodOf(b.dateFinished) == p then [b] else [])
  {
    assert (prefix + [b])[..|prefix|] == prefix;
  }

  lemma SnocRetained(prefix: seq<TimelineBook>, b: TimelineBook, year: int)
    ensures Retained(prefix + [b], year) == Retained(prefix, year) + (if b.dateFinished.year == year then [b] else [])
  {
    assert (prefix + [b])[..|prefix|] == prefix;
  }

  /** A book of another year leaves the accumulator as it is. */
  lemma SkipStep(prefix: seq<TimelineBook>, b: TimelineBook, year: int, order: seq<Period>, grouped: map<Period, seq<TimelineBook>>)
    requires GroupedUpTo(prefix, year, order, grouped)
    requires b.dateFinished.year != year
    ensures GroupedUpTo(prefix + [b], year, order, grouped)
  {
    SnocRetained(prefix, b, year);
    forall p | p in grouped
      ensures Members(prefix + [b], p) == Members(prefix, p)
    {
      SnocMembers(prefix, b, p);
    }
    assert Covers(prefix + [b], year, grouped) by {
      forall c | c in prefix + [b] && c.dateFinished.year == year
        ensures PeriodOf(c.dateFinished) in grouped
      {
        assert c in prefix;
      }
    }
  }

  /** Adding `b` to its period's array, whatever that array held, keeps the arrays matching. */
  lemma GroupsStep(prefix: seq<TimelineBook>, b: TimelineBook, year: int, grouped: map<Period, seq<TimelineBook>>)
    requires GroupsMatch(prefix, year, grouped)
    requires b.dateFinished.year == year
    ensures var p := PeriodOf(b.dateFinished);
      GroupsMatch(prefix + [b], year, grouped[p := Members(prefix, p) + [b]])
  {
    var p := PeriodOf(b.dateFinished);
    forall q | q in grouped[p := Members(prefix, p) + [b]]
      ensures Members(prefix + [b], q) == if q == p then Members(prefix, p) + [b] else grouped[q]
    {
      SnocMembers(prefix, b, q);
    }
  }

  lemma CoversStep(prefix: seq<TimelineBook>, b: TimelineBook, year: int, grouped: map<Period, seq<TimelineBook>>, v: seq<TimelineBook>)
    requires Covers(prefix, year, grouped)
    ensures Covers(prefix + [b], year, grouped[PeriodOf(b.dateFinished) := v])
  {
    forall c | c in prefix + [b] && c.dateFinished.year == year
      ensures PeriodOf(c.dateFinished) in grouped[PeriodOf(b.dateFinished) := v]
    {
      if c != b {
        assert c in prefix;
      }
    }
  }

  lemma DistinctSnoc<T>(s: seq<T>, x: T)
    requires Distinct(s) && x !in s
    ensures Distinct(s + [x])
  {
    forall i, j | 0 <= i < j < |s| + 1
      ensures (s + [x])[i] != (s + [x])[j]
    {
      if j == |s| {
        assert (s + [x])[i] == s[i] && s[i] in s;
      }
    }
  }

  /** A new period adds the size of its array to the sum. */
  lemma SumSizesSnoc(order: seq<Period>, grouped: map<Period, seq<TimelineBook>>, p: Period, v: seq<TimelineBook>)
    requires forall q :: q in order ==> q in grouped
    requires p !in order
    ensures SumSizes(order + [p], grouped[p := v]) == SumSizes(order, grouped) + |v|
  {
    SumSizesFrame(order, grouped, p, v);
    assert (order + [p])[..|order|] == order;
  }

  /** The first book of a period creates the period's array. */
  lemma CreateStep(prefix: seq<TimelineBook>, b: TimelineBook, year: int, order: seq<Period>, grouped: map<Period, seq<TimelineBook>>)
    requires GroupedUpTo(prefix, year, order, grouped)
    requires b.dateFinished.year == year && PeriodOf(b.dateFinished) !in grouped
    ensures GroupedUpTo(prefix + [b], year, order + [PeriodOf(b.dateFinished)], grouped[PeriodOf(b.dateFinished) := [b]])
  {
    var p := PeriodOf(b.dateFinished);
    DistinctSnoc(order, p);
    forall k | 0 <= k < |prefix|
      ensures PeriodOf(prefix[k].dateFinished) != p
    {
      if prefix[k].dateFinished.year == year {
        assert prefix[k] in prefix;
      }
    }
    MembersEmpty(prefix, p);
    GroupsStep(prefix, b, year, grouped);
    CoversStep(prefix, b, year, grouped, [b]);
    SnocRetained(prefix, b, year);
    SumSizesSnoc(order, grouped, p, [b]);
  }

  /** A later book of a period is pushed onto the period's array. */
  lemma PushStep(prefix: seq<TimelineBook>, b: TimelineBook, year: int, order: seq<Period>, grouped: map<Period, seq<TimelineBook>>)
    requires GroupedUpTo(prefix, year, order, grouped)
    requires b.dateFinished.year == year && PeriodOf(b.dateFinished) in grouped
    ensures GroupedUpTo(prefix + [b], year, order,
      grouped[PeriodOf(b.dateFinished) := grouped[PeriodOf(b.dateFinished)] + [b]])
  {
    var p := PeriodOf(b.dateFinished);
    GroupsStep(prefix, b, year, grouped);
    CoversStep(prefix, b, year, grouped, grouped[p] + [b]);
    SnocRetained(prefix, b, year);
    SumSizesUpdate(order, grouped, p, grouped[p] + [b]);
  }

  /** A step of the `reduce` on the book at index `i` when it was finished in another year: nothing changes. */
  lemma ReduceSkip(books: seq<TimelineBook>, i: int, year: int, order: seq<Period>, grouped: map<Period, seq<TimelineBook>>)
    requires 0 <= i < |books| && GroupedUpTo(books[..i], year, order, grouped)
    requires books[i].dateFinished.year != year
    ensures GroupedUpTo(books[..i + 1], year, order, grouped)
  {
    assert books[..i + 1] == books[..i] + [books[i]];
    SkipStep(books[..i], books[i], year, order, grouped);
  }

  /** A step on the first book of its period: the period's array is created with it. */
  lemma ReduceCreate(books: seq<TimelineBook>, i: int, year: int, order: seq<Period>, grouped: map<Period, seq<TimelineBook>>,
                     p: Period)
    requires 0 <= i < |books| && GroupedUpTo(books[..i], year, order, grouped)
    requires books[i].dateFinished.year == year && p == PeriodOf(books[i].dateFinished) && p !in grouped
    ensures GroupedUpTo(books[..i + 1], year, order + [p], grouped[p := [books[i]]])
  {
    assert books[..i + 1] == books[..i] + [books[i]];
    CreateStep(books[..i], books[i], year, order, grouped);
  }

  /** A step on a later book of its period: it is pushed onto the period's array. */
  lemma ReducePush(books: seq<TimelineBook>, i: int, year: int, order: seq<Period>, grouped: map<Period, seq<TimelineBook>>,
                   p: Period)
    requires 0 <= i < |books| && GroupedUpTo(books[..i], year, order, grouped)
    requires books[i].dateFinished.year == year && p == PeriodOf(books[i].dateFinished) && p in grouped
    ensures GroupedUpTo(books[..i + 1], year, order, grouped[p := grouped[p] + [books[i]]])
  {
    assert books[..i + 1] == books[..i] + [books[i]];
    PushStep(books[..i], books[i], year, order, grouped);
  }

  /** Nothing is grouped before the first book. */
  lemma ReduceStart(books: seq<TimelineBook>, year: int)
    ensures GroupedUpTo(books[..0], year, [], map[])
  {
    assert books[..0] == [];
  }

  lemma ReduceDone(books: seq<TimelineBook>, year: int, order: seq<Period>, grouped: map<Period, seq<TimelineBook>>)
    requires GroupedUpTo(books[..|books|], year, order, grouped)
    ensures GroupedUpTo(books, year, order, grouped)
  {
    assert books[..|books|] == books;
  }

  /**
   * The `reduce` that groups the fixture: books of other years are skipped, and each
   * book is pushed onto the array of its period, created on the period's first book.
   * `order` lists the periods in the order their arrays were created.
   */
  method GroupByPeriod(books: seq<TimelineBook>, year: int) returns (order: seq<Period>, grouped: map<Period, seq<TimelineBook>>)
    ensures GroupedUpTo(books, year, order, grouped)
  {
    order, grouped := [], map[];
    ReduceStart(books, year);
    var i := 0;
    while i < |books|
      invariant 0 <= i <= |books|
      invariant GroupedUpTo(books[..i], year, order, grouped)
    {
      var b := books[i];
      if b.dateFinished.year == year {
        var p := PeriodOf(b.dateFinished);
        if p !in grouped {
          ReduceCreate(books, i, year, order, grouped, p);
          order, grouped := order + [p], grouped[p := [b]];
        } else {
          ReducePush(books, i, year, order, grouped, p);
          grouped := grouped[p := grouped[p] + [b]];
        }
      } else {
        ReduceSkip(books, i, year, order, grouped);
      }
      i := i + 1;
    }
    ReduceDone(books, year, order, grouped);
  }

  // ---------------------------------------------------------------- ordering

  /** `s` is ordered by `key`, largest first. */
  predicate NonIncreasing<T>(s: seq<T>, key: T -> int) {
    forall i, j :: 0 <= i < j < |s| ==> key(s[i]) >= key(s[j])
  }

  /** An element with a key at least every key of an ordered sequence can go in front of it. */
  lemma ConsNonIncreasing<T>(x: T, s: seq<T>, key: T -> int)
    requires NonIncreasing(s, key)
    requires forall k :: 0 <= k < |s| ==> key(s[k]) <= key(x)
    ensures NonIncreasing([x] + s, key)
  {
    forall i, j | 0 <= i < j < |s| + 1
      ensures key(([x] + s)[i]) >= key(([x] + s)[j])
    {
      assert ([x] + s)[j] == s[j - 1];
      if i > 0 {
        assert ([x] + s)[i] == s[i - 1];
      }
    }
  }

  /** Putting `x` in front of `s[0]`, when its key is not smaller, keeps the order and the elements. */
  lemma InsertFront<T>(x: T, s: seq<T>, key: T -> int)
    requires NonIncreasing(s, key)
    requires s == [] || key(x) >= key(s[0])
    ensures forall i :: 0 <= i < |s| + 1 ==> ([x] + s)[i] == x || ([x] + s)[i] in s
    ensures NonIncreasing([x] + s, key)
    ensures multiset([x] + s) == multiset(s) + multiset{x}
  {
    ConsNonIncreasing(x, s, key);
  }

  /** Keeping `s[0]` in front of `x` inserted into the rest, when `x`'s key is smaller, keeps the order and the elements. */
  lemma InsertBehind<T>(x: T, s: seq<T>, key: T -> int, rest: seq<T>)
    requires NonIncreasing(s, key) && s != [] && key(x) < key(s[0])
    requires forall i :: 0 <= i < |rest| ==> rest[i] == x || rest[i] in s[1..]
    requires NonIncreasing(rest, key)
    requires multiset(rest) == multiset(s[1..]) + multiset{x}
    ensures forall i :: 0 <= i < |rest| + 1 ==> ([s[0]] + rest)[i] == x || ([s[0]] + rest)[i] in s
    ensures NonIncreasing([s[0]] + rest, key)
    ensures multiset([s[0]] + rest) == multiset(s) + multiset{x}
  {
    assert s == [s[0]] + s[1..];
    forall k | 0 <= k < |rest|
      ensures key(rest[k]) <= key(s[0])
    {
      if rest[k] != x {
        var l :| 0 <= l < |s[1..]| && s[1..][l] == rest[k];
        assert s[l + 1] == rest[k];
      }
    }
    ConsNonIncreasing(s[0], rest, key);
    forall i | 0 <= i < |rest| + 1
      ensures ([s[0]] + rest)[i] == x || ([s[0]] + rest)[i] in s
    {
      if i > 0 {
        assert ([s[0]] + rest)[i] == rest[i - 1];
      }
    }
  }

  /** Puts `x` before the first element whose key is not larger, keeping equal keys in order. */
  function InsertDesc<T(==)>(x: T, s: seq<T>, key: T -> int): (r: seq<T>)
    requires NonIncreasing(s, key)
    ensures forall i :: 0 <= i < |r| ==> r[i] == x || r[i] in s
    ensures NonIncreasing(r, key)
    ensures multiset(r) == multiset(s) + multiset{x}
  {
    if s == [] || key(x) >= key(s[0]) then
      InsertFront(x, s, key);
      [x] + s
    else
      var rest := InsertDesc(x, s[1..], key);
      InsertBehind(x, s, key, rest);
      [s[0]] + rest
  }

  /** A stable sort by `key`, largest first: what `sort((a, b) => key(b) - key(a))` computes. */
  function SortDesc<T(==)>(s: seq<T>, key: T -> int): (r: seq<T>)
    ensures NonIncreasing(r, key)
    ensures multiset(r) == multiset(s)
  {
    if s == [] then []
    else
      assert s == [s[0]] + s[1..];
      InsertDesc(s[0], SortDesc(s[1..], key), key)
  }

  // ---------------------------------------------------------------- the timeline

  /** The group the `map` callback builds for a period: its books newest first, and their number. */
  function GroupOf(p: Period, books: seq<TimelineBook>): (g: TimelineGroup)
    ensures g.period == p && multiset(g.books) == multiset(books)
    ensures NonIncreasing(g.books, BookTime) && g.totalBooks == |g.books|
  {
    var sorted := SortDesc(books, BookTime);
    assert |sorted| == |multiset(sorted)| == |books|;
    TimelineGroup(p, sorted, |books|)
  }

  /** `Object.entries(grouped).map(...)`: one group per period, in the order of `order`. */
  function MakeGroups(order: seq<Period>, grouped: map<Period, seq<TimelineBook>>): (gs: seq<TimelineGroup>)
    requires forall p :: p in order ==> p in grouped
    ensures |gs| == |order|
    ensures forall i :: 0 <= i < |order| ==> gs[i] == GroupOf(order[i], grouped[order[i]])
  {
    if order == [] then []
    else
      var p := order[|order| - 1];
      var init := MakeGroups(order[..|order| - 1], grouped);
      var gs := init + [GroupOf(p, grouped[p])];
      assert forall i :: 0 <= i < |order| - 1 ==> gs[i] == init[i] && order[..|order| - 1][i] == order[i];
      gs
  }

  /** `timelineData.reduce((sum, group) => sum + group.totalBooks, 0)`. */
  function TotalBooks(gs: seq<TimelineGroup>): int {
    if gs == [] then 0 else TotalBooks(gs[..|gs| - 1]) + gs[|gs| - 1].totalBooks
  }

  lemma {:induction false} TotalBooksConcat(xs: seq<TimelineGroup>, ys: seq<TimelineGroup>)
    ensures TotalBooks(xs + ys) == TotalBooks(xs) + TotalBooks(ys)
  {
    if ys != [] {
      assert (xs + ys)[..|xs + ys| - 1] == xs + ys[..|ys| - 1];
      TotalBooksConcat(xs, ys[..|ys| - 1]);
    } else {
      assert xs + ys == xs;
    }
  }

  /** Reordering the groups leaves the total alone. */
  lemma {:induction false} TotalBooksInsert(x: TimelineGroup, s: seq<TimelineGroup>)
    requires NonIncreasing(s, GroupTime)
    ensures TotalBooks(InsertDesc(x, s, GroupTime)) == x.totalBooks + TotalBooks(s)
  {
    TotalBooksConcat([x], s);
    assert TotalBooks([x]) == x.totalBooks by {
      assert [x][..0] == [];
    }
    if s != [] && GroupTime(x) < GroupTime(s[0]) {
      TotalBooksInsert(x, s[1..]);
      TotalBooksConcat([s[0]], InsertDesc(x, s[1..], GroupTime));
      TotalBooksConcat([s[0]], s[1..]);
      assert [s[0]] + s[1..] == s;
      assert TotalBooks([s[0]]) == s[0].totalBooks by {
        assert [s[0]][..0] == [];
      }
    }
  }

  lemma {:induction false} TotalBooksSorted(gs: seq<TimelineGroup>)
    ensures TotalBooks(SortDesc(gs, GroupTime)) == TotalBooks(gs)
  {
    if gs != [] {
      TotalBooksSorted(gs[1..]);
      TotalBooksInsert(gs[0], SortDesc(gs[1..], GroupTime));
      TotalBooksConcat([gs[0]], gs[1..]);
      assert [gs[0]] + gs[1..] == gs;
      assert TotalBooks([gs[0]]) == gs[0].totalBooks by {
        assert [gs[0]][..0] == [];
      }
    }
  }

  /** The groups' totals add up to the number of grouped books. */
  lemma {:induction false} TotalBooksOfGroups(order: seq<Period>, grouped: map<Period, seq<TimelineBook>>)
    requires forall p :: p in order ==> p in grouped
    ensures TotalBooks(MakeGroups(order, grouped)) == SumSizes(order, grouped)
  {
    if order != [] {
      var gs := MakeGroups(order, grouped);
      assert gs[..|gs| - 1] == MakeGroups(order[..|order| - 1], grouped);
      TotalBooksOfGroups(order[..|order| - 1], grouped);
    }
  }

  /**
   * The timeline for `year`: every group holds exactly the year's books of its
   * period (none of another year, none twice, none missing), there is one group per
   * period, books and groups are newest first, each group's total is its size,
   * and the totals add up to the number of books finished in `year`.
   */
  method BuildTimeline(books: seq<TimelineBook>, year: int) returns (timeline: seq<TimelineGroup>)
    ensures forall g :: g in timeline ==>
      g.period.year == year && g.books != [] && multiset(g.books) == multiset(Members(books, g.period))
    ensures forall b :: b in books && b.dateFinished.year == year ==>
      exists g :: g in timeline && g.period == PeriodOf(b.dateFinished) && b in g.books
    ensures DistinctPeriods(timeline)
    ensures forall g :: g in timeline ==> g.totalBooks == |g.books| && NonIncreasing(g.books, BookTime)
    ensures NonIncreasing(timeline, GroupTime)
    ensures TotalBooks(timeline) == |Retained(books, year)|
  {
    var order, grouped := GroupByPeriod(books, year);
    var groups := MakeGroups(order, grouped);
    timeline := SortDesc(groups, GroupTime);
    SortedSameElements(groups, GroupTime);
    GroupsSound(books, year, order, grouped);
    GroupsComplete(books, year, order, grouped);
    GroupsDistinct(books, year, order, grouped);
    SortKeepsDistinct(groups);
    TotalBooksOfGroups(order, grouped);
    TotalBooksSorted(groups);
  }

  /** Sorting neither adds nor drops elements. */
  lemma SortedSameElements<T>(s: seq<T>, key: T -> int)
    ensures forall x :: x in SortDesc(s, key) <==> x in s
  {
    var r := SortDesc(s, key);
    forall x
      ensures x in r <==> x in s
    {
      assert x in r <==> x in multiset(r);
      assert x in s <==> x in multiset(s);
    }
  }

  /** Each group built from the accumulator holds its period's books of `year`, newest first, and counts them. */
  lemma GroupsSound(books: seq<TimelineBook>, year: int, order: seq<Period>, grouped: map<Period, seq<TimelineBook>>)
    requires GroupedUpTo(books, year, order, grouped)
    ensures forall g :: g in MakeGroups(order, grouped) ==>
      && g.period.year == year && g.books != []
      && multiset(g.books) == multiset(Members(books, g.period))
      && g.totalBooks == |g.books| && NonIncreasing(g.books, BookTime)
  {
    var groups := MakeGroups(order, grouped);
    forall k | 0 <= k < |groups|
      ensures groups[k].period.year == year && groups[k].books != []
      ensures multiset(groups[k].books) == multiset(Members(books, groups[k].period))
    {
      var p := order[k];
      assert p in order;
      assert grouped[p] == Members(books, p) && grouped[p] != [];
      assert |multiset(groups[k].books)| == |grouped[p]|;
    }
  }

  /** Every book of `year` lands in the group of its period. */
  lemma GroupsComplete(books: seq<TimelineBook>, year: int, order: seq<Period>, grouped: map<Period, seq<TimelineBook>>)
    requires GroupedUpTo(books, year, order, grouped)
    ensures forall b :: b in books && b.dateFinished.year == year ==>
      exists g :: g in MakeGroups(order, grouped) && g.period == PeriodOf(b.dateFinished) && b in g.books
  {
    var groups := MakeGroups(order, grouped);
    forall b | b in books && b.dateFinished.year == year
      ensures exists g :: g in groups && g.period == PeriodOf(b.dateFinished) && b in g.books
    {
      var p := PeriodOf(b.dateFinished);
      var k :| 0 <= k < |order| && order[k] == p;
      var g := groups[k];
      MembersSpec(books, p);
      assert b in grouped[p];
      assert b in multiset(g.books);
      assert g in groups;
    }
  }

  lemma GroupsDistinct(books: seq<TimelineBook>, year: int, order: seq<Period>, grouped: map<Period, seq<TimelineBook>>)
    requires GroupedUpTo(books, year, order, grouped)
    ensures DistinctPeriods(MakeGroups(order, grouped))
  {
    var groups := MakeGroups(order, grouped);
    forall i, j | 0 <= i < j < |groups|
      ensures groups[i].period != groups[j].period
    {
      assert order[i] != order[j];
    }
  }

  /** No two groups share a period. */
  predicate DistinctPeriods(gs: seq<TimelineGroup>) {
    forall i, j :: 0 <= i < j < |gs| ==> gs[i].period != gs[j].period
  }

  lemma ConsDistinct(x: TimelineGroup, s: seq<TimelineGroup>)
    requires DistinctPeriods(s)
    requires forall k :: 0 <= k < |s| ==> s[k].period != x.period
    ensures DistinctPeriods([x] + s)
  {
    forall i, j | 0 <= i < j < |s| + 1
      ensures ([x] + s)[i].period != ([x] + s)[j].period
    {
      assert ([x] + s)[j] == s[j - 1];
      if i > 0 {
        assert ([x] + s)[i] == s[i - 1];
      }
    }
  }

  lemma {:induction false} InsertKeepsDistinct(x: TimelineGroup, s: seq<TimelineGroup>)
    requires NonIncreasing(s, GroupTime) && DistinctPeriods(s)
    requires forall k :: 0 <= k < |s| ==> s[k].period != x.period
    ensures DistinctPeriods(InsertDesc(x, s, GroupTime))
  {
    if s == [] || GroupTime(x) >= GroupTime(s[0]) {
      ConsDistinct(x, s);
    } else {
      var rest := InsertDesc(x, s[1..], GroupTime);
      InsertKeepsDistinct(x, s[1..]);
      forall k | 0 <= k < |rest|
        ensures rest[k].period != s[0].period
      {
        if rest[k] != x {
          var l :| 0 <= l < |s[1..]| && s[1..][l] == rest[k];
          assert s[l + 1] == rest[k];
        }
      }
      ConsDistinct(s[0], rest);
    }
  }

  /** Sorting groups with distinct periods keeps their periods distinct. */
  lemma {:induction false} SortKeepsDistinct(gs: seq<TimelineGroup>)
    requires DistinctPeriods(gs)
    ensures DistinctPeriods(SortDesc(gs, GroupTime))
  {
    if gs != [] {
      var rest := SortDesc(gs[1..], GroupTime);
      SortKeepsDistinct(gs[1..]);
      forall k | 0 <= k < |rest|
        ensures rest[k].period != gs[0].period
      {
        assert rest[k] in multiset(rest);
        var l :| 0 <= l < |gs[1..]| && gs[1..][l] == rest[k];
        assert gs[l + 1] == rest[k];
      }
      InsertKeepsDistinct(gs[0], rest);
    }
  }

  // ---------------------------------------------------------------- the demo data

  const PLACEHOLDER_COVER := "/placeholder.svg?height=200&width=150"

  /** `mockFinishedBooks`, with each UTC-midnight finish date read as that calendar day. */
  const FINISHED_BOOKS: seq<TimelineBook> := [
    TimelineBook("1", "The Seven Husbands of Evelyn Hugo", "Taylor Jenkins Reid", PLACEHOLDER_COVER, Some(5),
      Some("Absolutely captivating story!"), Day(2024, 1, 15),
      Some("This book completely blew me away. The storytelling is masterful.")),
    TimelineBook("2", "Atomic Habits", "James Clear", PLACEHOLDER_COVER, Some(4),
      Some("Great practical advice for building better habits."), Day(2024, 1, 8), None),
    TimelineBook("3", "The Silent Patient", "Alex Michaelides", PLACEHOLDER_COVER, Some(4),
      Some("Psychological thriller that keeps you guessing."), Day(2023, 12, 22), None),
    TimelineBook("4", "Where the Crawdads Sing", "Delia Owens", PLACEHOLDER_COVER, Some(5),
      Some("Beautiful nature writing and compelling mystery."), Day(2023, 12, 10), None),
    TimelineBook("5", "The Midnight Library", "Matt Haig", PLACEHOLDER_COVER, Some(4),
      Some("Thought-provoking concept about life choices."), Day(2023, 11, 28), None),
    TimelineBook("6", "Educated", "Tara Westover", PLACEHOLDER_COVER, Some(5),
      Some("Powerful memoir about education and family."), Day(2023, 11, 15), None)
  ]

  /** The demo timeline totals two books for 2024, four for 2023 and none for any other year. */
  lemma DemoYearTotals(year: int)
    ensures |Retained(FINISHED_BOOKS, year)| == if year == 2024 then 2 else if year == 2023 then 4 else 0
  {
    var s := FINISHED_BOOKS;
    assert s[..1][..0] == [] && s[..2][..1] == s[..1] && s[..3][..2] == s[..2];
    assert s[..4][..3] == s[..3] && s[..5][..4] == s[..4] && s[..6] == s && s[..5] == s[..6][..5];
    assert s[0].dateFinished.year == 2024 && s[1].dateFinished.year == 2024;
    assert |Retained(s[..2], year)| == if year == 2024 then 2 else 0;
    assert s[2].dateFinished.year == 2023 && s[3].dateFinished.year == 2023;
    assert |Retained(s[..4], year)| == if year == 2024 then 2 else if year == 2023 then 2 else 0;
    assert s[4].dateFinished.year == 2023 && s[5].dateFinished.year == 2023;
  }

  /** The page's timeline for `selectedYear` over the demo books, and its year total. */
  method DemoTimeline(selectedYear: int) returns (timeline: seq<TimelineGroup>, totalBooks: int)
    ensures NonIncreasing(timeline, GroupTime) && DistinctPeriods(timeline)
    ensures forall g :: g in timeline ==> g.period.year == selectedYear && g.totalBooks == |g.books|
    ensures totalBooks == TotalBooks(timeline)
    ensures totalBooks == if selectedYear == 2024 then 2 else if selectedYear == 2023 then 4 else 0
  {
    timeline := BuildTimeline(FINISHED_BOOKS, selectedYear);
    totalBooks := TotalBooks(timeline);
    DemoYearTotals(selectedYear);
  }

  // ---------------------------------------------------------------- expansion

  /** `togglePeriodExpansion(p)`: a copy of the set with `p`'s membership flipped. */
  function TogglePeriod(expanded: set<Period>, p: Period): (r: set<Period>)
    ensures p in r <==> p !in expanded
    ensures forall q :: q != p ==> (q in r <==> q in expanded)
  {
    if p in expanded then expanded - {p} else expanded + {p}
  }

  lemma ToggleTwice(expanded: set<Period>, p: Period)
    ensures TogglePeriod(TogglePeriod(expanded, p), p) == expanded
  {
  }
}
