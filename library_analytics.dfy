/**
 * The library analytics page over four tables: the book catalogue
 * (dimension table), the loans (fact table), the members and the daily
 * footfall. Dates arrive already parsed into (year, month).
 */
module LibraryAnalytics {
  import opened Frame

  type Month = m: int | 1 <= m <= 12 witness 1

  /** One row of the book catalogue. */
  datatype Book = Book(
    id: int,
    title: string,
    author: string,
    publisher: string,
    genre: string,
    language: string,
    year: int,
    price: int)

  /** One loan: the book lent, its return status and the month it was due. */
  datatype Loan = Loan(bookId: int, status: string, dueYear: int, dueMonth: Month)

  datatype Member = Member(id: string)

  /** One day of the footfall table. */
  datatype FootfallDay = FootfallDay(year: int, month: Month, footfall: int, conversion: int)

  /** The columns of the popular-books table: Book Id, Title, Author, Publisher, Genre. */
  datatype Listing = Listing(id: int, title: string, author: string, publisher: string, genre: string)

  /** One row of the monthly footfall table. */
  datatype MonthTotal = MonthTotal(year: int, month: Month, footfall: int, conversion: int)

  const PriceEdges: seq<int> := [400, 800, 1200, 1600, 2000, 2400, 2800, 3200, 3600]
  const PriceLabels: seq<string> :=
    ["400-800", "800-1200", "1200-1600", "1600-2000", "2000-2400", "2400-2800", "2800-3200", "3200-3600"]
  const ReturnsYear: int := 2019
  const TopCount: nat := 10
  const StaffPrefix: string := "Staff"
  const StudentPrefix: string := "Student"

  function BookId(b: Book): int { b.id }
  function Author(b: Book): string { b.author }
  function Publisher(b: Book): string { b.publisher }
  function Price(b: Book): int { b.price }
  function BookDecade(b: Book): int { Decade(b.year) }
  function ListingOf(b: Book): Listing { Listing(b.id, b.title, b.author, b.publisher, b.genre) }
  function LoanBookId(l: Loan): int { l.bookId }
  function StatusMonth(l: Loan): (string, Month) { (l.status, l.dueMonth) }
  /** Months counted from January of year 0: the key `to_period('M')` orders by. */
  function MonthIndex(year: int, month: Month): int { year * 12 + (month - 1) }
  function MonthKey(d: FootfallDay): int { MonthIndex(d.year, d.month) }
  function FootfallCount(d: FootfallDay): int { d.footfall }
  function ConversionCount(d: FootfallDay): int { d.conversion }
  function TotalFootfall(t: MonthTotal): int { t.footfall }
  function TotalConversion(t: MonthTotal): int { t.conversion }

  // ---------------------------------------------------------------------
  // Book metrics
  // ---------------------------------------------------------------------

  /** Unique books: the number of distinct book ids, at most the number of catalogue rows. */
  function UniqueBooks(books: seq<Book>): (n: nat)
    ensures n == |set b | b in books :: b.id|
    ensures n <= |books|
  {
    MapMembers(books, BookId);
    assert (set x | x in Map(books, BookId)) == set b | b in books :: b.id;
    NUnique(Map(books, BookId))
  }

  /** Unique authors: the number of distinct authors, at most the number of catalogue rows. */
  function UniqueAuthors(books: seq<Book>): (n: nat)
    ensures n == |set b | b in books :: b.author|
    ensures n <= |books|
  {
    MapMembers(books, Author);
    assert (set x | x in Map(books, Author)) == set b | b in books :: b.author;
    NUnique(Map(books, Author))
  }

  /** Unique publishers: the number of distinct publishers, at most the number of catalogue rows. */
  function UniquePublishers(books: seq<Book>): (n: nat)
    ensures n == |set b | b in books :: b.publisher|
    ensures n <= |books|
  {
    MapMembers(books, Publisher);
    assert (set x | x in Map(books, Publisher)) == set b | b in books :: b.publisher;
    NUnique(Map(books, Publisher))
  }

  // ---------------------------------------------------------------------
  // Books by decade of publishing
  // ---------------------------------------------------------------------

  /** `(year // 10) * 10`: the multiple of ten at or below the year, less than ten below it. */
  function Decade(year: int): (d: int)
    ensures d % 10 == 0
    ensures d <= year < d + 10
  {
    (year / 10) * 10
  }

  predicate IsDecade(d: int) { d % 10 == 0 }

  /**
   * Books per decade: one count per decade that occurs, decades in ascending
   * order, every book counted once.
   */
  function DecadeCounts(books: seq<Book>): (t: seq<(int, nat)>)
    ensures IsFilteredCounts(t, books, AllRows, BookDecade)
    ensures Sum(Counts(t)) == |books|
    ensures StrictlyIncreasing(Labels(t))
    ensures forall i :: 0 <= i < |t| ==> t[i].0 % 10 == 0
  {
    var t := SortedGroupCounts(Map(books, BookDecade));
    ColumnCountTable(t, books, BookDecade);
    FilteredKeep(t, books, AllRows, BookDecade, IsDecade);
    t
  }

  // ---------------------------------------------------------------------
  // Books by price range
  // ---------------------------------------------------------------------

  /** The price edges are strictly increasing, 400 apart. */
  lemma PriceEdgesShape()
    ensures |PriceEdges| == 9 && StrictlyIncreasing(PriceEdges)
    ensures forall i :: 0 <= i < 9 ==> PriceEdges[i] == 400 * (i + 1)
  {
    forall i | 0 <= i < 9 ensures PriceEdges[i] == 400 * (i + 1) {
    }
  }

  /**
   * A price lies in exactly one right-closed bin when it is in (400, 3600],
   * namely bin (price - 1) / 400 - 1, and in none otherwise.
   */
  lemma PriceBin(v: int)
    ensures forall b :: InBin(PriceEdges, b, v) <==> 400 < v <= 3600 && b == (v - 1) / 400 - 1
    ensures Bin(PriceEdges, v).Some? <==> 400 < v <= 3600
    ensures Bin(PriceEdges, v).Some? ==> Bin(PriceEdges, v).value == (v - 1) / 400 - 1
  {
    PriceEdgesShape();
    forall b ensures InBin(PriceEdges, b, v) <==> 400 < v <= 3600 && b == (v - 1) / 400 - 1 {
      var q := (v - 1) / 400;
      assert 400 * q <= v - 1 < 400 * q + 400;
    }
    BinRange(PriceEdges, v);
  }

  /** The Price Range column: for each book the bin code, or None outside (400, 3600]. */
  function PriceRange(books: seq<Book>): (codes: seq<Option<nat>>)
    ensures |codes| == |books|
    ensures forall i :: 0 <= i < |books| ==> (codes[i].Some? <==> 400 < books[i].price <= 3600)
    ensures forall i :: 0 <= i < |books| && codes[i].Some? ==> codes[i].value == (books[i].price - 1) / 400 - 1
  {
    var codes := Cut(PriceEdges, Map(books, Price));
    forall i | 0 <= i < |books|
      ensures codes[i] == Bin(PriceEdges, books[i].price)
      ensures codes[i].Some? <==> 400 < books[i].price <= 3600
      ensures codes[i].Some? ==> codes[i].value == (books[i].price - 1) / 400 - 1
    {
      PriceBin(books[i].price);
    }
    codes
  }

  /**
   * Books per price range, in bin order with empty bins included: bin b
   * counts the books priced in (edges[b], edges[b+1]], and the bins together
   * count the books priced in (400, 3600].
   */
  function PriceCounts(books: seq<Book>): (t: seq<(string, nat)>)
    ensures |t| == 8 && Labels(t) == PriceLabels
    ensures forall b :: 0 <= b < 8 ==>
              t[b].1 == |set i | 0 <= i < |books| && PriceEdges[b] < books[i].price <= PriceEdges[b + 1]|
    ensures Sum(Counts(t)) == |set i | 0 <= i < |books| && 400 < books[i].price <= 3600|
  {
    var values := Map(books, Price);
    PriceEdgesShape();
    CutCounts(PriceEdges, values);
    var c := BinCounts(Cut(PriceEdges, values), 8);
    forall b | 0 <= b < 8
      ensures c[b] == |set i | 0 <= i < |books| && PriceEdges[b] < books[i].price <= PriceEdges[b + 1]|
    {
      assert (set i | 0 <= i < |values| && PriceEdges[b] < values[i] <= PriceEdges[b + 1])
          == set i | 0 <= i < |books| && PriceEdges[b] < books[i].price <= PriceEdges[b + 1];
    }
    assert (set i | 0 <= i < |values| && PriceEdges[0] < values[i] <= PriceEdges[8])
        == set i | 0 <= i < |books| && 400 < books[i].price <= 3600;
    var t := Zip(PriceLabels, c);
    assert Labels(t) == PriceLabels;
    assert Counts(t) == c;
    t
  }

  /**
   * The catalogue object of the page: the year and price tabs write the
   * Decade and Price Range columns in place and count those columns.
   */
  class Catalogue {
    var books: seq<Book>
    var decade: seq<int>
    var priceRange: seq<Option<nat>>

    constructor (books: seq<Book>)
      ensures this.books == books && decade == [] && priceRange == []
    {
      this.books := books;
      decade := [];
      priceRange := [];
    }

    method YearTab() returns (counts: seq<(int, nat)>)
      modifies this
      ensures books == old(books) && priceRange == old(priceRange)
      ensures decade == Map(books, BookDecade)
      ensures counts == DecadeCounts(books)
    {
      decade := Map(books, BookDecade);
      counts := SortedGroupCounts(decade);
    }

    method PriceTab() returns (counts: seq<(string, nat)>)
      modifies this
      ensures books == old(books) && decade == old(decade)
      ensures priceRange == PriceRange(books)
      ensures counts == PriceCounts(books)
    {
      priceRange := Cut(PriceEdges, Map(books, Price));
      counts := Zip(PriceLabels, BinCounts(priceRange, |PriceLabels|));
    }
  }

  // ---------------------------------------------------------------------
  // Return status by month
  // ---------------------------------------------------------------------

  predicate DueInReturnsYear(l: Loan) { l.dueYear == ReturnsYear }

  /**
   * Loans due in 2019 counted per (return status, month): only 2019 loans
   * contribute, each count is the number of such loans with that status and
   * month, and the counts add up to the number of 2019 loans.
   */
  function ReturnsByMonth(loans: seq<Loan>): (t: seq<((string, Month), nat)>)
    ensures IsFilteredCounts(t, loans, DueInReturnsYear, StatusMonth)
    ensures forall i :: 0 <= i < |t| ==>
              exists l :: l in loans && DueInReturnsYear(l) && StatusMonth(l) == t[i].0
  {
    var t := GroupCounts(Map(Filter(loans, DueInReturnsYear), StatusMonth));
    FilteredCountTable(t, loans, DueInReturnsYear, StatusMonth);
    FilteredLabels(t, loans, DueInReturnsYear, StatusMonth);
    t
  }

  // ---------------------------------------------------------------------
  // Top ten books, authors and publishers
  // ---------------------------------------------------------------------

  /** The book ids that have both a catalogue row and a loan. */
  function LentBookIds(books: seq<Book>, loans: seq<Loan>): set<int>
  {
    set x | x in Map(books, BookId) && x in Map(loans, LoanBookId)
  }

  /**
   * The Book Id column of the inner merge of the catalogue with the loans: a
   * book id is there exactly when the catalogue and the loans both hold it,
   * once per matching (catalogue row, loan) pair.
   */
  function MergedIds(books: seq<Book>, loans: seq<Loan>): (merged: seq<int>)
    ensures forall x :: x in merged <==>
              (exists b :: b in books && b.id == x) && (exists l :: l in loans && l.bookId == x)
    ensures forall x :: Occurrences(merged, x)
                        == Occurrences(Map(books, BookId), x) * Occurrences(Map(loans, LoanBookId), x)
  {
    var ids, lent := Map(books, BookId), Map(loans, LoanBookId);
    MapMembers(books, BookId);
    MapMembers(loans, LoanBookId);
    forall x
      ensures x in JoinKeys(ids, lent) <==> x in ids && x in lent
      ensures Occurrences(JoinKeys(ids, lent), x) == Occurrences(ids, x) * Occurrences(lent, x)
    {
      JoinKeysMembers(ids, lent, x);
      JoinKeysCount(ids, lent, x);
    }
    JoinKeys(ids, lent)
  }

  /**
   * Loans per book of the merged table with the ten largest counts kept:
   * ten books, or every lent book when fewer exist, each with its number of
   * merged rows, largest first, none left out with a larger count.
   */
  function TopLoanCounts(books: seq<Book>, loans: seq<Loan>): (top: seq<(int, nat)>)
    ensures var lentBooks := |LentBookIds(books, loans)|;
            |top| == if lentBooks < TopCount then lentBooks else TopCount
    ensures IsTopOf(top, MergedIds(books, loans))
  {
    var merged := MergedIds(books, loans);
    TopOfCountTable(SortedGroupCounts(merged), merged, TopCount);
    MergedIdSet(books, loans);
    NLargest(SortedGroupCounts(merged), TopCount)
  }

  lemma MergedIdSet(books: seq<Book>, loans: seq<Loan>)
    ensures (set x | x in MergedIds(books, loans)) == LentBookIds(books, loans)
  {
    var ids, lent := Map(books, BookId), Map(loans, LoanBookId);
    forall x ensures x in MergedIds(books, loans) <==> x in ids && x in lent {
      JoinKeysMembers(ids, lent, x);
    }
  }

  /**
   * The popular-book leaderboard: ten distinct book ids, or every book with
   * a catalogue row and a loan when there are fewer, largest counts first;
   * each count is the number of matching (catalogue row, loan) pairs of the
   * inner merge; a listed book has a catalogue row and a loan; and no book
   * with a catalogue row and a loan that was left out has a larger count.
   */
  lemma PopularBooksRanking(books: seq<Book>, loans: seq<Loan>)
    ensures var top, ids, lent := TopLoanCounts(books, loans), Map(books, BookId), Map(loans, LoanBookId);
            var lentBooks := |set x | x in ids && x in lent|;
            && |top| == (if lentBooks < TopCount then lentBooks else TopCount)
            && NoDup(Labels(top))
            && NonIncreasing(Counts(top))
            && (forall i :: 0 <= i < |top| ==>
                  top[i].1 == Occurrences(ids, top[i].0) * Occurrences(lent, top[i].0))
            && (forall i :: 0 <= i < |top| ==>
                  (exists b :: b in books && b.id == top[i].0) && (exists l :: l in loans && l.bookId == top[i].0))
            && (forall x, i ::
                  ((exists b :: b in books && b.id == x) && (exists l :: l in loans && l.bookId == x)
                   && x !in Labels(top) && 0 <= i < |top|) ==>
                  Occurrences(ids, x) * Occurrences(lent, x) <= top[i].1)
  {
    var merged := MergedIds(books, loans);
    var top := TopLoanCounts(books, loans);
    assert IsTopOf(top, merged);
    forall i | 0 <= i < |top|
      ensures top[i].0 in merged && top[i].1 == Occurrences(merged, top[i].0)
    {
    }
  }

  /** The catalogue rows with the given book id, in catalogue order. */
  function BooksWithId(books: seq<Book>, id: int): (r: seq<Book>)
    ensures forall b :: b in r <==> b in books && b.id == id
  {
    if books == [] then []
    else
      var init, last := books[..|books| - 1], books[|books| - 1];
      assert books == init + [last];
      BooksWithId(init, id) + (if last.id == id then [last] else [])
  }

  /** A listing with the given id comes out of BooksWithId as often as its catalogue row is there. */
  lemma {:induction false} BooksWithIdCount(books: seq<Book>, id: int, x: Listing)
    ensures Occurrences(Map(BooksWithId(books, id), ListingOf), x)
            == if x.id == id then Occurrences(Map(books, ListingOf), x) else 0
  {
    if books != [] {
      var init, last := books[..|books| - 1], books[|books| - 1];
      var kept := BooksWithId(init, id);
      BooksWithIdCount(init, id, x);
      assert books == init + [last];
      MapSnoc(init, last, ListingOf);
      SnocOccurrences(Map(init, ListingOf), ListingOf(last), x);
      if last.id == id {
        assert BooksWithId(books, id) == kept + [last];
        MapSnoc(kept, last, ListingOf);
        SnocOccurrences(Map(kept, ListingOf), ListingOf(last), x);
      } else {
        assert BooksWithId(books, id) == kept;
      }
    }
  }

  /**
   * `pd.merge(top, books, on='Book Id')` projected to the listing columns:
   * for each leaderboard row in order, the catalogue rows with its id.
   */
  function Listings(top: seq<(int, nat)>, books: seq<Book>): (r: seq<Listing>)
    ensures forall x :: x in r <==> exists b :: b in books && b.id in Labels(top) && ListingOf(b) == x
    ensures forall x :: x in r ==> x.id in Labels(top)
  {
    if top == [] then []
    else
      var init, last := top[..|top| - 1], top[|top| - 1];
      var rows := BooksWithId(books, last.0);
      MapMembers(rows, ListingOf);
      LabelsSnoc(top);
      Listings(init, books) + Map(rows, ListingOf)
  }

  /** The listings of a non-empty leaderboard: those of all rows but the last, then the last row's block. */
  lemma ListingsSnoc(top: seq<(int, nat)>, books: seq<Book>)
    requires top != []
    ensures Listings(top, books)
            == Listings(top[..|top| - 1], books) + Map(BooksWithId(books, top[|top| - 1].0), ListingOf)
  {
  }

  /**
   * Each listing occurs once per leaderboard row with its id and per
   * catalogue row it projects: the inner merge drops nothing and invents
   * nothing.
   */
  lemma {:induction false} ListingsCount(top: seq<(int, nat)>, books: seq<Book>, x: Listing)
    ensures Occurrences(Listings(top, books), x)
            == Occurrences(Labels(top), x.id) * Occurrences(Map(books, ListingOf), x)
  {
    if top != [] {
      var init, last := top[..|top| - 1], top[|top| - 1];
      var block := Map(BooksWithId(books, last.0), ListingOf);
      var a, m := Occurrences(Labels(init), x.id), Occurrences(Map(books, ListingOf), x);
      ListingsCount(init, books, x);
      BooksWithIdCount(books, last.0, x);
      ListingsSnoc(top, books);
      ConcatOccurrences(Listings(init, books), block, x);
      assert Occurrences(Listings(top, books), x) == a * m + (if last.0 == x.id then m else 0);
      LabelsSnoc(top);
      SnocOccurrences(Labels(init), last.0, x.id);
      assert Occurrences(Labels(top), x.id) == a + (if last.0 == x.id then 1 else 0);
      SnocProduct(a, m, last.0 == x.id);
    }
  }

  /** With distinct leaderboard ids, each catalogue row of a listed book is listed exactly once. */
  lemma ListingsOnce(top: seq<(int, nat)>, books: seq<Book>)
    requires NoDup(Labels(top))
    ensures forall x :: Occurrences(Listings(top, books), x) ==
              if x.id in Labels(top) then Occurrences(Map(books, ListingOf), x) else 0
  {
    var ids := Labels(top);
    forall x
      ensures Occurrences(Listings(top, books), x) ==
              if x.id in ids then Occurrences(Map(books, ListingOf), x) else 0
    {
      ListingsCount(top, books, x);
      NoDupCounts(ids, x.id);
      OccursIn(ids, x.id);
      var c := Occurrences(ids, x.id);
      assert c == if x.id in ids then 1 else 0;
    }
  }

  /** Listings come in the order of their ids on the leaderboard ids. */
  predicate InLeaderboardOrder(r: seq<Listing>, ids: seq<int>)
  {
    forall p, q :: 0 <= p < q < |r| ==> Rank(ids, r[p].id) <= Rank(ids, r[q].id)
  }

  /**
   * With distinct leaderboard ids the listings come in leaderboard order:
   * a listing's rank on the leaderboard never exceeds that of any later one.
   */
  lemma {:induction false} ListingsOrder(top: seq<(int, nat)>, books: seq<Book>)
    requires NoDup(Labels(top))
    ensures InLeaderboardOrder(Listings(top, books), Labels(top))
  {
    if top != [] {
      var init, last := top[..|top| - 1], top[|top| - 1];
      var ids, initIds := Labels(top), Labels(init);
      LabelsSnoc(top);
      NoDupSnoc(ids);
      ListingsOrder(init, books);
      ListingsSnoc(top, books);
      RankLast(initIds, last.0);
      BlockRanks(initIds, last.0, Listings(init, books), Map(BooksWithId(books, last.0), ListingOf));
    }
  }

  /** The last row's block, appended after listings already in order, keeps the order. */
  lemma BlockRanks(initIds: seq<int>, y: int, front: seq<Listing>, block: seq<Listing>)
    requires InLeaderboardOrder(front, initIds)
    requires y !in initIds
    requires forall x :: x in front ==> x.id in initIds
    requires forall x :: x in block ==> x.id == y
    ensures InLeaderboardOrder(front + block, initIds + [y])
  {
    var ids, r := initIds + [y], front + block;
    RankLast(initIds, y);
    forall p | 0 <= p < |front| ensures Rank(ids, front[p].id) == Rank(initIds, front[p].id) < |initIds| {
      assert front[p] in front;
      RankSnoc(initIds, y, front[p].id);
    }
    forall p | 0 <= p < |block| ensures Rank(ids, block[p].id) == |initIds| {
      assert block[p] in block;
    }
    forall p, q | 0 <= p < q < |r| ensures Rank(ids, r[p].id) <= Rank(ids, r[q].id) {
      if q < |front| {
        assert r[p] == front[p] && r[q] == front[q];
      } else if p < |front| {
        assert r[p] == front[p] && r[q] == block[q - |front|];
      } else {
        assert r[p] == block[p - |front|] && r[q] == block[q - |front|];
      }
    }
  }

  /**
   * The popular-books table the page shows: the catalogue rows of the
   * leaderboard books, each exactly as often as it is in the catalogue,
   * in leaderboard order.
   */
  function PopularBooks(books: seq<Book>, loans: seq<Loan>): (r: seq<Listing>)
    ensures forall x :: x in r <==>
              exists b :: b in books && b.id in Labels(TopLoanCounts(books, loans)) && ListingOf(b) == x
    ensures forall x :: Occurrences(r, x) ==
              if x.id in Labels(TopLoanCounts(books, loans)) then Occurrences(Map(books, ListingOf), x) else 0
    ensures InLeaderboardOrder(r, Labels(TopLoanCounts(books, loans)))
  {
    var top := TopLoanCounts(books, loans);
    var ids := Labels(top);
    assert NoDup(ids);
    ListingsOrder(top, books);
    ListingsOnce(top, books);
    Listings(top, books)
  }

  /**
   * The ten authors with the most books (`nlargest(10)` of the per-author
   * counts): as many as there are authors up to ten, most books first, and
   * no author left out has more books than an author listed.
   */
  function TopAuthors(books: seq<Book>): (top: seq<(string, nat)>)
    ensures |top| == if UniqueAuthors(books) < TopCount then UniqueAuthors(books) else TopCount
    ensures IsTopOf(top, Map(books, Author))
  {
    var authors := Map(books, Author);
    TopOfCountTable(GroupCounts(authors), authors, TopCount);
    NLargest(GroupCounts(authors), TopCount)
  }

  /**
   * Books per publisher, largest counts first: each count is that
   * publisher's number of catalogue rows and every book is counted once.
   */
  function PublisherRanking(books: seq<Book>): (t: seq<(string, nat)>)
    ensures IsFilteredCounts(t, books, AllRows, Publisher)
    ensures Sum(Counts(t)) == |books|
    ensures NonIncreasing(Counts(t))
  {
    var t := ValueCounts(Map(books, Publisher));
    ColumnCountTable(t, books, Publisher);
    t
  }

  /**
   * The first ten rows of the publisher ranking, as the tab displays them:
   * as many publishers as there are up to ten, most books first, and no
   * publisher left out has more books than a publisher listed.
   */
  function TopPublishers(books: seq<Book>): (top: seq<(string, nat)>)
    ensures |top| == if UniquePublishers(books) < TopCount then UniquePublishers(books) else TopCount
    ensures IsTopOf(top, Map(books, Publisher))
  {
    var publishers := Map(books, Publisher);
    var t := ValueCounts(publishers);
    HeadOfCountTable(t, publishers, TopCount);
    Head(PublisherRanking(books), TopCount)
  }

  // ---------------------------------------------------------------------
  // Member metrics
  // ---------------------------------------------------------------------

  predicate IsStaffMember(m: Member) { StaffPrefix <= m.id }
  predicate IsStudentMember(m: Member) { StudentPrefix <= m.id }

  /** No member id starts with both "Staff" and "Student". */
  lemma PrefixesExclusive(id: string)
    ensures StaffPrefix <= id ==> !(StudentPrefix <= id)
  {
    if StaffPrefix <= id {
      assert id[2] == 'a';
    }
  }

  lemma MemberRows(members: seq<Member>)
    ensures |Filter(members, IsStaffMember)| == |set i | 0 <= i < |members| && StaffPrefix <= members[i].id|
    ensures |Filter(members, IsStudentMember)| == |set i | 0 <= i < |members| && StudentPrefix <= members[i].id|
  {
    var staff := FilterRows(members, IsStaffMember);
    assert staff == set i | 0 <= i < |members| && StaffPrefix <= members[i].id;
    var students := FilterRows(members, IsStudentMember);
    assert students == set i | 0 <= i < |members| && StudentPrefix <= members[i].id;
  }

  /** Staff members: the number of member ids starting with "Staff". */
  function StaffMembers(members: seq<Member>): (n: nat)
    ensures n == |set i | 0 <= i < |members| && StaffPrefix <= members[i].id|
  {
    MemberRows(members);
    |Filter(members, IsStaffMember)|
  }

  /** Student members: the number of member ids starting with "Student". */
  function StudentMembers(members: seq<Member>): (n: nat)
    ensures n == |set i | 0 <= i < |members| && StudentPrefix <= members[i].id|
  {
    MemberRows(members);
    |Filter(members, IsStudentMember)|
  }

  /**
   * Total members, staff plus students: the number of ids with either
   * prefix, never more than the member rows (no id has both prefixes).
   */
  function TotalMembers(members: seq<Member>): (n: nat)
    ensures n == StaffMembers(members) + StudentMembers(members)
    ensures n == |set i | 0 <= i < |members| && (StaffPrefix <= members[i].id || StudentPrefix <= members[i].id)|
    ensures n <= |members|
  {
    var staff := set i | 0 <= i < |members| && StaffPrefix <= members[i].id;
    var students := set i | 0 <= i < |members| && StudentPrefix <= members[i].id;
    assert forall i :: i in staff ==> i !in students by {
      forall i | i in staff ensures i !in students {
        PrefixesExclusive(members[i].id);
      }
    }
    assert (set i | 0 <= i < |members| && (StaffPrefix <= members[i].id || StudentPrefix <= members[i].id))
        == staff + students;
    assert |staff + students| == |staff| + |students|;
    MemberRows(members);
    assert forall m :: m in members ==> !(IsStaffMember(m) && IsStudentMember(m)) by {
      forall m | m in members ensures !(IsStaffMember(m) && IsStudentMember(m)) {
        PrefixesExclusive(m.id);
      }
    }
    DisjointMasks(members, IsStaffMember, IsStudentMember);
    StaffMembers(members) + StudentMembers(members)
  }

  // ---------------------------------------------------------------------
  // Monthly footfall
  // ---------------------------------------------------------------------

  /** The (year, month) a month key stands for: the inverse of the key. */
  function PeriodOf(k: int): (period: (int, Month))
    ensures MonthIndex(period.0, period.1) == k
  {
    (k / 12, k % 12 + 1)
  }

  /** Different months have different keys, and the key of (year, month) comes back as (year, month). */
  lemma PeriodOfKey(year: int, month: Month)
    ensures PeriodOf(MonthIndex(year, month)) == (year, month)
  {
  }

  /** The month keys present in the footfall table, ascending. */
  function MonthKeys(days: seq<FootfallDay>): seq<int>
  {
    SortedDistinct(Map(days, MonthKey))
  }

  function PeriodKey(t: MonthTotal): int { MonthIndex(t.year, t.month) }

  /**
   * `groupby(Date.to_period('M')).sum()`: one row per month key present,
   * in strictly ascending (year, month) order.
   */
  function MonthlyFootfall(days: seq<FootfallDay>): (m: seq<MonthTotal>)
    ensures |m| == |MonthKeys(days)|
    ensures forall i :: 0 <= i < |m| ==> PeriodKey(m[i]) == MonthKeys(days)[i]
    ensures forall i, j :: 0 <= i < j < |m| ==>
              m[i].year < m[j].year || (m[i].year == m[j].year && m[i].month < m[j].month)
  {
    var keys := MonthKeys(days);
    seq(|keys|, i requires 0 <= i < |keys| =>
      var period := PeriodOf(keys[i]);
      MonthTotal(period.0, period.1,
                 SumWhere(days, MonthKey, FootfallCount, keys[i]),
                 SumWhere(days, MonthKey, ConversionCount, keys[i])))
  }

  /** Every month that has footfall rows is listed. */
  lemma MonthlyFootfallCovers(days: seq<FootfallDay>)
    ensures var m := MonthlyFootfall(days);
            forall d :: d in days ==> exists i :: 0 <= i < |m| && m[i].year == d.year && m[i].month == d.month
  {
    var m, keys := MonthlyFootfall(days), MonthKeys(days);
    forall d | d in days ensures exists i :: 0 <= i < |m| && m[i].year == d.year && m[i].month == d.month {
      assert MonthKey(d) in Map(days, MonthKey) by {
        MapMembers(days, MonthKey);
      }
      var i :| 0 <= i < |keys| && keys[i] == MonthKey(d);
      PeriodOfKey(d.year, d.month);
      assert m[i].year == d.year && m[i].month == d.month;
    }
  }

  /**
   * Only months that have footfall rows are listed, and each month's totals
   * are the sums of that month's rows.
   */
  lemma MonthlyFootfallMonths(days: seq<FootfallDay>)
    ensures var m := MonthlyFootfall(days);
            forall i :: 0 <= i < |m| ==>
              && (exists d :: d in days && d.year == m[i].year && d.month == m[i].month)
              && m[i].footfall == SumWhere(days, MonthKey, FootfallCount, PeriodKey(m[i]))
              && m[i].conversion == SumWhere(days, MonthKey, ConversionCount, PeriodKey(m[i]))
  {
    var m, keys := MonthlyFootfall(days), MonthKeys(days);
    forall i | 0 <= i < |m| ensures exists d :: d in days && d.year == m[i].year && d.month == m[i].month {
      assert keys[i] in Map(days, MonthKey);
      MapMembers(days, MonthKey);
      var d :| d in days && MonthKey(d) == keys[i];
      PeriodOfKey(d.year, d.month);
    }
  }

  /** The monthly totals add up to the footfall and conversion column totals. */
  lemma MonthlyFootfallTotals(days: seq<FootfallDay>)
    ensures Sum(Map(MonthlyFootfall(days), TotalFootfall)) == SumAll(days, FootfallCount)
    ensures Sum(Map(MonthlyFootfall(days), TotalConversion)) == SumAll(days, ConversionCount)
  {
    var m, keys := MonthlyFootfall(days), MonthKeys(days);
    MapMembers(days, MonthKey);
    assert forall r :: r in days ==> MonthKey(r) in keys;
    assert Map(m, TotalFootfall) == Sums(days, MonthKey, FootfallCount, keys);
    assert Map(m, TotalConversion) == Sums(days, MonthKey, ConversionCount, keys);
    SumsTotal(days, MonthKey, FootfallCount, keys);
    SumsTotal(days, MonthKey, ConversionCount, keys);
  }
}
