/**
 * The read-only reports of the library: searching, listing the available
 * books, a customer's borrowed titles, genre-based recommendations and the
 * overdue report, each as a function of the registry, with the lemmas that
 * say what each answer contains and in which order.
 */
module Queries {
  import opened Records
  import opened Catalog

  // ---------------------------------------------------------------------
  // Selecting books in catalog order
  // ---------------------------------------------------------------------

  /** The conditions under which a listing keeps a book. */
  datatype Filter =
    | MatchesQuery(query: string)       // search: title, author or ISBN
    | HasCopies                         // the available-books listing
    | InGenreWithCopies(genre: string)  // recommendations within one genre

  /**
   * A search hit: the lower-cased query occurs in the lower-cased title or
   * author name, or the query is exactly the ISBN.
   */
  predicate Matches(b: Book, query: string): (hit: bool)
    ensures query == b.isbn ==> hit
    ensures hit && query != b.isbn ==> |query| <= |b.title| || |query| <= |b.author|
  {
    ShorterIfContained(b.title, query);
    ShorterIfContained(b.author, query);
    || Contains(Lower(b.title), Lower(query))
    || Contains(Lower(b.author), Lower(query))
    || query == b.isbn
  }

  /** A query found in a lower-cased text is no longer than the text. */
  lemma ShorterIfContained(text: string, query: string)
    ensures Contains(Lower(text), Lower(query)) ==> |query| <= |text|
  {
    if Contains(Lower(text), Lower(query)) {
      ContainedIsShorter(Lower(text), Lower(query));
    }
  }

  predicate Keeps(f: Filter, b: Book) {
    match f
    case MatchesQuery(q) => Matches(b, q)
    case HasCopies => b.availableCopies > 0
    case InGenreWithCopies(g) => b.genre == g && b.availableCopies > 0
  }

  /** The books listed in `order` that `f` keeps, in the order of `order`. */
  function Select(order: seq<Isbn>, books: map<Isbn, Book>, f: Filter): (picked: seq<Book>)
    ensures |picked| <= |order|
    ensures forall k :: 0 <= k < |picked| ==> Keeps(f, picked[k])
  {
    if order == [] then []
    else
      var earlier := Select(order[..|order| - 1], books, f);
      var last := order[|order| - 1];
      if last in books && Keeps(f, books[last]) then earlier + [books[last]] else earlier
  }

  /** Only books of the catalog that the filter keeps are selected. */
  lemma {:induction false} SelectSound(order: seq<Isbn>, books: map<Isbn, Book>, f: Filter)
    ensures forall b :: b in Select(order, books, f) ==>
              Keeps(f, b) && exists i :: 0 <= i < |order| && order[i] in books && books[order[i]] == b
  {
    if order != [] {
      var prefix := order[..|order| - 1];
      SelectSound(prefix, books, f);
      forall b | b in Select(prefix, books, f)
        ensures exists i :: 0 <= i < |order| && order[i] in books && books[order[i]] == b
      {
        var i :| 0 <= i < |prefix| && prefix[i] in books && books[prefix[i]] == b;
        assert order[i] == prefix[i];
      }
    }
  }

  /** Every book listed in `order` that the filter keeps is selected. */
  lemma {:induction false} SelectComplete(order: seq<Isbn>, books: map<Isbn, Book>, f: Filter)
    ensures forall i :: 0 <= i < |order| && order[i] in books && Keeps(f, books[order[i]]) ==>
              books[order[i]] in Select(order, books, f)
  {
    if order != [] {
      var prefix := order[..|order| - 1];
      SelectComplete(prefix, books, f);
      forall i | 0 <= i < |order| && order[i] in books && Keeps(f, books[order[i]])
        ensures books[order[i]] in Select(order, books, f)
      {
        if i < |order| - 1 {
          assert order[i] == prefix[i];
        }
      }
    }
  }

  /** Selection respects order: the picks from a longer listing extend the picks from its beginning. */
  lemma {:induction false} SelectAppend(a: seq<Isbn>, b: seq<Isbn>, books: map<Isbn, Book>, f: Filter)
    ensures Select(a + b, books, f) == Select(a, books, f) + Select(b, books, f)
  {
    if b == [] {
      assert a + b == a;
    } else {
      var front := b[..|b| - 1];
      SelectAppend(a, front, books, f);
      assert (a + b)[..|a + b| - 1] == a + front;
    }
  }

  /** When the filter keeps every listed book, the selection is the whole listing. */
  lemma {:induction false} SelectAll(order: seq<Isbn>, books: map<Isbn, Book>, f: Filter)
    requires forall i :: 0 <= i < |order| ==> order[i] in books && Keeps(f, books[order[i]])
    ensures |Select(order, books, f)| == |order|
    ensures forall i :: 0 <= i < |order| ==> Select(order, books, f)[i] == books[order[i]]
  {
    if order != [] {
      var prefix := order[..|order| - 1];
      SelectAll(prefix, books, f);
      assert forall i :: 0 <= i < |prefix| ==> prefix[i] == order[i];
    }
  }

  // ---------------------------------------------------------------------
  // Search and the available-books listing
  // ---------------------------------------------------------------------

  /** The books a search for `query` finds, in catalog order. */
  function Search(r: Registry, query: string): (found: seq<Book>)
    ensures |found| <= |r.bookOrder|
  {
    Select(r.bookOrder, r.books, MatchesQuery(query))
  }

  /** A catalogued book is found exactly when it matches the query. */
  lemma SearchExact(r: Registry, query: string)
    requires Valid(r)
    ensures forall b :: b in Search(r, query) ==> b.isbn in r.books && r.books[b.isbn] == b && Matches(b, query)
    ensures forall isbn :: isbn in r.books ==> (r.books[isbn] in Search(r, query) <==> Matches(r.books[isbn], query))
  {
    SelectExact(r, MatchesQuery(query));
  }

  /** The empty query matches every book, so the search lists the whole catalog in order. */
  lemma EmptyQueryFindsAll(r: Registry)
    requires Valid(r)
    ensures |Search(r, "")| == |r.bookOrder|
    ensures forall i :: 0 <= i < |r.bookOrder| ==> Search(r, "")[i] == r.books[r.bookOrder[i]]
  {
    forall b: Book ensures Matches(b, "") {
      assert OccursAt(Lower(b.title), Lower(""), 0);
    }
    SelectAll(r.bookOrder, r.books, MatchesQuery(""));
  }

  /**
   * Letter case in the query does not matter for the title and author
   * comparison: two queries that lower-case alike match the same books,
   * unless one of them is the book's ISBN exactly.
   */
  lemma MatchesIgnoresCase(b: Book, q: string, q': string)
    requires Lower(q) == Lower(q') && q != b.isbn && q' != b.isbn
    ensures Matches(b, q) <==> Matches(b, q')
  {
  }

  /** The books with at least one copy on the shelf, in catalog order. */
  function AvailableBooks(r: Registry): (shelf: seq<Book>)
    ensures |shelf| <= |r.bookOrder|
  {
    Select(r.bookOrder, r.books, HasCopies)
  }

  /** A catalogued book is listed as available exactly when a copy is on the shelf. */
  lemma AvailableExact(r: Registry)
    requires Valid(r)
    ensures forall b :: b in AvailableBooks(r) ==> b.isbn in r.books && r.books[b.isbn] == b && b.availableCopies > 0
    ensures forall isbn :: isbn in r.books ==> (r.books[isbn] in AvailableBooks(r) <==> r.books[isbn].availableCopies > 0)
  {
    SelectExact(r, HasCopies);
  }

  /** Over a valid registry, a selection holds exactly the catalogued books the filter keeps. */
  lemma SelectExact(r: Registry, f: Filter)
    requires Valid(r)
    ensures forall b :: b in Select(r.bookOrder, r.books, f) ==> b.isbn in r.books && r.books[b.isbn] == b && Keeps(f, b)
    ensures forall isbn :: isbn in r.books ==> (r.books[isbn] in Select(r.bookOrder, r.books, f) <==> Keeps(f, r.books[isbn]))
  {
    SelectSound(r.bookOrder, r.books, f);
    SelectComplete(r.bookOrder, r.books, f);
    forall isbn | isbn in r.books && Keeps(f, r.books[isbn])
      ensures r.books[isbn] in Select(r.bookOrder, r.books, f)
    {
      var i :| 0 <= i < |r.bookOrder| && r.bookOrder[i] == isbn;
    }
  }

  // ---------------------------------------------------------------------
  // A customer's borrowed titles
  // ---------------------------------------------------------------------

  /** What the library reports for customer `customerId`: their titles or their "no titles" message. */
  function CustomerBooks(r: Registry, customerId: CustomerId): (res: Result<Borrowed>)
    ensures res.Err? <==> customerId !in r.customers
    ensures res.Err? ==> res.error == UnknownCustomer
  {
    if customerId !in r.customers then Err(UnknownCustomer)
    else Ok(r.customers[customerId].GetBorrowedBooks(r.books))
  }

  /**
   * In a valid registry a customer with loans is shown one title per held
   * book, in borrowing order, and a customer without loans gets the message.
   */
  lemma CustomerBooksExact(r: Registry, customerId: CustomerId)
    requires Valid(r) && customerId in r.customers
    ensures var c := r.customers[customerId];
            && (CustomerBooks(r, customerId).value.NoTitles? <==> c.loans == map[])
            && (c.loans != map[] ==>
                  var titles := CustomerBooks(r, customerId).value.titles;
                  && |titles| == |c.loans|
                  && forall i :: 0 <= i < |titles| ==> titles[i] == r.books[c.loanOrder[i]].title)
  {
    var c := r.customers[customerId];
    DistinctCardinality(c.loanOrder);
    assert (set x | x in c.loanOrder) == c.loans.Keys;
    if c.loanOrder == [] {
      assert c.loans.Keys == {};
    } else {
      assert c.loanOrder[0] in c.loans;
    }
  }

  // ---------------------------------------------------------------------
  // Recommendations
  // ---------------------------------------------------------------------

  /** How many of a customer's loans fall into one genre. */
  datatype GenreCount = GenreCount(genre: string, count: nat)

  /** The genres of the books in `order`, in that order. */
  function Genres(order: seq<Isbn>, books: map<Isbn, Book>): (gs: seq<string>)
    ensures |gs| <= |order|
    ensures (forall i :: 0 <= i < |order| ==> order[i] in books) ==>
              |gs| == |order| && forall i :: 0 <= i < |order| ==> gs[i] == books[order[i]].genre
  {
    if order == [] then []
    else
      var earlier := Genres(order[..|order| - 1], books);
      var last := order[|order| - 1];
      assert forall i :: 0 <= i < |order| - 1 ==> order[..|order| - 1][i] == order[i];
      if last in books then earlier + [books[last].genre] else earlier
  }

  /** The position of genre `g` in the tally, or the tally's length when it is absent. */
  function Find(t: seq<GenreCount>, g: string): (k: nat)
    ensures k <= |t|
    ensures k < |t| ==> t[k].genre == g
    ensures forall j :: 0 <= j < k ==> t[j].genre != g
  {
    if t == [] then 0
    else if t[0].genre == g then 0
    else 1 + Find(t[1..], g)
  }

  /** Counts one more loan of genre `g`: the entry grows in place, or a new entry goes at the end. */
  function Bump(t: seq<GenreCount>, g: string): (t': seq<GenreCount>)
    ensures Find(t, g) < |t| ==> t' == t[Find(t, g) := GenreCount(g, t[Find(t, g)].count + 1)]
    ensures Find(t, g) == |t| ==> t' == t + [GenreCount(g, 1)]
  {
    var k := Find(t, g);
    if k < |t| then t[k := GenreCount(g, t[k].count + 1)] else t + [GenreCount(g, 1)]
  }

  /** The genre tally the recommendation loop builds, one loan after the other. */
  function Tally(gs: seq<string>): (t: seq<GenreCount>)
    ensures |t| <= |gs|
    ensures (t == []) == (gs == [])
  {
    if gs == [] then []
    else
      var earlier := Tally(gs[..|gs| - 1]);
      var t := Bump(earlier, gs[|gs| - 1]);
      assert Find(earlier, gs[|gs| - 1]) < |earlier| ==> |t| == |earlier|;
      t
  }

  /** The first position at which `g` occurs in `gs`. */
  function FirstIndex(gs: seq<string>, g: string): (i: nat)
    requires g in gs
    ensures i < |gs| && gs[i] == g
    ensures forall k :: 0 <= k < i ==> gs[k] != g
  {
    if gs[0] == g then 0
    else
      assert g in gs[1..] by {
        var m :| 0 <= m < |gs| && gs[m] == g;
        assert gs[1..][m - 1] == g;
      }
      1 + FirstIndex(gs[1..], g)
  }

  /** Appending an element does not move the first occurrence of anything already present. */
  lemma FirstIndexAppend(gs: seq<string>, x: string, g: string)
    requires g in gs
    ensures FirstIndex(gs + [x], g) == FirstIndex(gs, g)
  {
    var i := FirstIndex(gs, g);
    var j := FirstIndex(gs + [x], g);
    assert (gs + [x])[i] == g;
    assert gs[j] == g;
  }

  /** No genre has two entries in the tally. */
  ghost predicate GenresDistinct(t: seq<GenreCount>) {
    forall i, j :: 0 <= i < j < |t| ==> t[i].genre != t[j].genre
  }

  /** Every entry names a genre of `gs` and counts how often it occurs there. */
  ghost predicate CountsMatch(gs: seq<string>, t: seq<GenreCount>) {
    forall i :: 0 <= i < |t| ==> t[i].genre in gs && t[i].count == multiset(gs)[t[i].genre]
  }

  /** Every genre of `gs` has an entry. */
  ghost predicate Covers(gs: seq<string>, t: seq<GenreCount>) {
    forall k :: 0 <= k < |gs| ==> Find(t, gs[k]) < |t|
  }

  /** The entries appear in the order in which their genres first occur in `gs`. */
  ghost predicate InFirstSeenOrder(gs: seq<string>, t: seq<GenreCount>) {
    forall i, j {:trigger t[i], t[j]} :: 0 <= i < j < |t| ==>
      t[i].genre in gs && t[j].genre in gs && FirstIndex(gs, t[i].genre) < FirstIndex(gs, t[j].genre)
  }

  /**
   * `t` is the tally of `gs`: one entry per distinct genre, with the
   * number of times it occurs, in order of first occurrence.
   */
  ghost predicate Tallies(gs: seq<string>, t: seq<GenreCount>) {
    GenresDistinct(t) && CountsMatch(gs, t) && Covers(gs, t) && InFirstSeenOrder(gs, t)
  }

  lemma {:induction false} TallyCorrect(gs: seq<string>)
    ensures Tallies(gs, Tally(gs))
  {
    if gs != [] {
      var front := gs[..|gs| - 1];
      var g := gs[|gs| - 1];
      TallyCorrect(front);
      assert gs == front + [g];
      var t0 := Tally(front);
      if Find(t0, g) < |t0| {
        TallyBumpExisting(front, g, t0);
      } else {
        TallyBumpNew(front, g, t0);
      }
    }
  }

  /** Counting a genre already in the tally keeps it a tally. */
  lemma TallyBumpExisting(front: seq<string>, g: string, t0: seq<GenreCount>)
    requires Tallies(front, t0) && Find(t0, g) < |t0|
    ensures Tallies(front + [g], Bump(t0, g))
  {
    var t := Bump(t0, g);
    assert |t| == |t0| && forall i :: 0 <= i < |t| ==> t[i].genre == t0[i].genre;
    ExistingCounts(front, g, t0);
    ExistingCovers(front, g, t0);
    SameGenresInOrder(front, g, t0, t);
  }

  lemma ExistingCounts(front: seq<string>, g: string, t0: seq<GenreCount>)
    requires GenresDistinct(t0) && CountsMatch(front, t0) && Find(t0, g) < |t0|
    ensures CountsMatch(front + [g], Bump(t0, g))
  {
    var gs := front + [g];
    var k := Find(t0, g);
    var t := Bump(t0, g);
    assert multiset(gs) == multiset(front) + multiset{g};
    forall i | 0 <= i < |t| ensures t[i].genre in gs && t[i].count == multiset(gs)[t[i].genre] {
      assert t0[i].genre in front;
      assert i != k ==> t0[i].genre != t0[k].genre;
    }
  }

  lemma ExistingCovers(front: seq<string>, g: string, t0: seq<GenreCount>)
    requires Covers(front, t0) && Find(t0, g) < |t0|
    ensures Covers(front + [g], Bump(t0, g))
  {
    var gs := front + [g];
    var t := Bump(t0, g);
    forall m | 0 <= m < |gs| ensures Find(t, gs[m]) < |t| {
      FindSameGenres(t0, t, gs[m]);
      if m < |front| {
        assert gs[m] == front[m];
      }
    }
  }

  /** Appending to the genres keeps the order of a tally whose entries keep their genres. */
  lemma SameGenresInOrder(front: seq<string>, g: string, t0: seq<GenreCount>, t: seq<GenreCount>)
    requires InFirstSeenOrder(front, t0) && CountsMatch(front, t0)
    requires |t| == |t0| && forall i :: 0 <= i < |t| ==> t[i].genre == t0[i].genre
    ensures InFirstSeenOrder(front + [g], t)
  {
    var gs := front + [g];
    forall i, j | 0 <= i < j < |t|
      ensures t[i].genre in gs && t[j].genre in gs && FirstIndex(gs, t[i].genre) < FirstIndex(gs, t[j].genre)
    {
      assert t0[i].genre in front && t0[j].genre in front;
      FirstIndexAppend(front, g, t0[i].genre);
      FirstIndexAppend(front, g, t0[j].genre);
    }
  }

  /** Counting a genre not yet in the tally appends it and keeps it a tally. */
  lemma TallyBumpNew(front: seq<string>, g: string, t0: seq<GenreCount>)
    requires Tallies(front, t0) && Find(t0, g) == |t0|
    ensures Tallies(front + [g], Bump(t0, g))
  {
    forall m | 0 <= m < |front| ensures front[m] != g {
      assert Find(t0, front[m]) < |t0|;
    }
    assert Bump(t0, g) == t0 + [GenreCount(g, 1)];
    NewCounts(front, g, t0);
    NewCovers(front, g, t0);
    NewInOrder(front, g, t0);
  }

  lemma NewCounts(front: seq<string>, g: string, t0: seq<GenreCount>)
    requires CountsMatch(front, t0) && g !in front
    ensures CountsMatch(front + [g], t0 + [GenreCount(g, 1)])
  {
    var gs := front + [g];
    assert multiset(gs) == multiset(front) + multiset{g};
    forall i | 0 <= i < |t0| ensures t0[i].genre in gs {
    }
  }

  lemma NewCovers(front: seq<string>, g: string, t0: seq<GenreCount>)
    requires Covers(front, t0) && Find(t0, g) == |t0|
    ensures Covers(front + [g], t0 + [GenreCount(g, 1)])
  {
    var gs := front + [g];
    var t := t0 + [GenreCount(g, 1)];
    forall m | 0 <= m < |gs| ensures Find(t, gs[m]) < |t| {
      if m < |front| {
        assert gs[m] == front[m];
        FindExtended(t0, GenreCount(g, 1), gs[m]);
      } else {
        FindAppended(t0, GenreCount(g, 1));
      }
    }
  }

  lemma NewInOrder(front: seq<string>, g: string, t0: seq<GenreCount>)
    requires InFirstSeenOrder(front, t0) && CountsMatch(front, t0) && g !in front
    ensures InFirstSeenOrder(front + [g], t0 + [GenreCount(g, 1)])
  {
    var gs := front + [g];
    var t := t0 + [GenreCount(g, 1)];
    SameGenresInOrder(front, g, t0, t0);
    assert FirstIndex(gs, g) == |front| by {
      assert gs[|front|] == g;
    }
    forall i, j | 0 <= i < j < |t|
      ensures t[i].genre in gs && t[j].genre in gs && FirstIndex(gs, t[i].genre) < FirstIndex(gs, t[j].genre)
    {
      if j == |t0| {
        FirstIndexAppend(front, g, t0[i].genre);
      } else {
        assert t[i] == t0[i] && t[j] == t0[j];
      }
    }
  }

  /** `Find` only looks at genres, so changing counts does not move anything. */
  lemma {:induction false} FindSameGenres(t0: seq<GenreCount>, t: seq<GenreCount>, g: string)
    requires |t0| == |t| && forall i :: 0 <= i < |t| ==> t[i].genre == t0[i].genre
    ensures Find(t, g) == Find(t0, g)
  {
    if t != [] && t[0].genre != g {
      FindSameGenres(t0[1..], t[1..], g);
    }
  }

  /** Appending an entry does not move a genre that is already present. */
  lemma {:induction false} FindExtended(t0: seq<GenreCount>, e: GenreCount, g: string)
    requires Find(t0, g) < |t0|
    ensures Find(t0 + [e], g) == Find(t0, g)
  {
    if t0[0].genre != g {
      assert (t0 + [e])[1..] == t0[1..] + [e];
      FindExtended(t0[1..], e, g);
    }
  }

  /** An entry appended for a genre not yet present is found at the end. */
  lemma {:induction false} FindAppended(t0: seq<GenreCount>, e: GenreCount)
    requires Find(t0, e.genre) == |t0|
    ensures Find(t0 + [e], e.genre) == |t0|
  {
    if t0 != [] {
      assert (t0 + [e])[1..] == t0[1..] + [e];
      FindAppended(t0[1..], e);
    }
  }

  /**
   * The entry a left-to-right scan for the largest count settles on: a
   * later entry replaces the current one only when its count is strictly
   * larger, so the first of several equal maxima wins.
   */
  function FirstMax(t: seq<GenreCount>): (m: nat)
    requires t != []
    ensures m < |t|
    ensures forall i :: 0 <= i < |t| ==> t[i].count <= t[m].count
    ensures forall i :: 0 <= i < m ==> t[i].count < t[m].count
  {
    if |t| == 1 then 0
    else
      var best := FirstMax(t[..|t| - 1]);
      assert forall i :: 0 <= i < |t| - 1 ==> t[..|t| - 1][i] == t[i];
      if t[|t| - 1].count > t[best].count then |t| - 1 else best
  }

  datatype Recommendation =
    | NoLoans                                   // the customer holds nothing to go by
    | Picks(genre: string, books: seq<Book>)    // the favourite genre and its books on the shelf

  /** The genres of customer `customerId`'s loans, in borrowing order. */
  function LoanGenres(r: Registry, customerId: CustomerId): (gs: seq<string>)
    requires customerId in r.customers
    ensures |gs| <= |r.customers[customerId].loanOrder|
  {
    Genres(r.customers[customerId].loanOrder, r.books)
  }

  /** In a valid registry there is one genre per held book: the genre of the i-th book borrowed. */
  lemma LoanGenresExact(r: Registry, customerId: CustomerId)
    requires Valid(r) && customerId in r.customers
    ensures var order := r.customers[customerId].loanOrder;
            var gs := LoanGenres(r, customerId);
            |gs| == |order| && forall i :: 0 <= i < |order| ==> gs[i] == r.books[order[i]].genre
  {
    var c := r.customers[customerId];
    assert forall i :: 0 <= i < |c.loanOrder| ==> c.loanOrder[i] in c.loans;
  }

  /**
   * The recommendation for customer `customerId`: the genre they hold most
   * books of (the earliest borrowed one among equals) and the books of that
   * genre with a copy on the shelf, in catalog order.
   */
  function Recommend(r: Registry, customerId: CustomerId): (res: Result<Recommendation>)
    ensures res.Err? <==> customerId !in r.customers
    ensures res.Err? ==> res.error == UnknownCustomer
  {
    if customerId !in r.customers then Err(UnknownCustomer)
    else
      var t := Tally(LoanGenres(r, customerId));
      if t == [] then Ok(NoLoans)
      else
        var g := t[FirstMax(t)].genre;
        Ok(Picks(g, Select(r.bookOrder, r.books, InGenreWithCopies(g))))
  }

  /** The entry `FirstMax` picks from a tally names a most frequent genre, the first seen among equals. */
  lemma MostFrequent(gs: seq<string>, t: seq<GenreCount>)
    requires Tallies(gs, t) && t != []
    ensures var g := t[FirstMax(t)].genre;
            && g in gs
            && (forall other :: other in gs ==> multiset(gs)[other] <= multiset(gs)[g])
            && (forall other :: other in gs && multiset(gs)[other] == multiset(gs)[g] ==>
                  FirstIndex(gs, g) <= FirstIndex(gs, other))
  {
    var m := FirstMax(t);
    var g := t[m].genre;
    forall other | other in gs
      ensures multiset(gs)[other] <= multiset(gs)[g]
      ensures multiset(gs)[other] == multiset(gs)[g] ==> FirstIndex(gs, g) <= FirstIndex(gs, other)
    {
      var k :| 0 <= k < |gs| && gs[k] == other;
      var j := Find(t, gs[k]);
      assert t[j].genre == other && t[j].count == multiset(gs)[other];
      assert j < m ==> t[j].count < t[m].count;
      assert m < j ==> FirstIndex(gs, t[m].genre) < FirstIndex(gs, t[j].genre);
    }
  }

  /**
   * The recommended genre is one the customer holds most books of, and
   * among the genres held equally often it is the one borrowed first;
   * nothing is recommended exactly when the customer holds nothing.
   */
  lemma RecommendedGenreIsMostBorrowed(r: Registry, customerId: CustomerId)
    requires Valid(r) && customerId in r.customers
    ensures Recommend(r, customerId).value.NoLoans? <==> r.customers[customerId].loans == map[]
    ensures var gs := LoanGenres(r, customerId);
            Recommend(r, customerId).value.Picks? ==>
              var g := Recommend(r, customerId).value.genre;
              && g in gs
              && (forall other :: other in gs ==> multiset(gs)[other] <= multiset(gs)[g])
              && (forall other :: other in gs && multiset(gs)[other] == multiset(gs)[g] ==>
                    FirstIndex(gs, g) <= FirstIndex(gs, other))
  {
    var c := r.customers[customerId];
    var gs := LoanGenres(r, customerId);
    var t := Tally(gs);
    TallyCorrect(gs);
    if c.loanOrder == [] {
      assert c.loans.Keys == {};
    } else {
      assert c.loanOrder[0] in c.loans;
      assert |gs| == |c.loanOrder|;
    }
    if t != [] {
      MostFrequent(gs, t);
    }
  }

  /** The recommended books are exactly the catalogued books of the recommended genre with a copy on the shelf. */
  lemma RecommendedBooksInGenre(r: Registry, customerId: CustomerId)
    requires Valid(r) && customerId in r.customers
    ensures Recommend(r, customerId).value.Picks? ==>
              var p := Recommend(r, customerId).value;
              && (forall b :: b in p.books ==>
                    b.isbn in r.books && r.books[b.isbn] == b && b.genre == p.genre && b.availableCopies > 0)
              && (forall isbn :: isbn in r.books && r.books[isbn].genre == p.genre && r.books[isbn].availableCopies > 0 ==>
                    r.books[isbn] in p.books)
  {
    if Recommend(r, customerId).value.Picks? {
      SelectExact(r, InGenreWithCopies(Recommend(r, customerId).value.genre));
    }
  }

  // ---------------------------------------------------------------------
  // The overdue report
  // ---------------------------------------------------------------------

  /**
   * One overdue loan: who holds which book, and `daysOut`, the number of
   * days since it was borrowed (not the days past the threshold).
   */
  datatype LateReturn = LateReturn(customer: CustomerId, isbn: Isbn, daysOut: int)

  /** Customer `c`'s loans among `order` held longer than `threshold` days on day `now`, in that order. */
  function LateLoans(c: Customer, order: seq<Isbn>, now: Day, threshold: int): (late: seq<LateReturn>)
    ensures |late| <= |order|
    ensures forall k :: 0 <= k < |late| ==> late[k].customer == c.id && late[k].daysOut > threshold
  {
    if order == [] then []
    else
      var earlier := LateLoans(c, order[..|order| - 1], now, threshold);
      var last := order[|order| - 1];
      if last in c.loans && now - c.loans[last] > threshold
      then earlier + [LateReturn(c.id, last, now - c.loans[last])]
      else earlier
  }

  /** The entries for customer `c` are exactly its loans among `order` held longer than the threshold. */
  lemma {:induction false} LateLoansExact(c: Customer, order: seq<Isbn>, now: Day, threshold: int)
    ensures forall e :: e in LateLoans(c, order, now, threshold) <==>
              e.customer == c.id && e.isbn in order && e.isbn in c.loans
              && e.daysOut == now - c.loans[e.isbn] && e.daysOut > threshold
  {
    if order != [] {
      var front := order[..|order| - 1];
      LateLoansExact(c, front, now, threshold);
      assert order == front + [order[|order| - 1]];
    }
  }

  /** The overdue loans of customers 1..n, customer by customer. */
  function LateUpTo(customers: map<CustomerId, Customer>, n: nat, now: Day, threshold: int): (late: seq<LateReturn>)
    ensures forall k :: 0 <= k < |late| ==> late[k].daysOut > threshold
  {
    if n == 0 then []
    else
      var before := LateUpTo(customers, n - 1, now, threshold);
      if n in customers
      then before + LateLoans(customers[n], customers[n].loanOrder, now, threshold)
      else before
  }

  /** The overdue report on day `now`: every loan older than `threshold` days, customer by customer in id order. */
  function LateReturns(r: Registry, now: Day, threshold: int): (late: seq<LateReturn>)
    ensures forall k :: 0 <= k < |late| ==> late[k].daysOut > threshold
  {
    LateUpTo(r.customers, |r.customers|, now, threshold)
  }

  /** Customers 1..n contribute exactly their overdue loans. */
  lemma {:induction false} LateUpToExact(customers: map<CustomerId, Customer>, n: nat, now: Day, threshold: int)
    requires forall id :: id in customers ==> customers[id].id == id && customers[id].WellFormed()
    ensures forall e :: e in LateUpTo(customers, n, now, threshold) <==>
              1 <= e.customer <= n && e.customer in customers && e.isbn in customers[e.customer].loans
              && e.daysOut == now - customers[e.customer].loans[e.isbn] && e.daysOut > threshold
  {
    if n > 0 {
      LateUpToExact(customers, n - 1, now, threshold);
      if n in customers {
        LateLoansExact(customers[n], customers[n].loanOrder, now, threshold);
      }
    }
  }

  /**
   * In a valid registry the overdue report lists exactly the loans held
   * longer than the threshold, each with its number of days, customer by
   * customer in id order.
   */
  lemma LateReturnsExact(r: Registry, now: Day, threshold: int)
    requires Valid(r)
    ensures forall e :: e in LateReturns(r, now, threshold) <==>
              e.customer in r.customers && e.isbn in r.customers[e.customer].loans
              && e.daysOut == now - r.customers[e.customer].loans[e.isbn] && e.daysOut > threshold
    ensures ByCustomer(LateReturns(r, now, threshold))
  {
    LateUpToExact(r.customers, |r.customers|, now, threshold);
    LateUpToOrdered(r.customers, |r.customers|, now, threshold);
  }

  /** Entries are grouped by customer, in increasing id order. */
  predicate ByCustomer(late: seq<LateReturn>) {
    forall i, j :: 0 <= i < j < |late| ==> late[i].customer <= late[j].customer
  }

  /** The overdue report lists customers in increasing id order. */
  lemma {:induction false} LateUpToOrdered(customers: map<CustomerId, Customer>, n: nat, now: Day, threshold: int)
    requires forall id :: id in customers ==> customers[id].id == id
    ensures ByCustomer(LateUpTo(customers, n, now, threshold))
  {
    if n > 0 {
      var before := LateUpTo(customers, n - 1, now, threshold);
      LateUpToOrdered(customers, n - 1, now, threshold);
      assert ByCustomer(before);
      LateUpToInRange(customers, n - 1, now, threshold);
      if n in customers {
        var mine := LateLoans(customers[n], customers[n].loanOrder, now, threshold);
        var late := before + mine;
        forall i, j | 0 <= i < j < |late| ensures late[i].customer <= late[j].customer {
          if j < |before| {
            assert late[i] == before[i] && late[j] == before[j];
          } else if i < |before| {
            assert late[i] in before;
            assert late[j] == mine[j - |before|];
          } else {
            assert late[i] == mine[i - |before|] && late[j] == mine[j - |before|];
          }
        }
      }
    }
  }

  /** Every entry for customers 1..n names one of them. */
  lemma {:induction false} LateUpToInRange(customers: map<CustomerId, Customer>, n: nat, now: Day, threshold: int)
    requires forall id :: id in customers ==> customers[id].id == id
    ensures forall e :: e in LateUpTo(customers, n, now, threshold) ==> 1 <= e.customer <= n
  {
    if n > 0 {
      var before := LateUpTo(customers, n - 1, now, threshold);
      LateUpToInRange(customers, n - 1, now, threshold);
      if n in customers {
        var mine := LateLoans(customers[n], customers[n].loanOrder, now, threshold);
        forall e: LateReturn | e in before + mine ensures 1 <= e.customer <= n {
          if e !in before {
            var k :| 0 <= k < |mine| && mine[k] == e;
          }
        }
      }
    }
  }
}
