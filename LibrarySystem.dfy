/**
 * The library management system as an object: its five dictionaries (and
 * the insertion order of the book dictionary) are fields that the
 * operations update in place, and the reports are computed by loops over
 * those fields.
 *
 * Every mutating method is proved to make the same move as the matching
 * transition function of `Catalog` and to keep the registry invariant;
 * every report is proved equal to the matching function of `Queries`,
 * whose content is characterised by the lemmas there.
 */
module LibrarySystem {
  import opened Records
  import opened Catalog
  import opened Queries

  class LibraryManagementSystem {
    var books: map<Isbn, Book>
    var bookOrder: seq<Isbn>
    var authors: map<string, Author>
    var customers: map<CustomerId, Customer>
    var genreClassification: map<string, set<Isbn>>
    var waitlist: map<Isbn, seq<CustomerId>>

    /** The registry value the fields hold. */
    function Model(): Registry
      reads this
    {
      Registry(books, bookOrder, authors, customers, genreClassification, waitlist)
    }

    ghost predicate Valid()
      reads this
    {
      Catalog.Valid(Model())
    }

    /** An empty library. */
    constructor ()
      ensures Valid() && Model() == Empty
    {
      books := map[];
      bookOrder := [];
      authors := map[];
      customers := map[];
      genreClassification := map[];
      waitlist := map[];
      EmptyValid();
    }

    /**
     * Adds a book with all `copies` available, creating its author unless
     * the name is known and filing it under its genre; a known ISBN is
     * rejected and nothing changes.
     */
    method AddBook(isbn: Isbn, title: string, authorName: string, authorBirthYear: int,
                   year: int, copies: int, genre: string) returns (outcome: Outcome)
      requires Valid()
      modifies this
      ensures Valid()
      ensures (Model(), outcome) ==
              Catalog.AddBook(old(Model()), isbn, title, authorName, authorBirthYear, year, copies, genre)
    {
      ghost var before := Model();
      if isbn in books {
        return Failed(DuplicateIsbn);
      }
      FileBook(isbn, title, authorName, authorBirthYear, year, copies, genre);
      outcome := Done;
      AddBookKeepsValid(before, isbn, title, authorName, authorBirthYear, year, copies, genre);
    }

    /** The updates of a successful `AddBook`: the book, its author's record and its genre's set. */
    method FileBook(isbn: Isbn, title: string, authorName: string, authorBirthYear: int,
                    year: int, copies: int, genre: string)
      requires isbn !in books
      modifies this
      ensures Model() == Catalog.AddBook(old(Model()), isbn, title, authorName, authorBirthYear, year, copies, genre).0
    {
      var author := if authorName in authors then authors[authorName]
                    else Author(authorName, authorBirthYear, {});
      var filed := if genre in genreClassification then genreClassification[genre] else {};
      var book := Book(isbn, title, authorName, year, copies, copies, genre);
      books, bookOrder := books[isbn := book], bookOrder + [isbn];
      authors := authors[authorName := author.(books := author.books + {isbn})];
      genreClassification := genreClassification[genre := filed + {isbn}];
    }

    /** Registers a customer under the next id, one more than the number of customers, and returns it. */
    method RegisterCustomer(name: string, email: string) returns (customerId: CustomerId)
      requires Valid()
      modifies this
      ensures Valid()
      ensures (Model(), customerId) == Catalog.RegisterCustomer(old(Model()), name, email)
      ensures customerId !in old(customers) && customers.Keys == old(customers).Keys + {customerId}
    {
      ghost var registered := Catalog.RegisterCustomer(Model(), name, email);
      RegisterCustomerKeepsValid(Model(), name, email);
      RegisterKeepsNumbered(customers, NewCustomer(|customers| + 1, name, email));
      customerId := |customers| + 1;
      customers := customers[customerId := NewCustomer(customerId, name, email)];
      assert Model() == registered.0;
    }

    /**
     * Lends a copy of book `isbn` to customer `customerId` on day `now`;
     * an unknown ISBN, an unknown customer or a book with no copy on the
     * shelf is reported and changes nothing.
     */
    method BorrowBook(isbn: Isbn, customerId: CustomerId, now: Day) returns (outcome: Outcome)
      requires Valid()
      modifies this
      ensures Valid()
      ensures (Model(), outcome) == Catalog.BorrowBook(old(Model()), isbn, customerId, now)
    {
      ghost var before := Model();
      if isbn !in books {
        return Failed(UnknownIsbn);
      }
      if customerId !in customers {
        return Failed(UnknownCustomer);
      }
      if books[isbn].availableCopies <= 0 {
        return Failed(Unavailable);
      }
      Lend(isbn, customerId, now);
      outcome := Done;
      BorrowBookKeepsValid(before, isbn, customerId, now);
    }

    /** The updates of a successful `BorrowBook`: the customer's loans and the book's count. */
    method Lend(isbn: Isbn, customerId: CustomerId, now: Day)
      requires isbn in books && customerId in customers && books[isbn].availableCopies > 0
      modifies this
      ensures Model() == Catalog.BorrowBook(old(Model()), isbn, customerId, now).0
    {
      var lent := customers[customerId].BorrowBook(books[isbn], now);
      customers := customers[customerId := lent.0];
      books := books[isbn := lent.1];
    }

    /**
     * Takes book `isbn` back from customer `customerId`; an unknown ISBN,
     * an unknown customer or a book the customer does not hold is reported
     * and changes nothing.
     */
    method ReturnBook(isbn: Isbn, customerId: CustomerId) returns (outcome: Outcome)
      requires Valid()
      modifies this
      ensures Valid()
      ensures (Model(), outcome) == Catalog.ReturnBook(old(Model()), isbn, customerId)
    {
      ghost var before := Model();
      if isbn !in books {
        return Failed(UnknownIsbn);
      }
      if customerId !in customers {
        return Failed(UnknownCustomer);
      }
      if isbn !in customers[customerId].loans {
        return Failed(NotBorrowed);
      }
      TakeBack(isbn, customerId);
      outcome := Done;
      ReturnBookKeepsValid(before, isbn, customerId);
    }

    /** The updates of a successful `ReturnBook`: the customer's loans and the book's count. */
    method TakeBack(isbn: Isbn, customerId: CustomerId)
      requires isbn in books && customerId in customers && isbn in customers[customerId].loans
      modifies this
      ensures Model() == Catalog.ReturnBook(old(Model()), isbn, customerId).0
    {
      var back := customers[customerId].ReturnBook(books[isbn]);
      customers := customers[customerId := back.0];
      books := books[isbn := back.1];
    }

    /**
     * Appends customer `customerId` to the waitlist of book `isbn`,
     * creating the list if needed; an unknown ISBN or customer is reported
     * and changes nothing.
     */
    method AddToWaitlist(isbn: Isbn, customerId: CustomerId) returns (outcome: Outcome)
      requires Valid()
      modifies this
      ensures Valid()
      ensures (Model(), outcome) == Catalog.AddToWaitlist(old(Model()), isbn, customerId)
    {
      ghost var before := Model();
      if isbn !in books {
        return Failed(UnknownIsbn);
      }
      if customerId !in customers {
        return Failed(UnknownCustomer);
      }
      var queue := if isbn in waitlist then waitlist[isbn] else [];
      waitlist := waitlist[isbn := queue + [customerId]];
      outcome := Done;
      AddToWaitlistKeepsValid(before, isbn, customerId);
    }

    /** Walks the books in catalog order and keeps those `f` keeps. */
    method Collect(f: Filter) returns (found: seq<Book>)
      ensures found == Select(bookOrder, books, f)
    {
      found := [];
      var i := 0;
      while i < |bookOrder|
        invariant 0 <= i <= |bookOrder|
        invariant found == Select(bookOrder[..i], books, f)
      {
        var isbn := bookOrder[i];
        assert bookOrder[..i + 1][..i] == bookOrder[..i];
        if isbn in books && Keeps(f, books[isbn]) {
          found := found + [books[isbn]];
        }
        i := i + 1;
      }
      assert bookOrder[..|bookOrder|] == bookOrder;
    }

    /**
     * The books whose title or author name contains `query` (ignoring
     * case) or whose ISBN is `query`, in catalog order.
     */
    method SearchBooks(query: string) returns (results: seq<Book>)
      requires Valid()
      ensures results == Search(Model(), query)
      ensures forall isbn :: isbn in books ==> (books[isbn] in results <==> Matches(books[isbn], query))
      ensures forall b :: b in results ==> b.isbn in books && books[b.isbn] == b
    {
      results := Collect(MatchesQuery(query));
      SearchExact(Model(), query);
    }

    /** The books with at least one copy on the shelf, in catalog order. */
    method DisplayAvailableBooks() returns (shelf: seq<Book>)
      requires Valid()
      ensures shelf == AvailableBooks(Model())
      ensures forall isbn :: isbn in books ==> (books[isbn] in shelf <==> books[isbn].availableCopies > 0)
      ensures forall b :: b in shelf ==> b.isbn in books && books[b.isbn] == b
    {
      shelf := Collect(HasCopies);
      AvailableExact(Model());
    }

    /** Customer `customerId`'s borrowed titles, or their "no titles" message; an unknown id is reported. */
    method DisplayCustomerBooks(customerId: CustomerId) returns (res: Result<Borrowed>)
      ensures res == CustomerBooks(Model(), customerId)
    {
      if customerId in customers {
        var customer := customers[customerId];
        res := Ok(customer.GetBorrowedBooks(books));
      } else {
        res := Err(UnknownCustomer);
      }
    }

    /**
     * Counts customer `customerId`'s loans per genre, picks the genre with
     * the largest count (the first counted among equals) and lists that
     * genre's books with a copy on the shelf.
     */
    method RecommendBooks(customerId: CustomerId) returns (res: Result<Recommendation>)
      ensures res == Recommend(Model(), customerId)
    {
      if customerId !in customers {
        return Err(UnknownCustomer);
      }
      var genres := CountGenres(customers[customerId].loanOrder);
      if genres == [] {
        return Ok(NoLoans);
      }
      var best := MostCounted(genres);
      var genre := genres[best].genre;
      var picks := Collect(InGenreWithCopies(genre));
      res := Ok(Picks(genre, picks));
    }

    /** Counts the loans in `order` per genre, in order of first appearance. */
    method CountGenres(order: seq<Isbn>) returns (genres: seq<GenreCount>)
      ensures genres == Tally(Genres(order, books))
    {
      genres := [];
      var i := 0;
      while i < |order|
        invariant 0 <= i <= |order|
        invariant genres == Tally(Genres(order[..i], books))
      {
        var isbn := order[i];
        assert order[..i + 1][..i] == order[..i];
        if isbn in books {
          ghost var counted := Genres(order[..i], books);
          var genre := books[isbn].genre;
          assert Genres(order[..i + 1], books) == counted + [genre];
          assert (counted + [genre])[..|counted|] == counted;
          assert Tally(counted + [genre]) == Bump(Tally(counted), genre);
          genres := Bump(genres, genre);
        } else {
          assert Genres(order[..i + 1], books) == Genres(order[..i], books);
        }
        i := i + 1;
      }
      assert order[..|order|] == order;
    }

    /**
     * Every loan held longer than `daysThreshold` days on day `now`, with
     * its number of days, customer by customer in id order and, for each
     * customer, in borrowing order.
     */
    method CheckLateReturns(now: Day, daysThreshold: int := 14) returns (late: seq<LateReturn>)
      ensures late == LateReturns(Model(), now, daysThreshold)
    {
      late := [];
      var id := 1;
      while id <= |customers|
        invariant 1 <= id <= |customers| + 1
        invariant late == LateUpTo(customers, id - 1, now, daysThreshold)
      {
        if id in customers {
          var customer := customers[id];
          var order := customer.loanOrder;
          ghost var before := late;
          var k := 0;
          while k < |order|
            invariant 0 <= k <= |order|
            invariant late == before + LateLoans(customer, order[..k], now, daysThreshold)
          {
            var isbn := order[k];
            assert order[..k + 1][..k] == order[..k];
            if isbn in customer.loans && now - customer.loans[isbn] > daysThreshold {
              late := late + [LateReturn(customer.id, isbn, now - customer.loans[isbn])];
            }
            k := k + 1;
          }
          assert order[..|order|] == order;
        }
        id := id + 1;
      }
    }
  }

  /** The position of the largest count, scanning left to right and keeping the first of equal counts. */
  method MostCounted(genres: seq<GenreCount>) returns (best: nat)
    requires genres != []
    ensures best == FirstMax(genres)
  {
    best := 0;
    var k := 1;
    while k < |genres|
      invariant 1 <= k <= |genres|
      invariant best == FirstMax(genres[..k])
    {
      assert genres[..k + 1][..k] == genres[..k];
      if genres[k].count > genres[best].count {
        best := k;
      }
      k := k + 1;
    }
    assert genres[..|genres|] == genres;
  }
}
