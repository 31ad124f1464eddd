/**
 * The catalog registry's state as a value, its five mutating operations as
 * transition functions, the registry invariant, and the proofs that every
 * operation keeps it.
 *
 * The registry holds the five dictionaries of the original program
 * (books, authors, customers, genre index, waitlists) plus `bookOrder`,
 * the insertion order in which the book dictionary is iterated. Customers
 * are numbered 1..N in registration order, which is also the order the
 * customer dictionary is iterated in.
 */
module Catalog {
  import opened Records

  datatype Registry = Registry(
    books: map<Isbn, Book>,
    bookOrder: seq<Isbn>,
    authors: map<string, Author>,
    customers: map<CustomerId, Customer>,
    genreIndex: map<string, set<Isbn>>,
    waitlist: map<Isbn, seq<CustomerId>>)

  const Empty := Registry(map[], [], map[], map[], map[], map[])

  // ---------------------------------------------------------------------
  // The registry invariant
  // ---------------------------------------------------------------------

  /** Every book sits under its own ISBN, and `order` lists each ISBN exactly once. */
  ghost predicate BooksKeyed(books: map<Isbn, Book>, order: seq<Isbn>) {
    && Distinct(order)
    && (forall i :: 0 <= i < |order| ==> order[i] in books)
    && (forall isbn :: isbn in books ==> isbn in order)
    && (forall isbn :: isbn in books ==> books[isbn].isbn == isbn)
  }

  /** Each book's author is registered and lists the book, and an author lists only their own books. */
  ghost predicate AuthorsLinked(books: map<Isbn, Book>, authors: map<string, Author>) {
    && (forall isbn :: isbn in books ==>
          books[isbn].author in authors && isbn in authors[books[isbn].author].books)
    && (forall name :: name in authors ==> authors[name].name == name)
    && (forall name, isbn :: name in authors && isbn in authors[name].books ==>
          isbn in books && books[isbn].author == name)
  }

  /** The genre index is exactly the books grouped by genre. */
  ghost predicate GenresIndexed(books: map<Isbn, Book>, index: map<string, set<Isbn>>) {
    && (forall isbn :: isbn in books ==>
          books[isbn].genre in index && isbn in index[books[isbn].genre])
    && (forall g, isbn :: g in index && isbn in index[g] ==>
          isbn in books && books[isbn].genre == g)
  }

  /** Customer ids are 1..N. */
  ghost predicate Numbered(customers: map<CustomerId, Customer>) {
    forall id :: id in customers <==> 1 <= id <= |customers|
  }

  /** Every customer carries their own id, keeps a well-formed loan record, and holds only catalogued books. */
  ghost predicate LoansKept(customers: map<CustomerId, Customer>, catalogued: set<Isbn>) {
    && (forall id :: id in customers ==> customers[id].id == id && customers[id].WellFormed())
    && (forall id, isbn :: id in customers && isbn in customers[id].loans ==> isbn in catalogued)
  }

  /** The customers currently holding the book `isbn`. */
  ghost function HolderIds(customers: map<CustomerId, Customer>, isbn: Isbn): set<CustomerId> {
    set id | id in customers && isbn in customers[id].loans
  }

  /** The number of customers currently holding the book `isbn`. */
  ghost function Holders(customers: map<CustomerId, Customer>, isbn: Isbn): nat {
    |HolderIds(customers, isbn)|
  }

  /**
   * No copy is counted twice: the available copies plus the customers
   * holding the book never exceed the copies the book was added with, and
   * the available count is negative only when the book was added with a
   * negative number of copies and has not changed since.
   */
  ghost predicate CopiesAccounted(books: map<Isbn, Book>, customers: map<CustomerId, Customer>) {
    forall isbn :: isbn in books ==>
      && books[isbn].availableCopies + Holders(customers, isbn) <= books[isbn].copies
      && (0 <= books[isbn].availableCopies || books[isbn].availableCopies == books[isbn].copies)
  }

  /** Waitlists exist only for catalogued books and hold only registered customers. */
  ghost predicate WaitlistsKnown(waitlist: map<Isbn, seq<CustomerId>>, catalogued: set<Isbn>, registered: set<CustomerId>) {
    && (forall isbn :: isbn in waitlist ==> isbn in catalogued)
    && (forall isbn, k :: isbn in waitlist && 0 <= k < |waitlist[isbn]| ==> waitlist[isbn][k] in registered)
  }

  ghost predicate Valid(r: Registry) {
    && BooksKeyed(r.books, r.bookOrder)
    && AuthorsLinked(r.books, r.authors)
    && GenresIndexed(r.books, r.genreIndex)
    && Numbered(r.customers)
    && LoansKept(r.customers, r.books.Keys)
    && CopiesAccounted(r.books, r.customers)
    && WaitlistsKnown(r.waitlist, r.books.Keys, r.customers.Keys)
  }

  lemma EmptyValid()
    ensures Valid(Empty)
  {
    assert |Empty.customers| == 0;
  }

  /** In a valid registry a book added with a non-negative number of copies has 0 <= available <= copies. */
  lemma CopiesWithinBounds(r: Registry, isbn: Isbn)
    requires Valid(r) && isbn in r.books && r.books[isbn].copies >= 0
    ensures 0 <= r.books[isbn].availableCopies <= r.books[isbn].copies
  {
  }

  // ---------------------------------------------------------------------
  // Operations
  // ---------------------------------------------------------------------

  /**
   * Adds a book. A known ISBN is rejected and nothing changes. Otherwise
   * the author is created unless the name is known (a known author keeps
   * their birth year), the book is stored with all copies available, and
   * it is filed under its genre.
   */
  function AddBook(r: Registry, isbn: Isbn, title: string, authorName: string, authorBirthYear: int,
                   year: int, copies: int, genre: string): (res: (Registry, Outcome))
    ensures isbn in r.books ==> res == (r, Failed(DuplicateIsbn))
    ensures isbn !in r.books ==> res.1 == Done
    ensures isbn !in r.books ==>
      && res.0.books == r.books[isbn := Book(isbn, title, authorName, year, copies, copies, genre)]
      && res.0.bookOrder == r.bookOrder + [isbn]
      && res.0.customers == r.customers
      && res.0.waitlist == r.waitlist
  {
    if isbn in r.books then
      (r, Failed(DuplicateIsbn))
    else
      var author := if authorName in r.authors then r.authors[authorName]
                    else Author(authorName, authorBirthYear, {});
      var book := Book(isbn, title, authorName, year, copies, copies, genre);
      var filed := if genre in r.genreIndex then r.genreIndex[genre] else {};
      (r.(books := r.books[isbn := book],
          bookOrder := r.bookOrder + [isbn],
          authors := r.authors[authorName := author.(books := author.books + {isbn})],
          genreIndex := r.genreIndex[genre := filed + {isbn}]),
       Done)
  }

  /**
   * A new book is recorded under its author, created with the given birth
   * year unless the name is known, and filed under its genre; every other
   * author and genre is left as it was.
   */
  lemma AddBookFiles(r: Registry, isbn: Isbn, title: string, authorName: string, authorBirthYear: int,
                     year: int, copies: int, genre: string)
    requires isbn !in r.books
    ensures var r' := AddBook(r, isbn, title, authorName, authorBirthYear, year, copies, genre).0;
      && r'.authors.Keys == r.authors.Keys + {authorName}
      && r'.authors[authorName].name == (if authorName in r.authors then r.authors[authorName].name else authorName)
      && r'.authors[authorName].birthYear ==
           (if authorName in r.authors then r.authors[authorName].birthYear else authorBirthYear)
      && r'.authors[authorName].books ==
           (if authorName in r.authors then r.authors[authorName].books else {}) + {isbn}
      && (forall name :: name in r.authors && name != authorName ==> r'.authors[name] == r.authors[name])
      && r'.genreIndex.Keys == r.genreIndex.Keys + {genre}
      && r'.genreIndex[genre] == (if genre in r.genreIndex then r.genreIndex[genre] else {}) + {isbn}
      && (forall g :: g in r.genreIndex && g != genre ==> r'.genreIndex[g] == r.genreIndex[g])
  {
  }

  /** Registers a customer under the next id, the number of customers plus one. */
  function RegisterCustomer(r: Registry, name: string, email: string): (res: (Registry, CustomerId))
    ensures res.1 == |r.customers| + 1
    ensures res.0 == r.(customers := r.customers[res.1 := NewCustomer(res.1, name, email)])
  {
    var id := |r.customers| + 1;
    (r.(customers := r.customers[id := NewCustomer(id, name, email)]), id)
  }

  /**
   * Lends a copy of book `isbn` to customer `customerId` on day `now`.
   * Fails, changing nothing, for an unknown ISBN, then an unknown
   * customer, then a book with no copy available.
   */
  function BorrowBook(r: Registry, isbn: Isbn, customerId: CustomerId, now: Day): (res: (Registry, Outcome))
    ensures isbn !in r.books ==> res == (r, Failed(UnknownIsbn))
    ensures isbn in r.books && customerId !in r.customers ==> res == (r, Failed(UnknownCustomer))
    ensures isbn in r.books && customerId in r.customers && r.books[isbn].availableCopies <= 0 ==>
              res == (r, Failed(Unavailable))
    ensures res.1 == Done <==>
              isbn in r.books && customerId in r.customers && r.books[isbn].availableCopies > 0
    ensures res.1 == Done ==>
      && res.0.books == r.books[isbn := r.books[isbn].(availableCopies := r.books[isbn].availableCopies - 1)]
      && res.0.customers == r.customers[customerId := r.customers[customerId].BorrowBook(r.books[isbn], now).0]
      && res.0 == r.(books := res.0.books, customers := res.0.customers)
  {
    if isbn !in r.books then (r, Failed(UnknownIsbn))
    else if customerId !in r.customers then (r, Failed(UnknownCustomer))
    else
      var book := r.books[isbn];
      if book.availableCopies <= 0 then (r, Failed(Unavailable))
      else
        var lent := r.customers[customerId].BorrowBook(book, now);
        (r.(books := r.books[isbn := lent.1], customers := r.customers[customerId := lent.0]), Done)
  }

  /**
   * Takes back book `isbn` from customer `customerId`. Fails, changing
   * nothing, for an unknown ISBN, then an unknown customer, then a book
   * the customer does not hold.
   */
  function ReturnBook(r: Registry, isbn: Isbn, customerId: CustomerId): (res: (Registry, Outcome))
    ensures isbn !in r.books ==> res == (r, Failed(UnknownIsbn))
    ensures isbn in r.books && customerId !in r.customers ==> res == (r, Failed(UnknownCustomer))
    ensures isbn in r.books && customerId in r.customers && r.books[isbn].isbn !in r.customers[customerId].loans ==>
              res == (r, Failed(NotBorrowed))
    ensures res.1 == Done <==>
              isbn in r.books && customerId in r.customers && r.books[isbn].isbn in r.customers[customerId].loans
    ensures res.1 == Done ==>
      && res.0.books == r.books[isbn := r.books[isbn].(availableCopies := r.books[isbn].availableCopies + 1)]
      && res.0.customers == r.customers[customerId := r.customers[customerId].ReturnBook(r.books[isbn]).0]
      && res.0 == r.(books := res.0.books, customers := res.0.customers)
  {
    if isbn !in r.books then (r, Failed(UnknownIsbn))
    else if customerId !in r.customers then (r, Failed(UnknownCustomer))
    else
      var back := r.customers[customerId].ReturnBook(r.books[isbn]);
      if !back.2 then (r, Failed(NotBorrowed))
      else (r.(books := r.books[isbn := back.1], customers := r.customers[customerId := back.0]), Done)
  }

  /**
   * Puts customer `customerId` at the end of the waitlist of book `isbn`,
   * creating the list if needed and keeping earlier entries, duplicates
   * included. Fails, changing nothing, for an unknown ISBN or customer.
   */
  function AddToWaitlist(r: Registry, isbn: Isbn, customerId: CustomerId): (res: (Registry, Outcome))
    ensures isbn !in r.books ==> res == (r, Failed(UnknownIsbn))
    ensures isbn in r.books && customerId !in r.customers ==> res == (r, Failed(UnknownCustomer))
    ensures res.1 == Done <==> isbn in r.books && customerId in r.customers
    ensures res.1 == Done ==>
      && res.0.waitlist.Keys == r.waitlist.Keys + {isbn}
      && res.0.waitlist[isbn] == (if isbn in r.waitlist then r.waitlist[isbn] else []) + [customerId]
      && (forall other :: other in r.waitlist && other != isbn ==> res.0.waitlist[other] == r.waitlist[other])
      && res.0 == r.(waitlist := res.0.waitlist)
  {
    if isbn !in r.books then (r, Failed(UnknownIsbn))
    else if customerId !in r.customers then (r, Failed(UnknownCustomer))
    else
      var queue := if isbn in r.waitlist then r.waitlist[isbn] else [];
      (r.(waitlist := r.waitlist[isbn := queue + [customerId]]), Done)
  }

  // ---------------------------------------------------------------------
  // Counting holders
  // ---------------------------------------------------------------------

  /** Replacing one customer's record changes the holder count only by that customer. */
  lemma HoldersAfterUpdate(cs: map<CustomerId, Customer>, id: CustomerId, c: Customer, isbn: Isbn)
    requires id in cs
    ensures Holders(cs[id := c], isbn) + (if isbn in cs[id].loans then 1 else 0)
         == Holders(cs, isbn) + (if isbn in c.loans then 1 else 0)
  {
    var cs' := cs[id := c];
    HolderIdsSplit(cs, id, isbn);
    HolderIdsSplit(cs', id, isbn);
    OthersUnchanged(cs, id, c, isbn);
  }

  /** Replacing customer `id` does not change who else holds the book. */
  lemma OthersUnchanged(cs: map<CustomerId, Customer>, id: CustomerId, c: Customer, isbn: Isbn)
    ensures HolderIds(cs[id := c], isbn) - {id} == HolderIds(cs, isbn) - {id}
  {
    var cs' := cs[id := c];
    forall k ensures k in HolderIds(cs', isbn) - {id} <==> k in HolderIds(cs, isbn) - {id} {
      if k != id {
        assert k in cs' <==> k in cs;
        if k in cs {
          assert cs'[k] == cs[k];
        }
      }
    }
  }

  /** The holders are the holders other than `id`, plus `id` itself if it holds the book. */
  lemma HolderIdsSplit(cs: map<CustomerId, Customer>, id: CustomerId, isbn: Isbn)
    requires id in cs
    ensures Holders(cs, isbn) == |HolderIds(cs, isbn) - {id}| + (if isbn in cs[id].loans then 1 else 0)
  {
    var all := HolderIds(cs, isbn);
    if isbn in cs[id].loans {
      assert all == (all - {id}) + {id};
    } else {
      assert all == all - {id};
    }
  }

  /** A newcomer without loans does not change any holder count. */
  lemma HoldersAfterInsert(cs: map<CustomerId, Customer>, id: CustomerId, c: Customer, isbn: Isbn)
    requires id !in cs && c.loans == map[]
    ensures Holders(cs[id := c], isbn) == Holders(cs, isbn)
  {
    assert HolderIds(cs[id := c], isbn) == HolderIds(cs, isbn) by {
      forall k ensures k in HolderIds(cs[id := c], isbn) <==> k in HolderIds(cs, isbn) {
      }
    }
  }

  /** Nobody holds a book that no customer's loans mention. */
  lemma HoldersNone(cs: map<CustomerId, Customer>, isbn: Isbn)
    requires forall id :: id in cs ==> isbn !in cs[id].loans
    ensures Holders(cs, isbn) == 0
  {
    assert HolderIds(cs, isbn) == {} by {
      forall k ensures k !in HolderIds(cs, isbn) {
      }
    }
  }

  // ---------------------------------------------------------------------
  // Every operation keeps the invariant
  // ---------------------------------------------------------------------

  lemma AddBookKeepsValid(r: Registry, isbn: Isbn, title: string, authorName: string, authorBirthYear: int,
                          year: int, copies: int, genre: string)
    requires Valid(r)
    ensures Valid(AddBook(r, isbn, title, authorName, authorBirthYear, year, copies, genre).0)
  {
    var r' := AddBook(r, isbn, title, authorName, authorBirthYear, year, copies, genre).0;
    if isbn !in r.books {
      var book := Book(isbn, title, authorName, year, copies, copies, genre);
      AddBookFiles(r, isbn, title, authorName, authorBirthYear, year, copies, genre);
      assert r' == r.(books := r.books[isbn := book], bookOrder := r.bookOrder + [isbn],
                      authors := r'.authors, genreIndex := r'.genreIndex);
      NewBookKeepsValid(r, isbn, book, r'.authors, r'.genreIndex);
    }
  }

  lemma NewBookKeepsValid(r: Registry, isbn: Isbn, book: Book,
                          authors': map<string, Author>, index': map<string, set<Isbn>>)
    requires Valid(r) && isbn !in r.books
    requires book.isbn == isbn && book.availableCopies == book.copies
    requires authors'.Keys == r.authors.Keys + {book.author}
    requires authors'[book.author].name == book.author
    requires authors'[book.author].books == (if book.author in r.authors then r.authors[book.author].books else {}) + {isbn}
    requires forall name :: name in r.authors && name != book.author ==> authors'[name] == r.authors[name]
    requires index'.Keys == r.genreIndex.Keys + {book.genre}
    requires index'[book.genre] == (if book.genre in r.genreIndex then r.genreIndex[book.genre] else {}) + {isbn}
    requires forall g :: g in r.genreIndex && g != book.genre ==> index'[g] == r.genreIndex[g]
    ensures Valid(r.(books := r.books[isbn := book], bookOrder := r.bookOrder + [isbn],
                     authors := authors', genreIndex := index'))
  {
    assert r.books[isbn := book].Keys == r.books.Keys + {isbn};
    NewBookKeyed(r.books, r.bookOrder, isbn, book);
    NewBookLinked(r.books, r.authors, authors', isbn, book);
    NewBookIndexed(r.books, r.genreIndex, index', isbn, book);
    NewBookLoans(r.customers, r.books.Keys, isbn);
    NewBookCounted(r.books, r.customers, isbn, book);
    NewBookWaitlists(r.waitlist, r.books.Keys, r.customers.Keys, isbn);
  }

  lemma NewBookKeyed(books: map<Isbn, Book>, order: seq<Isbn>, isbn: Isbn, book: Book)
    requires BooksKeyed(books, order) && isbn !in books && book.isbn == isbn
    ensures BooksKeyed(books[isbn := book], order + [isbn])
  {
    assert isbn !in order;
  }

  lemma NewBookLinked(books: map<Isbn, Book>, authors: map<string, Author>, authors': map<string, Author>,
                      isbn: Isbn, book: Book)
    requires AuthorsLinked(books, authors) && isbn !in books
    requires authors'.Keys == authors.Keys + {book.author}
    requires authors'[book.author].name == book.author
    requires authors'[book.author].books == (if book.author in authors then authors[book.author].books else {}) + {isbn}
    requires forall name :: name in authors && name != book.author ==> authors'[name] == authors[name]
    ensures AuthorsLinked(books[isbn := book], authors')
  {
  }

  lemma NewBookIndexed(books: map<Isbn, Book>, index: map<string, set<Isbn>>, index': map<string, set<Isbn>>,
                       isbn: Isbn, book: Book)
    requires GenresIndexed(books, index) && isbn !in books
    requires index'.Keys == index.Keys + {book.genre}
    requires index'[book.genre] == (if book.genre in index then index[book.genre] else {}) + {isbn}
    requires forall g :: g in index && g != book.genre ==> index'[g] == index[g]
    ensures GenresIndexed(books[isbn := book], index')
  {
  }

  lemma NewBookLoans(customers: map<CustomerId, Customer>, catalogued: set<Isbn>, isbn: Isbn)
    requires LoansKept(customers, catalogued)
    ensures LoansKept(customers, catalogued + {isbn})
  {
  }

  lemma NewBookCounted(books: map<Isbn, Book>, customers: map<CustomerId, Customer>, isbn: Isbn, book: Book)
    requires CopiesAccounted(books, customers) && LoansKept(customers, books.Keys) && isbn !in books
    requires book.availableCopies == book.copies
    ensures CopiesAccounted(books[isbn := book], customers)
  {
    HoldersNone(customers, isbn);
  }

  lemma NewBookWaitlists(waitlist: map<Isbn, seq<CustomerId>>, catalogued: set<Isbn>, registered: set<CustomerId>,
                         isbn: Isbn)
    requires WaitlistsKnown(waitlist, catalogued, registered)
    ensures WaitlistsKnown(waitlist, catalogued + {isbn}, registered)
  {
  }

  lemma RegisterCustomerKeepsValid(r: Registry, name: string, email: string)
    requires Valid(r)
    ensures Valid(RegisterCustomer(r, name, email).0)
  {
    var (r', id) := RegisterCustomer(r, name, email);
    var c := NewCustomer(id, name, email);
    assert r'.customers == r.customers[id := c];
    RegisterKeepsNumbered(r.customers, c);
    assert LoansKept(r'.customers, r.books.Keys);
    forall isbn | isbn in r.books
      ensures Holders(r'.customers, isbn) == Holders(r.customers, isbn)
    {
      HoldersAfterInsert(r.customers, id, c, isbn);
    }
    assert CopiesAccounted(r'.books, r'.customers);
    assert r'.customers.Keys == r.customers.Keys + {id};
    NewCustomerWaitlists(r.waitlist, r.books.Keys, r.customers.Keys, id);
  }

  /** Adding the customer numbered N+1 to customers numbered 1..N gives customers numbered 1..N+1. */
  lemma RegisterKeepsNumbered(customers: map<CustomerId, Customer>, c: Customer)
    requires Numbered(customers)
    ensures |customers| + 1 !in customers
    ensures |customers[|customers| + 1 := c]| == |customers| + 1
    ensures Numbered(customers[|customers| + 1 := c])
  {
    var id := |customers| + 1;
    FreshKeyGrows(customers, id, c);
  }

  lemma FreshKeyGrows(m: map<CustomerId, Customer>, id: CustomerId, c: Customer)
    requires id !in m
    ensures |m[id := c]| == |m| + 1
  {
    assert m[id := c].Keys == m.Keys + {id};
  }

  lemma NewCustomerWaitlists(waitlist: map<Isbn, seq<CustomerId>>, catalogued: set<Isbn>, registered: set<CustomerId>,
                             id: CustomerId)
    requires WaitlistsKnown(waitlist, catalogued, registered)
    ensures WaitlistsKnown(waitlist, catalogued, registered + {id})
  {
  }

  /** Changing only a book's available count keeps the catalog-side invariants. */
  lemma CountChangeKeepsCatalog(r: Registry, isbn: Isbn, available: int)
    requires Valid(r) && isbn in r.books
    ensures var books := r.books[isbn := r.books[isbn].(availableCopies := available)];
            && books.Keys == r.books.Keys
            && BooksKeyed(books, r.bookOrder)
            && AuthorsLinked(books, r.authors)
            && GenresIndexed(books, r.genreIndex)
  {
    var books := r.books[isbn := r.books[isbn].(availableCopies := available)];
    assert books.Keys == r.books.Keys;
  }

  /**
   * Replacing customer `id`'s record by one that keeps the id, is well
   * formed and holds only catalogued books keeps the customer-side
   * invariants.
   */
  lemma CustomerChangeKeepsLoans(r: Registry, id: CustomerId, c: Customer)
    requires Valid(r) && id in r.customers
    requires c.id == id && c.WellFormed()
    requires forall isbn :: isbn in c.loans ==> isbn in r.books
    ensures var customers := r.customers[id := c];
            && customers.Keys == r.customers.Keys
            && Numbered(customers)
            && LoansKept(customers, r.books.Keys)
  {
    var customers := r.customers[id := c];
    assert customers.Keys == r.customers.Keys;
    assert |customers| == |r.customers|;
  }

  /**
   * Replacing one customer's record and setting one book's available count
   * keeps the invariant, provided the customer gains no other book and the
   * new count still leaves room for every holder.
   */
  lemma LoanChangeKeepsValid(r: Registry, isbn: Isbn, available: int, id: CustomerId, c: Customer, r': Registry)
    requires Valid(r) && isbn in r.books && id in r.customers
    requires c.id == id && c.WellFormed()
    requires forall j :: j in c.loans ==> j in r.books
    requires forall j :: j in c.loans && j != isbn ==> j in r.customers[id].loans
    requires available + Holders(r.customers[id := c], isbn) <= r.books[isbn].copies
    requires 0 <= available || available == r.books[isbn].copies
    requires r'.books == r.books[isbn := r.books[isbn].(availableCopies := available)]
    requires r'.customers == r.customers[id := c]
    requires r' == r.(books := r'.books, customers := r'.customers)
    ensures Valid(r')
  {
    CountChangeKeepsCatalog(r, isbn, available);
    CustomerChangeKeepsLoans(r, id, c);
    LoanChangeCounted(r.books, r.customers, isbn, available, id, c);
  }

  lemma LoanChangeCounted(books: map<Isbn, Book>, customers: map<CustomerId, Customer>,
                          isbn: Isbn, available: int, id: CustomerId, c: Customer)
    requires CopiesAccounted(books, customers) && isbn in books && id in customers
    requires forall j :: j in c.loans && j != isbn ==> j in customers[id].loans
    requires available + Holders(customers[id := c], isbn) <= books[isbn].copies
    requires 0 <= available || available == books[isbn].copies
    ensures CopiesAccounted(books[isbn := books[isbn].(availableCopies := available)], customers[id := c])
  {
    var books' := books[isbn := books[isbn].(availableCopies := available)];
    forall j | j in books'
      ensures books'[j].availableCopies + Holders(customers[id := c], j) <= books'[j].copies
      ensures 0 <= books'[j].availableCopies || books'[j].availableCopies == books'[j].copies
    {
      if j != isbn {
        HoldersAfterUpdate(customers, id, c, j);
      }
    }
  }

  lemma BorrowBookKeepsValid(r: Registry, isbn: Isbn, customerId: CustomerId, now: Day)
    requires Valid(r)
    ensures Valid(BorrowBook(r, isbn, customerId, now).0)
  {
    var (r', outcome) := BorrowBook(r, isbn, customerId, now);
    if outcome == Done {
      var book := r.books[isbn];
      var c' := r.customers[customerId].BorrowBook(book, now).0;
      BorrowKeepsWellFormed(r.customers[customerId], book, now);
      assert book.isbn == isbn;
      HoldersAfterUpdate(r.customers, customerId, c', isbn);
      LoanChangeKeepsValid(r, isbn, book.availableCopies - 1, customerId, c', r');
    }
  }

  lemma ReturnBookKeepsValid(r: Registry, isbn: Isbn, customerId: CustomerId)
    requires Valid(r)
    ensures Valid(ReturnBook(r, isbn, customerId).0)
  {
    var (r', outcome) := ReturnBook(r, isbn, customerId);
    if outcome == Done {
      var book := r.books[isbn];
      var c := r.customers[customerId];
      var c' := c.ReturnBook(book).0;
      assert book.isbn == isbn;
      ReturnShrinks(c, book);
      HolderIdsSplit(r.customers, customerId, isbn);
      HoldersAfterUpdate(r.customers, customerId, c', isbn);
      assert Holders(r.customers[customerId := c'], isbn) + 1 == Holders(r.customers, isbn);
      LoanChangeKeepsValid(r, isbn, book.availableCopies + 1, customerId, c', r');
    }
  }

  /** A successful return leaves a well-formed record holding a subset of the earlier books, without `book`. */
  lemma ReturnShrinks(c: Customer, book: Book)
    requires c.WellFormed() && book.isbn in c.loans
    ensures var c' := c.ReturnBook(book).0;
            && c'.id == c.id && c'.WellFormed()
            && book.isbn !in c'.loans
            && forall j :: j in c'.loans ==> j in c.loans
  {
    ReturnKeepsWellFormed(c, book);
  }

  lemma AddToWaitlistKeepsValid(r: Registry, isbn: Isbn, customerId: CustomerId)
    requires Valid(r)
    ensures Valid(AddToWaitlist(r, isbn, customerId).0)
  {
    var (r', outcome) := AddToWaitlist(r, isbn, customerId);
    if outcome == Done {
      WaitlistAppendKnown(r.waitlist, r.books.Keys, r.customers.Keys, isbn, customerId, r'.waitlist);
    }
  }

  lemma WaitlistAppendKnown(waitlist: map<Isbn, seq<CustomerId>>, catalogued: set<Isbn>, registered: set<CustomerId>,
                            isbn: Isbn, id: CustomerId, waitlist': map<Isbn, seq<CustomerId>>)
    requires WaitlistsKnown(waitlist, catalogued, registered) && isbn in catalogued && id in registered
    requires waitlist'.Keys == waitlist.Keys + {isbn}
    requires waitlist'[isbn] == (if isbn in waitlist then waitlist[isbn] else []) + [id]
    requires forall other :: other in waitlist && other != isbn ==> waitlist'[other] == waitlist[other]
    ensures WaitlistsKnown(waitlist', catalogued, registered)
  {
  }

  // ---------------------------------------------------------------------
  // Properties that relate several calls
  // ---------------------------------------------------------------------

  /**
   * A successful borrow followed by a return of the same book by the same
   * customer succeeds and restores every book's available copies; when the
   * customer did not hold the book before, the whole registry is restored.
   */
  lemma BorrowThenReturnRestores(r: Registry, isbn: Isbn, customerId: CustomerId, now: Day)
    requires Valid(r)
    requires BorrowBook(r, isbn, customerId, now).1 == Done
    ensures ReturnBook(BorrowBook(r, isbn, customerId, now).0, isbn, customerId).1 == Done
    ensures ReturnBook(BorrowBook(r, isbn, customerId, now).0, isbn, customerId).0.books == r.books
    ensures isbn !in r.customers[customerId].loans ==>
              ReturnBook(BorrowBook(r, isbn, customerId, now).0, isbn, customerId).0 == r
  {
    var book := r.books[isbn];
    var c := r.customers[customerId];
    var (c1, b1, _) := c.BorrowBook(book, now);
    var r1 := BorrowBook(r, isbn, customerId, now).0;
    assert r1.books[isbn] == b1 && r1.customers[customerId] == c1;
    var r2 := ReturnBook(r1, isbn, customerId).0;
    assert r2.books == r1.books[isbn := b1.(availableCopies := b1.availableCopies + 1)];
    assert r2.books == r.books;
    if isbn !in c.loans {
      BorrowThenReturn(c, book, now);
      assert r2.customers == r.customers;
    }
  }

  /** Registers each (name, email) pair in turn and collects the ids handed out. */
  function RegisterAll(r: Registry, people: seq<(string, string)>): (res: (Registry, seq<CustomerId>))
    ensures |res.1| == |people|
  {
    if people == [] then (r, [])
    else
      var before := RegisterAll(r, people[..|people| - 1]);
      var after := RegisterCustomer(before.0, people[|people| - 1].0, people[|people| - 1].1);
      (after.0, before.1 + [after.1])
  }

  /**
   * Registration hands out consecutive fresh ids: after N customers, the
   * next registrations get N+1, N+2, ... in order, and the ids stay 1..M.
   */
  lemma {:induction false} RegisterAllNumbersInOrder(r: Registry, people: seq<(string, string)>)
    requires Numbered(r.customers)
    ensures Numbered(RegisterAll(r, people).0.customers)
    ensures |RegisterAll(r, people).0.customers| == |r.customers| + |people|
    ensures forall k :: 0 <= k < |people| ==> RegisterAll(r, people).1[k] == |r.customers| + 1 + k
  {
    if people != [] {
      var rest := people[..|people| - 1];
      RegisterAllNumbersInOrder(r, rest);
      var before := RegisterAll(r, rest).0;
      var last := people[|people| - 1];
      RegisterKeepsNumbered(before.customers, NewCustomer(|before.customers| + 1, last.0, last.1));
    }
  }

  /** From an empty registry, N registrations yield the ids 1..N in order. */
  lemma RegisterFromEmpty(people: seq<(string, string)>)
    ensures RegisterAll(Empty, people).1 == seq(|people|, k => k + 1)
  {
    var ids := RegisterAll(Empty, people).1;
    var expected := seq(|people|, k => k + 1);
    RegisterAllNumbersInOrder(Empty, people);
    assert |Empty.customers| == 0;
    forall k | 0 <= k < |ids|
      ensures ids[k] == expected[k]
    {
    }
  }

  /** Two waitlist entries by the same customer are both kept, in order. */
  lemma WaitlistKeepsDuplicates(r: Registry, isbn: Isbn, customerId: CustomerId)
    requires isbn in r.books && customerId in r.customers
    ensures var once := AddToWaitlist(r, isbn, customerId).0;
            var twice := AddToWaitlist(once, isbn, customerId).0;
            twice.waitlist[isbn] == (if isbn in r.waitlist then r.waitlist[isbn] else []) + [customerId, customerId]
  {
  }
}
