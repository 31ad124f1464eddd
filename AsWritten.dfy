/**
 * Four places where the original program, read literally, does not do
 * what the rest of it evidently expects. Each is modelled here as
 * written, next to a lemma that exhibits the discrepancy; the rest of the
 * model follows the corrected behaviour, proved in `Records` and
 * `Queries`.
 */
module AsWritten {
  import opened Records
  import opened Catalog
  import opened Queries

  /** What a call of the original code does: it returns a value, or it raises an exception. */
  datatype Run<T> = Returns(value: T) | Raises(exception: string)

  /** One line printed by the customer listing. */
  datatype Line =
    | Text(text: string)
    | NoBorrowedBooks(customerId: CustomerId)   // "Customer ID: <id> has no borrowed books."

  // ---------------------------------------------------------------------
  // Lending: borrowed_books is created as a dict but appended to
  // ---------------------------------------------------------------------

  /**
   * `Customer.borrow_book` as written. The customer's `borrowed_books` is
   * the empty dict it was created with; a dict has no `append`, so a
   * borrow with a copy available raises before the copy count changes,
   * and one without a copy reports and changes nothing.
   */
  function BorrowAsWritten(c: Customer, book: Book): (res: Run<(Customer, Book)>)
    ensures res.Raises? <==> book.availableCopies > 0
    ensures res.Returns? ==> res.value == (c, book)
  {
    if book.availableCopies > 0 then Raises("AttributeError: 'dict' object has no attribute 'append'")
    else Returns((c, book))
  }

  /**
   * Whenever the intended borrow would record a loan, the borrow as
   * written raises instead; so as written no customer ever holds a book.
   */
  lemma BorrowAsWrittenNeverLends(c: Customer, book: Book, now: Day)
    ensures c.BorrowBook(book, now).2 <==> BorrowAsWritten(c, book).Raises?
    ensures c.BorrowBook(book, now).2 ==> book.isbn in c.BorrowBook(book, now).0.loans
    ensures BorrowAsWritten(c, book).Returns? ==> BorrowAsWritten(c, book).value.0.loans == c.loans
  {
  }

  // ---------------------------------------------------------------------
  // The customer listing calls a method that does not exist
  // ---------------------------------------------------------------------

  /**
   * `display_customer_books` as written: for a registered customer it
   * calls `get_borrowd_books`, which `Customer` does not define; an
   * unknown id is reported.
   */
  function DisplayCustomerBooksAsWritten(r: Registry, customerId: CustomerId): (res: Run<Result<Borrowed>>)
    ensures res.Raises? <==> customerId in r.customers
    ensures res.Returns? ==> res.value == Err(UnknownCustomer)
  {
    if customerId in r.customers then Raises("AttributeError: 'Customer' object has no attribute 'get_borrowd_books'")
    else Returns(Err(UnknownCustomer))
  }

  /** As written the listing never reaches a customer's titles; the corrected listing always does. */
  lemma ListingAsWrittenAlwaysRaises(r: Registry, customerId: CustomerId)
    requires customerId in r.customers
    ensures DisplayCustomerBooksAsWritten(r, customerId).Raises?
    ensures CustomerBooks(r, customerId) == Ok(r.customers[customerId].GetBorrowedBooks(r.books))
  {
  }

  // ---------------------------------------------------------------------
  // The "no titles" message is a string, and a string is iterable
  // ---------------------------------------------------------------------

  /**
   * The lines `display_customer_books` prints once the method name is
   * spelled right: `get_borrowed_books` answers a list of titles or a
   * message string, and the listing prints each element of whatever it
   * got when that is non-empty, its own "no borrowed books" line
   * otherwise. For a message string the elements are its characters.
   */
  function ShownOnceSpelledRight(c: Customer, books: map<Isbn, Book>): (lines: seq<Line>)
    ensures |lines| >= 1
  {
    var elements := match c.GetBorrowedBooks(books)
                    case Titles(ts) => ts
                    case NoTitles(m) => Characters(m);
    if elements != [] then Lines(elements) else [NoBorrowedBooks(c.id)]
  }

  /** Each element printed on its own line. */
  function Lines(elements: seq<string>): (lines: seq<Line>)
    ensures |lines| == |elements|
    ensures forall i :: 0 <= i < |elements| ==> lines[i] == Text(elements[i])
  {
    if elements == [] then [] else [Text(elements[0])] + Lines(elements[1..])
  }

  /** The characters of `m`, each as a one-character string. */
  function Characters(m: string): (cs: seq<string>)
    ensures |cs| == |m|
    ensures forall i :: 0 <= i < |m| ==> cs[i] == [m[i]]
  {
    if m == [] then [] else [[m[0]]] + Characters(m[1..])
  }

  /**
   * Once the call is spelled right, a customer without loans gets the
   * message spelled out one character per line, and the listing's own "no
   * borrowed books" line is never printed for a customer whose held books
   * are all catalogued.
   */
  lemma NoTitlesSpelledOut(c: Customer, books: map<Isbn, Book>)
    requires forall i :: 0 <= i < |c.loanOrder| ==> c.loanOrder[i] in books
    ensures NoBorrowedBooks(c.id) !in ShownOnceSpelledRight(c, books)
    ensures c.loanOrder == [] ==>
              var m := c.name + " has no titles.";
              |ShownOnceSpelledRight(c, books)| == |m| &&
              forall i :: 0 <= i < |m| ==> ShownOnceSpelledRight(c, books)[i] == Text([m[i]])
  {
    var lines := ShownOnceSpelledRight(c, books);
    if c.loanOrder == [] {
      var m := c.name + " has no titles.";
      assert |Characters(m)| > 0;
    } else {
      var ts := c.GetBorrowedBooks(books).titles;
      assert |ts| == |c.loanOrder| > 0;
    }
  }

  // ---------------------------------------------------------------------
  // The overdue report unpacks three values from pairs
  // ---------------------------------------------------------------------

  /**
   * `check_late_returns` as written: it collects (customer, book) pairs
   * and then unpacks each entry into three names, which raises as soon as
   * there is one entry; with no late loan it returns normally.
   */
  function LateReportAsWritten(r: Registry, now: Day, threshold: int): (res: Run<seq<LateReturn>>)
    ensures res.Returns? ==> res.value == []
  {
    if LateReturns(r, now, threshold) == [] then Returns([])
    else Raises("ValueError: not enough values to unpack (expected 3, got 2)")
  }

  /** As written, the report raises exactly when some loan is overdue, so it never lists one. */
  lemma LateReportAsWrittenRaisesWhenLate(r: Registry, now: Day, threshold: int)
    requires Valid(r)
    ensures LateReportAsWritten(r, now, threshold).Raises? <==>
              exists id, isbn :: id in r.customers && isbn in r.customers[id].loans &&
                                 now - r.customers[id].loans[isbn] > threshold
  {
    LateReturnsExact(r, now, threshold);
    var late := LateReturns(r, now, threshold);
    if late != [] {
      assert late[0] in late;
    } else {
      forall id, isbn | id in r.customers && isbn in r.customers[id].loans
        ensures now - r.customers[id].loans[isbn] <= threshold
      {
        var e := LateReturn(id, isbn, now - r.customers[id].loans[isbn]);
        assert e !in late;
      }
    }
  }
}
