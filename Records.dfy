/**
 * The records the catalog registry owns: authors, books and customers,
 * together with the customer-side halves of borrowing and returning and
 * the small text and sequence helpers the queries need.
 *
 * Books and customers are values here. The registry keeps each of them
 * under its key (ISBN, customer id), and a book is referred to by its ISBN
 * wherever the original program holds a reference to the Book object.
 */
module Records {

  type Isbn = string
  type CustomerId = int

  /** A point in time, counted in whole days. */
  type Day = int

  /** The reported (never fatal) failures of the registry's operations. */
  datatype Error =
    | DuplicateIsbn     // add_book with an ISBN already in the catalog
    | UnknownIsbn       // no book with that ISBN
    | UnknownCustomer   // no customer with that id
    | Unavailable       // every copy of the book is out
    | NotBorrowed       // return of a book the customer does not hold

  datatype Outcome = Done | Failed(error: Error)

  datatype Result<T> = Ok(value: T) | Err(error: Error)

  /** An author; `books` holds the ISBNs of the books recorded for them. */
  datatype Author = Author(name: string, birthYear: int, books: set<Isbn>)

  /** A catalogued title; `author` is the author's name, the key of the author registry. */
  datatype Book = Book(
    isbn: Isbn,
    title: string,
    author: string,
    year: int,
    copies: int,
    availableCopies: int,
    genre: string)

  predicate Distinct<T(==)>(s: seq<T>) {
    forall i, j :: 0 <= i < j < |s| ==> s[i] != s[j]
  }

  /** `s` without `x`; the order of the other elements is kept. */
  function Remove(s: seq<Isbn>, x: Isbn): (r: seq<Isbn>)
    ensures forall y :: y in r <==> y in s && y != x
    ensures Distinct(s) ==> Distinct(r)
  {
    if s == [] then []
    else if s[0] == x then Remove(s[1..], x)
    else
      var rest := Remove(s[1..], x);
      assert Distinct(s) ==> s[0] !in s[1..];
      [s[0]] + rest
  }

  /** Appending an element that was not there and removing it again gives back the original. */
  lemma {:induction false} RemoveAppended(s: seq<Isbn>, x: Isbn)
    requires x !in s
    ensures Remove(s + [x], x) == s
  {
    if s == [] {
      assert [x][1..] == [];
    } else {
      assert (s + [x])[1..] == s[1..] + [x];
      RemoveAppended(s[1..], x);
    }
  }

  /** A sequence without repetitions has as many elements as the set of its elements. */
  lemma {:induction false} DistinctCardinality(s: seq<Isbn>)
    requires Distinct(s)
    ensures |set x | x in s| == |s|
  {
    if s != [] {
      var rest := s[..|s| - 1];
      var last := s[|s| - 1];
      DistinctCardinality(rest);
      assert last !in rest;
      assert (set x | x in s) == (set x | x in rest) + {last};
    }
  }

  /**
   * A customer. The original program creates `borrowed_books` as a
   * dictionary but then calls the list operations `append` and `remove` on
   * it, so every borrow fails there; the overdue check reads it as a
   * mapping from book to borrow time. The model follows that intended
   * shape: `loans` maps each held ISBN to the day it was borrowed, and
   * `loanOrder` lists the held ISBNs in the order the dictionary would
   * iterate them (first borrow first; a repeated borrow keeps its place).
   */
  datatype Customer = Customer(
    id: CustomerId,
    name: string,
    email: string,
    loans: map<Isbn, Day>,
    loanOrder: seq<Isbn>)
  {
    /** `loanOrder` lists exactly the held ISBNs, each once. */
    ghost predicate WellFormed() {
      && Distinct(loanOrder)
      && (forall i :: 0 <= i < |loanOrder| ==> loanOrder[i] in loans)
      && (forall isbn :: isbn in loans ==> isbn in loanOrder)
    }

    /**
     * Hands one copy of `book` to this customer: succeeds exactly when a
     * copy is available, then records the loan at day `now` and takes one
     * copy off the book.
     */
    function BorrowBook(book: Book, now: Day): (res: (Customer, Book, bool))
      ensures res.2 <==> book.availableCopies > 0
      ensures !res.2 ==> res.0 == this && res.1 == book
      ensures res.2 ==> res.1 == book.(availableCopies := book.availableCopies - 1)
      ensures res.2 ==> res.0.loans == loans[book.isbn := now]
      ensures res.2 ==> res.0.loanOrder == if book.isbn in loans then loanOrder else loanOrder + [book.isbn]
      ensures res.0.id == id && res.0.name == name && res.0.email == email
    {
      if book.availableCopies > 0 then
        var order := if book.isbn in loans then loanOrder else loanOrder + [book.isbn];
        (this.(loans := loans[book.isbn := now], loanOrder := order),
         book.(availableCopies := book.availableCopies - 1),
         true)
      else
        (this, book, false)
    }

    /**
     * Takes `book` back from this customer: succeeds exactly when the
     * customer holds it, then drops the loan and puts one copy back.
     */
    function ReturnBook(book: Book): (res: (Customer, Book, bool))
      ensures res.2 <==> book.isbn in loans
      ensures !res.2 ==> res.0 == this && res.1 == book
      ensures res.2 ==> res.1 == book.(availableCopies := book.availableCopies + 1)
      ensures res.2 ==> res.0.loans == loans - {book.isbn} && book.isbn !in res.0.loans
      ensures res.2 ==> res.0.loanOrder == Remove(loanOrder, book.isbn)
      ensures res.0.id == id && res.0.name == name && res.0.email == email
    {
      if book.isbn in loans then
        var order := Remove(loanOrder, book.isbn);
        (this.(loans := loans - {book.isbn}, loanOrder := order),
         book.(availableCopies := book.availableCopies + 1),
         true)
      else
        (this, book, false)
    }

    /**
     * The titles of the held books in loan order, or, when nothing is
     * held, the message naming the customer. ISBNs missing from `books`
     * cannot occur in a valid registry and are skipped.
     */
    function GetBorrowedBooks(books: map<Isbn, Book>): (res: Borrowed)
      ensures res.NoTitles? <==> loanOrder == []
      ensures res.Titles? && (forall i :: 0 <= i < |loanOrder| ==> loanOrder[i] in books) ==>
                |res.titles| == |loanOrder| && forall i :: 0 <= i < |loanOrder| ==> res.titles[i] == books[loanOrder[i]].title
      ensures res.NoTitles? ==> res.message == name + " has no titles."
    {
      if loanOrder == [] then NoTitles(name + " has no titles.")
      else Titles(Titled(loanOrder, books))
    }
  }

  /** What a customer reports about their loans: the titles, or a message when there are none. */
  datatype Borrowed = Titles(titles: seq<string>) | NoTitles(message: string)

  /** Borrowing keeps a customer's loan record well formed. */
  lemma BorrowKeepsWellFormed(c: Customer, book: Book, now: Day)
    requires c.WellFormed()
    ensures c.BorrowBook(book, now).0.WellFormed()
  {
    if book.availableCopies > 0 && book.isbn !in c.loans {
      var order := c.loanOrder + [book.isbn];
      assert book.isbn !in c.loanOrder;
      assert forall i :: 0 <= i < |c.loanOrder| ==> order[i] == c.loanOrder[i];
    }
  }

  /** Returning keeps a customer's loan record well formed. */
  lemma ReturnKeepsWellFormed(c: Customer, book: Book)
    requires c.WellFormed()
    ensures c.ReturnBook(book).0.WellFormed()
  {
    if book.isbn in c.loans {
      var order := Remove(c.loanOrder, book.isbn);
      assert forall i :: 0 <= i < |order| ==> order[i] in order;
    }
  }

  /** A newly registered customer: the given id, name and email, and no loans. */
  function NewCustomer(id: CustomerId, name: string, email: string): (c: Customer)
    ensures c.id == id && c.name == name && c.email == email
    ensures c.loans == map[] && c.loanOrder == [] && c.WellFormed()
  {
    Customer(id, name, email, map[], [])
  }

  /** The titles of the books listed in `order`, in that order. */
  function Titled(order: seq<Isbn>, books: map<Isbn, Book>): (titles: seq<string>)
    ensures |titles| <= |order|
    ensures (forall i :: 0 <= i < |order| ==> order[i] in books) ==>
              |titles| == |order| && forall i :: 0 <= i < |order| ==> titles[i] == books[order[i]].title
  {
    if order == [] then []
    else
      var earlier := Titled(order[..|order| - 1], books);
      var last := order[|order| - 1];
      assert forall i :: 0 <= i < |order| - 1 ==> order[..|order| - 1][i] == order[i];
      if last in books then earlier + [books[last].title] else earlier
  }

  /** Borrowing a book the customer did not hold and returning it restores both records. */
  lemma BorrowThenReturn(c: Customer, book: Book, now: Day)
    requires c.WellFormed()
    requires book.availableCopies > 0 && book.isbn !in c.loans
    ensures c.BorrowBook(book, now).0.ReturnBook(c.BorrowBook(book, now).1) == (c, book, true)
  {
    var (c1, b1, _) := c.BorrowBook(book, now);
    assert c1.loans == c.loans[book.isbn := now] && c1.loanOrder == c.loanOrder + [book.isbn];
    var back := c1.ReturnBook(b1);
    assert back.2;
    assert back.0.loans == c.loans by {
      assert c1.loans - {book.isbn} == c.loans;
    }
    assert back.0.loanOrder == c.loanOrder by {
      RemoveAppended(c.loanOrder, book.isbn);
    }
    assert back.1 == book;
  }

  /**
   * Borrowing a book already held overwrites its day and keeps its place,
   * yet still takes a copy off the shelf; one return then gives back one
   * copy, so the earlier copy stays out with no loan recording it.
   */
  lemma BorrowAgain(c: Customer, book: Book, now: Day)
    requires book.availableCopies > 0 && book.isbn in c.loans
    ensures var (c1, b1, ok) := c.BorrowBook(book, now);
            && ok && c1.loans.Keys == c.loans.Keys && c1.loanOrder == c.loanOrder
            && b1.availableCopies == book.availableCopies - 1
            && c1.ReturnBook(b1).1.availableCopies == book.availableCopies
            && book.isbn !in c1.ReturnBook(b1).0.loans
  {
  }

  /** ASCII lower-casing of one character: capitals become small letters, everything else is kept. */
  function LowerChar(c: char): (l: char)
    ensures !('A' <= l <= 'Z')
    ensures 'A' <= c <= 'Z' ==> l as int == c as int + 32
    ensures !('A' <= c <= 'Z') ==> l == c
  {
    if 'A' <= c <= 'Z' then (c as int - 'A' as int + 'a' as int) as char else c
  }

  /** `s` lower-cased character by character; the result has no capital letter left. */
  function Lower(s: string): (l: string)
    ensures |l| == |s|
    ensures forall i :: 0 <= i < |s| ==> l[i] == LowerChar(s[i]) && !('A' <= l[i] <= 'Z')
  {
    seq(|s|, i requires 0 <= i < |s| => LowerChar(s[i]))
  }

  /** Lower-casing twice is lower-casing once. */
  lemma LowerIdempotent(s: string)
    ensures Lower(Lower(s)) == Lower(s)
  {
    forall i | 0 <= i < |s|
      ensures Lower(Lower(s))[i] == Lower(s)[i]
    {
      assert !('A' <= Lower(s)[i] <= 'Z');
    }
  }

  /** `part` occurs in `text` starting at position `k`. */
  predicate OccursAt(text: string, part: string, k: int) {
    0 <= k && k + |part| <= |text| && text[k..k + |part|] == part
  }

  /** `part` occurs in `text` as a contiguous piece (the empty string occurs everywhere). */
  predicate Contains(text: string, part: string) {
    exists k | 0 <= k <= |text| :: OccursAt(text, part, k)
  }

  /** Substring containment as Python's `in` has it: every text holds itself, its ends and the empty string. */
  lemma ContainsPieces(before: string, part: string, after: string)
    ensures Contains(before + part + after, part)
    ensures Contains(before + part + after, "")
  {
    var text := before + part + after;
    assert text[|before|..|before| + |part|] == part;
    assert OccursAt(text, part, |before|);
    assert OccursAt(text, "", 0);
  }

  /** Only a piece no longer than the text can occur in it. */
  lemma ContainedIsShorter(text: string, part: string)
    requires Contains(text, part)
    ensures |part| <= |text|
  {
    var k :| 0 <= k <= |text| && OccursAt(text, part, k);
  }
}
