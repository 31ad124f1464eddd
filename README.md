# Library management system — a Dafny model

This project models the core of `LibrarySystem.py`: a small library
system that keeps a catalog of books, the authors who wrote them, a genre
index, registered customers with their loans, and a waitlist per book.

- **Records** (`Records.dfy`). The `Author`, `Book` and `Customer` records are values.
  - The customer-side halves of lending and returning are functions on `Customer`.
  - So is the customer's list of borrowed titles.
- **Catalog** (`Catalog.dfy`). The whole registry is the value `Registry`.
  - It holds the five dictionaries, plus the insertion order of the book dictionary.
  - The five mutating operations are transition functions on it: adding a book, registering a customer, borrowing, returning and joining a waitlist.
  - `Valid` is the registry invariant. It says:
    - every book is under its ISBN and listed once in catalog order;
    - authors and books point at each other;
    - the genre index is exactly the books grouped by genre;
    - customer ids are 1..N;
    - loans are well formed and name catalogued books;
    - available copies plus holders never exceed the copies added;
    - waitlists name only known books and customers.

    Every operation is proved to keep `Valid`.
- **Queries** (`Queries.dfy`). The read-only reports are functions of the registry:
  - search, the available-books listing, a customer's titles, the genre recommendation and the overdue report;
  - lemmas state exactly what each answer contains and in which order.
- **The class** (`LibrarySystem.dfy`). `LibraryManagementSystem` is a class whose fields are the dictionaries.
  - Its mutating methods update the fields in place. Each is proved to make the same move as the matching `Catalog` function and to keep `Valid()`.
  - Its reports walk the fields with loops, except the customer listing, which is a single dictionary lookup. Each report is proved equal to the matching `Queries` function.
- **Defects** (`AsWritten.dfy`). Four places where the code, read literally, misbehaves: three raise an exception, and one prints a message one character per line. Each is modelled as written, beside the corrected behaviour the rest of the model uses (see Findings).

Dictionaries iterate in insertion order. The model records this for:
- books, with `bookOrder`;
- each customer's loans, with `loanOrder`;
- customers, iterated by id 1..N, which is their registration order.

The `borrowed_books` dictionary is read by the overdue check as a map from book to borrow time, and that is the shape the model gives a customer's loans:
- `loans` maps each held ISBN to the day it was borrowed;
- borrowing a book already held updates its day and keeps its place, but still takes a copy off the shelf. A single return then gives back only one copy, so the other copy stays out with no loan recording it (`Records.BorrowAgain`).

## Model

| member | source | states |
|---|---|---|
| LibrarySystem.LibraryManagementSystem.constructor | LibrarySystem.py:63-68 | A new system has five empty dictionaries; the empty registry satisfies the invariant |
| Catalog.EmptyValid | LibrarySystem.py:63-68 | The empty registry satisfies the registry invariant |
| Catalog.AddBook | LibrarySystem.py:70-87 | A known ISBN is rejected with nothing changed. Otherwise the book is stored with all copies available and appended to catalog order, and customers and waitlists are untouched |
| Catalog.AddBookFiles | LibrarySystem.py:75-85 | A new book is added to its author's set: a known author keeps name and birth year, an unknown one is created with the given year. It is filed under its genre, creating the set if needed; every other author and genre is unchanged |
| Catalog.AddBookKeepsValid | LibrarySystem.py:70-87 | Adding a book (or rejecting it) keeps the registry invariant |
| LibrarySystem.LibraryManagementSystem.AddBook | LibrarySystem.py:70-87 | The in-place update leaves exactly the registry and outcome of `Catalog.AddBook`, and keeps the invariant |
| LibrarySystem.LibraryManagementSystem.FileBook | LibrarySystem.py:75-85 | The four dictionary updates of a successful add yield the registry `Catalog.AddBook` describes |
| Catalog.RegisterCustomer | LibrarySystem.py:89-95 | The new id is the number of customers plus one, and only the customer dictionary gains that entry |
| Catalog.RegisterCustomerKeepsValid | LibrarySystem.py:89-95 | Registration keeps the invariant; in particular ids stay exactly 1..N |
| Catalog.RegisterAllNumbersInOrder | LibrarySystem.py:89-95 | After N customers, successive registrations hand out N+1, N+2, … in order, and ids stay 1..M |
| Catalog.RegisterFromEmpty | LibrarySystem.py:89-95 | From an empty system, N registrations return the ids 1..N |
| LibrarySystem.LibraryManagementSystem.RegisterCustomer | LibrarySystem.py:89-95 | The returned id is fresh and the customer keys grow by exactly that id; the state is that of `Catalog.RegisterCustomer`; the invariant is kept |
| Records.Customer.BorrowBook | LibrarySystem.py:39-45 | Succeeds iff a copy is available. On success the loan is recorded at day `now`, a new book goes to the end of the loan order, and the book loses one available copy. On failure nothing changes |
| Records.BorrowKeepsWellFormed | LibrarySystem.py:39-45 | Borrowing keeps a customer's loan order listing each held book exactly once |
| Records.Customer.ReturnBook | LibrarySystem.py:48-54 | Succeeds iff the customer holds the book; then the loan is dropped from the map and the order, and one copy goes back. On failure nothing changes |
| Records.ReturnKeepsWellFormed | LibrarySystem.py:48-54 | Returning keeps the loan record well formed |
| Records.BorrowThenReturn | LibrarySystem.py:39-54 | Borrowing a book not already held and returning it restores the customer and the book exactly |
| Records.Customer.GetBorrowedBooks | LibrarySystem.py:56-60 | With no loans the answer is the message "<name> has no titles."; otherwise one title per held book, in loan order |
| Records.Titled | LibrarySystem.py:58 | One title per held book, in the order given, when every held book is catalogued; never more titles than books |
| Records.NewCustomer | LibrarySystem.py:33-37 | A new customer has the given id, name and email and no loans, and its loan record is well formed |
| Records.BorrowAgain | LibrarySystem.py:39-54 | Borrowing a book already held succeeds and takes a copy, but leaves the held set and order as they were; one return then restores only that copy and ends the loan |
| Catalog.BorrowBook | LibrarySystem.py:97-114 | Fails, changing nothing, for an unknown ISBN, then an unknown customer, then no copy available; succeeds iff all three checks pass. Then exactly that book and that customer change, as `Customer.BorrowBook` says |
| Catalog.BorrowBookKeepsValid | LibrarySystem.py:97-114 | Borrowing keeps the invariant, including available copies plus holders within the copies added |
| LibrarySystem.LibraryManagementSystem.BorrowBook | LibrarySystem.py:97-114 | The in-place update yields the registry and outcome of `Catalog.BorrowBook` and keeps the invariant |
| LibrarySystem.LibraryManagementSystem.Lend | LibrarySystem.py:106-113 | The two dictionary updates of a successful borrow yield the registry `Catalog.BorrowBook` describes |
| Catalog.ReturnBook | LibrarySystem.py:116-126 | Fails, changing nothing, for an unknown ISBN, then an unknown customer, then a book not held; succeeds iff all three pass. Then exactly that book and that customer change, as `Customer.ReturnBook` says |
| Catalog.ReturnBookKeepsValid | LibrarySystem.py:116-126 | Returning keeps the invariant |
| Catalog.ReturnShrinks | LibrarySystem.py:48-54 | After a successful return the customer holds a subset of the earlier books, without the returned one |
| LibrarySystem.LibraryManagementSystem.ReturnBook | LibrarySystem.py:116-126 | The in-place update yields the registry and outcome of `Catalog.ReturnBook` and keeps the invariant |
| LibrarySystem.LibraryManagementSystem.TakeBack | LibrarySystem.py:124-126 | The two dictionary updates of a successful return yield the registry `Catalog.ReturnBook` describes |
| Catalog.BorrowThenReturnRestores | LibrarySystem.py:97-126 | A successful borrow followed by a return of the same book by the same customer succeeds and restores every book's count. If the book was not held before, the whole registry is restored |
| Catalog.CopiesWithinBounds | LibrarySystem.py:40-51 | In a valid registry, a book added with non-negative copies has between 0 and that many copies available |
| Catalog.AddToWaitlist | LibrarySystem.py:177-190 | Fails, changing nothing, for an unknown ISBN, then an unknown customer; succeeds iff both are known. Then the customer is appended to that book's list, which is created if absent, and nothing else changes |
| Catalog.AddToWaitlistKeepsValid | LibrarySystem.py:177-190 | Joining a waitlist keeps the invariant |
| Catalog.WaitlistKeepsDuplicates | LibrarySystem.py:186-189 | Joining the same waitlist twice leaves the customer on it twice, in order |
| LibrarySystem.LibraryManagementSystem.AddToWaitlist | LibrarySystem.py:177-190 | The in-place update yields the registry and outcome of `Catalog.AddToWaitlist` and keeps the invariant |
| Queries.Select | LibrarySystem.py:130-132 | A selection is no longer than the listing, and every selected book passes the filter |
| Queries.SelectSound | LibrarySystem.py:130-132 | Every selected book passes the filter and is the book of some listed ISBN |
| Queries.SelectComplete | LibrarySystem.py:130-132 | Every listed book that passes the filter is selected |
| Queries.SelectAppend | LibrarySystem.py:130-132 | Selection keeps catalog order: selecting from a + b is selecting from a, then from b |
| Queries.SelectAll | LibrarySystem.py:130-132 | When every listed book passes, the selection is the whole listing, in order |
| Queries.SelectExact | LibrarySystem.py:130-132 | In a valid registry a selection holds exactly the catalogued books the filter keeps |
| Queries.Search | LibrarySystem.py:128-137 | The search answer is no longer than the catalog |
| Queries.Matches | LibrarySystem.py:131 | The search condition (lower-cased query inside the lower-cased title or author name, or the exact ISBN): a book's own ISBN always matches it, and any other match is no longer than the title or the author name |
| Queries.MatchesIgnoresCase | LibrarySystem.py:131 | Two queries that lower-case alike match the same books, unless one is the book's ISBN |
| Records.LowerChar | LibrarySystem.py:131 | Lower-casing one character leaves no capital: a capital becomes its small letter, any other character is kept |
| Records.Lower | LibrarySystem.py:131 | A lower-cased string keeps its length and has no capital letter left, character by character |
| Records.LowerIdempotent | LibrarySystem.py:131 | Lower-casing twice is lower-casing once |
| Records.ContainsPieces | LibrarySystem.py:131 | Substring `in`: a text holds every contiguous piece of it, and the empty string |
| Records.ContainedIsShorter | LibrarySystem.py:131 | A piece contained in a text is no longer than it |
| Queries.SearchExact | LibrarySystem.py:128-137 | Every book found matches the query and is catalogued. A catalogued book is found iff the lower-cased query occurs in its lower-cased title or author name, or equals its ISBN |
| Queries.EmptyQueryFindsAll | LibrarySystem.py:131 | The empty query finds the whole catalog in catalog order |
| LibrarySystem.LibraryManagementSystem.Collect | LibrarySystem.py:130-132 | The loop over the books in catalog order collects exactly `Select` of the filter |
| LibrarySystem.LibraryManagementSystem.SearchBooks | LibrarySystem.py:128-137 | The loop's result equals `Queries.Search`. A book of the catalog is in it iff it matches |
| Queries.AvailableBooks | LibrarySystem.py:139-142 | The listing is no longer than the catalog |
| Queries.AvailableExact | LibrarySystem.py:139-142 | A catalogued book is listed iff it has an available copy, and only catalogued books are listed |
| LibrarySystem.LibraryManagementSystem.DisplayAvailableBooks | LibrarySystem.py:139-142 | The loop's result equals `Queries.AvailableBooks`; a catalogued book is in it iff a copy is available |
| Queries.CustomerBooks | LibrarySystem.py:144-154 | An unknown customer is reported, and only an unknown one |
| Queries.CustomerBooksExact | LibrarySystem.py:144-154 | In a valid registry a customer gets the message iff they hold nothing; otherwise one title per held book, in borrowing order |
| LibrarySystem.LibraryManagementSystem.DisplayCustomerBooks | LibrarySystem.py:144-154 | Equals `Queries.CustomerBooks` |
| Queries.Genres | LibrarySystem.py:162-163 | The genres of the books in a listing, in that order: one per book when all are catalogued |
| Queries.LoanGenres | LibrarySystem.py:161-163 | A customer's loan genres are no more than their loans |
| Queries.LoanGenresExact | LibrarySystem.py:161-163 | In a valid registry there is exactly one genre per held book, the genre of the i-th book borrowed |
| Queries.Find | LibrarySystem.py:164 | The position of a genre's entry in the tally is the first entry with that genre, or the tally's length if there is none |
| Queries.Bump | LibrarySystem.py:164 | Counting a genre increments its entry in place, or appends a new entry with count 1 |
| Queries.Tally | LibrarySystem.py:162-164 | The tally is empty iff there are no genres |
| Queries.TallyCorrect | LibrarySystem.py:162-164 | The tally has one entry per distinct genre, carrying that genre's number of occurrences, in order of first occurrence |
| Queries.FirstIndexAppend | LibrarySystem.py:162-164 | Counting later loans never moves a genre's first occurrence |
| Queries.FirstMax | LibrarySystem.py:166 | The chosen entry has the largest count, and every earlier entry has a strictly smaller count (the first of equal maxima wins) |
| Queries.MostFrequent | LibrarySystem.py:162-166 | The genre picked from a tally is among the most frequent genres, and is the first seen among those equally frequent |
| Queries.Recommend | LibrarySystem.py:157-175 | An unknown customer is reported, and only an unknown one |
| Queries.RecommendedGenreIsMostBorrowed | LibrarySystem.py:157-166 | There is nothing to recommend iff the customer holds nothing. Otherwise the genre is one the customer holds most books of, and the earliest borrowed among ties |
| Queries.RecommendedBooksInGenre | LibrarySystem.py:167 | The recommended books are exactly the catalogued books of that genre with a copy available |
| LibrarySystem.LibraryManagementSystem.RecommendBooks | LibrarySystem.py:157-175 | The result of the counting loop and the maximum loop equals `Queries.Recommend` |
| LibrarySystem.LibraryManagementSystem.CountGenres | LibrarySystem.py:162-164 | The counting loop over the loans builds exactly `Tally` of their genres |
| LibrarySystem.MostCounted | LibrarySystem.py:166 | The scan for the largest count settles on `FirstMax` |
| Queries.LateLoans | LibrarySystem.py:196-198 | Every entry names this customer and has been out more than the threshold |
| Queries.LateLoansExact | LibrarySystem.py:196-198 | The entries for one customer are exactly their loans older than the threshold, each with its days out |
| Queries.LateUpTo | LibrarySystem.py:195-198 | Every entry is overdue by more than the threshold |
| Queries.LateUpToExact | LibrarySystem.py:195-198 | The first n customers contribute exactly their overdue loans |
| Queries.LateUpToOrdered | LibrarySystem.py:195 | Entries are grouped by customer in increasing id order |
| Queries.LateUpToInRange | LibrarySystem.py:195 | The first n customers contribute entries naming only themselves |
| Queries.LateReturns | LibrarySystem.py:192-205 | Every reported loan is overdue by more than the threshold |
| Queries.LateReturnsExact | LibrarySystem.py:192-205 | The report lists exactly the loans held longer than the threshold, each with its days since borrowing, customer by customer in id order |
| LibrarySystem.LibraryManagementSystem.CheckLateReturns | LibrarySystem.py:192-205 | The nested loops over customers and their loans build exactly `Queries.LateReturns`; the threshold defaults to 14 days |
| AsWritten.BorrowAsWritten | LibrarySystem.py:37-45 | As written, a borrow with a copy available raises (a dict has no `append`) before the count changes |
| AsWritten.BorrowAsWrittenNeverLends | LibrarySystem.py:37-45 | The as-written borrow raises exactly when the corrected one records a loan |
| AsWritten.DisplayCustomerBooksAsWritten | LibrarySystem.py:144-147 | As written, the listing raises for every registered customer (`get_borrowd_books` does not exist) |
| AsWritten.ListingAsWrittenAlwaysRaises | LibrarySystem.py:144-147 | For a registered customer the as-written listing raises, while the corrected one answers that customer's titles or message |
| AsWritten.ShownOnceSpelledRight | LibrarySystem.py:147-152 | Once the call at line 147 is spelled correctly, the listing over what `get_borrowed_books` (lines 56-60) returns prints at least one line |
| AsWritten.NoTitlesSpelledOut | LibrarySystem.py:147-152 | Once the call at line 147 is spelled correctly, a customer without loans gets the message of `get_borrowed_books` (lines 56-60) one character per line. The "no borrowed books" line (lines 151-152) is never printed |
| AsWritten.LateReportAsWritten | LibrarySystem.py:198-203 | When the as-written report returns at all, it has listed nothing |
| AsWritten.LateReportAsWrittenRaisesWhenLate | LibrarySystem.py:198-203 | The as-written report raises exactly when some loan is overdue |

## Left out

- The interactive menu (`run`, lines 207-270) and all console input are not modelled.
- Printing is not modelled. The reports return what the original prints, as values:
  - the search returns its hits (the original prints them from inside its loop, once per book examined, and returns nothing);
  - the listings return books;
  - the overdue report returns entries.
- `Book.__str__` is not modelled. This includes its Genre line, which prints the ISBN (line 28).
- The clock: `datetime.now()` is replaced by a day number `now` passed to `BorrowBook` and `CheckLateReturns`. Borrow times are day numbers, so `timedelta.days` is a plain subtraction.
- The unused `shutil` import (line 1) is not modelled.
- `Matches` lower-cases ASCII letters only. Python's `str.lower` also folds other Unicode letters.
- Records are values, not shared objects:
  - a `Book` names its author by name;
  - an `Author` lists ISBNs rather than `Book` objects;
  - aliasing of `Book` objects between dictionaries is not modelled.
- Records.Customer.BorrowBook: models the evident intent, a loan map with a borrow day, not the literal `append` on a dict (line 41). The literal behaviour is in `AsWritten`.
- Records.Customer.ReturnBook: models the evident intent, removing the key from the loan map, not the literal `remove` on a dict (line 50). As written it is never reached, because no loan is ever recorded.
- LibrarySystem.LibraryManagementSystem.DisplayCustomerBooks: answers the customer's titles or their message as one value. It does not model the misspelled call or the character-by-character printing; both are in `AsWritten`.
- LibrarySystem.LibraryManagementSystem.CheckLateReturns: returns (customer id, ISBN, days out) triples. The original would print the customer's name and the book's title, which the model does not look up. The original collects pairs and then fails to unpack them as triples (that is in `AsWritten`); it never computes the `overdue_days` it tries to print. The model fills that slot with the days since the book was borrowed, not the days past the threshold.
- Negative copy counts: the source accepts them in `add_book`, and so does the model. The invariant permits a negative available count only while it still equals the copies added.

## Findings

| source | as written | input that shows it | evidently intended | confidence | as-written member | corrected member |
|---|---|---|---|---|---|---|
| LibrarySystem.py:37-41 | `borrowed_books` is created as a dict, and borrowing calls `append` on it | any borrow of a book with a copy available (reachable as written) | `borrowed_books` maps each held book to its borrow time (read that way at line 196) | high; not executed | AsWritten.BorrowAsWrittenNeverLends | Records.BorrowThenReturn |
| LibrarySystem.py:147 | the listing calls `get_borrowd_books`, which does not exist | any registered customer id (reachable as written) | call `get_borrowed_books` | high; not executed | AsWritten.ListingAsWrittenAlwaysRaises | Queries.CustomerBooksExact |
| LibrarySystem.py:56-60, 148-152 | the no-loans answer is a non-empty string, which the listing iterates | a customer with no loans, once the misspelled call in the row above is corrected; as written that call raises first | show the no-loans message as one line | medium; not executed | AsWritten.NoTitlesSpelledOut | Queries.CustomerBooksExact |
| LibrarySystem.py:198-203 | entries are (customer, book) pairs but are unpacked as triples | any loan older than the threshold, in a registry whose loans come from the corrected borrow; as written the first row leaves no loan to report | report each late loan with its days overdue | high; not executed | AsWritten.LateReportAsWrittenRaisesWhenLate | Queries.LateReturnsExact |
