# Library store: books, members and borrowing records

A Dafny model of `LibraryService`, the in-memory store behind the library
application. The service keeps three tables keyed by identifier:

- books, each with a counter of available copies;
- members;
- borrowing records.

On top of the tables it offers:

- catalogue operations (get, add, update, delete) for books and members;
- three filtered queries: by genre, by author and genre, by due date;
- a borrowing engine. `borrowBook` stamps a fourteen-day loan and takes a
  copy off the book. `returnBook` puts the copy back. `checkAvailability`
  predicts when a book can next be had.

Layout:

- `entities.dfy`, module `Entities`: the entities as datatypes, dates as
  day numbers, and the outcome of a call. A call either returns a value or
  throws one of the runtime exceptions the Java code lets escape.
- `text.dfy`, module `Text`: lower-casing, `equalsIgnoreCase` and
  `contains` over ASCII.
- `services.dfy`, module `Services`: class `LibraryService`. Its three map
  fields are changed in place by its methods. The stream queries are
  functions over those maps, and the due-date loop is a method with a
  `while` loop. The module also holds the pure lemmas about loans and copy
  counts.
- `scenarios.dfy`, module `Scenarios`: a client that borrows and returns a
  single-copy book, proved from the service's contracts alone.

Modelling choices:

- The source's crashes are explicit results. Three places dereference a
  missing object: `borrowBook` at line 160, and `returnBook` at lines 167
  and 168. These give `Failed(NullPointer)`. `borrowBook` has by then
  already stored the record, and the model keeps that partial effect. The
  empty-list `get(0)` in `checkAvailability` (line 110) gives
  `Threw(IndexOutOfBounds)`.
- "Now" is a `today` parameter, and `plusDays(14)` is `+ LoanPeriod`.
- Filtered query results are sub-maps of the books table. The returned
  Java collection is the values of that sub-map. Keeping the identifiers
  lets the lemmas compare the key sets of two queries. The unfiltered
  `getAllBooks`, `getAllMembers` and `getAllBorrowingRecords` return the
  whole table, whose values are a set. Under `Valid()` no two of these
  values are equal, because each carries its own identifier. The due-date query returns a
  sequence, together with a ghost list of the records it came from.
- `Valid()` says that every entity is stored under its own identifier. The
  constructor establishes it and every method keeps it.
- `CopiesAgree` is the intended link between the tables. It says that a
  book's available copies equal its total copies less its loans still out.
  The source never checks it. The model proves which borrow and return
  steps keep it (see "## Findings"). The book updates are not stated
  against it: `UpdateBook` stores whatever available count the caller
  sends. A borrow keeps it when no loan is still out under the record's
  identifier, that is when the identifier is new or its record is already
  returned. That holds for a stored book when the request carries no
  return date, and for an unknown book in any case. Reusing the
  identifier of a loan of the same book that is still out breaks it, and
  so does a request for a stored book that already carries a return date.
- The model classes `com/app/library/models/Book.java`, `Member.java` and
  `BorrowingRecord.java` are not part of this model. The service itself
  reads or writes these fields: a book's identifier, author, genre and
  available copies, and a record's identifier, book identifier, borrow
  date and due date. The other fields are assumed from the names the
  entities carry: a book's title and total copies, a record's member
  identifier and return date, and a member's name and contact. A member's
  identifier is read, by `addMember` and `updateMember`.

## Model

| member | source | states |
|---|---|---|
| `Entities.EarliestExists` | library/src/main/java/com/app/library/services/LibraryService.java:106-110 | every non-empty set of due dates has a least element, so sorting by due date and taking the first is well defined |
| `Entities.Earliest` | library/src/main/java/com/app/library/services/LibraryService.java:108-110 | the first due date after an ascending sort is a member of the set that no other date precedes |
| `Text.Lower` | library/src/main/java/com/app/library/services/LibraryService.java:56 | `toLowerCase` keeps the length and lower-cases each character |
| `Text.LowerIdempotent` | library/src/main/java/com/app/library/services/LibraryService.java:66-68 | lower-casing an already lower-cased string changes nothing |
| `Text.LowerChar` | library/src/main/java/com/app/library/services/LibraryService.java:56 | `Character.toLowerCase` on ASCII: an upper-case letter becomes its own lower-case letter, 32 code points on; the result is never upper-case; a character that is not upper-case is kept |
| `Text.EqualsIgnoreCase` | library/src/main/java/com/app/library/services/LibraryService.java:64 | `equalsIgnoreCase` holds exactly when the two lower-cased strings are equal |
| `Text.Contains` | library/src/main/java/com/app/library/services/LibraryService.java:56 | `contains`, scanned as `indexOf` does, holds exactly when the needle occurs at some index of the haystack |
| `Text.ShiftOccurs` | library/src/main/java/com/app/library/services/LibraryService.java:56 | when the needle is not a prefix, its occurrences in the string are its occurrences in the tail, one index further on |
| `Text.ContainsEmpty` | library/src/main/java/com/app/library/services/LibraryService.java:66-68 | every string contains the empty string |
| `Services.ByAuthor` | library/src/main/java/com/app/library/services/LibraryService.java:64 | the author lambda holds exactly when the book's author and the query agree once lower-cased |
| `Services.GenreContains` | library/src/main/java/com/app/library/services/LibraryService.java:66-68 | the genre lambda (also at line 56) holds exactly when the lower-cased query occurs somewhere in the lower-cased genre |
| `Services.ByAuthorAndGenre` | library/src/main/java/com/app/library/services/LibraryService.java:64-68 | both filters: the authors agree once lower-cased, and either no genre is given or the lower-cased genre occurs in the book's lower-cased genre |
| `Services.Stamped` | library/src/main/java/com/app/library/services/LibraryService.java:153-154 | the stored record is borrowed today and due fourteen days later; its identifier, book, member and return date are the caller's |
| `Services.WithCopiesChanged` | library/src/main/java/com/app/library/services/LibraryService.java:160 | the setter moves the available-copy counter by exactly `delta` and changes no other field |
| `Services.OpenLoansAfterPut` | library/src/main/java/com/app/library/services/LibraryService.java:155 | storing a record under an identifier with no loan out adds one open loan to its own book only, and none if it carries a return date |
| `Services.OpenLoansAfterClose` | library/src/main/java/com/app/library/services/LibraryService.java:163-165 | writing a return date on an open loan removes that one loan from its book's open loans |
| `Services.BorrowKeepsCopiesAgree` | library/src/main/java/com/app/library/services/LibraryService.java:150-161 | a borrow of a stored book with no return date, under an identifier that is new or already returned, keeps available = total − open loans for every book |
| `Services.BorrowOfUnknownBookKeepsCopiesAgree` | library/src/main/java/com/app/library/services/LibraryService.java:150-160 | a borrow of an unknown book, under an identifier with no loan out, stores the record and keeps available = total − open loans |
| `Services.BorrowOverOpenLoanBreaksCopiesAgree` | library/src/main/java/com/app/library/services/LibraryService.java:150-161 | a borrow that reuses the identifier of an open loan of the same book replaces that loan but still takes a copy off, so available = total − open loans breaks |
| `Services.BorrowWithReturnDateBreaksCopiesAgree` | library/src/main/java/com/app/library/services/LibraryService.java:150-155 | a borrow of a stored book under an identifier with no loan out, whose record already carries a return date, opens no loan but still takes a copy off, so available = total − open loans breaks |
| `Services.ReturnAsWrittenBreaksCopiesAgree` | library/src/main/java/com/app/library/services/LibraryService.java:164-169 | as written, returning any open loan breaks available = total − open loans |
| `Services.ReturnAsWrittenCounterexample` | library/src/main/java/com/app/library/services/LibraryService.java:164-169 | a one-book, one-record store agrees before the as-written return and not after it |
| `Services.ReturnRecordingDateKeepsCopiesAgree` | library/src/main/java/com/app/library/services/LibraryService.java:163-169 | a return that also writes the return date keeps available = total − open loans |
| `Services.LibraryService.constructor` | library/src/main/java/com/app/library/services/LibraryService.java:21-23 | the three tables start empty and `Valid()` holds |
| `Services.LibraryService.AllBooks` | library/src/main/java/com/app/library/services/LibraryService.java:28-30 | lists every stored book and nothing else, and each listed book is found again under its own identifier |
| `Services.LibraryService.GetBookById` | library/src/main/java/com/app/library/services/LibraryService.java:33-35 | present exactly when the identifier is stored, and then the stored book, carrying that identifier |
| `Services.LibraryService.AddBook` | library/src/main/java/com/app/library/services/LibraryService.java:38-40 | afterwards the identifier maps to the new book (a duplicate overwrites), every other identifier maps to what it did, and the other tables are untouched |
| `Services.LibraryService.UpdateBook` | library/src/main/java/com/app/library/services/LibraryService.java:43-45 | the same put as `addBook`, under the payload's identifier |
| `Services.LibraryService.DeleteBook` | library/src/main/java/com/app/library/services/LibraryService.java:48-50 | afterwards the identifier is absent and all other entries are unchanged; deleting an absent identifier changes nothing |
| `Services.LibraryService.BooksByGenre` | library/src/main/java/com/app/library/services/LibraryService.java:53-58 | lists exactly the stored books whose lower-cased genre contains the lower-cased query, each as stored; no matching book is omitted |
| `Services.LibraryService.BooksByAuthorAndGenre` | library/src/main/java/com/app/library/services/LibraryService.java:61-70 | lists exactly the stored books whose author equals the query ignoring case and, when a genre is given, whose genre contains it ignoring case |
| `Services.LibraryService.GenreQueryIgnoresCase` | library/src/main/java/com/app/library/services/LibraryService.java:56 | two genre queries that are equal ignoring case list the same books |
| `Services.LibraryService.EmptyGenreMatchesAll` | library/src/main/java/com/app/library/services/LibraryService.java:53-70 | the empty genre lists every stored book, and with an author it lists what no genre lists |
| `Services.LibraryService.AuthorAndGenreIsIntersection` | library/src/main/java/com/app/library/services/LibraryService.java:61-70 | author and genre together select exactly the books selected by both the author-only query and the genre-only query |
| `Services.LibraryService.AuthorQueryFindsStoredBook` | library/src/main/java/com/app/library/services/LibraryService.java:64 | a stored book is found by its author spelled in any case, including all lower case |
| `Services.LibraryService.DueOn` | library/src/main/java/com/app/library/services/LibraryService.java:80-86 | a record yields a book exactly when its due date equals the query date and the lookup of its book id finds a book (not `null`) |
| `Services.LibraryService.BooksDueOnDate` | library/src/main/java/com/app/library/services/LibraryService.java:73-91 | one book per record due on the date whose book is still stored, each record counted once; records whose book was deleted are skipped; a book is listed exactly when such a record names it |
| `Services.LibraryService.DueDates` | library/src/main/java/com/app/library/services/LibraryService.java:106-107 | the due dates of all records of the book, returned or not |
| `Services.LibraryService.CheckAvailability` | library/src/main/java/com/app/library/services/LibraryService.java:94-113 | an unknown book gives `null`; a book with a copy available gives today; otherwise the earliest due date of its records; with no record, `get(0)` throws |
| `Services.LibraryService.AllMembers` | library/src/main/java/com/app/library/services/LibraryService.java:118-120 | lists every stored member and nothing else, each found again under its own identifier |
| `Services.LibraryService.GetMemberById` | library/src/main/java/com/app/library/services/LibraryService.java:123-125 | present exactly when the identifier is stored, and then the stored member |
| `Services.LibraryService.AddMember` | library/src/main/java/com/app/library/services/LibraryService.java:128-130 | put on the members table: the identifier maps to the new member, other identifiers keep their members, and books and records are untouched |
| `Services.LibraryService.UpdateMember` | library/src/main/java/com/app/library/services/LibraryService.java:133-135 | the same put as `addMember` |
| `Services.LibraryService.DeleteMember` | library/src/main/java/com/app/library/services/LibraryService.java:138-140 | remove from the members table: the identifier is absent, the rest is unchanged, and an absent identifier is a no-op |
| `Services.LibraryService.AllBorrowingRecords` | library/src/main/java/com/app/library/services/LibraryService.java:145-147 | lists every stored record and nothing else, each found again under its own identifier |
| `Services.LibraryService.BorrowBook` | library/src/main/java/com/app/library/services/LibraryService.java:150-161 | the stamped record is stored under its identifier; the book loses exactly one copy, even below zero, and no other book changes; an unknown book throws after the record is stored; with no loan out under the identifier, a borrow of an unknown book, or one of a stored book with no return date, keeps available = total − open loans |
| `Services.LibraryService.ReturnBook` | library/src/main/java/com/app/library/services/LibraryService.java:164-169 | the record's book gains exactly one copy, even beyond its total; the records table is unchanged, so no return date is written; an unknown record or book throws with nothing changed |
| `Services.LibraryService.ReturnBookRecordingDate` | library/src/main/java/com/app/library/services/LibraryService.java:163-169 | the corrected return: the record gets the return date first, then its book gains exactly one copy; an unknown record throws with nothing changed, a deleted book throws after the date is written; returning an open loan keeps available = total − open loans |
| `Scenarios.BorrowAndReturnSingleCopy` | library/src/main/java/com/app/library/services/LibraryService.java:150-169 | a one-copy book with no records is added and borrowed under a record with no return date, then returned. While the copy is out, availability is today + 14; after the return it is today; the book ends as it was added; the return writes no return date, so the record still has none |

## Left out

- `LibraryController.java` is left out. It holds the HTTP routing, request binding, `dd/MM/yyyy` parsing, status codes and logging.
- The controller's existence checks before update and delete are left out (lines 83, 95 and 169). So is its inverted member-update check (line 157). The service's update is a plain put, which is what is modelled.
- The controller's own date stamping at lines 191-192 is left out, because the service overwrites it.
- `LocalDate.now()` is a `today` parameter. The two separate `now()` calls at lines 153-154 are taken to give the same day.
- Java's locale- and Unicode-aware `toLowerCase` and `equalsIgnoreCase` are modelled on ASCII letters only.
- HashMap iteration order is not modelled. Neither are the live `values()` views, nor the aliasing of stored objects: a `Book` or record that a caller still holds sees `setAvailableCopies` and `setDueDate` in Java.
- `Services.LibraryService.BooksDueOnDate`: its contract does not fix the order of the result, because that order is the HashMap's. The result's elements and multiplicities are fixed exactly.
- The stream filter at line 80 and the loop at lines 84-89 run as one loop in the model. The result is the same.
- Null is not modelled: no null identifiers, no null names, authors, genres or dates, and no null genre passed to `getBooksByGenre`, which would throw as soon as one book is stored, because the filter runs once per book. A null author passed to `getBooksByAuthorAndGenre` would match nothing; the model takes the author as a string.
- The width of the available-copy counter is not modelled. The `Book` model class is not part of this model, so the counter is an unbounded integer with no wrap-around.
- `System.out.println` debugging at lines 151 and 157-158 is left out.
- Concurrency is left out. The service has none.

## Findings

| source | as written | input that shows it | evidently intended | confidence | as-written member | corrected member |
|---|---|---|---|---|---|---|
| library/src/main/java/com/app/library/services/LibraryService.java:164-169 | `returnBook` gives the copy back but never writes `returnDate` onto the record; the parameter is unused | Book{id=1, total=1, available=1}; `borrowBook` with record 7 for book 1, then `returnBook(7, d)`: available is 1 again while record 7 still has no return date, so available ≠ total − open loans (1 ≠ 0) | also set the record's return date, as the method's comment says, so that available = total − open loans survives a return | high; not executed | `Services.ReturnAsWrittenBreaksCopiesAgree` | `Services.ReturnRecordingDateKeepsCopiesAgree` |

On the as-written side, `Services.LibraryService.ReturnBook` models the code.
Its last postcondition and the concrete `Services.ReturnAsWrittenCounterexample`
show the broken link. On the corrected side, the method is
`Services.LibraryService.ReturnBookRecordingDate`.
