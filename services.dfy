/** The in-memory library store: three tables keyed by identifier, the
    catalogue queries over them, and the borrowing engine that moves the
    available-copy counter of a book. */
module Services {
  import opened Entities
  import opened Text

  /** The author test of `getBooksByAuthorAndGenre`: the two authors agree
      once lower-cased. */
  function ByAuthor(b: Book, author: string): (r: bool)
    ensures r <==> Lower(b.author) == Lower(author)
  {
    EqualsIgnoreCase(b.author, author)
  }

  /** The genre test of both genre queries: the lower-cased query occurs
      somewhere in the lower-cased genre of the book. */
  function GenreContains(b: Book, genre: string): (r: bool)
    ensures r ==> exists i :: OccursAt(Lower(b.genre), Lower(genre), i)
    ensures (exists i :: OccursAt(Lower(b.genre), Lower(genre), i)) ==> r
  {
    Contains(Lower(b.genre), Lower(genre))
  }

  /** Both filters of `getBooksByAuthorAndGenre`; an absent genre (Java
      `null`) lets every genre through. */
  function ByAuthorAndGenre(b: Book, author: string, genre: Option<string>): (r: bool)
    ensures r ==> Lower(b.author) == Lower(author)
    ensures r && genre.Some? ==> exists i :: OccursAt(Lower(b.genre), Lower(genre.value), i)
    ensures Lower(b.author) == Lower(author) && genre.None? ==> r
    ensures Lower(b.author) == Lower(author) && genre.Some? ==>
      (exists i :: OccursAt(Lower(b.genre), Lower(genre.value), i)) ==> r
  {
    ByAuthor(b, author) && (genre.None? || GenreContains(b, genre.value))
  }

  /** The record as `borrowBook` stores it: borrowed today, due a loan
      period later; every other field is the caller's. */
  function Stamped(record: BorrowingRecord, today: Date): (r: BorrowingRecord)
    ensures r.dueDate - r.borrowDate == LoanPeriod && r.borrowDate == today
    ensures r.id == record.id && r.bookId == record.bookId && r.memberId == record.memberId
    ensures r.returnDate == record.returnDate
  {
    record.(borrowDate := today, dueDate := today + LoanPeriod)
  }

  /** The book after `setAvailableCopies(getAvailableCopies() + delta)`. */
  function WithCopiesChanged(b: Book, delta: int): (r: Book)
    ensures r.availableCopies == b.availableCopies + delta
    ensures r.(availableCopies := b.availableCopies) == b
  {
    b.(availableCopies := b.availableCopies + delta)
  }

  /** The loans of book `bookId` still out: records naming it that carry no
      return date. */
  function OpenLoans(records: map<int, BorrowingRecord>, bookId: int): (ids: set<int>)
    ensures forall id :: id in ids <==>
      id in records && records[id].bookId == bookId && records[id].returnDate.None?
  {
    set id | id in records && records[id].bookId == bookId && records[id].returnDate.None?
  }

  /** The intended link between the two tables: a book's available copies
      are its total copies less its loans still out. The service keeps the
      counter incrementally and never checks this. */
  ghost predicate CopiesAgree(books: map<int, Book>, records: map<int, BorrowingRecord>)
  {
    forall id :: id in books ==> books[id].availableCopies == books[id].totalCopies - |OpenLoans(records, id)|
  }

  /** No loan still out is stored under `id`: the identifier is new, or its
      record already carries a return date. */
  predicate NoLoanOutUnder(records: map<int, BorrowingRecord>, id: int)
  {
    id !in records || records[id].returnDate.Some?
  }

  /** Storing a record under an identifier with no loan out opens a loan for
      its book, if it carries no return date, and touches no other book's
      loans. */
  lemma OpenLoansAfterPut(records: map<int, BorrowingRecord>, record: BorrowingRecord, bookId: int)
    requires NoLoanOutUnder(records, record.id)
    ensures OpenLoans(records[record.id := record], bookId) ==
      if record.bookId == bookId && record.returnDate.None? then OpenLoans(records, bookId) + {record.id}
      else OpenLoans(records, bookId)
    ensures |OpenLoans(records[record.id := record], bookId)| ==
      |OpenLoans(records, bookId)| + if record.bookId == bookId && record.returnDate.None? then 1 else 0
  {
  }

  /** Writing a return date on an open loan closes that loan and no other. */
  lemma OpenLoansAfterClose(records: map<int, BorrowingRecord>, recordId: int, returnDate: Date, bookId: int)
    requires recordId in records && records[recordId].returnDate.None?
    ensures var closed := records[recordId := records[recordId].(returnDate := Some(returnDate))];
      OpenLoans(closed, bookId) ==
        if records[recordId].bookId == bookId then OpenLoans(records, bookId) - {recordId}
        else OpenLoans(records, bookId)
    ensures var closed := records[recordId := records[recordId].(returnDate := Some(returnDate))];
      |OpenLoans(closed, bookId)| ==
        |OpenLoans(records, bookId)| - if records[recordId].bookId == bookId then 1 else 0
  {
  }

  /** A borrow with no return date, under an identifier with no loan out,
      keeps the copy counter in step with the open loans. */
  lemma BorrowKeepsCopiesAgree(
    books: map<int, Book>, records: map<int, BorrowingRecord>, record: BorrowingRecord, today: Date)
    requires CopiesAgree(books, records)
    requires record.bookId in books && NoLoanOutUnder(records, record.id) && record.returnDate.None?
    ensures CopiesAgree(
      books[record.bookId := WithCopiesChanged(books[record.bookId], -1)],
      records[record.id := Stamped(record, today)])
  {
    var books' := books[record.bookId := WithCopiesChanged(books[record.bookId], -1)];
    var records' := records[record.id := Stamped(record, today)];
    forall id | id in books'
      ensures books'[id].availableCopies == books'[id].totalCopies - |OpenLoans(records', id)|
    {
      OpenLoansAfterPut(records, Stamped(record, today), id);
    }
  }

  /** A borrow that reuses the identifier of a loan of the same book still
      out replaces that loan instead of adding one, yet still takes a copy
      off: the link breaks. */
  lemma BorrowOverOpenLoanBreaksCopiesAgree(
    books: map<int, Book>, records: map<int, BorrowingRecord>, record: BorrowingRecord, today: Date)
    requires CopiesAgree(books, records)
    requires record.bookId in books && record.id in records && record.returnDate.None?
    requires records[record.id].bookId == record.bookId && records[record.id].returnDate.None?
    ensures !CopiesAgree(
      books[record.bookId := WithCopiesChanged(books[record.bookId], -1)],
      records[record.id := Stamped(record, today)])
  {
    var records' := records[record.id := Stamped(record, today)];
    assert OpenLoans(records', record.bookId) == OpenLoans(records, record.bookId);
  }

  /** A borrow whose record already carries a return date (the stamping
      leaves that field as the caller sent it) opens no loan, yet still
      takes a copy off: the link breaks. */
  lemma BorrowWithReturnDateBreaksCopiesAgree(
    books: map<int, Book>, records: map<int, BorrowingRecord>, record: BorrowingRecord, today: Date)
    requires CopiesAgree(books, records)
    requires record.bookId in books && NoLoanOutUnder(records, record.id) && record.returnDate.Some?
    ensures !CopiesAgree(
      books[record.bookId := WithCopiesChanged(books[record.bookId], -1)],
      records[record.id := Stamped(record, today)])
  {
    OpenLoansAfterPut(records, Stamped(record, today), record.bookId);
  }

  /** A borrow of an unknown book, under an identifier with no loan out,
      stores the record and changes no counter; the link still holds. */
  lemma BorrowOfUnknownBookKeepsCopiesAgree(
    books: map<int, Book>, records: map<int, BorrowingRecord>, record: BorrowingRecord, today: Date)
    requires CopiesAgree(books, records)
    requires record.bookId !in books && NoLoanOutUnder(records, record.id)
    ensures CopiesAgree(books, records[record.id := Stamped(record, today)])
  {
    forall id | id in books
      ensures books[id].availableCopies == books[id].totalCopies - |OpenLoans(records[record.id := Stamped(record, today)], id)|
    {
      OpenLoansAfterPut(records, Stamped(record, today), id);
    }
  }

  /** As written, `returnBook` gives the copy back but leaves the loan open,
      so every return of an open loan breaks the link. */
  lemma ReturnAsWrittenBreaksCopiesAgree(
    books: map<int, Book>, records: map<int, BorrowingRecord>, recordId: int)
    requires CopiesAgree(books, records)
    requires recordId in records && records[recordId].returnDate.None? && records[recordId].bookId in books
    ensures var bookId := records[recordId].bookId;
      !CopiesAgree(books[bookId := WithCopiesChanged(books[bookId], 1)], records)
  {
  }

  /** The smallest instance: one book, its one copy lent under record 7.
      The tables agree; after the as-written return they do not. */
  lemma ReturnAsWrittenCounterexample()
    ensures var book := Book(1, "T", "A", "G", 1, 0);
      var records := map[7 := BorrowingRecord(7, 1, 5, 0, LoanPeriod, None)];
      CopiesAgree(map[1 := book], records) &&
      !CopiesAgree(map[1 := WithCopiesChanged(book, 1)], records)
  {
    var records := map[7 := BorrowingRecord(7, 1, 5, 0, LoanPeriod, None)];
    assert OpenLoans(records, 1) == {7};
  }

  /** Writing the return date as well keeps the link. */
  lemma ReturnRecordingDateKeepsCopiesAgree(
    books: map<int, Book>, records: map<int, BorrowingRecord>, recordId: int, returnDate: Date)
    requires CopiesAgree(books, records)
    requires recordId in records && records[recordId].returnDate.None? && records[recordId].bookId in books
    ensures var bookId := records[recordId].bookId;
      CopiesAgree(
        books[bookId := WithCopiesChanged(books[bookId], 1)],
        records[recordId := records[recordId].(returnDate := Some(returnDate))])
  {
    var bookId := records[recordId].bookId;
    var books' := books[bookId := WithCopiesChanged(books[bookId], 1)];
    var records' := records[recordId := records[recordId].(returnDate := Some(returnDate))];
    forall id | id in books'
      ensures books'[id].availableCopies == books'[id].totalCopies - |OpenLoans(records', id)|
    {
      OpenLoansAfterClose(records, recordId, returnDate, id);
    }
  }

  class LibraryService {
    var books: map<int, Book>
    var members: map<int, Member>
    var records: map<int, BorrowingRecord>

    /** Every entity is stored under its own identifier: each table is only
        ever written with `put(entity.getId(), entity)`. */
    ghost predicate Valid()
      reads this
    {
      && (forall id :: id in books ==> books[id].id == id)
      && (forall id :: id in members ==> members[id].id == id)
      && (forall id :: id in records ==> records[id].id == id)
    }

    constructor ()
      ensures Valid()
      ensures books == map[] && members == map[] && records == map[]
    {
      books := map[];
      members := map[];
      records := map[];
    }

    // ==================== Books ====================

    /** `getAllBooks`: the stored books, each found again by its identifier. */
    function AllBooks(): (r: set<Book>)
      reads this
      ensures forall id :: id in books ==> books[id] in r
      ensures forall b :: b in r ==> exists id :: id in books && books[id] == b
      ensures Valid() ==> forall b :: b in r ==> b.id in books && books[b.id] == b
    {
      set id | id in books :: books[id]
    }

    /** `getBookById`: the stored book, or `None` for the Java `null`. */
    function GetBookById(id: int): (r: Option<Book>)
      reads this
      ensures r.Some? <==> id in books
      ensures r.Some? ==> r.value == books[id]
      ensures Valid() && r.Some? ==> r.value.id == id
    {
      if id in books then Some(books[id]) else None
    }

    /** `addBook`: a put; a duplicate identifier silently overwrites. */
    method AddBook(book: Book)
      requires Valid()
      modifies this`books
      ensures Valid()
      ensures books == old(books)[book.id := book]
      ensures members == old(members) && records == old(records)
      ensures GetBookById(book.id) == Some(book)
      ensures forall id :: id != book.id ==> GetBookById(id) == old(GetBookById(id))
    {
      books := books[book.id := book];
    }

    /** `updateBook`: the same put as `addBook`, under the payload's own
        identifier; it does not distinguish insert from replace. */
    method UpdateBook(updatedBook: Book)
      requires Valid()
      modifies this`books
      ensures Valid()
      ensures books == old(books)[updatedBook.id := updatedBook]
      ensures members == old(members) && records == old(records)
      ensures GetBookById(updatedBook.id) == Some(updatedBook)
      ensures forall id :: id != updatedBook.id ==> GetBookById(id) == old(GetBookById(id))
    {
      books := books[updatedBook.id := updatedBook];
    }

    /** `deleteBook`: a remove; an absent identifier is a no-op. */
    method DeleteBook(id: int)
      requires Valid()
      modifies this`books
      ensures Valid()
      ensures books == old(books) - {id}
      ensures members == old(members) && records == old(records)
      ensures GetBookById(id) == None
      ensures forall other :: other != id ==> GetBookById(other) == old(GetBookById(other))
      ensures id !in old(books) ==> books == old(books)
    {
      books := books - {id};
    }

    /** `getBooksByGenre`: the entries whose book's genre contains `genre`,
        ignoring case. The returned collection is the values of this
        sub-map; the order HashMap lists them in is not modelled. */
    function BooksByGenre(genre: string): (r: map<int, Book>)
      reads this
      ensures forall id :: id in r ==> id in books && r[id] == books[id]
      ensures forall id :: id in books ==> (id in r <==> GenreContains(books[id], genre))
    {
      map id | id in books && GenreContains(books[id], genre) :: books[id]
    }

    /** `getBooksByAuthorAndGenre`: the entries whose book's author equals
        `author` ignoring case and, when a genre is given, whose genre
        contains it ignoring case. */
    function BooksByAuthorAndGenre(author: string, genre: Option<string>): (r: map<int, Book>)
      reads this
      ensures forall id :: id in r ==> id in books && r[id] == books[id]
      ensures forall id :: id in books ==> (id in r <==> ByAuthorAndGenre(books[id], author, genre))
    {
      map id | id in books && ByAuthorAndGenre(books[id], author, genre) :: books[id]
    }

    /** A record that `getBooksDueOnDate(due)` turns into a book: due that
        day, and naming a book that the lookup finds (not `null`). */
    function DueOn(id: int, due: Date): (r: bool)
      reads this
      ensures r <==> id in records && records[id].dueDate == due && GetBookById(records[id].bookId).Some?
    {
      id in records && records[id].dueDate == due && records[id].bookId in books
    }

    /** `getBooksDueOnDate`: one book per record due on `due`, skipping
        records whose book was deleted. `from` lists the records in the
        order the loop met them: each such record exactly once. */
    method BooksDueOnDate(due: Date) returns (r: seq<Book>, ghost from: seq<int>)
      ensures |r| == |from|
      ensures forall i, j :: 0 <= i < j < |from| ==> from[i] != from[j]
      ensures forall id :: id in from <==> DueOn(id, due)
      ensures forall i :: 0 <= i < |r| ==> DueOn(from[i], due) && r[i] == books[records[from[i]].bookId]
      ensures forall b :: b in r <==> exists id :: DueOn(id, due) && books[records[id].bookId] == b
    {
      var pending := records.Keys;
      r, from := [], [];
      while pending != {}
        invariant pending <= records.Keys
        invariant |r| == |from|
        invariant forall i, j :: 0 <= i < j < |from| ==> from[i] != from[j]
        invariant forall id :: id in from ==> id !in pending
        invariant forall id :: id in from <==> id !in pending && DueOn(id, due)
        invariant forall i :: 0 <= i < |r| ==> DueOn(from[i], due) && r[i] == books[records[from[i]].bookId]
        decreases pending
      {
        HasMember(pending);
        var id :| id in pending;
        pending := pending - {id};
        var record := records[id];
        if record.dueDate == due && record.bookId in books {
          r, from := r + [books[record.bookId]], from + [id];
        }
      }
      forall b | b in r
        ensures exists id :: DueOn(id, due) && books[records[id].bookId] == b
      {
        var i :| 0 <= i < |r| && r[i] == b;
        assert DueOn(from[i], due);
      }
      forall id | DueOn(id, due)
        ensures books[records[id].bookId] in r
      {
        var i :| 0 <= i < |from| && from[i] == id;
        assert r[i] == books[records[id].bookId];
      }
    }

    /** The due dates of all records of book `bookId`, returned or not. */
    function DueDates(bookId: int): (dates: set<Date>)
      reads this
      ensures forall d :: d in dates <==>
        exists id :: id in records && records[id].bookId == bookId && records[id].dueDate == d
    {
      set id | id in records && records[id].bookId == bookId :: records[id].dueDate
    }

    /** `checkAvailability`: `None` (the Java `null`) for an unknown book;
        today while a copy is available; otherwise the earliest due date
        among the book's records. With no record to sort, `get(0)` throws. */
    function CheckAvailability(bookId: int, today: Date): (r: Outcome<Option<Date>>)
      reads this
      ensures bookId !in books ==> r == Returned(None)
      ensures bookId in books && books[bookId].availableCopies >= 1 ==> r == Returned(Some(today))
      ensures bookId in books && books[bookId].availableCopies < 1 ==>
        if DueDates(bookId) == {} then r == Threw(IndexOutOfBounds)
        else r.Returned? && r.value.Some? && IsEarliest(r.value.value, DueDates(bookId))
    {
      if bookId !in books then Returned(None)
      else if books[bookId].availableCopies >= 1 then Returned(Some(today))
      else
        var dates := DueDates(bookId);
        if dates == {} then Threw(IndexOutOfBounds) else Returned(Some(Earliest(dates)))
    }

    // ==================== Members ====================

    /** `getAllMembers`. */
    function AllMembers(): (r: set<Member>)
      reads this
      ensures forall id :: id in members ==> members[id] in r
      ensures forall m :: m in r ==> exists id :: id in members && members[id] == m
      ensures Valid() ==> forall m :: m in r ==> m.id in members && members[m.id] == m
    {
      set id | id in members :: members[id]
    }

    /** `getMemberById`. */
    function GetMemberById(id: int): (r: Option<Member>)
      reads this
      ensures r.Some? <==> id in members
      ensures r.Some? ==> r.value == members[id]
      ensures Valid() && r.Some? ==> r.value.id == id
    {
      if id in members then Some(members[id]) else None
    }

    /** `addMember`: a put on the members table only. */
    method AddMember(member: Member)
      requires Valid()
      modifies this`members
      ensures Valid()
      ensures members == old(members)[member.id := member]
      ensures books == old(books) && records == old(records)
      ensures GetMemberById(member.id) == Some(member)
      ensures forall id :: id != member.id ==> GetMemberById(id) == old(GetMemberById(id))
    {
      members := members[member.id := member];
    }

    /** `updateMember`: the same put as `addMember`. */
    method UpdateMember(updatedMember: Member)
      requires Valid()
      modifies this`members
      ensures Valid()
      ensures members == old(members)[updatedMember.id := updatedMember]
      ensures books == old(books) && records == old(records)
      ensures GetMemberById(updatedMember.id) == Some(updatedMember)
      ensures forall id :: id != updatedMember.id ==> GetMemberById(id) == old(GetMemberById(id))
    {
      members := members[updatedMember.id := updatedMember];
    }

    /** `deleteMember`: a remove; open loans of the member are not checked. */
    method DeleteMember(id: int)
      requires Valid()
      modifies this`members
      ensures Valid()
      ensures members == old(members) - {id}
      ensures books == old(books) && records == old(records)
      ensures GetMemberById(id) == None
      ensures forall other :: other != id ==> GetMemberById(other) == old(GetMemberById(other))
      ensures id !in old(members) ==> members == old(members)
    {
      members := members - {id};
    }

    // ==================== Borrowing records ====================

    /** `getAllBorrowingRecords`. */
    function AllBorrowingRecords(): (r: set<BorrowingRecord>)
      reads this
      ensures forall id :: id in records ==> records[id] in r
      ensures forall rec :: rec in r ==> exists id :: id in records && records[id] == rec
      ensures Valid() ==> forall rec :: rec in r ==> rec.id in records && records[rec.id] == rec
    {
      set id | id in records :: records[id]
    }

    /** `borrowBook`: stamps the record (borrowed today, due in fourteen
        days), stores it under its identifier, then takes one copy off its
        book, with no floor at zero. When the book is unknown the record is
        already stored and the dereference of the missing book throws. */
    method BorrowBook(record: BorrowingRecord, today: Date) returns (status: Status)
      requires Valid()
      modifies this`books, this`records
      ensures Valid()
      ensures records == old(records)[record.id := Stamped(record, today)]
      ensures members == old(members)
      ensures record.bookId in old(books) ==>
        status == Completed &&
        books == old(books)[record.bookId := WithCopiesChanged(old(books)[record.bookId], -1)]
      ensures record.bookId !in old(books) ==> status == Failed(NullPointer) && books == old(books)
      ensures old(CopiesAgree(books, records)) ==>
        record.bookId in old(books) && NoLoanOutUnder(old(records), record.id) && record.returnDate.None? ==>
        CopiesAgree(books, records)
      ensures old(CopiesAgree(books, records)) ==>
        record.bookId !in old(books) && NoLoanOutUnder(old(records), record.id) ==>
        CopiesAgree(books, records)
    {
      ghost var books0, records0 := books, records;
      var stored := Stamped(record, today);
      records := records[stored.id := stored];
      if stored.bookId !in books {
        if CopiesAgree(books, records0) && NoLoanOutUnder(records0, record.id) {
          BorrowOfUnknownBookKeepsCopiesAgree(books, records0, record, today);
        }
        return Failed(NullPointer);
      }
      var book := books[stored.bookId];
      books := books[stored.bookId := WithCopiesChanged(book, -1)];
      status := Completed;
      if CopiesAgree(books0, records0) && NoLoanOutUnder(records0, record.id) && record.returnDate.None? {
        BorrowKeepsCopiesAgree(books0, records0, record, today);
      }
    }

    /** `returnBook`: gives one copy back to the record's book, with no cap
        at the total. The record itself is left as it was: no return date
        is written, and `returnDate` is never read. An unknown record or a
        deleted book is dereferenced and throws before anything changes. */
    method ReturnBook(recordId: int, returnDate: Date) returns (status: Status)
      requires Valid()
      modifies this`books
      ensures Valid()
      ensures records == old(records) && members == old(members)
      ensures recordId !in records ==> status == Failed(NullPointer) && books == old(books)
      ensures recordId in records && records[recordId].bookId !in old(books) ==>
        status == Failed(NullPointer) && books == old(books)
      ensures recordId in records && records[recordId].bookId in old(books) ==>
        var bookId := records[recordId].bookId;
        status == Completed &&
        books == old(books)[bookId := WithCopiesChanged(old(books)[bookId], 1)]
      ensures old(CopiesAgree(books, records)) ==>
        recordId in records && records[recordId].returnDate.None? && records[recordId].bookId in old(books) ==>
        !CopiesAgree(books, records)
    {
      if recordId !in records {
        return Failed(NullPointer);
      }
      var record := records[recordId];
      if record.bookId !in books {
        return Failed(NullPointer);
      }
      ghost var books0 := books;
      var book := books[record.bookId];
      books := books[record.bookId := WithCopiesChanged(book, 1)];
      status := Completed;
      if CopiesAgree(books0, records) && record.returnDate.None? {
        ReturnAsWrittenBreaksCopiesAgree(books0, records, recordId);
      }
    }

    /** `returnBook` as its comment describes it: the record first gets its
        return date, then its book gets the copy back. A deleted book is
        dereferenced and throws after the date is written. */
    method ReturnBookRecordingDate(recordId: int, returnDate: Date) returns (status: Status)
      requires Valid()
      modifies this`books, this`records
      ensures Valid()
      ensures members == old(members)
      ensures recordId !in old(records) ==>
        status == Failed(NullPointer) && books == old(books) && records == old(records)
      ensures recordId in old(records) ==>
        records == old(records)[recordId := old(records)[recordId].(returnDate := Some(returnDate))]
      ensures recordId in old(records) && old(records)[recordId].bookId !in old(books) ==>
        status == Failed(NullPointer) && books == old(books)
      ensures recordId in old(records) && old(records)[recordId].bookId in old(books) ==>
        var bookId := old(records)[recordId].bookId;
        status == Completed &&
        books == old(books)[bookId := WithCopiesChanged(old(books)[bookId], 1)]
      ensures old(CopiesAgree(books, records)) ==>
        recordId in old(records) && old(records)[recordId].returnDate.None? ==> CopiesAgree(books, records)
    {
      if recordId !in records {
        return Failed(NullPointer);
      }
      ghost var books0, records0 := books, records;
      var record := records[recordId];
      records := records[recordId := record.(returnDate := Some(returnDate))];
      if record.bookId !in books {
        if CopiesAgree(books0, records0) && record.returnDate.None? {
          forall id | id in books
            ensures books[id].availableCopies == books[id].totalCopies - |OpenLoans(records, id)|
          {
            OpenLoansAfterClose(records0, recordId, returnDate, id);
          }
        }
        return Failed(NullPointer);
      }
      var book := books[record.bookId];
      books := books[record.bookId := WithCopiesChanged(book, 1)];
      status := Completed;
      if CopiesAgree(books0, records0) && record.returnDate.None? {
        ReturnRecordingDateKeepsCopiesAgree(books0, records0, recordId, returnDate);
      }
    }

    // ==================== Properties of the queries ====================

    /** The genre query does not see the case of its argument. */
    lemma GenreQueryIgnoresCase(genre1: string, genre2: string)
      requires EqualsIgnoreCase(genre1, genre2)
      ensures BooksByGenre(genre1) == BooksByGenre(genre2)
    {
    }

    /** The empty genre is contained in every genre, so it lists every book,
        and with an author it is the same as no genre at all. */
    lemma EmptyGenreMatchesAll(author: string)
      ensures BooksByGenre("") == books
      ensures BooksByAuthorAndGenre(author, Some("")) == BooksByAuthorAndGenre(author, None)
    {
    }

    /** Author and genre together select the books that the author-only query
        and the genre-only query both select. */
    lemma AuthorAndGenreIsIntersection(author: string, genre: string)
      ensures BooksByAuthorAndGenre(author, Some(genre)).Keys ==
        BooksByAuthorAndGenre(author, None).Keys * BooksByGenre(genre).Keys
      ensures BooksByAuthorAndGenre(author, Some(genre)).Keys <= BooksByAuthorAndGenre(author, None).Keys
    {
    }

    /** A stored book is listed under its author, whatever case the query
        spells the author in. */
    lemma AuthorQueryFindsStoredBook(id: int, author: string)
      requires id in books && EqualsIgnoreCase(books[id].author, author)
      ensures id in BooksByAuthorAndGenre(author, None)
      ensures id in BooksByAuthorAndGenre(Lower(author), None)
    {
    }
  }
}
