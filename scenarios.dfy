/** The borrow-and-return walk through a single-copy book, stated against
    the service's contracts alone. */
module Scenarios {
  import opened Entities
  import opened Services

  /** A book with one copy and no records is added, borrowed and returned.
      While the copy is out availability is the record's due date; once it
      is back it is today again, and the book is exactly as it was added.
      The return writes no return date: the record stays in the table with
      none. */
  method BorrowAndReturnSingleCopy(
    lib: LibraryService, book: Book, record: BorrowingRecord, today: Date, returnDay: Date)
    returns (whileOut: Outcome<Option<Date>>, afterReturn: Outcome<Option<Date>>)
    requires lib.Valid()
    requires book.availableCopies == 1 && record.bookId == book.id && record.returnDate.None?
    requires forall id :: id in lib.records ==> lib.records[id].bookId != book.id
    modifies lib
    ensures lib.Valid()
    ensures whileOut == Returned(Some(today + LoanPeriod))
    ensures afterReturn == Returned(Some(today))
    ensures lib.books == old(lib.books)[book.id := book]
    ensures lib.records == old(lib.records)[record.id := Stamped(record, today)]
    ensures lib.records[record.id].returnDate == None
    ensures lib.members == old(lib.members)
  {
    lib.AddBook(book);
    var borrowed := lib.BorrowBook(record, today);
    assert lib.books[book.id].availableCopies == 0;
    assert lib.DueDates(book.id) == {today + LoanPeriod} by {
      assert forall id :: id in lib.records && lib.records[id].bookId == book.id ==> id == record.id;
      assert lib.records[record.id].dueDate == today + LoanPeriod;
    }
    whileOut := lib.CheckAvailability(book.id, today);
    var returned := lib.ReturnBook(record.id, returnDay);
    assert lib.books[book.id] == book;
    afterReturn := lib.CheckAvailability(book.id, today);
  }
}
