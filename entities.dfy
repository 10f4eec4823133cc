/** The three entities of the library store, how dates are represented, and
    the outcomes a service call can have (a value, or one of the runtime
    exceptions the Java service lets escape). */
module Entities {

  /** A calendar day, numbered consecutively; `LocalDate.plusDays(n)` is `+ n`. */
  type Date = int

  /** The fixed loan period stamped on every borrowing record. */
  const LoanPeriod: int := 14

  datatype Option<+T> = None | Some(value: T)

  datatype Book = Book(
    id: int,
    title: string,
    author: string,
    genre: string,
    totalCopies: int,
    availableCopies: int)

  datatype Member = Member(id: int, name: string, contact: string)

  /** `returnDate == None` is the Java `null`: the copy is still out. */
  datatype BorrowingRecord = BorrowingRecord(
    id: int,
    bookId: int,
    memberId: int,
    borrowDate: Date,
    dueDate: Date,
    returnDate: Option<Date>)

  /** The unchecked exceptions the service can raise. */
  datatype Fault = NullPointer | IndexOutOfBounds

  /** A call that returns normally, or that throws part-way. */
  datatype Outcome<+T> = Returned(value: T) | Threw(fault: Fault)

  /** The outcome of a `void` service method. */
  datatype Status = Completed | Failed(fault: Fault)

  /** `d` is a least element of `dates`. */
  predicate IsEarliest(d: Date, dates: set<Date>)
  {
    d in dates && forall e :: e in dates ==> d <= e
  }

  /** A non-empty set has an element one can pick. This is a proof step, not
      a property of the library: it lets `:|` pick from a non-empty set. */
  lemma HasMember(s: set<int>)
    requires s != {}
    ensures exists x :: x in s
  {
    if forall x :: x !in s {
      assert false;
    }
  }

  /** Every non-empty finite set of dates has a least element. */
  lemma {:induction false} EarliestExists(dates: set<Date>)
    requires dates != {}
    ensures exists d :: IsEarliest(d, dates)
    decreases |dates|
  {
    HasMember(dates);
    var x :| x in dates;
    if dates != {x} {
      var rest := dates - {x};
      assert forall e :: e in dates ==> e == x || e in rest;
      EarliestExists(rest);
      var m :| IsEarliest(m, rest);
      if x < m {
        assert IsEarliest(x, dates);
      } else {
        assert IsEarliest(m, dates);
      }
    } else {
      assert IsEarliest(x, dates);
    }
  }

  /** The first date of `dates` once it is sorted ascending. */
  function Earliest(dates: set<Date>): (d: Date)
    requires dates != {}
    ensures IsEarliest(d, dates)
  {
    EarliestExists(dates);
    var d :| IsEarliest(d, dates); d
  }
}
