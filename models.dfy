/**
 * The records of the library: books, members and loans, as the loan
 * lifecycle and the notification jobs see them. Dates are whole day
 * numbers; "today" is always passed in explicitly.
 */
module Models {

  type BookId = nat
  type MemberId = nat
  /** A loan's id is its position in the loan table: loans are only ever appended. */
  type LoanId = nat
  /** A calendar date as a day number. */
  type Date = int

  datatype Option<+T> = None | Some(value: T)

  /** A book; `availableCopies` is the counter the loan lifecycle moves. */
  datatype Book = Book(title: string, totalCopies: int, availableCopies: int)

  /** A member together with the user account the notifications are sent to. */
  datatype Member = Member(username: string, email: string)

  datatype Loan = Loan(
    book: BookId,
    member: MemberId,
    loanDate: Date,
    dueDate: Date,
    isReturned: bool,
    returnDate: Option<Date>)

  /** The refusals of the lifecycle operations. */
  datatype Error =
    | BookNotFound          // no book with that id (the viewset's 404)
    | NoAvailableCopies     // "No available copies."
    | MemberNotFound        // "Member does not exist."
    | ActiveLoanNotFound    // "Active loan does not exist."
    | MultipleActiveLoans   // the lookup of the active loan matched more than one row
    | LoanNotFound          // no loan with that id (the viewset's 404)
    | LoanAlreadyOverdue    // "Loan is already overdue"

  datatype Result<+T> = Ok(value: T) | Err(error: Error)

  /** Every loan refers to a book and a member that exist (the foreign keys). */
  ghost predicate RefsResolve(books: map<BookId, Book>, members: map<MemberId, Member>, loans: seq<Loan>)
  {
    forall i :: 0 <= i < |loans| ==> loans[i].book in books && loans[i].member in members
  }

  /** No book has a negative number of available copies. */
  ghost predicate CopiesNonNegative(books: map<BookId, Book>)
  {
    forall b :: b in books ==> books[b].availableCopies >= 0
  }

  /** A loan carries a return date exactly when it is marked returned. */
  ghost predicate ReturnDatesConsistent(loans: seq<Loan>)
  {
    forall i :: 0 <= i < |loans| ==> (loans[i].isReturned <==> loans[i].returnDate.Some?)
  }
}
