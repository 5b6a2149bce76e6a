/** The three record shapes of the library: books, members and loans.
    Calendar dates are abstracted to day numbers, so that "fourteen days
    later" is addition and "before" is `<` on integers. */
module Models {

  /** A calendar date, as the number of days since some fixed epoch. */
  type Date = int

  datatype Option<+T> = None | Some(value: T)

  /** One catalogue entry. `CopiesAvailable` is decremented by an issue and
      incremented by a return; the other fields never change. */
  datatype Book = Book(
    ISBN: string,
    Title: string,
    Author: string,
    CopiesTotal: int,
    CopiesAvailable: int)

  /** A registered member. The password digest is opaque text. */
  datatype Member = Member(
    MemberID: string,
    Name: string,
    PasswordHash: string,
    Email: string,
    JoinDate: string)

  /** One loan. `ReturnDate` is `None` while the loan is active (the empty
      text in the stored record) and `Some(day)` once the copy is back. */
  datatype Loan = Loan(
    LoanID: int,
    ISBN: string,
    MemberID: string,
    IssueDate: Date,
    DueDate: Date,
    ReturnDate: Option<Date>)

  /** A loan is active exactly when it has no return date. */
  predicate IsActive(l: Loan) {
    l.ReturnDate.None?
  }
}
