/** The desk operations as the program runs them: each loads the
    collections it needs from the data directory, checks, changes the
    loaded lists in place and writes them back. The data directory holds
    one table per record kind; here each table is the sequence of records
    it stores, and loading and saving pass that sequence through
    unchanged. */
module Library {
  import opened Models
  import opened Rules
  import opened Circulation

  /** A scan for the first book with this ISBN. The duplicate check of
      `add_book` and the book lookup of `issue_book` and `borrow_book` all
      do this. */
  method ScanBooks(books: seq<Book>, isbn: string) returns (r: Option<nat>)
    ensures r.Some? ==> IsFirstBook(books, isbn, r.value)
    ensures r.None? <==> !HasBook(books, isbn)
    ensures r == FindBook(books, isbn)
  {
    var i := 0;
    while i < |books|
      invariant 0 <= i <= |books|
      invariant forall j :: 0 <= j < i ==> books[j].ISBN != isbn
    {
      if books[i].ISBN == isbn {
        return Some(i);
      }
      i := i + 1;
    }
    return None;
  }

  /** The member lookup of `issue_book`: a scan for a member with this
      identifier, of which only whether one was found is used. */
  method ScanMembers(members: seq<Member>, memberId: string) returns (found: bool)
    ensures found <==> HasMember(members, memberId)
  {
    var i := 0;
    while i < |members|
      invariant 0 <= i <= |members|
      invariant forall j :: 0 <= j < i ==> members[j].MemberID != memberId
    {
      if members[i].MemberID == memberId {
        return true;
      }
      i := i + 1;
    }
    return false;
  }

  /** The data directory: the stored books, members and loans, each in the
      order of its table. */
  class DataDir {
    var books: seq<Book>
    var members: seq<Member>
    var loans: seq<Loan>

    constructor (books: seq<Book>, members: seq<Member>, loans: seq<Loan>)
      ensures this.books == books && this.members == members && this.loans == loans
    {
      this.books := books;
      this.members := members;
      this.loans := loans;
    }

    // ---- Loading and saving whole tables ----

    method LoadBooks() returns (s: seq<Book>)
      ensures s == books
    {
      s := books;
    }

    method LoadMembers() returns (s: seq<Member>)
      ensures s == members
    {
      s := members;
    }

    method LoadLoans() returns (s: seq<Loan>)
      ensures s == loans
    {
      s := loans;
    }

    method SaveBooks(s: seq<Book>)
      modifies this`books
      ensures books == s
    {
      books := s;
    }

    method SaveLoans(s: seq<Loan>)
      modifies this`loans
      ensures loans == s
    {
      loans := s;
    }

    // ---- The desk operations ----

    /** `add_book`: append a new title with every copy on the shelf. */
    method AddBook(isbn: string, title: string, author: string, copies: int) returns (r: Result<Book>)
      modifies this`books
      ensures r == Circulation.AddBook(old(books), isbn, title, author, copies)
      ensures books == if r.Ok? then old(books) + [r.value] else old(books)
    {
      if !ValidIsbn(isbn) {
        return Err(InvalidIsbn);
      }
      if copies < 1 {
        return Err(InvalidCopies);
      }
      var bs := LoadBooks();
      var found := ScanBooks(bs, isbn);
      if found.Some? {
        return Err(BookExists);
      }
      var book := Book(isbn, title, author, copies, copies);
      bs := bs + [book];
      SaveBooks(bs);
      return Ok(book);
    }

    /** `issue_book`: lend a copy to a registered member for the loan
        period, starting on `asOf`. */
    method IssueBook(isbn: string, memberId: string, asOf: Date) returns (r: Result<Loan>)
      modifies this`books, this`loans
      ensures var o := Issue(old(books), old(members), old(loans), isbn, memberId, asOf);
              books == o.books && loans == o.loans && r == o.result
    {
      var bs := LoadBooks();
      var found := ScanBooks(bs, isbn);
      if found.None? {
        return Err(BookNotFound);
      }
      var i := found.value;
      if bs[i].CopiesAvailable < 1 {
        return Err(NoCopiesAvailable);
      }
      var ms := LoadMembers();
      var known := ScanMembers(ms, memberId);
      if !known {
        return Err(MemberNotFound);
      }
      var ls := LoadLoans();
      var loan := Loan(NextLoanId(ls), isbn, memberId, asOf, asOf + LoanPeriod, None);
      ls := ls + [loan];
      bs := bs[i := bs[i].(CopiesAvailable := bs[i].CopiesAvailable - 1)];
      SaveLoans(ls);
      SaveBooks(bs);
      return Ok(loan);
    }

    /** `borrow_book`: the signed-in member lends a copy to themself. */
    method BorrowBook(isbn: string, member: Member, asOf: Date) returns (r: Result<Loan>)
      modifies this`books, this`loans
      ensures var o := Borrow(old(books), old(loans), isbn, member, asOf);
              books == o.books && loans == o.loans && r == o.result
    {
      var bs := LoadBooks();
      var found := ScanBooks(bs, isbn);
      if found.None? {
        return Err(BookNotFound);
      }
      var i := found.value;
      if bs[i].CopiesAvailable < 1 {
        return Err(NoCopiesAvailable);
      }
      var ls := LoadLoans();
      var loan := Loan(NextLoanId(ls), isbn, member.MemberID, asOf, asOf + LoanPeriod, None);
      ls := ls + [loan];
      bs := bs[i := bs[i].(CopiesAvailable := bs[i].CopiesAvailable - 1)];
      SaveLoans(ls);
      SaveBooks(bs);
      return Ok(loan);
    }

    /** `return_book`: close the first open loan of this ISBN to this
        member on `asOf`, and put the copy back on the first book with
        that ISBN, if there is one. */
    method ReturnBook(isbn: string, memberId: string, asOf: Date) returns (r: Result<Loan>)
      modifies this`books, this`loans
      ensures var o := Return(old(books), old(loans), isbn, memberId, asOf);
              books == o.books && loans == o.loans && r == o.result
    {
      var ls := LoadLoans();
      var k := 0;
      while k < |ls|
        invariant 0 <= k <= |ls|
        invariant ls == loans == old(loans) && books == old(books)
        invariant forall j :: 0 <= j < k ==> !Returnable(ls[j], isbn, memberId)
      {
        if ls[k].ISBN == isbn && ls[k].MemberID == memberId && ls[k].ReturnDate.None? {
          assert IsFirstReturnable(old(loans), isbn, memberId, k);
          var closed := ls[k].(ReturnDate := Some(asOf));
          ls := ls[k := closed];
          var bs := LoadBooks();
          var i := 0;
          while i < |bs|
            invariant 0 <= i <= |bs|
            invariant bs == books == old(books)
            invariant forall j :: 0 <= j < i ==> bs[j].ISBN != isbn
          {
            if bs[i].ISBN == isbn {
              assert IsFirstBook(old(books), isbn, i);
              bs := bs[i := bs[i].(CopiesAvailable := bs[i].CopiesAvailable + 1)];
              SaveBooks(bs);
              break;
            }
            i := i + 1;
          }
          SaveLoans(ls);
          return Ok(closed);
        }
        k := k + 1;
      }
      return Err(ActiveLoanNotFound);
    }
  }

  /** The single-copy example: issuing the only copy succeeds with a due
      date fourteen days on and empties the shelf, and a second issue the
      next day is refused. */
  method SingleCopyScenario(day: Date) {
    var m := Member("M1", "Ada", "digest", "ada@example.org", "");
    var dir := new DataDir([Book("111", "Title", "Author", 1, 1)], [m], []);
    var first := dir.IssueBook("111", "M1", day);
    assert IsFirstBook(dir.books, "111", 0);
    assert dir.members[0].MemberID == "M1";
    assert first.Ok? && first.value.DueDate == day + 14 && first.value.LoanID == 1001;
    assert dir.books == [Book("111", "Title", "Author", 1, 0)];
    var second := dir.IssueBook("111", "M1", day + 1);
    assert second == Err(NoCopiesAvailable);
    assert |dir.loans| == 1;
  }
}
