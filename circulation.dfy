/** The circulation rules as functions of the loaded collections: adding a
    book, issuing (and self-service borrowing), and returning. Issuing,
    borrowing and returning yield the collections as they are saved
    afterwards together with the outcome the desk reports; adding a book
    yields the book to append or the reason for refusing. The lemmas show that these operations keep
    the catalogue and the ledger consistent with each other. */
module Circulation {
  import opened Models
  import opened Rules

  /** The loan period: a loan falls due this many days after issue. */
  const LoanPeriod := 14

  /** The failures the desk reports, one per message of the console. */
  datatype Error =
    | InvalidIsbn
    | InvalidCopies
    | BookExists
    | BookNotFound
    | NoCopiesAvailable
    | MemberNotFound
    | ActiveLoanNotFound

  datatype Result<+T> = Ok(value: T) | Err(error: Error)

  /** The collections after an issue, a borrow or a return, and what was
      reported: the loan created or closed, or the failure. */
  datatype Outcome = Outcome(books: seq<Book>, loans: seq<Loan>, result: Result<Loan>)

  // ---- Lookups ----

  /** The first position at or after `from` whose element satisfies `p`. */
  function FirstFrom<T>(s: seq<T>, p: T -> bool, from: nat): (r: Option<nat>)
    requires from <= |s|
    ensures r.Some? ==> from <= r.value < |s| && p(s[r.value])
                        && forall j :: from <= j < r.value ==> !p(s[j])
    ensures r.None? ==> forall j :: from <= j < |s| ==> !p(s[j])
    decreases |s| - from
  {
    if from == |s| then None
    else if p(s[from]) then Some(from)
    else FirstFrom(s, p, from + 1)
  }

  predicate HasBook(books: seq<Book>, isbn: string) {
    exists i :: 0 <= i < |books| && books[i].ISBN == isbn
  }

  predicate HasMember(members: seq<Member>, memberId: string) {
    exists i :: 0 <= i < |members| && members[i].MemberID == memberId
  }

  /** Position `i` holds the first book of the list with this ISBN. */
  predicate IsFirstBook(books: seq<Book>, isbn: string, i: int) {
    0 <= i < |books| && books[i].ISBN == isbn
    && forall j :: 0 <= j < i ==> books[j].ISBN != isbn
  }

  /** The loan is an open loan of this ISBN to this member. */
  predicate Returnable(l: Loan, isbn: string, memberId: string) {
    l.ISBN == isbn && l.MemberID == memberId && IsActive(l)
  }

  /** Position `k` holds the first open loan of this ISBN to this member. */
  predicate IsFirstReturnable(loans: seq<Loan>, isbn: string, memberId: string, k: int) {
    0 <= k < |loans| && Returnable(loans[k], isbn, memberId)
    && forall j :: 0 <= j < k ==> !Returnable(loans[j], isbn, memberId)
  }

  /** Where the first book with this ISBN is, if any. */
  function FindBook(books: seq<Book>, isbn: string): (r: Option<nat>)
    ensures r.Some? ==> IsFirstBook(books, isbn, r.value)
    ensures r.None? <==> !HasBook(books, isbn)
  {
    FirstFrom(books, (b: Book) => b.ISBN == isbn, 0)
  }

  /** Where the first open loan of this ISBN to this member is, if any. */
  function FindActiveLoan(loans: seq<Loan>, isbn: string, memberId: string): (r: Option<nat>)
    ensures r.Some? ==> IsFirstReturnable(loans, isbn, memberId, r.value)
    ensures r.None? <==> forall k :: 0 <= k < |loans| ==> !Returnable(loans[k], isbn, memberId)
  {
    FirstFrom(loans, (l: Loan) => Returnable(l, isbn, memberId), 0)
  }

  // ---- What an operation may change ----

  /** `after` is `before` with the available count of book `i` moved by
      `delta`, and every other field and every other book as it was. */
  ghost predicate AdjustedAt(before: seq<Book>, after: seq<Book>, i: int, delta: int) {
    |after| == |before| && 0 <= i < |before|
    && after[i] == before[i].(CopiesAvailable := before[i].CopiesAvailable + delta)
    && forall j :: 0 <= j < |before| && j != i ==> after[j] == before[j]
  }

  /** `after` is `before` with loan `k` closed on day `d`, and every other
      loan as it was. */
  ghost predicate ClosedAt(before: seq<Loan>, after: seq<Loan>, k: int, d: Date) {
    |after| == |before| && 0 <= k < |before|
    && after[k] == before[k].(ReturnDate := Some(d))
    && forall j :: 0 <= j < |before| && j != k ==> after[j] == before[j]
  }

  // ---- Adding a book ----

  /** The book `add_book` appends, or why it refuses: the ISBN is checked
      first, then the number of copies, then uniqueness. */
  function AddBook(books: seq<Book>, isbn: string, title: string, author: string, copies: int): (r: Result<Book>)
    ensures r == Err(InvalidIsbn) <==> !ValidIsbn(isbn)
    ensures r == Err(InvalidCopies) <==> ValidIsbn(isbn) && copies < 1
    ensures r == Err(BookExists) <==> ValidIsbn(isbn) && copies >= 1 && HasBook(books, isbn)
    ensures r.Ok? <==> ValidIsbn(isbn) && copies >= 1 && !HasBook(books, isbn)
    ensures r.Ok? ==> r.value == Book(isbn, title, author, copies, copies)
  {
    if !ValidIsbn(isbn) then Err(InvalidIsbn)
    else if copies < 1 then Err(InvalidCopies)
    else if HasBook(books, isbn) then Err(BookExists)
    else Ok(Book(isbn, title, author, copies, copies))
  }

  // ---- Issuing and borrowing ----

  /** The common effect of a successful issue or borrow of book `i`. */
  function Checkout(books: seq<Book>, loans: seq<Loan>, i: nat, memberId: string, asOf: Date): (o: Outcome)
    requires i < |books|
  {
    var loan := Loan(NextLoanId(loans), books[i].ISBN, memberId, asOf, asOf + LoanPeriod, None);
    Outcome(books[i := books[i].(CopiesAvailable := books[i].CopiesAvailable - 1)],
            loans + [loan], Ok(loan))
  }

  /** The librarian's `issue_book`. */
  function Issue(books: seq<Book>, members: seq<Member>, loans: seq<Loan>,
                 isbn: string, memberId: string, asOf: Date): (o: Outcome)
    // the failures, in the order they are checked; a failure changes nothing
    ensures o.result == Err(BookNotFound) <==> !HasBook(books, isbn)
    ensures forall i :: IsFirstBook(books, isbn, i) ==>
              (o.result == Err(NoCopiesAvailable) <==> books[i].CopiesAvailable < 1)
    ensures forall i :: IsFirstBook(books, isbn, i) ==>
              (o.result == Err(MemberNotFound) <==>
                 books[i].CopiesAvailable >= 1 && !HasMember(members, memberId))
    ensures forall i :: IsFirstBook(books, isbn, i) ==>
              (o.result.Ok? <==> books[i].CopiesAvailable >= 1 && HasMember(members, memberId))
    ensures o.result.Err? ==> o.books == books && o.loans == loans
    // a success appends one fresh active loan and takes one copy of the first matching book
    ensures o.result.Ok? ==>
              && o.result.value == Loan(NextLoanId(loans), isbn, memberId, asOf, asOf + LoanPeriod, None)
              && o.loans == loans + [o.result.value]
              && forall i :: IsFirstBook(books, isbn, i) ==> AdjustedAt(books, o.books, i, -1)
  {
    match FindBook(books, isbn)
    case None => Outcome(books, loans, Err(BookNotFound))
    case Some(i) =>
      if books[i].CopiesAvailable < 1 then Outcome(books, loans, Err(NoCopiesAvailable))
      else if !HasMember(members, memberId) then Outcome(books, loans, Err(MemberNotFound))
      else Checkout(books, loans, i, memberId, asOf)
  }

  /** The member's own `borrow_book`: as `Issue`, without the member check,
      on behalf of the signed-in member. */
  function Borrow(books: seq<Book>, loans: seq<Loan>, isbn: string, member: Member, asOf: Date): (o: Outcome)
    ensures o.result == Err(BookNotFound) <==> !HasBook(books, isbn)
    ensures forall i :: IsFirstBook(books, isbn, i) ==>
              (o.result == Err(NoCopiesAvailable) <==> books[i].CopiesAvailable < 1)
    ensures forall i :: IsFirstBook(books, isbn, i) ==>
              (o.result.Ok? <==> books[i].CopiesAvailable >= 1)
    ensures o.result != Err(MemberNotFound)
    ensures o.result.Err? ==> o.books == books && o.loans == loans
    ensures o.result.Ok? ==>
              && o.result.value == Loan(NextLoanId(loans), isbn, member.MemberID, asOf, asOf + LoanPeriod, None)
              && o.loans == loans + [o.result.value]
              && forall i :: IsFirstBook(books, isbn, i) ==> AdjustedAt(books, o.books, i, -1)
  {
    match FindBook(books, isbn)
    case None => Outcome(books, loans, Err(BookNotFound))
    case Some(i) =>
      if books[i].CopiesAvailable < 1 then Outcome(books, loans, Err(NoCopiesAvailable))
      else Checkout(books, loans, i, member.MemberID, asOf)
  }

  /** For a registered member, borrowing is issuing. For an unknown one,
      issuing changes nothing and fails as borrowing would, except that a
      borrow that would succeed is refused with `MemberNotFound`. */
  lemma BorrowIsIssueWithoutMemberCheck(books: seq<Book>, members: seq<Member>, loans: seq<Loan>,
                                        isbn: string, member: Member, asOf: Date)
    ensures HasMember(members, member.MemberID) ==>
              Issue(books, members, loans, isbn, member.MemberID, asOf) == Borrow(books, loans, isbn, member, asOf)
    ensures !HasMember(members, member.MemberID) ==>
              var i, b := Issue(books, members, loans, isbn, member.MemberID, asOf), Borrow(books, loans, isbn, member, asOf);
              && i.books == books && i.loans == loans
              && i.result == (if b.result.Ok? then Err(MemberNotFound) else b.result)
  {
  }

  // ---- Returning ----

  /** `return_book`: close the first open loan of this ISBN to this member
      and put one copy back on the first book with that ISBN, if the
      catalogue still has one. */
  function Return(books: seq<Book>, loans: seq<Loan>, isbn: string, memberId: string, asOf: Date): (o: Outcome)
    ensures o.result == Err(ActiveLoanNotFound) <==>
              forall k :: 0 <= k < |loans| ==> !Returnable(loans[k], isbn, memberId)
    ensures o.result.Err? ==> o.result == Err(ActiveLoanNotFound) && o.books == books && o.loans == loans
    ensures forall k :: IsFirstReturnable(loans, isbn, memberId, k) ==>
              ClosedAt(loans, o.loans, k, asOf) && o.result == Ok(o.loans[k])
    ensures o.result.Ok? ==>
              && (forall i :: IsFirstBook(books, isbn, i) ==> AdjustedAt(books, o.books, i, 1))
              && (!HasBook(books, isbn) ==> o.books == books)
  {
    match FindActiveLoan(loans, isbn, memberId)
    case None => Outcome(books, loans, Err(ActiveLoanNotFound))
    case Some(k) =>
      var closed := loans[k].(ReturnDate := Some(asOf));
      var books' := match FindBook(books, isbn)
                    case None => books
                    case Some(i) => books[i := books[i].(CopiesAvailable := books[i].CopiesAvailable + 1)];
      Outcome(books', loans[k := closed], Ok(closed))
  }

  // ---- Consistency of catalogue and ledger ----

  /** The number of active loans on this ISBN. */
  function ActiveOn(loans: seq<Loan>, isbn: string): nat {
    if loans == [] then 0
    else ActiveOn(loans[..|loans| - 1], isbn)
         + (if IsActive(loans[|loans| - 1]) && loans[|loans| - 1].ISBN == isbn then 1 else 0)
  }

  ghost predicate UniqueIsbns(books: seq<Book>) {
    forall i, j :: 0 <= i < j < |books| ==> books[i].ISBN != books[j].ISBN
  }

  /** The catalogue agrees with the ledger: ISBNs are unique, every book
      has at least one copy and a non-negative number on the shelf, the
      copies not on the shelf are exactly those on active loan, and every
      active loan is of a catalogued book. */
  ghost predicate Consistent(books: seq<Book>, loans: seq<Loan>) {
    && UniqueIsbns(books)
    && (forall i :: 0 <= i < |books| ==>
          && 1 <= books[i].CopiesTotal
          && 0 <= books[i].CopiesAvailable
          && books[i].CopiesAvailable == books[i].CopiesTotal - ActiveOn(loans, books[i].ISBN))
    && (forall k :: 0 <= k < |loans| && IsActive(loans[k]) ==> HasBook(books, loans[k].ISBN))
  }

  /** Loan identifiers grow along the ledger, so no two are equal. */
  ghost predicate IdsIncreasing(loans: seq<Loan>) {
    forall i, j :: 0 <= i < j < |loans| ==> loans[i].LoanID < loans[j].LoanID
  }

  lemma ActiveOnAppend(loans: seq<Loan>, l: Loan, isbn: string)
    ensures ActiveOn(loans + [l], isbn)
            == ActiveOn(loans, isbn) + (if IsActive(l) && l.ISBN == isbn then 1 else 0)
  {
    assert (loans + [l])[..|loans|] == loans;
  }

  /** Closing an active loan lowers the count of its own ISBN by one and
      leaves every other count alone. */
  lemma {:induction false} ActiveOnClose(loans: seq<Loan>, k: nat, d: Date, isbn: string)
    requires k < |loans| && IsActive(loans[k])
    ensures ActiveOn(loans[k := loans[k].(ReturnDate := Some(d))], isbn)
            == ActiveOn(loans, isbn) - (if loans[k].ISBN == isbn then 1 else 0)
  {
    var n := |loans|;
    var after := loans[k := loans[k].(ReturnDate := Some(d))];
    if k == n - 1 {
      assert after[..n - 1] == loans[..n - 1];
    } else {
      assert after[..n - 1] == loans[..n - 1][k := loans[k].(ReturnDate := Some(d))];
      ActiveOnClose(loans[..n - 1], k, d, isbn);
    }
  }

  /** An ISBN that no active loan names has no active loans. */
  lemma {:induction false} ActiveOnZero(loans: seq<Loan>, isbn: string)
    requires forall k :: 0 <= k < |loans| && IsActive(loans[k]) ==> loans[k].ISBN != isbn
    ensures ActiveOn(loans, isbn) == 0
  {
    if loans != [] {
      ActiveOnZero(loans[..|loans| - 1], isbn);
    }
  }

  /** In a consistent catalogue the available count lies between zero and
      the total. */
  lemma ConsistentBounds(books: seq<Book>, loans: seq<Loan>, i: nat)
    requires Consistent(books, loans) && i < |books|
    ensures 0 <= books[i].CopiesAvailable <= books[i].CopiesTotal
  {
  }

  lemma AddBookPreserves(books: seq<Book>, loans: seq<Loan>, isbn: string, title: string, author: string, copies: int)
    requires Consistent(books, loans)
    ensures var r := AddBook(books, isbn, title, author, copies);
            r.Ok? ==> Consistent(books + [r.value], loans)
  {
    var r := AddBook(books, isbn, title, author, copies);
    if r.Ok? {
      var after := books + [r.value];
      forall k | 0 <= k < |loans| && IsActive(loans[k]) ensures loans[k].ISBN != isbn {
        var i :| 0 <= i < |books| && books[i].ISBN == loans[k].ISBN;
      }
      ActiveOnZero(loans, isbn);
      forall k | 0 <= k < |loans| && IsActive(loans[k]) ensures HasBook(after, loans[k].ISBN) {
        var i :| 0 <= i < |books| && books[i].ISBN == loans[k].ISBN;
        assert after[i] == books[i];
      }
      assert forall i :: 0 <= i < |books| ==> after[i] == books[i];
    }
  }

  /** A successful checkout keeps the catalogue consistent with the ledger. */
  lemma CheckoutPreserves(books: seq<Book>, loans: seq<Loan>, i: nat, memberId: string, asOf: Date)
    requires Consistent(books, loans) && i < |books| && books[i].CopiesAvailable >= 1
    ensures var o := Checkout(books, loans, i, memberId, asOf);
            Consistent(o.books, o.loans)
  {
    var loan := Loan(NextLoanId(loans), books[i].ISBN, memberId, asOf, asOf + LoanPeriod, None);
    var after := books[i := books[i].(CopiesAvailable := books[i].CopiesAvailable - 1)];
    var ledger := loans + [loan];
    assert Checkout(books, loans, i, memberId, asOf) == Outcome(after, ledger, Ok(loan));
    assert forall j :: 0 <= j < |books| ==> after[j].ISBN == books[j].ISBN;
    assert UniqueIsbns(after);
    CheckoutCounts(books, loans, i, loan, after, ledger);
    forall k | 0 <= k < |ledger| && IsActive(ledger[k]) ensures HasBook(after, ledger[k].ISBN) {
      if k == |loans| {
        assert after[i].ISBN == loan.ISBN;
      } else {
        assert ledger[k] == loans[k];
        var j :| 0 <= j < |books| && books[j].ISBN == loans[k].ISBN;
        assert after[j].ISBN == books[j].ISBN;
      }
    }
  }

  /** The counting half of `CheckoutPreserves`. */
  lemma CheckoutCounts(books: seq<Book>, loans: seq<Loan>, i: nat, loan: Loan, after: seq<Book>, ledger: seq<Loan>)
    requires Consistent(books, loans) && i < |books| && books[i].CopiesAvailable >= 1
    requires IsActive(loan) && loan.ISBN == books[i].ISBN && ledger == loans + [loan]
    requires after == books[i := books[i].(CopiesAvailable := books[i].CopiesAvailable - 1)]
    ensures forall j :: 0 <= j < |after| ==>
              && 1 <= after[j].CopiesTotal && 0 <= after[j].CopiesAvailable
              && after[j].CopiesAvailable == after[j].CopiesTotal - ActiveOn(ledger, after[j].ISBN)
  {
    forall j | 0 <= j < |after|
      ensures 1 <= after[j].CopiesTotal && 0 <= after[j].CopiesAvailable
      ensures after[j].CopiesAvailable == after[j].CopiesTotal - ActiveOn(ledger, after[j].ISBN)
    {
      ActiveOnAppend(loans, loan, books[j].ISBN);
      if j != i {
        assert after[j] == books[j];
        assert books[j].ISBN != loan.ISBN;
      }
    }
  }

  lemma IssuePreserves(books: seq<Book>, members: seq<Member>, loans: seq<Loan>,
                       isbn: string, memberId: string, asOf: Date)
    requires Consistent(books, loans)
    ensures var o := Issue(books, members, loans, isbn, memberId, asOf);
            Consistent(o.books, o.loans)
  {
    match FindBook(books, isbn)
    case None =>
    case Some(i) =>
      if books[i].CopiesAvailable >= 1 && HasMember(members, memberId) {
        CheckoutPreserves(books, loans, i, memberId, asOf);
      }
  }

  lemma BorrowPreserves(books: seq<Book>, loans: seq<Loan>, isbn: string, member: Member, asOf: Date)
    requires Consistent(books, loans)
    ensures var o := Borrow(books, loans, isbn, member, asOf);
            Consistent(o.books, o.loans)
  {
    match FindBook(books, isbn)
    case None =>
    case Some(i) =>
      if books[i].CopiesAvailable >= 1 {
        CheckoutPreserves(books, loans, i, member.MemberID, asOf);
      }
  }

  lemma ReturnPreserves(books: seq<Book>, loans: seq<Loan>, isbn: string, memberId: string, asOf: Date)
    requires Consistent(books, loans)
    ensures var o := Return(books, loans, isbn, memberId, asOf);
            Consistent(o.books, o.loans)
  {
    match FindActiveLoan(loans, isbn, memberId)
    case None =>
    case Some(k) =>
      var o := Return(books, loans, isbn, memberId, asOf);
      forall x { ActiveOnClose(loans, k, asOf, x); }
      var i :| 0 <= i < |books| && books[i].ISBN == isbn;
      assert IsFirstBook(books, isbn, i);
      assert AdjustedAt(books, o.books, i, 1);
      forall j | 0 <= j < |o.loans| && IsActive(o.loans[j]) ensures HasBook(o.books, o.loans[j].ISBN) {
        assert o.loans[j] == loans[j];
        var m :| 0 <= m < |books| && books[m].ISBN == loans[j].ISBN;
        assert o.books[m].ISBN == books[m].ISBN;
      }
  }

  /** Identifiers keep growing along the ledger under every issue,
      borrow and return; in particular every new identifier is unused. */
  lemma IssueKeepsIdsIncreasing(books: seq<Book>, members: seq<Member>, loans: seq<Loan>,
                                isbn: string, memberId: string, asOf: Date)
    requires IdsIncreasing(loans)
    ensures var o := Issue(books, members, loans, isbn, memberId, asOf);
            IdsIncreasing(o.loans)
            && (o.result.Ok? ==> forall l :: l in loans ==> l.LoanID < o.result.value.LoanID)
  {
  }

  lemma BorrowKeepsIdsIncreasing(books: seq<Book>, loans: seq<Loan>, isbn: string, member: Member, asOf: Date)
    requires IdsIncreasing(loans)
    ensures var o := Borrow(books, loans, isbn, member, asOf);
            IdsIncreasing(o.loans)
            && (o.result.Ok? ==> forall l :: l in loans ==> l.LoanID < o.result.value.LoanID)
  {
  }

  lemma ReturnKeepsIdsIncreasing(books: seq<Book>, loans: seq<Loan>, isbn: string, memberId: string, asOf: Date)
    requires IdsIncreasing(loans)
    ensures IdsIncreasing(Return(books, loans, isbn, memberId, asOf).loans)
  {
  }

  /** Issuing a book and then taking it back from the same member restores
      the catalogue exactly and leaves the number of active loans of every
      ISBN as it was; the ledger has grown by one closed loan. When the
      member held no other open loan of that ISBN, the loan closed is the
      one just issued. */
  lemma IssueThenReturn(books: seq<Book>, members: seq<Member>, loans: seq<Loan>,
                        isbn: string, memberId: string, issuedOn: Date, returnedOn: Date)
    requires Issue(books, members, loans, isbn, memberId, issuedOn).result.Ok?
    ensures var o1 := Issue(books, members, loans, isbn, memberId, issuedOn);
            var o2 := Return(o1.books, o1.loans, isbn, memberId, returnedOn);
            && o2.result.Ok?
            && o2.books == books
            && |o2.loans| == |loans| + 1
            && (forall x :: ActiveOn(o2.loans, x) == ActiveOn(loans, x))
    ensures var o1 := Issue(books, members, loans, isbn, memberId, issuedOn);
            var o2 := Return(o1.books, o1.loans, isbn, memberId, returnedOn);
            (forall k :: 0 <= k < |loans| ==> !Returnable(loans[k], isbn, memberId)) ==>
              o2.loans == loans + [o1.result.value.(ReturnDate := Some(returnedOn))]
  {
    var o1 := Issue(books, members, loans, isbn, memberId, issuedOn);
    var o2 := Return(o1.books, o1.loans, isbn, memberId, returnedOn);
    var i := FindBook(books, isbn).value;
    var loan := o1.result.value;
    assert Returnable(o1.loans[|loans|], isbn, memberId);
    var k := FindActiveLoan(o1.loans, isbn, memberId).value;
    // the catalogue
    assert IsFirstBook(o1.books, isbn, i);
    assert AdjustedAt(o1.books, o2.books, i, 1);
    assert o2.books == books;
    // the active counts
    assert Returnable(o1.loans[k], isbn, memberId);
    forall x ensures ActiveOn(o2.loans, x) == ActiveOn(loans, x) {
      ActiveOnAppend(loans, loan, x);
      ActiveOnClose(o1.loans, k, returnedOn, x);
    }
    // the loan closed
    if forall j :: 0 <= j < |loans| ==> !Returnable(loans[j], isbn, memberId) {
      assert IsFirstReturnable(o1.loans, isbn, memberId, |loans|);
      assert ClosedAt(o1.loans, o2.loans, |loans|, returnedOn);
      assert o2.loans == loans + [loan.(ReturnDate := Some(returnedOn))];
    }
  }
}
