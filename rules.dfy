/** The two validation and allocation rules of the circulation desk:
    which ISBNs the catalogue accepts, and which identifier the next loan
    receives. */
module Rules {
  import opened Models

  /** The shortest and longest forms of an ISBN. */
  const IsbnShort := 10
  const IsbnLong := 13

  /** The identifier given to the first loan ever issued is one more than this. */
  const LoanIdBaseline := 1000

  predicate IsDigit(c: char) {
    '0' <= c <= '9'
  }

  /** Python's `str.isdigit` on ASCII text: true when the text is non-empty
      and every character is a digit. */
  function StrIsDigit(s: string): (r: bool)
    ensures r <==> |s| > 0 && forall i :: 0 <= i < |s| ==> IsDigit(s[i])
  {
    if |s| == 0 then false
    else if |s| == 1 then IsDigit(s[0])
    else IsDigit(s[0]) && StrIsDigit(s[1..])
  }

  /** An ISBN is accepted when it is all digits and has 10 or 13 of them. */
  function ValidIsbn(isbn: string): (r: bool)
    ensures r <==> (|isbn| == IsbnShort || |isbn| == IsbnLong)
                   && forall i :: 0 <= i < |isbn| ==> IsDigit(isbn[i])
  {
    StrIsDigit(isbn) && (|isbn| == IsbnShort || |isbn| == IsbnLong)
  }

  /** The empty text is rejected, and so is any text holding a non-digit. */
  lemma ValidIsbnRejects(isbn: string, k: nat)
    requires isbn == [] || (k < |isbn| && !IsDigit(isbn[k]))
    ensures !ValidIsbn(isbn)
  {
  }

  /** The largest identifier among a non-empty list of loans. */
  function MaxLoanId(loans: seq<Loan>): (m: int)
    requires |loans| > 0
    ensures forall i :: 0 <= i < |loans| ==> loans[i].LoanID <= m
    ensures exists i :: 0 <= i < |loans| && loans[i].LoanID == m
  {
    if |loans| == 1 then loans[0].LoanID
    else
      var rest := MaxLoanId(loans[1..]);
      assert forall i :: 1 <= i < |loans| ==> loans[i] == loans[1..][i - 1];
      if loans[0].LoanID >= rest then loans[0].LoanID else rest
  }

  /** The identifier for a new loan: one more than the largest existing
      one, or 1001 when there are no loans at all. (An existing list whose
      identifiers are all small yields a small identifier: the baseline is
      only the default for the empty list.) */
  function NextLoanId(loans: seq<Loan>): (r: int)
    ensures loans == [] ==> r == LoanIdBaseline + 1
    ensures loans != [] ==> exists i :: 0 <= i < |loans| && r == loans[i].LoanID + 1
    ensures forall i :: 0 <= i < |loans| ==> loans[i].LoanID < r
  {
    if loans == [] then LoanIdBaseline + 1 else MaxLoanId(loans) + 1
  }

  /** The new identifier collides with no existing one. */
  lemma NextLoanIdIsFresh(loans: seq<Loan>, l: Loan)
    requires l in loans
    ensures l.LoanID != NextLoanId(loans)
  {
  }
}
