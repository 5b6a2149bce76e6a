# Library circulation desk — a Dafny model

This project models the circulation and inventory logic of a small library
management program. The catalogue is a list of books. Each book has a total
number of copies and a number on the shelf. The member registry is a list of
members. The ledger is a list of loans. A loan is active until it has a
return date.

The desk can do five things:

- add a title with all its copies on the shelf;
- issue a copy to a registered member for fourteen days;
- let a signed-in member borrow a copy (the same as issuing, but with no
  registry check);
- take a copy back;
- produce three reports: overdue loans, one member's loans, and a catalogue
  search.

The modules follow the program's structure:

- `Models` (models.dfy): the three record kinds.
- `Rules` (rules.dfy): ISBN validation and loan-identifier allocation.
- `Queries` (queries.dfy): the three reports, as order-preserving filters.
- `Circulation` (circulation.dfy): issue, borrow and return as functions
  from the loaded lists to the lists as saved plus the reported outcome.
  Adding a book is a function from the loaded catalogue to the book to be
  appended or the reason for refusing; the appended catalogue itself is
  stated by `Library.DataDir.AddBook`. The module also
  holds the consistency invariant, stated as `Consistent`: ISBNs are unique;
  on-shelf copies equal total copies minus the active loans of that ISBN,
  and are never negative; every active loan names a catalogued book. The
  lemmas prove that every operation preserves this invariant, and that
  issuing then returning restores the catalogue. `Checkout` is the success
  effect that issuing and borrowing share: it appends the new loan and takes
  one copy off the shelf.
- `Library` (library.dfy): the operations written the way the program runs
  them. The class `DataDir` stands for the data directory and holds the three
  stored tables. Each method loads tables, scans them with loops, updates the
  loaded lists, and saves them back. Its `ensures` clauses equate the new
  tables and the reported outcome with the `Circulation` functions of the old
  tables. `SingleCopyScenario` is a verified example: it issues the only
  copy of a title, and then a second issue of that title is refused.

Modelling choices:

- Dates are day numbers. The issue date comes in as a parameter `asOf`; the
  program reads today's date instead. "Fourteen days later" is `+ 14`, and
  "overdue" is a strict `<`.
- An empty `ReturnDate` is `None`.
- A loan identifier is an integer. The program stores it as decimal text
  and reads it back with `int()`.
- Loading a table yields the stored sequence. Saving one replaces it. For
  the books table the program as written does not do this (see
  `Library.DataDir.LoadBooks` under "Left out").

Three behaviours of the program are worth stating plainly, and the model
keeps each:

- A return whose book is no longer catalogued still closes the loan and
  succeeds; only the increment is skipped.
- Putting a copy back is never bounded by `CopiesTotal`.
- No operation takes a principal or checks a role. Which operations a user
  reaches is decided only by which console menu is shown.

## Model

| member | source | states |
|---|---|---|
| `Rules.StrIsDigit` | main.py:13 | `isdigit` holds exactly when the text is non-empty and every character is a digit |
| `Rules.ValidIsbn` | main.py:12-13 | an ISBN is accepted iff it has 10 or 13 characters, all digits (both directions) |
| `Rules.ValidIsbnRejects` | main.py:13 | the empty text, and any text with a non-digit, is rejected |
| `Rules.MaxLoanId` | main.py:16 | the result bounds every loan identifier and is one of them |
| `Rules.NextLoanId` | main.py:15-16 | 1001 for an empty ledger; otherwise one more than some existing identifier, and larger than all of them |
| `Rules.NextLoanIdIsFresh` | main.py:15-16 | the allocated identifier equals no existing loan's identifier |
| `Queries.Filter` | main.py:138-141 | a list comprehension keeps exactly the elements satisfying the condition and is no longer than its input |
| `Queries.FilterAppend` | main.py:138-141 | filtering distributes over concatenation, so stored order is preserved |
| `Queries.FilterSingleton` | main.py:152-155 | a one-element list is kept exactly when its element satisfies the condition |
| `Queries.FilterSamePredicate` | main.py:152-155 | two conditions that agree on every element select the same list |
| `Queries.OverdueList` | main.py:135-141 | a loan appears in the report iff it is in the ledger, active and due strictly before the reference date |
| `Queries.OverdueListAppend` | main.py:138-141 | the report keeps ledger order: the report of a concatenation is the concatenation of the reports |
| `Queries.OverdueBoundary` | main.py:140 | an active loan appears the day after its due date but not on the due date; a returned loan never appears |
| `Queries.MyLoans` | main.py:187-189 | a loan appears iff it is in the ledger and belongs to the member |
| `Queries.MyLoansAppend` | main.py:189 | the member's loans keep ledger order |
| `Queries.Lower` | main.py:154 | lower-casing keeps the length and lower-cases each character |
| `Queries.LowerIdempotent` | main.py:150-154 | lower-casing twice is lower-casing once |
| `Queries.Contains` | main.py:154 | `keyword in text` holds iff the keyword occurs at some position of the text |
| `Queries.SearchCatalogue` | main.py:149-155 | a book appears iff it is catalogued and its lower-cased title or author contains the lower-cased keyword |
| `Queries.SearchCatalogueAppend` | main.py:152-155 | the results keep catalogue order |
| `Queries.SearchEmptyKeyword` | main.py:150-155 | the empty keyword lists the whole catalogue, in order |
| `Queries.SearchIgnoresKeywordCase` | main.py:150-154 | searching with the lower-cased keyword gives the same result as the keyword itself |
| `Circulation.FirstFrom` | main.py:91 | the first position from a start index whose element satisfies the condition, or none if there is none |
| `Circulation.FindBook` | main.py:91 | the position of the first book with the ISBN; none iff no book has it |
| `Circulation.FindActiveLoan` | main.py:121-122 | the position of the first active loan of the ISBN to the member; none iff there is no such loan |
| `Circulation.AddBook` | main.py:50-68 | the checks in order (invalid ISBN, copies below 1, ISBN already catalogued), each as an iff; success iff the ISBN is valid, there is at least one copy and no book has the ISBN; the new book then has every copy on the shelf |
| `Circulation.Issue` | main.py:87-112 | the failures in order (book missing, no copy on the shelf, member missing), each as an iff and changing nothing; success iff all three checks pass; success appends one active loan with the fresh identifier, due after 14 days, and takes one copy from the first matching book only |
| `Circulation.Borrow` | main.py:163-182 | as `Issue` except that there is no member check and never `MemberNotFound`; the loan is in the signed-in member's name |
| `Circulation.BorrowIsIssueWithoutMemberCheck` | main.py:163-182 | for a registered member borrowing equals issuing; for an unknown member issuing changes nothing, with the borrow's failure or `MemberNotFound` |
| `Circulation.Return` | main.py:117-130 | fails iff no active loan matches, changing nothing; otherwise closes exactly the first match on the given date, leaves every other loan alone, adds one copy to the first book with the ISBN, and leaves the catalogue alone if no such book exists |
| `Circulation.ActiveOnAppend` | main.py:111 | appending a loan raises the active count of its ISBN by one if it is active, and of no other ISBN |
| `Circulation.ActiveOnClose` | main.py:123 | closing an active loan lowers the count of its ISBN by one and leaves the others alone |
| `Circulation.ActiveOnZero` | main.py:65-69 | an ISBN named by no active loan has an active count of zero |
| `Circulation.ConsistentBounds` | models.py:8-9 | in a consistent catalogue, 0 <= CopiesAvailable <= CopiesTotal |
| `Circulation.AddBookPreserves` | main.py:64-69 | a successful add keeps the catalogue consistent with the ledger |
| `Circulation.CheckoutCounts` | main.py:111-112 | after a checkout every book's on-shelf count is its total minus its active loans, and is never negative |
| `Circulation.CheckoutPreserves` | main.py:111-112 | the effect shared by issue and borrow keeps the catalogue consistent |
| `Circulation.IssuePreserves` | main.py:91-112 | issuing keeps the catalogue consistent with the ledger |
| `Circulation.BorrowPreserves` | main.py:165-182 | borrowing keeps the catalogue consistent with the ledger |
| `Circulation.ReturnPreserves` | main.py:120-130 | returning keeps the catalogue consistent with the ledger |
| `Circulation.IssueKeepsIdsIncreasing` | main.py:104-111 | issuing keeps identifiers strictly increasing along the ledger, and the new one exceeds all earlier ones |
| `Circulation.BorrowKeepsIdsIncreasing` | main.py:174-181 | the same for borrowing |
| `Circulation.ReturnKeepsIdsIncreasing` | main.py:121-123 | returning keeps identifiers strictly increasing |
| `Circulation.IssueThenReturn` | main.py:104-127 | issue then return by the same member restores the catalogue exactly, grows the ledger by one loan and keeps every ISBN's active count; with no earlier open loan of that pair, the loan closed is the one issued |
| `Library.ScanBooks` | main.py:91 | the loop returns the first book with the ISBN, or none iff no book has it, in agreement with `FindBook` |
| `Library.ScanMembers` | main.py:99 | the loop finds a member iff one has the identifier |
| `Library.DataDir.LoadBooks` | storage.py:8-17 | loading reads back the stored books unchanged |
| `Library.DataDir.LoadMembers` | storage.py:27-36 | loading reads back the stored members unchanged |
| `Library.DataDir.LoadLoans` | storage.py:46-55 | loading reads back the stored loans unchanged |
| `Library.DataDir.SaveBooks` | storage.py:19-25 | saving replaces the stored books with the given list |
| `Library.DataDir.SaveLoans` | storage.py:57-63 | saving replaces the stored loans with the given list |
| `Library.DataDir.AddBook` | main.py:50-70 | the stored catalogue and the outcome are those of `Circulation.AddBook`: the new book is appended at the end, or nothing changes |
| `Library.DataDir.IssueBook` | main.py:87-114 | the stored catalogue, ledger and outcome are those of `Circulation.Issue` on the previous tables |
| `Library.DataDir.BorrowBook` | main.py:163-184 | the stored catalogue, ledger and outcome are those of `Circulation.Borrow` on the previous tables |
| `Library.DataDir.ReturnBook` | main.py:117-133 | the two scanning loops close the first matching loan and update the first matching book, as `Circulation.Return` states |

## Left out

- Menus, the console loop, argument parsing and directory creation (main.py:18-48, 198-226) are console plumbing.
- `register_member_flow` (main.py:73-85) and the whole of auth.py are left out: password hashing, hidden password entry, the hard-coded librarian credentials, and the login. The program imports a `login` that auth.py does not define, and its `register_member` call does not match auth.py's signature.
- Printed messages and table layouts are presentation only. Each printed failure is an `Error` value instead.
- Reading input and trimming it with `strip()` happen before the modelled logic. The operations take the already-trimmed values.
- `Circulation.AddBook`: the number of copies arrives as an integer. Text that `int()` cannot parse takes the same "invalid number of copies" path in the program; the model does not represent that text.
- CSV encoding and decoding, and the rule that a missing file reads as empty, are left out. A table is the sequence of its records, and a new `DataDir` may start from empty sequences.
- The order of the two saves in issue and return, the crash window between them, and clobbering by a second process are outside this sequential model.
- Calendar parsing and formatting are abstracted to day numbers. A malformed stored due date, which would stop the overdue report with an error, is not represented.
- `Rules.NextLoanId`: identifiers are integers. A stored identifier that `int()` cannot parse, and two texts such as "1001" and "01001" that parse to the same number, are not represented.
- `Rules.StrIsDigit`: only the ASCII digits count. Python's `isdigit` also accepts other Unicode digit characters.
- `Queries.Lower`: only the ASCII letters A–Z are lower-cased. Python's `lower` covers all of Unicode.
- A found book record is changed in place in the program when a copy is taken or put back. Here the list element is replaced by an updated record. No other reference to the record exists, so no aliasing is lost.
- `Library.DataDir.LoadBooks`: the model reads back the stored books unchanged, which is what the round-trip test at test_issue_return.py:22-29 expects. The loader as written at storage.py:16 passes `CopiesTotal` and `CopiesAvailable` twice to the `Book` constructor, because the row read back already holds both columns (the header comes from storage.py:22). Python then raises a TypeError on any books table with at least one row. In the program as written, every operation that loads a non-empty catalogue therefore stops there: a second add, every issue, borrow and search, and a return, which stops after closing the loan in memory and before saving the loans, so the return is lost. The model does not represent this failure.
- Members are loaded but never changed by the modelled operations, so there is no member save.
