/** The three read-only reports: overdue loans, one member's loans, and
    the catalogue search. Each keeps the records it selects in stored
    order and adds no sorting of its own. */
module Queries {
  import opened Models

  /** The elements of `s` that satisfy `p`, in their original order. */
  function Filter<T(!new)>(s: seq<T>, p: T -> bool): (r: seq<T>)
    ensures |r| <= |s|
    ensures forall x :: x in r <==> x in s && p(x)
  {
    if s == [] then []
    else
      var rest := Filter(s[1..], p);
      assert forall x :: x in s <==> x == s[0] || x in s[1..];
      if p(s[0]) then [s[0]] + rest else rest
  }

  /** Filtering distributes over concatenation: what is selected from an
      earlier part of the list comes before what is selected from a later
      part, so the order of the input is kept. */
  lemma {:induction false} FilterAppend<T(!new)>(a: seq<T>, b: seq<T>, p: T -> bool)
    ensures Filter(a + b, p) == Filter(a, p) + Filter(b, p)
  {
    if a == [] {
      assert a + b == b;
    } else {
      assert (a + b)[1..] == a[1..] + b;
      FilterAppend(a[1..], b, p);
    }
  }

  /** A singleton list is kept exactly when its element satisfies `p`. */
  lemma FilterSingleton<T(!new)>(x: T, p: T -> bool)
    ensures Filter([x], p) == if p(x) then [x] else []
  {
    assert [x][1..] == [];
  }

  /** Two predicates that agree everywhere select the same elements. */
  lemma {:induction false} FilterSamePredicate<T(!new)>(s: seq<T>, p: T -> bool, q: T -> bool)
    requires forall x :: p(x) == q(x)
    ensures Filter(s, p) == Filter(s, q)
  {
    if s != [] {
      FilterSamePredicate(s[1..], p, q);
    }
  }

  // ---- Overdue report ----

  /** Active, and due strictly before the reference date. */
  predicate IsOverdue(l: Loan, asOf: Date) {
    IsActive(l) && l.DueDate < asOf
  }

  function OverdueList(loans: seq<Loan>, asOf: Date): (r: seq<Loan>)
    ensures forall l :: l in r <==> l in loans && IsActive(l) && l.DueDate < asOf
  {
    Filter(loans, (l: Loan) => IsOverdue(l, asOf))
  }

  /** The report on a longer ledger is the report on its first part
      followed by the report on the rest. */
  lemma OverdueListAppend(a: seq<Loan>, b: seq<Loan>, asOf: Date)
    ensures OverdueList(a + b, asOf) == OverdueList(a, asOf) + OverdueList(b, asOf)
  {
    FilterAppend(a, b, (l: Loan) => IsOverdue(l, asOf));
  }

  /** The comparison is strict: an active loan appears on the day after its
      due date and not on the due date itself; a returned loan never
      appears. */
  lemma OverdueBoundary(loans: seq<Loan>, l: Loan)
    requires l in loans
    ensures IsActive(l) ==> l in OverdueList(loans, l.DueDate + 1)
    ensures l !in OverdueList(loans, l.DueDate)
    ensures !IsActive(l) ==> forall d :: l !in OverdueList(loans, d)
  {
  }

  // ---- One member's loans ----

  function MyLoans(loans: seq<Loan>, memberId: string): (r: seq<Loan>)
    ensures forall l :: l in r <==> l in loans && l.MemberID == memberId
  {
    Filter(loans, (l: Loan) => l.MemberID == memberId)
  }

  lemma MyLoansAppend(a: seq<Loan>, b: seq<Loan>, memberId: string)
    ensures MyLoans(a + b, memberId) == MyLoans(a, memberId) + MyLoans(b, memberId)
  {
    FilterAppend(a, b, (l: Loan) => l.MemberID == memberId);
  }

  // ---- Catalogue search ----

  /** `str.lower` on one character (ASCII letters only). */
  function LowerChar(c: char): char {
    if 'A' <= c <= 'Z' then (c as int - 'A' as int + 'a' as int) as char else c
  }

  function Lower(s: string): (r: string)
    ensures |r| == |s|
    ensures forall i :: 0 <= i < |s| ==> r[i] == LowerChar(s[i])
  {
    if s == [] then [] else [LowerChar(s[0])] + Lower(s[1..])
  }

  /** Lower-casing twice is lower-casing once. */
  lemma LowerIdempotent(s: string)
    ensures Lower(Lower(s)) == Lower(s)
  {
    assert forall i :: 0 <= i < |s| ==> Lower(Lower(s))[i] == Lower(s)[i];
  }

  /** `needle` occurs in `hay` starting at position `i`. */
  ghost predicate OccursAt(hay: string, needle: string, i: int) {
    0 <= i && i + |needle| <= |hay| && hay[i..i + |needle|] == needle
  }

  predicate IsPrefix(p: string, s: string) {
    |p| <= |s| && s[..|p|] == p
  }

  /** Python's `needle in hay` on text: some position of `hay` starts a copy
      of `needle`. The empty needle occurs everywhere. */
  function Contains(hay: string, needle: string): (r: bool)
    ensures r <==> exists i :: OccursAt(hay, needle, i)
  {
    if IsPrefix(needle, hay) then
      assert OccursAt(hay, needle, 0);
      true
    else if hay == [] then
      assert forall i :: !OccursAt(hay, needle, i);
      false
    else
      var rest := Contains(hay[1..], needle);
      assert forall i :: OccursAt(hay[1..], needle, i) <==> OccursAt(hay, needle, i + 1) by {
        forall i ensures OccursAt(hay[1..], needle, i) <==> OccursAt(hay, needle, i + 1) {
          if 0 <= i && i + |needle| <= |hay[1..]| {
            assert hay[1..][i..i + |needle|] == hay[i + 1..i + 1 + |needle|];
          }
        }
      }
      assert !OccursAt(hay, needle, 0);
      assert (exists i :: OccursAt(hay, needle, i)) ==> exists i :: OccursAt(hay[1..], needle, i) by {
        if i :| OccursAt(hay, needle, i) {
          assert i != 0;
          assert OccursAt(hay[1..], needle, i - 1);
        }
      }
      rest
  }

  /** The search criterion: the lower-cased keyword occurs in the
      lower-cased title or in the lower-cased author. */
  predicate Matches(b: Book, keyword: string) {
    Contains(Lower(b.Title), Lower(keyword)) || Contains(Lower(b.Author), Lower(keyword))
  }

  function SearchCatalogue(books: seq<Book>, keyword: string): (r: seq<Book>)
    ensures forall b :: b in r <==> b in books && Matches(b, keyword)
  {
    Filter(books, (b: Book) => Matches(b, keyword))
  }

  lemma SearchCatalogueAppend(a: seq<Book>, b: seq<Book>, keyword: string)
    ensures SearchCatalogue(a + b, keyword) == SearchCatalogue(a, keyword) + SearchCatalogue(b, keyword)
  {
    FilterAppend(a, b, (bk: Book) => Matches(bk, keyword));
  }

  /** The empty keyword is contained in every text, so it lists the whole
      catalogue. */
  lemma {:induction false} SearchEmptyKeyword(books: seq<Book>)
    ensures SearchCatalogue(books, "") == books
  {
    if books != [] {
      assert OccursAt(Lower(books[0].Title), Lower(""), 0);
      assert books == [books[0]] + books[1..];
      SearchCatalogueAppend([books[0]], books[1..], "");
      FilterSingleton(books[0], (bk: Book) => Matches(bk, ""));
      SearchEmptyKeyword(books[1..]);
    }
  }

  /** The search ignores the case of the keyword. */
  lemma SearchIgnoresKeywordCase(books: seq<Book>, keyword: string)
    ensures SearchCatalogue(books, Lower(keyword)) == SearchCatalogue(books, keyword)
  {
    LowerIdempotent(keyword);
    FilterSamePredicate(books, (bk: Book) => Matches(bk, Lower(keyword)), (bk: Book) => Matches(bk, keyword));
  }
}
