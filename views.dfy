/**
 * The loan lifecycle (lend a book, return it, extend its due date) as
 * guarded updates of the book and loan tables, and the ranking of members
 * by their active loans.
 */
module Views {
  import opened Models
  import Tasks

  /** The loan a member holds on a book until it is returned. */
  function NewLoan(bookId: BookId, memberId: MemberId, today: Date, dueDate: Date): Loan
  {
    Loan(bookId, memberId, today, dueDate, false, None)
  }

  /** The ids of the unreturned loans of `memberId` on `bookId`. */
  function ActiveLoanIds(loans: seq<Loan>, bookId: BookId, memberId: MemberId): set<LoanId>
  {
    set i: LoanId | i < |loans| && loans[i].book == bookId && loans[i].member == memberId && !loans[i].isReturned
  }

  /** The guard of the due-date extension: the loan is already past due. */
  predicate ExtensionRefused(loan: Loan, today: Date)
  {
    loan.dueDate < today
  }

  /** The ids of the unreturned loans of `memberId`, on any book. */
  function MemberActiveLoanIds(loans: seq<Loan>, memberId: MemberId): set<LoanId>
  {
    set i: LoanId | i < |loans| && loans[i].member == memberId && !loans[i].isReturned
  }

  /** How many unreturned loans `memberId` holds: the size of its set of active loans. */
  function ActiveLoanCount(loans: seq<Loan>, memberId: MemberId): (count: nat)
    ensures count == |MemberActiveLoanIds(loans, memberId)|
    decreases |loans|
  {
    if |loans| == 0 then
      assert MemberActiveLoanIds(loans, memberId) == {};
      0
    else
      var n := |loans| - 1;
      var active := loans[n].member == memberId && !loans[n].isReturned;
      assert MemberActiveLoanIds(loans, memberId)
             == MemberActiveLoanIds(loans[..n], memberId) + (if active then {n} else {}) by {
        forall i: LoanId | i < n ensures loans[..n][i] == loans[i] { }
      }
      ActiveLoanCount(loans[..n], memberId) + (if active then 1 else 0)
  }

  /** A new unreturned loan raises its member's active count by one and no one else's. */
  lemma ActiveLoanCountAppend(loans: seq<Loan>, loan: Loan, memberId: MemberId)
    requires !loan.isReturned
    ensures ActiveLoanCount(loans + [loan], memberId)
            == ActiveLoanCount(loans, memberId) + (if loan.member == memberId then 1 else 0)
  {
    assert (loans + [loan])[..|loans|] == loans;
  }

  /** Closing an active loan lowers its member's active count by one and no one else's. */
  lemma {:induction false} ActiveLoanCountClose(loans: seq<Loan>, i: LoanId, today: Date, memberId: MemberId)
    requires i < |loans| && !loans[i].isReturned
    ensures ActiveLoanCount(loans[i := loans[i].(isReturned := true, returnDate := Some(today))], memberId)
            == ActiveLoanCount(loans, memberId) - (if loans[i].member == memberId then 1 else 0)
    decreases |loans|
  {
    var closed := loans[i := loans[i].(isReturned := true, returnDate := Some(today))];
    var n := |loans| - 1;
    if i < n {
      ActiveLoanCountClose(loans[..n], i, today, memberId);
      assert closed[..n] == loans[..n][i := loans[i].(isReturned := true, returnDate := Some(today))];
    } else {
      assert closed[..n] == loans[..n];
    }
  }

  /** Closing the only active loan of a pair leaves the pair with no active loan. */
  lemma CloseOnlyActiveLoan(loans: seq<Loan>, bookId: BookId, memberId: MemberId, i: LoanId, today: Date)
    requires ActiveLoanIds(loans, bookId, memberId) == {i}
    ensures i < |loans|
    ensures ActiveLoanIds(loans[i := loans[i].(isReturned := true, returnDate := Some(today))], bookId, memberId) == {}
  {
    assert i in ActiveLoanIds(loans, bookId, memberId);
    var closed := loans[i := loans[i].(isReturned := true, returnDate := Some(today))];
    forall j: LoanId | j < |closed|
      ensures j !in ActiveLoanIds(closed, bookId, memberId)
    {
      if j == i {
        assert closed[j].isReturned;
      } else {
        assert closed[j] == loans[j];
        assert j !in ActiveLoanIds(loans, bookId, memberId);
      }
    }
  }

  /** For an unreturned loan, the extension is refused exactly when the overdue sweep selects it. */
  lemma ExtensionRefusedIffSwept(loans: seq<Loan>, today: Date, loanId: LoanId)
    requires loanId < |loans| && !loans[loanId].isReturned
    ensures ExtensionRefused(loans[loanId], today) <==> loanId in Tasks.OverdueLoanIds(loans, today)
  {
    Tasks.OverdueLoanIdsExact(loans, today);
  }

  /** The library's state: the tables the lifecycle operations read and update. */
  class Library {
    var books: map<BookId, Book>
    var members: map<MemberId, Member>
    var loans: seq<Loan>

    ghost predicate Valid()
      reads this
    {
      RefsResolve(books, members, loans)
    }

    constructor (books0: map<BookId, Book>, members0: map<MemberId, Member>, loans0: seq<Loan>)
      requires RefsResolve(books0, members0, loans0)
      ensures Valid()
      ensures books == books0 && members == members0 && loans == loans0
    {
      books, members, loans := books0, members0, loans0;
    }

    /**
     * Lends `bookId` to `memberId`. The copy check comes before the member
     * lookup; on success one loan is appended and the book's count drops by one.
     * The id returned is the one the confirmation job is enqueued with.
     */
    method LoanBook(bookId: BookId, memberId: MemberId, today: Date, dueDate: Date) returns (r: Result<LoanId>)
      requires Valid()
      modifies this
      ensures Valid() && members == old(members)
      ensures bookId !in old(books) ==> r == Err(BookNotFound)
      ensures bookId in old(books) && old(books)[bookId].availableCopies < 1 ==> r == Err(NoAvailableCopies)
      ensures bookId in old(books) && old(books)[bookId].availableCopies >= 1 && memberId !in members
              ==> r == Err(MemberNotFound)
      ensures r.Err? ==> books == old(books) && loans == old(loans)
      ensures r.Ok? <==> bookId in old(books) && old(books)[bookId].availableCopies >= 1 && memberId in members
      ensures r.Ok? ==>
                && r.value == |old(loans)|
                && loans == old(loans) + [NewLoan(bookId, memberId, today, dueDate)]
                && books == old(books)[bookId := old(books)[bookId].(availableCopies := old(books)[bookId].availableCopies - 1)]
                && books[bookId].availableCopies >= 0
      ensures r.Ok? ==> ActiveLoanCount(loans, memberId) == old(ActiveLoanCount(loans, memberId)) + 1
      ensures r.Ok? ==> Tasks.LoanNotification(books, members, loans, r.value)
                          == Some(Tasks.LoanConfirmation(members[memberId].email, members[memberId].username,
                                                         books[bookId].title))
      ensures old(CopiesNonNegative(books)) ==> CopiesNonNegative(books)
      ensures old(ReturnDatesConsistent(loans)) ==> ReturnDatesConsistent(loans)
    {
      if bookId !in books {
        return Err(BookNotFound);
      }
      var book := books[bookId];
      if book.availableCopies < 1 {
        return Err(NoAvailableCopies);
      }
      if memberId !in members {
        return Err(MemberNotFound);
      }
      ActiveLoanCountAppend(loans, NewLoan(bookId, memberId, today, dueDate), memberId);
      loans := loans + [NewLoan(bookId, memberId, today, dueDate)];
      books := books[bookId := book.(availableCopies := book.availableCopies - 1)];
      r := Ok(|loans| - 1);
    }

    /**
     * Takes back `bookId` from `memberId`: the pair's one active loan is
     * closed with today's date and the book's count rises by one.
     */
    method ReturnBook(bookId: BookId, memberId: MemberId, today: Date) returns (r: Result<LoanId>)
      requires Valid()
      modifies this
      ensures Valid() && members == old(members)
      ensures bookId !in old(books) ==> r == Err(BookNotFound)
      ensures bookId in old(books) && ActiveLoanIds(old(loans), bookId, memberId) == {} ==> r == Err(ActiveLoanNotFound)
      ensures bookId in old(books) && |ActiveLoanIds(old(loans), bookId, memberId)| > 1 ==> r == Err(MultipleActiveLoans)
      ensures r.Err? ==> books == old(books) && loans == old(loans)
      ensures r.Ok? <==> bookId in old(books) && |ActiveLoanIds(old(loans), bookId, memberId)| == 1
      ensures r.Ok? ==>
                && ActiveLoanIds(old(loans), bookId, memberId) == {r.value}
                && r.value < |old(loans)|
                && loans == old(loans)[r.value := old(loans)[r.value].(isReturned := true, returnDate := Some(today))]
                && books == old(books)[bookId := old(books)[bookId].(availableCopies := old(books)[bookId].availableCopies + 1)]
      ensures r.Ok? ==> ActiveLoanIds(loans, bookId, memberId) == {}
      ensures r.Ok? ==> ActiveLoanCount(loans, memberId) == old(ActiveLoanCount(loans, memberId)) - 1
      ensures old(CopiesNonNegative(books)) ==> CopiesNonNegative(books)
      ensures old(ReturnDatesConsistent(loans)) ==> ReturnDatesConsistent(loans)
    {
      if bookId !in books {
        return Err(BookNotFound);
      }
      var active := ActiveLoanIds(loans, bookId, memberId);
      if active == {} {
        return Err(ActiveLoanNotFound);
      }
      if |active| > 1 {
        return Err(MultipleActiveLoans);
      }
      var i :| i in active;
      assert active == {i} by {
        assert |active - {i}| == 0;
      }
      CloseOnlyActiveLoan(loans, bookId, memberId, i, today);
      ActiveLoanCountClose(loans, i, today, memberId);
      var book := books[bookId];
      loans := loans[i := loans[i].(isReturned := true, returnDate := Some(today))];
      books := books[bookId := book.(availableCopies := book.availableCopies + 1)];
      r := Ok(i);
    }

    /**
     * Pushes the due date of loan `loanId` back by `additionalDays`, unless
     * the loan is already past due. Whether it is returned is not checked.
     */
    method ExtendDueDate(loanId: LoanId, additionalDays: int, today: Date) returns (r: Result<Loan>)
      requires Valid()
      requires additionalDays > 0
      modifies this
      ensures Valid() && books == old(books) && members == old(members)
      ensures loanId >= |old(loans)| ==> r == Err(LoanNotFound)
      ensures loanId < |old(loans)| && old(loans)[loanId].dueDate < today ==> r == Err(LoanAlreadyOverdue)
      ensures r.Err? ==> loans == old(loans)
      ensures r.Ok? <==> loanId < |old(loans)| && !ExtensionRefused(old(loans)[loanId], today)
      ensures r.Ok? ==>
                && loans == old(loans)[loanId := old(loans)[loanId].(dueDate := old(loans)[loanId].dueDate + additionalDays)]
                && r.value == loans[loanId]
                && loans[loanId].dueDate > old(loans)[loanId].dueDate
      ensures old(ReturnDatesConsistent(loans)) ==> ReturnDatesConsistent(loans)
    {
      if loanId >= |loans| {
        return Err(LoanNotFound);
      }
      var loan := loans[loanId];
      if ExtensionRefused(loan, today) {
        return Err(LoanAlreadyOverdue);
      }
      loan := loan.(dueDate := loan.dueDate + additionalDays);
      loans := loans[loanId := loan];
      r := Ok(loan);
    }
  }

  /** One book, one copy: lending it empties the shelf, and a second loan is refused. */
  method LendLastCopy()
  {
    var lib := new Library(map[1 := Book("Dune", 1, 1)], map[7 := Member("ann", "ann@example.org")], []);
    var lent := lib.LoanBook(1, 7, 100, 114);
    assert lent == Ok(0);
    assert lib.books[1].availableCopies == 0;
    assert lib.loans == [Loan(1, 7, 100, 114, false, None)];
    var again := lib.LoanBook(1, 7, 100, 114);
    assert again == Err(NoAvailableCopies);
  }

  /** Returning the lent copy refills the shelf and closes the loan; a second return is refused. */
  method ReturnLastCopy()
  {
    var lib := new Library(map[1 := Book("Dune", 1, 0)], map[7 := Member("ann", "ann@example.org")],
                           [Loan(1, 7, 100, 114, false, None)]);
    assert ActiveLoanIds(lib.loans, 1, 7) == {0};
    var returned := lib.ReturnBook(1, 7, 105);
    assert returned == Ok(0);
    assert lib.books[1].availableCopies == 1;
    assert lib.loans == [Loan(1, 7, 100, 114, true, Some(105))];
    var twice := lib.ReturnBook(1, 7, 106);
    assert twice == Err(ActiveLoanNotFound);
  }

  /** Lending does not refuse a member who already holds a copy of the same book. */
  method SecondLoanOfSameBook()
  {
    var lib := new Library(map[1 := Book("Dune", 2, 1)], map[7 := Member("ann", "ann@example.org")],
                           [Loan(1, 7, 100, 114, false, None)]);
    var second := lib.LoanBook(1, 7, 101, 115);
    assert second == Ok(1);
    assert lib.loans == [Loan(1, 7, 100, 114, false, None), Loan(1, 7, 101, 115, false, None)];
  }

  /**
   * Once a member holds two copies of one book, the lookup on return
   * matches both rows and every return of that pair fails.
   */
  method DoubleLoanBlocksReturn()
  {
    var lib := new Library(map[1 := Book("Dune", 2, 0)], map[7 := Member("ann", "ann@example.org")],
                           [Loan(1, 7, 100, 114, false, None), Loan(1, 7, 101, 115, false, None)]);
    assert ActiveLoanIds(lib.loans, 1, 7) == {0, 1};
    var returned := lib.ReturnBook(1, 7, 105);
    assert returned == Err(MultipleActiveLoans);
  }

  // ---- Ranking members by active loans ----

  /** How many members the ranking returns at most. */
  const TopActiveLimit := 5

  /** A member annotated with its number of unreturned loans. */
  datatype Ranked = Ranked(member: MemberId, activeLoans: nat)

  /** Non-increasing in the number of active loans. */
  predicate SortedByActivity(rs: seq<Ranked>)
  {
    forall i, j :: 0 <= i < j < |rs| ==> rs[i].activeLoans >= rs[j].activeLoans
  }

  /** Each member of the query, in its order, with its active-loan count. */
  function Annotate(order: seq<MemberId>, loans: seq<Loan>): seq<Ranked>
  {
    seq(|order|, k requires 0 <= k < |order| => Ranked(order[k], ActiveLoanCount(loans, order[k])))
  }

  /** The ranked entries whose count is at least `floor`, in order. */
  function AtLeast(rs: seq<Ranked>, floor: int): seq<Ranked>
  {
    if |rs| == 0 then []
    else if rs[0].activeLoans >= floor then [rs[0]] + AtLeast(rs[1..], floor)
    else AtLeast(rs[1..], floor)
  }

  /** The filter keeps every entry meeting the floor as often as it occurs, and nothing else. */
  lemma {:induction false} AtLeastCounts(rs: seq<Ranked>, floor: int)
    ensures forall e :: multiset(AtLeast(rs, floor))[e] == (if e.activeLoans >= floor then multiset(rs)[e] else 0)
  {
    if |rs| > 0 {
      AtLeastCounts(rs[1..], floor);
      assert rs == [rs[0]] + rs[1..];
    }
  }

  /** The filter keeps order: filtering a concatenation concatenates the filtered parts. */
  lemma {:induction false} AtLeastAppend(a: seq<Ranked>, b: seq<Ranked>, floor: int)
    ensures AtLeast(a + b, floor) == AtLeast(a, floor) + AtLeast(b, floor)
  {
    if |a| > 0 {
      assert (a + b)[0] == a[0] && (a + b)[1..] == a[1..] + b;
      AtLeastAppend(a[1..], b, floor);
      var head := if a[0].activeLoans >= floor then [a[0]] else [];
      assert AtLeast(a + b, floor) == head + AtLeast(a[1..] + b, floor);
      assert AtLeast(a, floor) == head + AtLeast(a[1..], floor);
      assert head + (AtLeast(a[1..], floor) + AtLeast(b, floor)) == (head + AtLeast(a[1..], floor)) + AtLeast(b, floor);
    } else {
      assert a + b == b;
    }
  }

  /** A floor of zero drops nobody: members without active loans stay eligible. */
  lemma {:induction false} AtLeastZeroKeepsAll(rs: seq<Ranked>)
    ensures AtLeast(rs, 0) == rs
  {
    if |rs| > 0 {
      AtLeastZeroKeepsAll(rs[1..]);
      assert [rs[0]] + rs[1..] == rs;
    }
  }

  /** Places `r` after every entry with strictly more active loans. */
  function InsertByActivity(r: Ranked, rs: seq<Ranked>): seq<Ranked>
  {
    if |rs| == 0 then [r]
    else if rs[0].activeLoans > r.activeLoans then [rs[0]] + InsertByActivity(r, rs[1..])
    else [r] + rs
  }

  /** Orders by descending active loans; ties keep the query's order. */
  function SortByActivity(rs: seq<Ranked>): seq<Ranked>
  {
    if |rs| == 0 then [] else InsertByActivity(rs[0], SortByActivity(rs[1..]))
  }

  /** Inserting adds exactly the one entry. */
  lemma {:induction false} InsertByActivityPermutes(r: Ranked, rs: seq<Ranked>)
    ensures multiset(InsertByActivity(r, rs)) == multiset(rs) + multiset{r}
  {
    if |rs| > 0 && rs[0].activeLoans > r.activeLoans {
      InsertByActivityPermutes(r, rs[1..]);
      assert rs == [rs[0]] + rs[1..];
    }
  }

  /** Inserting into an ordered sequence keeps it ordered. */
  lemma {:induction false} InsertByActivitySorted(r: Ranked, rs: seq<Ranked>)
    requires SortedByActivity(rs)
    ensures SortedByActivity(InsertByActivity(r, rs))
  {
    if |rs| > 0 && rs[0].activeLoans > r.activeLoans {
      InsertByActivitySorted(r, rs[1..]);
      InsertByActivityPermutes(r, rs[1..]);
      var rest := InsertByActivity(r, rs[1..]);
      forall k | 0 <= k < |rest|
        ensures rs[0].activeLoans >= rest[k].activeLoans
      {
        assert rest[k] in multiset(rest);
      }
      assert InsertByActivity(r, rs) == [rs[0]] + rest;
    }
  }

  /** The sort orders the entries and is a permutation of them. */
  lemma {:induction false} SortByActivityCorrect(rs: seq<Ranked>)
    ensures SortedByActivity(SortByActivity(rs))
    ensures multiset(SortByActivity(rs)) == multiset(rs)
  {
    if |rs| > 0 {
      SortByActivityCorrect(rs[1..]);
      InsertByActivitySorted(rs[0], SortByActivity(rs[1..]));
      InsertByActivityPermutes(rs[0], SortByActivity(rs[1..]));
      assert rs == [rs[0]] + rs[1..];
    }
  }

  /** Every member of the query, ordered by descending active loans. */
  function Ranking(order: seq<MemberId>, loans: seq<Loan>): seq<Ranked>
  {
    SortByActivity(AtLeast(Annotate(order, loans), 0))
  }

  /**
   * The top-active query: annotate every member with its active loans,
   * keep those with at least zero, order by descending count, take five.
   */
  function TopActive(order: seq<MemberId>, loans: seq<Loan>): seq<Ranked>
  {
    var ranked := Ranking(order, loans);
    if |ranked| <= TopActiveLimit then ranked else ranked[..TopActiveLimit]
  }

  /** The ranking is every member of the query, each once, in non-increasing order. */
  lemma RankingCorrect(order: seq<MemberId>, loans: seq<Loan>)
    ensures var ranked := Ranking(order, loans);
            && |ranked| == |order|
            && SortedByActivity(ranked)
            && multiset(ranked) == multiset(Annotate(order, loans))
  {
    var annotated := Annotate(order, loans);
    AtLeastZeroKeepsAll(annotated);
    SortByActivityCorrect(annotated);
    assert |multiset(Ranking(order, loans))| == |multiset(annotated)|;
  }

  /** An annotated entry names a member of the query and carries its active-loan count. */
  lemma AnnotatedEntry(order: seq<MemberId>, loans: seq<Loan>, e: Ranked)
    requires e in multiset(Annotate(order, loans))
    ensures e.member in order && e.activeLoans == ActiveLoanCount(loans, e.member)
  {
    var annotated := Annotate(order, loans);
    assert e in annotated;
    var p :| 0 <= p < |annotated| && annotated[p] == e;
  }

  /** The query returns min(5, number of members) entries, in non-increasing order, drawn from the members. */
  lemma TopActiveShape(order: seq<MemberId>, loans: seq<Loan>)
    ensures var top := TopActive(order, loans);
            && |top| == (if |order| < TopActiveLimit then |order| else TopActiveLimit)
            && SortedByActivity(top)
            && multiset(top) <= multiset(Annotate(order, loans))
            && (forall k :: 0 <= k < |top| ==>
                  top[k].member in order && top[k].activeLoans == ActiveLoanCount(loans, top[k].member))
  {
    RankingCorrect(order, loans);
    var ranked := Ranking(order, loans);
    var top := TopActive(order, loans);
    assert ranked == top + ranked[|top|..];
    assert multiset(top) <= multiset(ranked);
    forall k | 0 <= k < |top|
      ensures top[k].member in order && top[k].activeLoans == ActiveLoanCount(loans, top[k].member)
    {
      assert top[k] in multiset(top);
      AnnotatedEntry(order, loans, top[k]);
    }
  }

  /** No member left out of the top has more active loans than the last one kept. */
  lemma TopActiveSelection(order: seq<MemberId>, loans: seq<Loan>, m: MemberId)
    requires m in order
    requires forall k :: 0 <= k < |TopActive(order, loans)| ==> TopActive(order, loans)[k].member != m
    ensures var top := TopActive(order, loans);
            |top| > 0 && ActiveLoanCount(loans, m) <= top[|top| - 1].activeLoans
  {
    RankingCorrect(order, loans);
    var annotated := Annotate(order, loans);
    var ranked := Ranking(order, loans);
    var top := TopActive(order, loans);
    var p :| 0 <= p < |order| && order[p] == m;
    var entry := Ranked(m, ActiveLoanCount(loans, m));
    assert annotated[p] == entry;
    assert entry in multiset(annotated);
    assert entry in multiset(ranked);
    assert entry in ranked;
    var j :| 0 <= j < |ranked| && ranked[j] == entry;
    assert j >= |top|;
    assert ranked[|top| - 1] == top[|top| - 1];
    assert ranked[|top| - 1].activeLoans >= ranked[j].activeLoans;
  }

  /** `order` lists every member of the table exactly once, as the unfiltered member query does. */
  ghost predicate Enumerates(order: seq<MemberId>, members: map<MemberId, Member>)
  {
    && (forall i, j :: 0 <= i < j < |order| ==> order[i] != order[j])
    && (forall m :: m in order <==> m in members)
  }

  /** A list without repetitions of exactly the elements of a set is as long as the set is large. */
  lemma {:induction false} DistinctListSize(s: seq<MemberId>, keys: set<MemberId>)
    requires forall i, j :: 0 <= i < j < |s| ==> s[i] != s[j]
    requires forall m :: m in s <==> m in keys
    ensures |keys| == |s|
    decreases |s|
  {
    if |s| > 0 {
      var n := |s| - 1;
      var rest := keys - {s[n]};
      forall m ensures m in s[..n] <==> m in rest {
        if m in s[..n] {
          var i :| 0 <= i < n && s[..n][i] == m;
          assert s[i] == m;
        }
        if m in rest {
          assert m in s;
          var i :| 0 <= i < |s| && s[i] == m;
          assert s[..n][i] == m;
        }
      }
      DistinctListSize(s[..n], rest);
    }
  }

  /** In a list without repetitions every entry occurs at most once. */
  lemma {:induction false} DistinctOccursOnce(rs: seq<Ranked>, e: Ranked)
    requires forall i, j :: 0 <= i < j < |rs| ==> rs[i] != rs[j]
    ensures multiset(rs)[e] <= 1
    decreases |rs|
  {
    if |rs| > 0 {
      var n := |rs| - 1;
      assert rs == rs[..n] + [rs[n]];
      DistinctOccursOnce(rs[..n], e);
      if e == rs[n] {
        assert e !in rs[..n];
      }
    }
  }

  /** An entry found at two positions occurs at least twice. */
  lemma RepeatedOccursTwice(rs: seq<Ranked>, k: nat, l: nat)
    requires k < l < |rs| && rs[k] == rs[l]
    ensures multiset(rs)[rs[k]] >= 2
  {
    assert rs == rs[..k] + [rs[k]] + rs[k + 1..l] + [rs[l]] + rs[l + 1..];
  }

  /**
   * Over the whole member table, listed once each, the query returns
   * min(5, number of members) distinct members of the table.
   */
  lemma TopActiveOfMembers(members: map<MemberId, Member>, order: seq<MemberId>, loans: seq<Loan>)
    requires Enumerates(order, members)
    ensures var top := TopActive(order, loans);
            && |top| == (if |members| < TopActiveLimit then |members| else TopActiveLimit)
            && (forall k :: 0 <= k < |top| ==> top[k].member in members)
            && (forall k, l :: 0 <= k < l < |top| ==> top[k].member != top[l].member)
  {
    TopActiveShape(order, loans);
    DistinctListSize(order, members.Keys);
    var top := TopActive(order, loans);
    var annotated := Annotate(order, loans);
    forall k, l | 0 <= k < l < |top|
      ensures top[k].member != top[l].member
    {
      if top[k].member == top[l].member {
        RepeatedOccursTwice(top, k, l);
        DistinctOccursOnce(annotated, top[k]);
        assert false;
      }
    }
  }

  /** Active-loan counts 3, 1, 0, 0, 5 come out as 5, 3, 1, 0, 0. */
  lemma SortByActivityScenario()
    ensures SortByActivity([Ranked(1, 3), Ranked(2, 1), Ranked(3, 0), Ranked(4, 0), Ranked(5, 5)])
            == [Ranked(5, 5), Ranked(1, 3), Ranked(2, 1), Ranked(3, 0), Ranked(4, 0)]
  {
  }
}
