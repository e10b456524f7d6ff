/**
 * The background jobs: the loan confirmation sent after a loan is created,
 * and the periodic sweep that reminds members of their overdue loans.
 * A sent mail is an abstract record of its recipient and the facts its
 * message carries; the mail transport and the task queue are not modelled.
 */
module Tasks {
  import opened Models

  datatype Mail =
    | LoanConfirmation(recipient: string, username: string, bookTitle: string)
    | OverdueReminder(recipient: string, username: string, bookTitle: string, dueDate: Date)

  /** The sweep's filter: not returned, and due strictly before today. */
  predicate IsOverdue(loan: Loan, today: Date)
  {
    !loan.isReturned && loan.dueDate < today
  }

  /** The ids of the loans the sweep selects, in loan-table order. */
  function OverdueLoanIds(loans: seq<Loan>, today: Date): (ids: seq<LoanId>)
    ensures forall k :: 0 <= k < |ids| ==> ids[k] < |loans|
    ensures forall k, l :: 0 <= k < l < |ids| ==> ids[k] < ids[l]
    decreases |loans|
  {
    if |loans| == 0 then []
    else
      var n := |loans| - 1;
      var earlier := OverdueLoanIds(loans[..n], today);
      if IsOverdue(loans[n], today) then earlier + [n] else earlier
  }

  /** The sweep selects a loan exactly when it is unreturned and past due. */
  lemma {:induction false} OverdueLoanIdsExact(loans: seq<Loan>, today: Date)
    ensures forall i :: i in OverdueLoanIds(loans, today) <==> 0 <= i < |loans| && IsOverdue(loans[i], today)
    decreases |loans|
  {
    if |loans| > 0 {
      var n := |loans| - 1;
      OverdueLoanIdsExact(loans[..n], today);
      assert forall i :: 0 <= i < n ==> loans[..n][i] == loans[i];
    }
  }

  /** A loan that is returned, or not yet past due, is never selected. */
  lemma NotOverdueNeverSwept(loans: seq<Loan>, today: Date, i: LoanId)
    requires i < |loans|
    requires loans[i].isReturned || loans[i].dueDate >= today
    ensures i !in OverdueLoanIds(loans, today)
  {
    OverdueLoanIdsExact(loans, today);
  }

  /** The reminder for one overdue loan: to its member, naming the book and the due date. */
  function Reminder(books: map<BookId, Book>, members: map<MemberId, Member>, loan: Loan): (mail: Mail)
    requires loan.book in books && loan.member in members
    ensures mail.OverdueReminder?
    ensures mail.recipient == members[loan.member].email
    ensures mail.bookTitle == books[loan.book].title && mail.dueDate == loan.dueDate
  {
    var member := members[loan.member];
    OverdueReminder(member.email, member.username, books[loan.book].title, loan.dueDate)
  }

  /**
   * The overdue sweep: one reminder per selected loan, in selection order.
   * It is a function of a snapshot of the tables and so changes nothing.
   */
  function OverdueReminders(books: map<BookId, Book>, members: map<MemberId, Member>,
                            loans: seq<Loan>, today: Date): (mails: seq<Mail>)
    requires RefsResolve(books, members, loans)
  {
    var ids := OverdueLoanIds(loans, today);
    seq(|ids|, k requires 0 <= k < |ids| => Reminder(books, members, loans[ids[k]]))
  }

  /**
   * The sweep's reminders correspond one to one to the overdue loans: the
   * k-th reminder is for the k-th selected loan, and no loan is selected twice.
   */
  lemma OneReminderPerOverdueLoan(books: map<BookId, Book>, members: map<MemberId, Member>,
                                  loans: seq<Loan>, today: Date)
    requires RefsResolve(books, members, loans)
    ensures var ids := OverdueLoanIds(loans, today);
            var mails := OverdueReminders(books, members, loans, today);
            && |mails| == |ids|
            && (forall k :: 0 <= k < |ids| ==>
                  IsOverdue(loans[ids[k]], today)
                  && mails[k].recipient == members[loans[ids[k]].member].email
                  && mails[k].bookTitle == books[loans[ids[k]].book].title
                  && mails[k].dueDate == loans[ids[k]].dueDate)
            && (forall i :: 0 <= i < |loans| && IsOverdue(loans[i], today) ==>
                  exists k :: 0 <= k < |ids| && ids[k] == i)
            && (forall k, l :: 0 <= k < |ids| && 0 <= l < |ids| && ids[k] == ids[l] ==> k == l)
  {
    var ids := OverdueLoanIds(loans, today);
    OverdueLoanIdsExact(loans, today);
    forall i | 0 <= i < |loans| && IsOverdue(loans[i], today)
      ensures exists k :: 0 <= k < |ids| && ids[k] == i
    {
      assert i in ids;
    }
  }

  /** Extending the loan table by one loan extends the sweep by at most that loan's reminder. */
  lemma OverdueRemindersStep(books: map<BookId, Book>, members: map<MemberId, Member>,
                             loans: seq<Loan>, today: Date)
    requires RefsResolve(books, members, loans) && |loans| > 0
    ensures var n := |loans| - 1;
            RefsResolve(books, members, loans[..n]) &&
            OverdueReminders(books, members, loans, today)
              == OverdueReminders(books, members, loans[..n], today)
                 + (if IsOverdue(loans[n], today) then [Reminder(books, members, loans[n])] else [])
  {
    var n := |loans| - 1;
    var earlier := loans[..n];
    assert RefsResolve(books, members, earlier) by {
      forall i | 0 <= i < |earlier| ensures earlier[i].book in books && earlier[i].member in members {
        assert earlier[i] == loans[i];
      }
    }
    var ids := OverdueLoanIds(loans, today);
    var prior := OverdueLoanIds(earlier, today);
    var mails := OverdueReminders(books, members, loans, today);
    var before := OverdueReminders(books, members, earlier, today);
    var tail := if IsOverdue(loans[n], today) then [Reminder(books, members, loans[n])] else [];
    assert |mails| == |before| + |tail|;
    forall k | 0 <= k < |before|
      ensures mails[k] == before[k]
    {
      assert ids[k] == prior[k];
      assert earlier[prior[k]] == loans[prior[k]];
    }
    assert mails == before + tail;
  }

  /** How many of the mails go to `recipient`. */
  function MailsTo(mails: seq<Mail>, recipient: string): nat
    decreases |mails|
  {
    if |mails| == 0 then 0
    else MailsTo(mails[..|mails| - 1], recipient) + (if mails[|mails| - 1].recipient == recipient then 1 else 0)
  }

  /** How many overdue loans belong to a member whose address is `recipient`. */
  function OverdueLoansOf(members: map<MemberId, Member>, loans: seq<Loan>, today: Date,
                          recipient: string): nat
    requires forall i :: 0 <= i < |loans| ==> loans[i].member in members
    decreases |loans|
  {
    if |loans| == 0 then 0
    else
      var n := |loans| - 1;
      OverdueLoansOf(members, loans[..n], today, recipient)
      + (if IsOverdue(loans[n], today) && members[loans[n].member].email == recipient then 1 else 0)
  }

  /**
   * Reminders are not aggregated: an address receives exactly as many
   * reminders as there are overdue loans of members with that address.
   */
  lemma {:induction false} RemindersPerRecipient(books: map<BookId, Book>, members: map<MemberId, Member>,
                                                 loans: seq<Loan>, today: Date, recipient: string)
    requires RefsResolve(books, members, loans)
    ensures MailsTo(OverdueReminders(books, members, loans, today), recipient)
            == OverdueLoansOf(members, loans, today, recipient)
    decreases |loans|
  {
    if |loans| > 0 {
      var n := |loans| - 1;
      OverdueRemindersStep(books, members, loans, today);
      RemindersPerRecipient(books, members, loans[..n], today, recipient);
      var before := OverdueReminders(books, members, loans[..n], today);
      if IsOverdue(loans[n], today) {
        var all := before + [Reminder(books, members, loans[n])];
        assert all[..|all| - 1] == before;
      } else {
        assert before + [] == before;
      }
    }
  }

  /**
   * The loan confirmation job: nothing is sent, and nothing is raised, when
   * the loan no longer exists; otherwise the loan's member is told the title.
   */
  function LoanNotification(books: map<BookId, Book>, members: map<MemberId, Member>,
                            loans: seq<Loan>, loanId: LoanId): (mail: Option<Mail>)
    requires RefsResolve(books, members, loans)
    ensures mail.None? <==> loanId >= |loans|
    ensures mail.Some? ==> mail.value.LoanConfirmation?
                           && mail.value.recipient == members[loans[loanId].member].email
                           && mail.value.bookTitle == books[loans[loanId].book].title
  {
    if loanId < |loans| then
      var loan := loans[loanId];
      var member := members[loan.member];
      Some(LoanConfirmation(member.email, member.username, books[loan.book].title))
    else
      None
  }

  /** Two past-due loans of one member produce two separate reminders to that member. */
  lemma TwoOverdueLoansTwoReminders()
    ensures var books := map[1 := Book("Dune", 2, 0), 2 := Book("Emma", 1, 0)];
            var members := map[7 := Member("ann", "ann@example.org")];
            var loans := [Loan(1, 7, 0, 10, false, None), Loan(2, 7, 0, 12, false, None)];
            RefsResolve(books, members, loans) &&
            OverdueReminders(books, members, loans, 20)
              == [OverdueReminder("ann@example.org", "ann", "Dune", 10),
                  OverdueReminder("ann@example.org", "ann", "Emma", 12)]
  {
    var loans := [Loan(1, 7, 0, 10, false, None), Loan(2, 7, 0, 12, false, None)];
    assert loans[..1][..0] == [];
    assert OverdueLoanIds(loans, 20) == [0, 1];
  }
}
