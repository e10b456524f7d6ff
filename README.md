# Library loan lifecycle and overdue sweep

A Dafny model of the domain logic of a small library-management backend:
members borrow books, return them and extend due dates, the members with
the most unreturned loans can be listed, and two background jobs send a
loan confirmation and periodic overdue reminders.

- `models.dfy` (module `Models`): the records — `Book` (title, total and
  available copies), `Member` (username and e-mail of its user account),
  `Loan` (book, member, loan date, due date, returned flag, return date) —
  plus the refusals (`Error`), `Result`, `Option`, and three table
  predicates: every loan's foreign keys resolve (`RefsResolve`), no book has
  negative available copies (`CopiesNonNegative`), a loan has a return date
  exactly when it is returned (`ReturnDatesConsistent`).
- `views.dfy` (module `Views`): the class `Library` holds the book, member
  and loan tables; its methods `LoanBook`, `ReturnBook` and `ExtendDueDate`
  are the three guarded actions of the viewsets, each stating its refusals
  and its whole new state. The member ranking of `top_active` is a pure
  function (`TopActive`) with ordering and selection lemmas.
- `tasks.dfy` (module `Tasks`): the overdue sweep as a pure function from
  the tables to a list of reminder records, and the loan confirmation job
  as a function to an optional confirmation record.

Dates are whole day numbers and "today" is a parameter of every operation
that reads the clock. A loan's id is its position in the loan table, since
the lifecycle only ever appends loans. The due date that the `Loan` model
assigns by default at creation is an input of `LoanBook`; the loan date is
taken to be today. A request's `member_id` that is missing is modelled as
an id absent from the member table (the lookup fails the same way).

Behaviours of the code that the model keeps as they are:
- the copy check happens before the member lookup, so an unavailable book
  with an unknown member is refused as "no available copies";
- nothing bounds `available_copies` by `total_copies`: a return adds one
  unconditionally, so that bound is neither assumed nor proved;
- the extension checks only the due date, not whether the loan was
  returned, so a returned loan that is not yet past due can be extended;
- the lookup of the active loan on return fails outright when a
  (book, member) pair has several unreturned loans (`MultipleActiveLoans`):
  the code does not handle that case, and nothing is changed before it fails
  (see "Observations" below for how the lifecycle itself reaches it);
- the ranking breaks ties in an order the database does not fix; the model
  keeps the members' query order for equal counts, which is one of the
  orders the query may return.

## Model

| member | source | states |
|---|---|---|
| `Views.Library.LoanBook` | library/views.py:19-33 | Unknown book → `BookNotFound`; `available_copies < 1` → `NoAvailableCopies` whatever the member; unknown member → `MemberNotFound`; every refusal leaves books and loans unchanged. Success exactly otherwise: appends one unreturned loan for (book, member), lowers that book's count by exactly 1 (staying ≥ 0), touches no other book or loan, raises the member's active count by 1, and the returned id is the one whose confirmation goes to that member naming that book. Preserves non-negative counts and return-date consistency. |
| `Views.Library.ReturnBook` | library/views.py:35-48 | Unknown book → `BookNotFound`; no unreturned loan for (book, member) → `ActiveLoanNotFound`; several → `MultipleActiveLoans`; refusals change nothing. Success exactly when one active loan exists: only that loan changes (returned, return date = today) and only that book's count rises by exactly 1; afterwards the pair has no active loan, so a second return is refused; the member's active count drops by 1. |
| `Views.Library.ExtendDueDate` | library/views.py:66-80 | Unknown loan → `LoanNotFound`; `due_date < today` → `LoanAlreadyOverdue` with the loan unchanged; success exactly when the loan exists and `due_date >= today` (so a loan due today is extendable): only that loan's due date changes, to old due date + days, which is later; books and members untouched; the updated loan is returned. |
| `Views.ActiveLoanCount` | library/views.py:56-57 | The annotated count is exactly the number of the member's unreturned loan rows (the size of their set of ids), as the filtered `Count` computes. |
| `Views.ActiveLoanCountAppend` | library/views.py:29 | Creating an unreturned loan raises its member's active count by one and leaves every other member's count alone. |
| `Views.ActiveLoanCountClose` | library/views.py:43-45 | Closing an unreturned loan lowers its member's active count by one and leaves every other member's count alone. |
| `Views.CloseOnlyActiveLoan` | library/views.py:40-44 | When a (book, member) pair has exactly one active loan, closing it leaves the pair with no active loan, so the lookup of a repeated return finds nothing. |
| `Views.ExtensionRefusedIffSwept` | library/views.py:73 | For an unreturned loan, the extension is refused exactly when the overdue sweep (library/tasks.py line 28) selects that loan: both test `due_date < today`. |
| `Views.AtLeastCounts` | library/views.py:58 | The `active_loans >= floor` filter keeps each entry meeting the floor exactly as often as it occurs and drops every other entry. |
| `Views.AtLeastAppend` | library/views.py:58 | The filter keeps order: filtering a concatenation gives the filtered first part followed by the filtered second part. |
| `Views.AtLeastZeroKeepsAll` | library/views.py:58 | The `>= 0` filter removes nothing: members with no active loans remain eligible. |
| `Views.InsertByActivityPermutes` | library/views.py:58 | Inserting into the ranking adds exactly the inserted entry. |
| `Views.InsertByActivitySorted` | library/views.py:58 | Inserting into a non-increasing ranking keeps it non-increasing. |
| `Views.SortByActivityCorrect` | library/views.py:58 | The descending order by active loans is ordered and a permutation of its input. |
| `Views.RankingCorrect` | library/views.py:56-58 | Before the slice, the ranking holds every queried member's entry exactly as often as the query lists it, in non-increasing order of active loans. |
| `Views.AnnotatedEntry` | library/views.py:56-57 | Each annotated entry names a queried member and carries that member's count of unreturned loans. |
| `Views.TopActiveShape` | library/views.py:56-58 | For any member listing, `top_active` returns min(5, length of the listing) entries, non-increasing in active loans, each a listed member with its true active count, none more often than in the listing. |
| `Views.TopActiveOfMembers` | library/views.py:56-58 | When the listing is the member table with each member once (as `Member.objects` gives it), the result has min(5, number of members) entries, all members of the table and pairwise distinct. |
| `Views.TopActiveSelection` | library/views.py:56-58 | No member left out of the result has strictly more active loans than the last member included. |
| `Views.SortByActivityScenario` | library/views.py:58 | Active-loan counts 3, 1, 0, 0, 5 are ranked 5, 3, 1, 0, 0. |
| `Tasks.OverdueLoanIds` | library/tasks.py:27-28 | The selected loan ids are valid ids in strictly increasing order, so no loan is selected twice. |
| `Tasks.OverdueLoanIdsExact` | library/tasks.py:28 | A loan is selected if and only if it is unreturned and its due date is strictly before today. |
| `Tasks.NotOverdueNeverSwept` | library/tasks.py:28 | A returned loan, or one due today or later, is never selected. |
| `Tasks.Reminder` | library/tasks.py:34-39 | A reminder goes to the loan's member's e-mail and carries the loan's book title and due date. |
| `Tasks.OneReminderPerOverdueLoan` | library/tasks.py:32-40 | The sweep sends one reminder per selected loan, addressed to that loan's member and naming its book and due date; every overdue loan is selected, each once. |
| `Tasks.OverdueRemindersStep` | library/tasks.py:33-40 | One more loan in the table adds its reminder to the end of the sweep if it is overdue and nothing otherwise. |
| `Tasks.RemindersPerRecipient` | library/tasks.py:30-40 | Reminders are not aggregated: each address receives exactly as many reminders as there are overdue loans of members with that address. |
| `Tasks.TwoOverdueLoansTwoReminders` | library/tasks.py:27-40 | Two past-due unreturned loans of one member yield two separate reminders to that member. |
| `Tasks.LoanNotification` | library/tasks.py:7-21 | For a loan id that does not exist nothing is sent and no error is raised; otherwise one confirmation goes to the loan's member's e-mail naming the loan's book. |

`Views.LendLastCopy` and `Views.ReturnLastCopy` walk the one-copy
scenario: lending empties the shelf and a second loan is refused;
returning refills it and closes the loan with today's date, and a second
return is refused.

## Observations

- `loan` does not refuse a member who already holds an unreturned loan of
  the same book (library/views.py:22-29), while `return_book` looks up the
  pair's active loan with a lookup that fails on more than one match
  (library/views.py:40). With two copies, a member can borrow the same book
  twice (`Views.SecondLoanOfSameBook`), and from then on every return of that
  pair fails with `MultipleActiveLoans` and changes nothing
  (`Views.DoubleLoanBlocksReturn`): neither copy can be given back through
  this action. The model keeps the code's behaviour; which fix was intended
  (refusing the second loan, or closing one of the loans) the code does not say.
- The overdue reminder is sent with the subject "Book Loaned Successfully"
  (library/tasks.py:35), the confirmation mail's subject. Subjects are not
  part of the mail records here.

## Left out

- The CRUD endpoints of the Author, Book, Member and Loan viewsets, the
  serializers and the HTTP responses: only the outcome of each action
  (`Ok` or an `Error`) is modelled, not status codes or message strings.
- Authors: no action reads or changes them, so `Book` carries no author.
- `Views.Library.ExtendDueDate`: the serializer that validates
  `additional_days` is not part of this model; its validation is taken as
  the precondition `additionalDays > 0`, so the validation-error path is not modelled.
- Sending mail (`send_mail`), the sender address, subjects and message
  texts: a sent mail is a record of its recipient, username, book title and
  (for reminders) due date. Whether a send failure is swallowed or raised is
  not modelled.
- The task queue: `LoanBook` returns the id it would enqueue, and
  `Tasks.LoanNotification` is what the job computes for an id at the time it
  runs; scheduling, retries and delivery are not modelled.
- The order in which the database returns overdue loans is not fixed; the
  sweep follows loan-table order.
- Concurrency: each action is one atomic step, so the race between two
  loans of the last copy (the loan row and the book count are saved
  separately) is not captured.
- The clock and calendar: `timezone.now().date()` is the `today`
  parameter and `timedelta` day arithmetic is integer addition.
- Deleting records and creating loans directly through CRUD, which could
  break the table predicates; the actions are shown to preserve them.
