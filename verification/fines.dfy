/**
 The overdue rule and the fine the book list shows next to every record:
 ten units per whole day past the due date, for issued books only.
 */
module Fines {

  import opened Nullable
  import opened Library
  import Circulation

  /** Fine per day late. */
  const FinePerDay: int := 10

  /** An issued book with a due date strictly before `today`. */
  predicate IsOverdue(b: Book, today: int) {
    b.status == Issued && b.dueDate.Some? && today > b.dueDate.value
  }

  /**
   The fine the book list computes for one record: never negative, a whole
   number of days' fines, and positive exactly when the record is overdue.
   */
  function Fine(b: Book, today: int): (fine: int)
    ensures fine >= 0 && fine % FinePerDay == 0
    ensures fine > 0 <==> IsOverdue(b, today)
  {
    if b.status == Issued && b.dueDate.Some? then
      var due := b.dueDate.value;
      if today > due then (today - due) * FinePerDay else 0
    else 0
  }

  /** On or before the due date nothing is owed and nothing is overdue. */
  lemma NoFineUntilDue(b: Book, today: int)
    requires b.dueDate.Some? && today <= b.dueDate.value
    ensures Fine(b, today) == 0 && !IsOverdue(b, today)
  {
  }

  /** A book held `d` days past its due date owes `d` times the daily rate. */
  lemma FineCountsDaysLate(b: Book, due: int, daysLate: nat)
    requires b.status == Issued && b.dueDate == Some(due)
    ensures Fine(b, due + daysLate) == daysLate * FinePerDay
  {
  }

  /** For a fixed record the fine never decreases as time passes. */
  lemma FineMonotone(b: Book, day1: int, day2: int)
    requires day1 <= day2
    ensures Fine(b, day1) <= Fine(b, day2)
    ensures IsOverdue(b, day1) ==> IsOverdue(b, day2)
  {
  }

  /**
   A loan made on `issued` accrues nothing for the seven days of the loan and
   the daily rate for every day after.
   */
  lemma FineAfterIssue(b: Book, borrower: string, issued: int, today: int)
    ensures var late := today - (issued + Circulation.LoanDays);
            Fine(Circulation.Issue(b, borrower, issued), today) == (if late > 0 then late * FinePerDay else 0)
  {
  }

  /** A returned book owes nothing: the fine is not kept once the book is back. */
  lemma ReturnClearsFine(b: Book, today: int)
    ensures Fine(Circulation.Return(b), today) == 0
    ensures !IsOverdue(Circulation.Return(b), today)
  {
  }

  /** One line of the book list: the record with its fine and overdue flag. */
  datatype BookView = BookView(id: int, book: Book, fine: int, isOverdue: bool)

  /** The per-record step of the book list: the flag is raised with the fine. */
  function ViewOf(r: Row, today: int): (v: BookView)
    ensures v.id == r.id && v.book == r.book
    ensures v.isOverdue <==> v.fine > 0
    ensures v.isOverdue <==> IsOverdue(r.book, today)
    ensures v.fine >= 0
  {
    var b := r.book;
    if b.status == Issued && b.dueDate.Some? && today > b.dueDate.value then
      BookView(r.id, b, (today - b.dueDate.value) * FinePerDay, true)
    else
      BookView(r.id, b, 0, false)
  }

  /** The book list: every record, in scan order, with its fine. */
  function ViewBooks(rows: seq<Row>, today: int): (vs: seq<BookView>)
    ensures |vs| == |rows|
    ensures forall i :: 0 <= i < |rows| ==> vs[i].id == rows[i].id && vs[i].book == rows[i].book
    ensures forall i :: 0 <= i < |rows| ==> vs[i].fine == Fine(rows[i].book, today)
    ensures forall i :: 0 <= i < |rows| ==> (vs[i].isOverdue <==> IsOverdue(rows[i].book, today))
  {
    seq(|rows|, i requires 0 <= i < |rows| => ViewOf(rows[i], today))
  }
}
