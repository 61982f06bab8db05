/**
 The dashboard counts of both applications: total, issued and overdue books,
 and the enhanced dashboard's statistics and category/language breakdowns.
 */
module Dashboard {

  import opened Nullable
  import opened Library
  import opened Fines
  import opened Grouping
  import Circulation

  /** `COUNT(*) ... WHERE status = 'Issued'`. */
  function CountIssued(rows: seq<Row>): (n: nat)
    ensures n <= |rows|
  {
    if |rows| == 0 then 0
    else CountIssued(rows[..|rows| - 1]) + (if rows[|rows| - 1].book.status == Issued then 1 else 0)
  }

  /** Issued books whose due date is set and strictly before `today`: never more than the issued ones. */
  function CountOverdue(rows: seq<Row>, today: int): (n: nat)
    ensures n <= CountIssued(rows)
  {
    if |rows| == 0 then 0
    else CountOverdue(rows[..|rows| - 1], today) + (if IsOverdue(rows[|rows| - 1].book, today) then 1 else 0)
  }

  /** Lines of the book list flagged overdue. */
  function CountFlagged(vs: seq<BookView>): (n: nat)
    ensures n <= |vs|
  {
    if |vs| == 0 then 0
    else CountFlagged(vs[..|vs| - 1]) + (if vs[|vs| - 1].isOverdue then 1 else 0)
  }

  /**
   The dashboard of the basic application: one pass over the table counting
   all rows, the issued rows, and the issued rows with a due date before today.
   */
  method DashboardCounts(t: Table, today: int) returns (total: nat, borrowed: nat, overdue: nat)
    ensures total == |t.rows|
    ensures borrowed == CountIssued(t.rows)
    ensures overdue == CountOverdue(t.rows, today)
    ensures overdue <= borrowed <= total
  {
    total, borrowed, overdue := 0, 0, 0;
    var i := 0;
    while i < |t.rows|
      invariant 0 <= i <= |t.rows|
      invariant total == i
      invariant borrowed == CountIssued(t.rows[..i])
      invariant overdue == CountOverdue(t.rows[..i], today)
    {
      var book := t.rows[i].book;
      assert t.rows[..i + 1][..i] == t.rows[..i];
      total := total + 1;
      if book.status == Issued {
        borrowed := borrowed + 1;
        if book.dueDate.Some? && today > book.dueDate.value {
          overdue := overdue + 1;
        }
      }
      i := i + 1;
    }
    assert t.rows[..i] == t.rows;
  }

  /** The dashboard's overdue count is the number of lines the book list flags overdue. */
  lemma {:induction false} OverdueCountMatchesBookList(rows: seq<Row>, today: int)
    ensures CountOverdue(rows, today) == CountFlagged(ViewBooks(rows, today))
  {
    if |rows| > 0 {
      var n := |rows| - 1;
      assert ViewBooks(rows, today)[..n] == ViewBooks(rows[..n], today);
      OverdueCountMatchesBookList(rows[..n], today);
    }
  }

  /**
   Comparing two tables row by row: if every row overdue in `a` is overdue in
   the same position of `b`, `a` has no more overdue rows than `b`.
   */
  lemma {:induction false} CountOverdueLe(a: seq<Row>, b: seq<Row>, dayA: int, dayB: int)
    requires |a| == |b|
    requires forall i :: 0 <= i < |a| && IsOverdue(a[i].book, dayA) ==> IsOverdue(b[i].book, dayB)
    ensures CountOverdue(a, dayA) <= CountOverdue(b, dayB)
  {
    if |a| > 0 {
      var n := |a| - 1;
      CountOverdueLe(a[..n], b[..n], dayA, dayB);
    }
  }

  /** As days pass, the overdue count never goes down. */
  lemma {:induction false} OverdueCountMonotone(rows: seq<Row>, day1: int, day2: int)
    requires day1 <= day2
    ensures CountOverdue(rows, day1) <= CountOverdue(rows, day2)
  {
    forall i | 0 <= i < |rows| && IsOverdue(rows[i].book, day1)
      ensures IsOverdue(rows[i].book, day2)
    {
      FineMonotone(rows[i].book, day1, day2);
    }
    CountOverdueLe(rows, rows, day1, day2);
  }

  /** Issuing a book today never raises today's overdue count: the new due date is a week away. */
  lemma IssueAddsNoOverdue(t: Table, id: int, borrower: string, today: int)
    ensures CountOverdue(Circulation.IssueBook(t, id, borrower, today).rows, today) <= CountOverdue(t.rows, today)
  {
    var rows' := Circulation.IssueBook(t, id, borrower, today).rows;
    CountOverdueLe(rows', t.rows, today, today);
  }

  /** Returning a book never raises the overdue count. */
  lemma ReturnAddsNoOverdue(t: Table, id: int, today: int)
    ensures CountOverdue(Circulation.ReturnBook(t, id).rows, today) <= CountOverdue(t.rows, today)
  {
    var rows' := Circulation.ReturnBook(t, id).rows;
    CountOverdueLe(rows', t.rows, today, today);
  }

  /**
   The statistics row of the enhanced dashboard. `issued` is
   `SUM(CASE WHEN status = 'Issued' THEN 1 ELSE 0 END)`, which SQL reports as
   NULL on an empty table; the distinct counts ignore NULL.
   */
  datatype Stats = Stats(total: nat, issued: Option<nat>, languages: nat, categories: nat)

  function IndexStats(rows: seq<Row>): (s: Stats)
    ensures s.total == |rows|
    ensures s.issued.None? <==> |rows| == 0
    ensures s.issued.Some? ==> s.issued.value == CountIssued(rows) && s.issued.value <= s.total
    ensures s.categories + (if None in Values(rows, CategoryColumn) then 1 else 0) == |GroupBy(rows, CategoryColumn)|
    ensures s.languages + (if None in Values(rows, LanguageColumn) then 1 else 0) == |GroupBy(rows, LanguageColumn)|
    ensures s.categories <= |GroupBy(rows, CategoryColumn)| <= s.total
    ensures s.languages <= |GroupBy(rows, LanguageColumn)| <= s.total
  {
    GroupsAreDistinctValuesPlusNull(rows, CategoryColumn);
    GroupsAreDistinctValuesPlusNull(rows, LanguageColumn);
    GroupCountAtMostRows(rows, CategoryColumn);
    GroupCountAtMostRows(rows, LanguageColumn);
    Stats(
      |rows|,
      if |rows| == 0 then None else Some(CountIssued(rows)),
      DistinctCount(rows, LanguageColumn),
      DistinctCount(rows, CategoryColumn))
  }

  /** Every group holds at least one row, so there are no more groups than rows. */
  lemma GroupCountAtMostRows(rows: seq<Row>, c: Column)
    ensures |GroupBy(rows, c)| <= |rows|
  {
    TotalAtLeastLength(GroupBy(rows, c));
  }

  lemma {:induction false} TotalAtLeastLength(gs: seq<Group>)
    requires forall g :: g in gs ==> g.count >= 1
    ensures Total(gs) >= |gs|
  {
    if |gs| > 0 {
      assert gs[0] in gs;
      assert forall g :: g in gs[1..] ==> g in gs;
      TotalAtLeastLength(gs[1..]);
    }
  }

  /**
   The category breakdown of the analytics page (no LIMIT): every row falls in
   exactly one group, NULL categories together, so the counts add up to the total.
   */
  lemma CategoryBreakdownSumsToTotal(rows: seq<Row>)
    ensures Total(GroupBy(rows, CategoryColumn)) == |rows|
    ensures forall k :: CountOf(GroupBy(rows, CategoryColumn), k) == CountValue(rows, CategoryColumn, k)
    ensures (exists r :: r in rows && r.book.category.None?) ==> CountOf(GroupBy(rows, CategoryColumn), None) >= 1
  {
    var gs := GroupBy(rows, CategoryColumn);
    if exists r :: r in rows && r.book.category.None? {
      var r :| r in rows && r.book.category.None?;
      assert None in Values(rows, CategoryColumn);
      assert None in Keys(gs);
      CountOfPresentKey(gs, None);
    }
  }

  lemma {:induction false} CountOfPresentKey(gs: seq<Group>, k: Option<string>)
    requires k in Keys(gs)
    requires forall g :: g in gs ==> g.count >= 1
    ensures CountOf(gs, k) >= 1
  {
    if gs[0].key != k {
      assert gs == [gs[0]] + gs[1..];
      assert forall g :: g in gs[1..] ==> g in gs;
      assert k in Keys(gs[1..]);
      CountOfPresentKey(gs[1..], k);
    }
  }
}
