/**
 The record transitions of the basic application: adding a book, issuing it
 to a borrower for seven days, returning it, and deleting it. Each is one SQL
 statement keyed by the primary key; none checks the current status, and an
 unknown key changes nothing.
 */
module Circulation {

  import opened Nullable
  import opened Library

  /** Length of a loan in days. */
  const LoanDays: int := 7

  /**
   The row `INSERT INTO books (title, author, category)` creates: the form's
   category (possibly empty, never NULL) and every other column at its default.
   */
  function NewBook(title: string, author: string, category: string): (b: Book)
    ensures b.title == title && b.author == author && b.category == Some(category)
    ensures b.status == Available && b.borrower == None && b.dueDate == None
    ensures Consistent(b)
  {
    Book(title, author, Some(category), None, Some("English"), None, Available, None, None)
  }

  /** The state `issue_book` writes: borrower set, due `today + LoanDays`. */
  function Issue(b: Book, borrower: string, today: int): (b': Book)
    ensures Consistent(b')
    ensures b'.status == Issued && b'.borrower == Some(borrower) && b'.dueDate == Some(today + LoanDays)
    ensures SameCatalogEntry(b, b')
  {
    b.(status := Issued, borrower := Some(borrower), dueDate := Some(today + LoanDays))
  }

  /** The state `return_book` writes: available, borrower and due date NULL. */
  function Return(b: Book): (b': Book)
    ensures Consistent(b')
    ensures b'.status == Available && b'.borrower == None && b'.dueDate == None
    ensures SameCatalogEntry(b, b')
  {
    b.(status := Available, borrower := None, dueDate := None)
  }

  /** Circulation never touches the descriptive columns. */
  predicate SameCatalogEntry(b: Book, b': Book) {
    && b'.title == b.title && b'.author == b.author && b'.category == b.category
    && b'.isbn == b.isbn && b'.language == b.language
    && b'.publicationYear == b.publicationYear
  }

  /** `UPDATE books SET ... WHERE id = ?`: every row with key `id` gets `f` applied. */
  function UpdateWhere(rows: seq<Row>, id: int, f: Book -> Book): (r: seq<Row>)
    ensures |r| == |rows|
    ensures forall i :: 0 <= i < |rows| ==> r[i].id == rows[i].id
    ensures forall i :: 0 <= i < |rows| && rows[i].id != id ==> r[i] == rows[i]
    ensures forall i :: 0 <= i < |rows| && rows[i].id == id ==> r[i].book == f(rows[i].book)
  {
    if |rows| == 0 then []
    else [if rows[0].id == id then Row(id, f(rows[0].book)) else rows[0]] + UpdateWhere(rows[1..], id, f)
  }

  /**
   `DELETE FROM books WHERE id = ?`: every row with key `id` goes, the rest
   stay, and increasing keys stay increasing (the survivors keep their order).
   */
  function DeleteWhere(rows: seq<Row>, id: int): (r: seq<Row>)
    ensures forall x :: x in r <==> x in rows && x.id != id
    ensures |r| <= |rows|
    ensures IdsIncreasing(rows) ==> IdsIncreasing(r)
  {
    Where(rows, (x: Row) => x.id != id)
  }

  /** In the map view an update touches the key `id` only, and only when it is present. */
  lemma {:induction false} AsMapUpdateWhere(rows: seq<Row>, id: int, f: Book -> Book)
    ensures var m := AsMap(rows);
            AsMap(UpdateWhere(rows, id, f)) == if id in m then m[id := f(m[id])] else m
  {
    if |rows| > 0 {
      var u := UpdateWhere(rows, id, f);
      assert u[1..] == UpdateWhere(rows[1..], id, f);
      AsMapUpdateWhere(rows[1..], id, f);
    }
  }

  /** In the map view a delete removes the key `id` and nothing else. */
  lemma {:induction false} AsMapDeleteWhere(rows: seq<Row>, id: int)
    ensures AsMap(DeleteWhere(rows, id)) == AsMap(rows) - {id}
  {
    if |rows| > 0 {
      var rest := AsMap(rows[1..]);
      AsMapDeleteWhere(rows[1..], id);
      if rows[0].id == id {
        assert AsMap(rows) - {id} == rest - {id};
      } else {
        AsMapCons(rows[0], DeleteWhere(rows[1..], id));
        UpdateThenRemove(rest, rows[0].id, rows[0].book, id);
      }
    }
  }

  /** A row in front overrides the rest of the map view at its key. */
  lemma AsMapCons(x: Row, rows: seq<Row>)
    ensures AsMap([x] + rows) == AsMap(rows)[x.id := x.book]
  {
  }

  /** Removing a key commutes with updating a different one. */
  lemma UpdateThenRemove(m: map<int, Book>, k: int, v: Book, id: int)
    requires k != id
    ensures (m - {id})[k := v] == m[k := v] - {id}
  {
  }

  /** The outcome of `add_book`: the new table and the key the row received. */
  datatype Added = Added(table: Table, id: int)

  /**
   `add_book`: insert a new available record under a key never used before;
   every existing record is unchanged.
   */
  function AddBook(t: Table, title: string, author: string, category: string): (r: Added)
    ensures r.id !in AsMap(t.rows) && r.id > t.lastId
    ensures AsMap(r.table.rows) == AsMap(t.rows)[r.id := NewBook(title, author, category)]
    ensures r.table.lastId == r.id
  {
    var id := NextId(t);
    var row := Row(id, NewBook(title, author, category));
    AsMapAppend(t.rows, row);
    Added(Table(t.rows + [row], id), id)
  }

  /**
   `issue_book`: the record with key `id`, whatever its status, becomes
   issued to `borrower` and due `today + LoanDays`; every other record is
   unchanged, and an unknown key changes nothing.
   */
  function IssueBook(t: Table, id: int, borrower: string, today: int): (t': Table)
    ensures t'.lastId == t.lastId
    ensures var m := AsMap(t.rows);
            AsMap(t'.rows) == if id in m then m[id := Issue(m[id], borrower, today)] else m
  {
    var f := (b: Book) => Issue(b, borrower, today);
    AsMapUpdateWhere(t.rows, id, f);
    Table(UpdateWhere(t.rows, id, f), t.lastId)
  }

  /**
   `return_book`: the record with key `id` becomes available with no borrower
   and no due date; every other record is unchanged, an unknown key changes nothing.
   */
  function ReturnBook(t: Table, id: int): (t': Table)
    ensures t'.lastId == t.lastId
    ensures var m := AsMap(t.rows);
            AsMap(t'.rows) == if id in m then m[id := Return(m[id])] else m
  {
    var f := (b: Book) => Return(b);
    AsMapUpdateWhere(t.rows, id, f);
    Table(UpdateWhere(t.rows, id, f), t.lastId)
  }

  /** `delete_book`: the record with key `id`, if any, is gone and no other is touched. */
  function DeleteBook(t: Table, id: int): (t': Table)
    ensures t'.lastId == t.lastId
    ensures AsMap(t'.rows) == AsMap(t.rows) - {id}
  {
    AsMapDeleteWhere(t.rows, id);
    Table(DeleteWhere(t.rows, id), t.lastId)
  }

  /** Issuing preserves the circulation invariant and the key discipline. */
  lemma IssueKeepsWellFormed(t: Table, id: int, borrower: string, today: int)
    requires WellFormed(t)
    ensures WellFormed(IssueBook(t, id, borrower, today))
  {
  }

  /** Returning preserves the circulation invariant and the key discipline. */
  lemma ReturnKeepsWellFormed(t: Table, id: int)
    requires WellFormed(t)
    ensures WellFormed(ReturnBook(t, id))
  {
  }

  /** Adding preserves the circulation invariant and the key discipline. */
  lemma AddKeepsWellFormed(t: Table, title: string, author: string, category: string)
    requires WellFormed(t)
    ensures WellFormed(AddBook(t, title, author, category).table)
  {
  }

  /** Deleting preserves the circulation invariant and the key discipline. */
  lemma DeleteKeepsWellFormed(t: Table, id: int)
    requires WellFormed(t)
    ensures WellFormed(DeleteBook(t, id))
  {
  }

  /**
   Issuing an available book and then returning it restores the table exactly:
   the two transitions are inverse on a consistent, available record.
   */
  lemma IssueThenReturnRestores(t: Table, id: int, borrower: string, today: int)
    requires WellFormed(t)
    requires id in AsMap(t.rows) ==> AsMap(t.rows)[id].status == Available
    ensures ReturnBook(IssueBook(t, id, borrower, today), id) == t
  {
    var rows'' := ReturnBook(IssueBook(t, id, borrower, today), id).rows;
    forall i | 0 <= i < |t.rows|
      ensures rows''[i] == t.rows[i]
    {
      if t.rows[i].id == id {
        AsMapAt(t.rows, i);
        assert t.rows[i] in t.rows;
      }
    }
  }

  /**
   The handler checks no status: issuing an issued book overwrites the
   borrower and due date, so only the last issue counts.
   */
  lemma IssueOverwritesIssue(t: Table, id: int, first: string, day1: int, second: string, day2: int)
    ensures IssueBook(IssueBook(t, id, first, day1), id, second, day2) == IssueBook(t, id, second, day2)
  {
  }

  /**
   The handler checks no status: returning an available (or unknown) book
   leaves the table unchanged instead of failing.
   */
  lemma ReturnOfAvailableIsNoOp(t: Table, id: int)
    requires WellFormed(t)
    requires id in AsMap(t.rows) ==> AsMap(t.rows)[id].status == Available
    ensures ReturnBook(t, id) == t
  {
    var rows' := ReturnBook(t, id).rows;
    forall i | 0 <= i < |t.rows|
      ensures rows'[i] == t.rows[i]
    {
      if t.rows[i].id == id {
        AsMapAt(t.rows, i);
        assert t.rows[i] in t.rows;
      }
    }
  }

  /** Deleting an absent key leaves the rows as they are. */
  lemma {:induction false} DeleteAbsent(rows: seq<Row>, id: int)
    requires id !in Ids(rows)
    ensures DeleteWhere(rows, id) == rows
  {
    if |rows| > 0 {
      assert rows[0] in rows;
      assert Ids(rows[1..]) <= Ids(rows);
      DeleteAbsent(rows[1..], id);
      assert rows == [rows[0]] + rows[1..];
    }
  }

  /** Deletion distributes over a split of the rows. */
  lemma {:induction false} DeleteConcat(a: seq<Row>, b: seq<Row>, id: int)
    ensures DeleteWhere(a + b, id) == DeleteWhere(a, id) + DeleteWhere(b, id)
  {
    if |a| == 0 {
      assert a + b == b;
    } else {
      assert (a + b)[0] == a[0];
      assert (a + b)[1..] == a[1..] + b;
      DeleteConcat(a[1..], b, id);
    }
  }

  /**
   Deleting the book just added restores the rows, but not the key counter:
   AUTOINCREMENT never hands the deleted key out again.
   */
  lemma AddThenDeleteRestoresRows(t: Table, title: string, author: string, category: string)
    ensures var r := AddBook(t, title, author, category);
            var t' := DeleteBook(r.table, r.id);
            t'.rows == t.rows && NextId(t') > r.id
  {
    var r := AddBook(t, title, author, category);
    var row := Row(r.id, NewBook(title, author, category));
    DeleteConcat(t.rows, [row], r.id);
    DeleteAbsent(t.rows, r.id);
    assert DeleteWhere([row], r.id) == [];
    assert t.rows + [] == t.rows;
  }
}
