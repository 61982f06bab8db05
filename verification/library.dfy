/**
 The `books` table both applications read and write, as an immutable value:
 the book record (the union of the two schemas' columns that the circulation,
 fine, search and dashboard logic read), the rows in rowid order, and the
 AUTOINCREMENT high-water mark that decides the next primary key.
 Dates are whole day numbers.
 */
module Library {

  import opened Nullable

  /** The two values the applications ever write to the `status` column. */
  datatype Status = Available | Issued

  /** One row of `books` without its primary key. */
  datatype Book = Book(
    title: string,
    author: string,
    category: Option<string>,
    isbn: Option<string>,
    language: Option<string>,
    publicationYear: Option<int>,
    status: Status,
    borrower: Option<string>,
    dueDate: Option<int>)

  datatype Row = Row(id: int, book: Book)

  /**
   The table: its rows in rowid order, and `lastId`, the largest key the
   AUTOINCREMENT column has ever handed out (SQLite keeps it in `sqlite_sequence`).
   */
  datatype Table = Table(rows: seq<Row>, lastId: nat)

  /**
   The circulation invariant: a book is `Issued` exactly when it has both a
   borrower and a due date, and `Available` exactly when it has neither.
   */
  predicate Consistent(b: Book) {
    && (b.status == Issued <==> b.borrower.Some? && b.dueDate.Some?)
    && (b.status == Available <==> b.borrower.None? && b.dueDate.None?)
  }

  /** Primary keys are strictly increasing in scan order, hence unique. */
  predicate IdsIncreasing(rows: seq<Row>) {
    forall i, j :: 0 <= i < j < |rows| ==> rows[i].id < rows[j].id
  }

  /** Keys are unique, were handed out by AUTOINCREMENT, and every book is consistent. */
  predicate WellFormed(t: Table) {
    && IdsIncreasing(t.rows)
    && (forall r :: r in t.rows ==> 1 <= r.id <= t.lastId)
    && (forall r :: r in t.rows ==> Consistent(r.book))
  }

  /** The set of primary keys present. */
  function Ids(rows: seq<Row>): set<int> {
    set r | r in rows :: r.id
  }

  /** The largest key present, or 0 for an empty table. */
  function MaxId(rows: seq<Row>): (m: nat)
    ensures forall r :: r in rows ==> r.id <= m
  {
    if |rows| == 0 then 0
    else
      var rest := MaxId(rows[1..]);
      assert forall r :: r in rows[1..] ==> r.id <= rest;
      if rows[0].id > rest then rows[0].id else rest
  }

  /**
   The key AUTOINCREMENT assigns to the next insert: one more than the larger
   of the high-water mark and the largest key present.
   */
  function NextId(t: Table): (id: int)
    ensures id > t.lastId && id >= 1
    ensures forall r :: r in t.rows ==> r.id < id
    ensures id !in Ids(t.rows)
  {
    var m := MaxId(t.rows);
    1 + (if t.lastId > m then t.lastId else m)
  }

  /**
   The table as a map from primary key to record. When keys repeat (which
   `WellFormed` excludes) the first row in scan order wins.
   */
  function AsMap(rows: seq<Row>): (m: map<int, Book>)
    ensures m.Keys == Ids(rows)
  {
    if |rows| == 0 then map[]
    else
      assert rows == [rows[0]] + rows[1..];
      AsMap(rows[1..])[rows[0].id := rows[0].book]
  }

  /** Appending a row with a fresh key adds exactly that key to the map. */
  lemma {:induction false} AsMapAppend(rows: seq<Row>, r: Row)
    requires r.id !in Ids(rows)
    ensures AsMap(rows + [r]) == AsMap(rows)[r.id := r.book]
  {
    if |rows| == 0 {
      assert rows + [r] == [r];
    } else {
      assert (rows + [r])[0] == rows[0];
      assert (rows + [r])[1..] == rows[1..] + [r];
      assert Ids(rows) == {rows[0].id} + Ids(rows[1..]);
      AsMapAppend(rows[1..], r);
    }
  }

  /** With unique keys, the map view holds each row's record under its key. */
  lemma {:induction false} AsMapAt(rows: seq<Row>, i: int)
    requires IdsIncreasing(rows)
    requires 0 <= i < |rows|
    ensures AsMap(rows)[rows[i].id] == rows[i].book
  {
    if i > 0 {
      assert IdsIncreasing(rows[1..]);
      assert rows[1..][i - 1] == rows[i];
      AsMapAt(rows[1..], i - 1);
      assert rows[0].id < rows[i].id;
    }
  }

  /**
   `SELECT ... WHERE p` over one table: the rows satisfying `p`, in scan order.
   Exactly the matching rows come back, each once: increasing keys stay
   increasing, so no row repeats and none moves ahead of an earlier one.
   */
  function Where(rows: seq<Row>, p: Row -> bool): (r: seq<Row>)
    ensures |r| <= |rows|
    ensures forall x :: x in r <==> x in rows && p(x)
    ensures IdsIncreasing(rows) ==> IdsIncreasing(r)
  {
    if |rows| == 0 then []
    else
      var rest := Where(rows[1..], p);
      SplitIncreasing(rows);
      if p(rows[0]) then
        ConsIncreasing(rows[0], rest);
        [rows[0]] + rest
      else rest
  }

  /** The tail of an increasing sequence is increasing and lies above its head. */
  lemma SplitIncreasing(rows: seq<Row>)
    ensures |rows| > 0 && IdsIncreasing(rows) ==>
              IdsIncreasing(rows[1..]) && forall y :: y in rows[1..] ==> rows[0].id < y.id
  {
    if |rows| > 0 && IdsIncreasing(rows) {
      forall y | y in rows[1..]
        ensures rows[0].id < y.id
      {
        var k :| 0 <= k < |rows[1..]| && rows[1..][k] == y;
        assert rows[k + 1] == y;
      }
    }
  }

  /** A row below every key of an increasing sequence can go in front of it. */
  lemma ConsIncreasing(x: Row, rest: seq<Row>)
    ensures IdsIncreasing(rest) && (forall y :: y in rest ==> x.id < y.id) ==> IdsIncreasing([x] + rest)
  {
    if IdsIncreasing(rest) && (forall y :: y in rest ==> x.id < y.id) {
      var r := [x] + rest;
      forall i, j | 0 <= i < j < |r|
        ensures r[i].id < r[j].id
      {
        assert r[j] == rest[j - 1] && r[j] in rest;
        if i > 0 {
          assert r[i] == rest[i - 1];
        }
      }
    }
  }

  /**
   `SELECT ... WHERE p LIMIT limit`: the scan stops after `limit` matching
   rows. At most `limit` rows come back, all matching, each once and in scan
   order, and when fewer than `limit` come back no matching row was left out.
   */
  function WhereLimit(rows: seq<Row>, p: Row -> bool, limit: nat): (r: seq<Row>)
    ensures |r| <= limit
    ensures forall x :: x in r ==> x in rows && p(x)
    ensures |r| < limit ==> forall x :: x in rows && p(x) ==> x in r
    ensures IdsIncreasing(rows) ==> IdsIncreasing(r)
  {
    if |rows| == 0 || limit == 0 then []
    else
      SplitIncreasing(rows);
      if p(rows[0]) then
        var rest := WhereLimit(rows[1..], p, limit - 1);
        ConsIncreasing(rows[0], rest);
        [rows[0]] + rest
      else WhereLimit(rows[1..], p, limit)
  }

  /** The first `n` elements of `m`, or all of them when there are fewer. */
  function Take(m: seq<Row>, n: nat): (r: seq<Row>)
    ensures |r| == if |m| < n then |m| else n
    ensures forall i :: 0 <= i < |r| ==> r[i] == m[i]
  {
    if |m| < n then m else m[..n]
  }

  /** The limited scan returns the first `limit` rows of the unlimited one. */
  lemma {:induction false} LimitIsPrefix(rows: seq<Row>, p: Row -> bool, limit: nat)
    ensures WhereLimit(rows, p, limit) == Take(Where(rows, p), limit)
  {
    if |rows| > 0 && limit > 0 {
      if p(rows[0]) {
        LimitIsPrefix(rows[1..], p, limit - 1);
        TakeCons(rows[0], Where(rows[1..], p), limit - 1);
      } else {
        LimitIsPrefix(rows[1..], p, limit);
      }
    }
  }

  /** Taking one more element of a sequence with `x` in front. */
  lemma TakeCons(x: Row, m: seq<Row>, n: nat)
    ensures Take([x] + m, n + 1) == [x] + Take(m, n)
  {
  }
}
