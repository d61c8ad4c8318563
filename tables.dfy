/**
 * The relational store's tables, in memory: a table is the sequence of its rows in storage
 * order, every row carrying the value of a serial `id` primary key beside its other columns.
 */
module Tables {
  import opened Wrappers
  import Seqs

  datatype Row<T> = Row(id: int, cols: T)

  /** The primary key holds: ids are distinct, and each was drawn from the serial before `next`. */
  ghost predicate Keyed<T>(rows: seq<Row<T>>, next: int) {
    && (forall i, j :: 0 <= i < j < |rows| ==> rows[i].id != rows[j].id)
    && (forall i :: 0 <= i < |rows| ==> 1 <= rows[i].id < next)
  }

  /** `INSERT ... RETURNING *`: appends a row whose id is the serial's next value. */
  function Insert<T>(rows: seq<Row<T>>, next: int, cols: T): (r: seq<Row<T>>)
    ensures |r| == |rows| + 1 && r[..|rows|] == rows && r[|rows|] == Row(next, cols)
    ensures Keyed(rows, next) && 1 <= next ==> Keyed(r, next + 1)
  {
    rows + [Row(next, cols)]
  }

  /** `SELECT ... WHERE id = $1` read as `rows[0]`: the first row with that id. */
  function FindId<T>(rows: seq<Row<T>>, id: int): (r: Option<Row<T>>)
    ensures r.Some? ==> r.value in rows && r.value.id == id
    ensures r.None? <==> forall i :: 0 <= i < |rows| ==> rows[i].id != id
    decreases |rows|
  {
    if rows == [] then None
    else if rows[0].id == id then Some(rows[0])
    else FindId(rows[1..], id)
  }

  /** Under the primary key, the row `FindId` returns is the only row with that id. */
  lemma FindIdUnique<T>(rows: seq<Row<T>>, next: int, id: int, i: int)
    requires Keyed(rows, next) && 0 <= i < |rows| && rows[i].id == id
    ensures FindId(rows, id) == Some(rows[i])
  {
    var found := FindId(rows, id);
    var k :| 0 <= k < |rows| && rows[k] == found.value;
    assert k == i;
  }

  /** `UPDATE ... SET ... WHERE id = $n`: rewrites the columns of the rows with that id. */
  function SetId<T>(rows: seq<Row<T>>, id: int, f: T -> T): (r: seq<Row<T>>)
    ensures |r| == |rows|
    ensures forall i :: 0 <= i < |rows| && rows[i].id != id ==> r[i] == rows[i]
    ensures forall i :: 0 <= i < |rows| && rows[i].id == id ==> r[i] == Row(id, f(rows[i].cols))
    ensures forall next :: Keyed(rows, next) ==> Keyed(r, next)
  {
    seq(|rows|, i requires 0 <= i < |rows| =>
      if rows[i].id == id then Row(id, f(rows[i].cols)) else rows[i])
  }

  /** `DELETE ... WHERE id = $1`: keeps, in order, the rows with another id. */
  function DeleteId<T>(rows: seq<Row<T>>, id: int): (r: seq<Row<T>>)
    ensures |r| <= |rows|
    ensures forall i :: 0 <= i < |r| ==> r[i].id != id && r[i] in rows
    ensures forall i :: 0 <= i < |rows| && rows[i].id != id ==> rows[i] in r
    decreases |rows|
  {
    if rows == [] then []
    else
      var rest := DeleteId(rows[1..], id);
      assert forall i :: 1 <= i < |rows| ==> rows[i] == rows[1..][i - 1];
      if rows[0].id == id then rest else [rows[0]] + rest
  }

  /** Deleting keeps the primary key. */
  lemma {:induction false} DeleteIdKeyed<T>(rows: seq<Row<T>>, next: int, id: int)
    requires Keyed(rows, next)
    ensures Keyed(DeleteId(rows, id), next)
    decreases |rows|
  {
    if rows != [] {
      var tail := rows[1..];
      assert Keyed(tail, next);
      DeleteIdKeyed(tail, next, id);
      var rest := DeleteId(tail, id);
      if rows[0].id != id {
        forall i | 0 <= i < |rest| ensures rest[i].id != rows[0].id {
          assert rest[i] in tail;
        }
        assert DeleteId(rows, id) == [rows[0]] + rest;
      }
    }
  }

  /** Deleting removes exactly one row of a keyed table when the id is present, and none
      otherwise. */
  lemma {:induction false} DeleteIdCount<T>(rows: seq<Row<T>>, next: int, id: int)
    requires Keyed(rows, next)
    ensures |DeleteId(rows, id)| == if FindId(rows, id).Some? then |rows| - 1 else |rows|
    decreases |rows|
  {
    if rows != [] {
      var tail := rows[1..];
      assert Keyed(tail, next);
      DeleteIdCount(tail, next, id);
      if rows[0].id == id {
        assert FindId(tail, id).None?;
      }
    }
  }

  /** Deleting keeps the remaining rows in their storage order. */
  lemma {:induction false} DeleteIdInOrder<T>(rows: seq<Row<T>>, id: int)
    ensures Seqs.IsSubsequence(DeleteId(rows, id), rows)
    decreases |rows|
  {
    if rows != [] {
      DeleteIdInOrder(rows[1..], id);
      var rest := DeleteId(rows[1..], id);
      if rows[0].id != id {
        assert DeleteId(rows, id) == [rows[0]] + rest;
        assert DeleteId(rows, id)[1..] == rest;
      } else if rest != [] {
        assert DeleteId(rows, id) == rest;
      }
    }
  }

  /** Applying an idempotent update to the same id twice stores what applying it once stores. */
  lemma SetIdTwice<T>(rows: seq<Row<T>>, id: int, f: T -> T)
    requires forall x :: f(f(x)) == f(x)
    ensures SetId(SetId(rows, id, f), id, f) == SetId(rows, id, f)
  {
    var once := SetId(rows, id, f);
    var twice := SetId(once, id, f);
    forall i | 0 <= i < |rows| ensures twice[i] == once[i] {
      if rows[i].id == id {
        assert f(f(rows[i].cols)) == f(rows[i].cols);
      }
    }
  }
}
