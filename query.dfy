/**
 * The storage engine's query primitives over a table held as a sequence of rows
 * in rowid order: `.first()` of a filter, `.filter()`, lookup by primary key,
 * and SQLite's rule for the id of a new row.
 */
module Query {
  import opened Options

  /** Position of the first row satisfying `p`: what `query.filter(p).first()` returns. */
  function FindFirst<T>(rows: seq<T>, p: T -> bool): (r: Option<nat>)
    ensures r.Some? ==> r.value < |rows| && p(rows[r.value])
    ensures r.Some? ==> forall j :: 0 <= j < r.value ==> !p(rows[j])
    ensures r.None? <==> forall j :: 0 <= j < |rows| ==> !p(rows[j])
  {
    if rows == [] then None
    else if p(rows[0]) then Some(0)
    else match FindFirst(rows[1..], p)
      case None => None
      case Some(k) => Some(k + 1)
  }

  /** The first row satisfying `p` is found at its position. */
  lemma FindFirstAt<T>(rows: seq<T>, p: T -> bool, k: nat)
    requires k < |rows| && p(rows[k])
    requires forall j :: 0 <= j < k ==> !p(rows[j])
    ensures FindFirst(rows, p) == Some(k)
  {
  }

  /** The first row satisfying `p`, if any: the earliest in table order. */
  function First<T(!new)>(rows: seq<T>, p: T -> bool): (r: Option<T>)
    ensures r.Some? ==> r.value in rows && p(r.value)
    ensures r.Some? ==> exists k :: 0 <= k < |rows| && rows[k] == r.value && forall j :: 0 <= j < k ==> !p(rows[j])
    ensures r.None? <==> forall x :: x in rows ==> !p(x)
  {
    match FindFirst(rows, p)
    case None => None
    case Some(k) => Some(rows[k])
  }

  /** A row appended after rows none of which satisfies `p` is the first to satisfy it. */
  lemma FirstAppended<T(!new)>(rows: seq<T>, row: T, p: T -> bool)
    requires p(row) && forall x :: x in rows ==> !p(x)
    ensures First(rows + [row], p) == Some(row)
  {
    var all := rows + [row];
    forall j | 0 <= j < |rows| ensures !p(all[j]) {
      assert all[j] in rows;
    }
    FindFirstAt(all, p, |rows|);
  }

  /** The rows satisfying `p`, in table order: `query.filter(p).all()`. */
  function Filter<T(!new)>(rows: seq<T>, p: T -> bool): (r: seq<T>)
    ensures |r| <= |rows|
    ensures forall x :: x in r <==> x in rows && p(x)
  {
    if rows == [] then []
    else (if p(rows[0]) then [rows[0]] else []) + Filter(rows[1..], p)
  }

  /** Filtering distributes over concatenation, so table order is kept. */
  lemma {:induction false} FilterAppend<T(!new)>(xs: seq<T>, ys: seq<T>, p: T -> bool)
    ensures Filter(xs + ys, p) == Filter(xs, p) + Filter(ys, p)
  {
    if xs == [] {
      assert xs + ys == ys;
    } else {
      assert (xs + ys)[1..] == xs[1..] + ys;
      FilterAppend(xs[1..], ys, p);
    }
  }

  /** The ids of a table are positive and strictly increasing in table order (rowids). */
  ghost predicate IdsAscending<T>(rows: seq<T>, id: T -> int) {
    && (forall i :: 0 <= i < |rows| ==> 0 < id(rows[i]))
    && (forall i, j :: 0 <= i < j < |rows| ==> id(rows[i]) < id(rows[j]))
  }

  /** SQLite's id for a new row of an INTEGER PRIMARY KEY table: one more than the largest. */
  function NextId<T>(rows: seq<T>, id: T -> int): int {
    if rows == [] then 1 else id(rows[|rows| - 1]) + 1
  }

  /** A new row numbered by `NextId` keeps the ids ascending. */
  lemma AppendNextId<T>(rows: seq<T>, id: T -> int, row: T)
    requires IdsAscending(rows, id)
    requires id(row) == NextId(rows, id)
    ensures IdsAscending(rows + [row], id)
    ensures forall i :: 0 <= i < |rows| ==> id(rows[i]) < id(row)
  {
    if rows != [] {
      assert forall i :: 0 <= i < |rows| ==> id(rows[i]) <= id(rows[|rows| - 1]);
    }
  }

  /** With ascending ids, a row is determined by its id. */
  lemma AscendingUnique<T>(rows: seq<T>, id: T -> int, i: nat, j: nat)
    requires IdsAscending(rows, id)
    requires i < |rows| && j < |rows| && id(rows[i]) == id(rows[j])
    ensures i == j
  {
  }

  /** Removing a row keeps the ids ascending. */
  lemma RemoveAscending<T>(rows: seq<T>, id: T -> int, k: nat)
    requires IdsAscending(rows, id) && k < |rows|
    ensures IdsAscending(rows[..k] + rows[k + 1..], id)
  {
    var r := rows[..k] + rows[k + 1..];
    forall i | 0 <= i < |r| ensures r[i] == rows[if i < k then i else i + 1] {
    }
  }

  /** Replacing a row by one with the same id keeps the ids ascending. */
  lemma ReplaceAscending<T>(rows: seq<T>, id: T -> int, k: nat, row: T)
    requires IdsAscending(rows, id) && k < |rows| && id(row) == id(rows[k])
    ensures IdsAscending(rows[k := row], id)
  {
  }

  /** A row with a smaller id than every row of an ascending table can go in front of it. */
  lemma ConsAscending<T>(row: T, rows: seq<T>, id: T -> int)
    requires IdsAscending(rows, id) && 0 < id(row)
    requires forall i :: 0 <= i < |rows| ==> id(row) < id(rows[i])
    ensures IdsAscending([row] + rows, id)
  {
    var r := [row] + rows;
    assert forall i :: 0 < i < |r| ==> r[i] == rows[i - 1];
  }

  /** Keeping a subsequence of the rows, as a `DELETE ... WHERE` does, keeps the ids ascending. */
  lemma {:induction false} FilterAscending<T(!new)>(rows: seq<T>, id: T -> int, p: T -> bool)
    requires IdsAscending(rows, id)
    ensures IdsAscending(Filter(rows, p), id)
  {
    if rows != [] {
      var tail := Filter(rows[1..], p);
      FilterAscending(rows[1..], id, p);
      if p(rows[0]) {
        forall i | 0 <= i < |tail| ensures id(rows[0]) < id(tail[i]) {
          assert tail[i] in tail;
          var j :| 0 <= j < |rows[1..]| && rows[1..][j] == tail[i];
          assert rows[j + 1] == tail[i];
        }
        ConsAscending(rows[0], tail, id);
      } else {
        assert Filter(rows, p) == tail;
      }
    }
  }

  /** `query.filter(p).update(...)`: every row satisfying `p` replaced by `f` of it, the others kept in place. */
  function UpdateWhere<T>(rows: seq<T>, p: T -> bool, f: T -> T): (r: seq<T>)
    ensures |r| == |rows|
    ensures forall i :: 0 <= i < |rows| ==> r[i] == if p(rows[i]) then f(rows[i]) else rows[i]
  {
    seq(|rows|, i requires 0 <= i < |rows| => if p(rows[i]) then f(rows[i]) else rows[i])
  }

  /** An update that keeps each row's id keeps the ids ascending. */
  lemma UpdateAscending<T>(rows: seq<T>, id: T -> int, p: T -> bool, f: T -> T)
    requires IdsAscending(rows, id)
    requires forall x :: id(f(x)) == id(x)
    ensures IdsAscending(UpdateWhere(rows, p, f), id)
  {
  }
}
