/** SQLite's choice of id for a row inserted into a table whose key is an
    `INTEGER PRIMARY KEY` (initDb.js), when the insert gives none: one more
    than the largest id in the table, or 1 for an empty table. Both tables
    with such keys, events and users, use these definitions through the
    projection `id` from a row to its key. */
module RowIds {

  /** The largest of the ids, or 0 when none is positive. */
  function MaxId(ids: seq<int>): (m: int)
    ensures m >= 0
    ensures forall k | 0 <= k < |ids| :: ids[k] <= m
    ensures m == 0 || m in ids
  {
    if ids == [] then 0
    else
      var m := MaxId(ids[1..]);
      if ids[0] > m then ids[0] else m
  }

  /** The id the next inserted row receives: the largest id in use plus
      one, or 1 when no id is positive. */
  function NextRowId(ids: seq<int>): (id: int)
    ensures id >= 1
    ensures forall k | 0 <= k < |ids| :: ids[k] < id
    ensures id == 1 || id - 1 in ids
  {
    MaxId(ids) + 1
  }

  /** The key column of a table. */
  function IdsOf<R>(rows: seq<R>, id: R -> int): (ids: seq<int>)
    ensures |ids| == |rows| && forall k | 0 <= k < |rows| :: ids[k] == id(rows[k])
  {
    seq(|rows|, k requires 0 <= k < |rows| => id(rows[k]))
  }

  /** The key the next row inserted into the table receives. */
  function NextIdOf<R>(rows: seq<R>, id: R -> int): (next: int)
    ensures next >= 1
    ensures forall r | r in rows :: id(r) < next
    ensures next == 1 || exists r | r in rows :: id(r) == next - 1
  {
    var ids := IdsOf(rows, id);
    assert forall r | r in rows :: id(r) in ids;
    NextRowId(ids)
  }

  /** Keys strictly ascending in table order, as max + 1 insertion keeps them. */
  ghost predicate Ascending<R>(rows: seq<R>, id: R -> int) {
    forall i, j | 0 <= i < j < |rows| :: id(rows[i]) < id(rows[j])
  }
}
