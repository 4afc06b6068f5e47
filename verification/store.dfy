/**
 * What the relational store does with the two statement shapes the core
 * issues against a table held as a sequence of rows in primary-key order:
 * `SELECT ... WHERE p ORDER BY id LIMIT 1` and `UPDATE ... SET ... WHERE p`.
 */
module Store {
  import opened Outcomes

  /**
   * Primary keys handed out by an auto-increment sequence: every key is below
   * the sequence's next value, and rows are held in ascending key order.
   */
  ghost predicate IdsAscending<T>(rows: seq<T>, key: T -> nat, next: nat)
  {
    && (forall i :: 0 <= i < |rows| ==> key(rows[i]) < next)
    && (forall i, j :: 0 <= i < j < |rows| ==> key(rows[i]) < key(rows[j]))
  }

  /** Index of the first row that satisfies `matches`, if any. */
  function First<T>(rows: seq<T>, matches: T -> bool): (r: Option<nat>)
    ensures r.Some? ==> r.value < |rows| && matches(rows[r.value])
    ensures r.Some? ==> forall j :: 0 <= j < r.value ==> !matches(rows[j])
    ensures r.None? ==> forall j :: 0 <= j < |rows| ==> !matches(rows[j])
  {
    if rows == [] then None
    else if matches(rows[0]) then Some(0)
    else match First(rows[1..], matches)
      case None => None
      case Some(k) => Some(k + 1)
  }

  /** The table after applying `update` to every row that satisfies `matches`. */
  function UpdateWhere<T>(rows: seq<T>, matches: T -> bool, update: T -> T): (r: seq<T>)
    ensures |r| == |rows|
    ensures forall i :: 0 <= i < |rows| && matches(rows[i]) ==> r[i] == update(rows[i])
    ensures forall i :: 0 <= i < |rows| && !matches(rows[i]) ==> r[i] == rows[i]
  {
    if rows == [] then []
    else [if matches(rows[0]) then update(rows[0]) else rows[0]] + UpdateWhere(rows[1..], matches, update)
  }
}
