/**
 * Row-level vocabulary shared by the two SQLite-backed stores: an optional
 * value (SQL NULL, or "no row") and the scan the engine performs when a
 * statement looks a row up by a condition and keeps the first match.
 */
module Tables {

  datatype Option<+T> = None | Some(value: T)

  /** Index of the first row satisfying `p`, scanning in rowid order. */
  function FirstIndex<T>(rows: seq<T>, p: T -> bool): (r: Option<nat>)
    ensures r.Some? ==> r.value < |rows| && p(rows[r.value])
    ensures r.Some? ==> forall j :: 0 <= j < r.value ==> !p(rows[j])
    ensures r.None? <==> forall j :: 0 <= j < |rows| ==> !p(rows[j])
  {
    if |rows| == 0 then None
    else if p(rows[0]) then Some(0)
    else
      match FirstIndex(rows[1..], p)
      case None => None
      case Some(i) => Some(i + 1)
  }
}
