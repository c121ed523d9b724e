/** The header rule applied to each raw table the document extractor yields:
    a table of more than one row takes its first row as column labels, a
    shorter table keeps positional column ids. */
module Tables {
  import opened Frames

  /** Column identifiers of a table: the labels of a promoted header row, or
      the positional ids 0, 1, ..., width - 1. */
  datatype ColumnIds = Labels(labels: seq<string>) | Positions(width: nat)

  /** A table with its column identifiers and its body rows. */
  datatype Table = Table(ids: ColumnIds, body: seq<seq<Cell>>)

  /** The number of columns the identifiers name. */
  function Width(ids: ColumnIds): nat
  {
    match ids
    case Labels(ls) => |ls|
    case Positions(w) => w
  }

  /** Every row of a raw table has as many cells as the first. */
  predicate RectangularRows(rows: seq<seq<Cell>>)
  {
    forall i :: 0 <= i < |rows| ==> |rows[i]| == |rows[0]|
  }

  /** Turns a raw extracted table into a frame-shaped table. */
  function Promote(t: seq<seq<Cell>>): (r: Table)
    requires RectangularRows(t)
    ensures forall i :: 0 <= i < |r.body| ==> |r.body[i]| == Width(r.ids)
    ensures |t| > 1 <==> r.ids.Labels?
    ensures |t| > 1 ==> r.ids.labels == t[0] && |r.body| == |t| - 1
    ensures |t| > 1 ==> r.body == t[1..]
    ensures |t| <= 1 ==> r.body == t
    ensures |t| == 1 ==> Width(r.ids) == |t[0]|
    ensures |t| == 0 ==> Width(r.ids) == 0
  {
    if |t| > 1 then Table(Labels(t[0]), t[1..])
    else if |t| == 1 then Table(Positions(|t[0]|), t)
    else Table(Positions(0), [])
  }

  /** The raw table a promoted table came from: the labels, when promoted,
      go back on top of the body. */
  function Restore(r: Table): seq<seq<Cell>>
  {
    match r.ids
    case Labels(ls) => [ls] + r.body
    case Positions(_) => r.body
  }

  /** Promotion loses nothing: every raw table can be rebuilt from its
      promoted form. */
  lemma PromoteRestore(t: seq<seq<Cell>>)
    requires RectangularRows(t)
    ensures Restore(Promote(t)) == t
  {
    if |t| > 1 {
      assert [t[0]] + t[1..] == t;
    }
  }
}
