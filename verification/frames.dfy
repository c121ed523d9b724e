/** Tabular record sets (data frames) with string column names and
    already-stringified cells, and the flattening of a spreadsheet frame into
    one text block for the line-based text comparison. */
module Frames {
  import opened Text

  type Name = string
  type Cell = string

  /** A record set: the ordered column names and, for each name, its column
      of cells (top to bottom). */
  datatype Frame = Frame(names: seq<Name>, cols: map<Name, seq<Cell>>)

  /** Column names are distinct and are exactly the keys of the column map. */
  predicate Valid(f: Frame)
  {
    && (forall i, j :: 0 <= i < j < |f.names| ==> f.names[i] != f.names[j])
    && (forall n :: n in f.cols ==> n in f.names)
    && (forall k :: 0 <= k < |f.names| ==> f.names[k] in f.cols)
  }

  /** The row count: the length of the first column (zero without columns). */
  function Height(f: Frame): nat
    requires Valid(f)
  {
    if |f.names| == 0 then 0 else |f.cols[f.names[0]]|
  }

  /** Every column has the same number of rows, as in a frame read from a sheet. */
  predicate Rectangular(f: Frame)
  {
    Valid(f) && forall n :: n in f.cols ==> |f.cols[n]| == Height(f)
  }

  /** Row `i`, cells in column order. */
  function Row(f: Frame, i: nat): (r: seq<Cell>)
    requires Rectangular(f) && i < Height(f)
  {
    seq(|f.names|, j requires 0 <= j < |f.names| => f.cols[f.names[j]][i])
  }

  /** All rows, top to bottom. */
  function Rows(f: Frame): (r: seq<seq<Cell>>)
    requires Rectangular(f)
  {
    seq(Height(f), i requires 0 <= i < Height(f) => Row(f, i))
  }

  /** Rows laid end to end. */
  function Concat(rows: seq<seq<Cell>>): seq<Cell>
  {
    if |rows| == 0 then [] else Concat(rows[..|rows| - 1]) + rows[|rows| - 1]
  }

  lemma {:induction false} MulStep(h: nat, w: nat)
    ensures (h + 1) * w == h * w + w
  {
  }

  /** Row offsets do not overlap: row `i` ends no later than row `h` starts. */
  lemma {:induction false} RowEnd(i: nat, h: nat, w: nat)
    requires i < h
    ensures i * w + w <= h * w
  {
    if h == i + 1 {
      MulStep(i, w);
    } else {
      RowEnd(i, h - 1, w);
      MulStep(h - 1, w);
    }
  }

  /** Concatenating `h` rows of width `w` gives `h * w` items. */
  lemma {:induction false} ConcatLength(rows: seq<seq<Cell>>, w: nat)
    requires forall k :: 0 <= k < |rows| ==> |rows[k]| == w
    ensures |Concat(rows)| == |rows| * w
  {
    if |rows| > 0 {
      ConcatLength(rows[..|rows| - 1], w);
      MulStep(|rows| - 1, w);
    }
  }

  /** Item `j` of row `i` sits at offset `i * w + j` of the concatenation. */
  lemma {:induction false} ConcatAt(rows: seq<seq<Cell>>, w: nat, i: nat, j: nat)
    requires forall k :: 0 <= k < |rows| ==> |rows[k]| == w
    requires i < |rows| && j < w
    ensures i * w + j < |Concat(rows)| && Concat(rows)[i * w + j] == rows[i][j]
  {
    var h := |rows|;
    var init := rows[..h - 1];
    ConcatLength(init, w);
    MulStep(h - 1, w);
    if i < h - 1 {
      ConcatAt(init, w, i, j);
      RowEnd(i, h - 1, w);
    }
  }

  /** Every item of the concatenation comes from some row. */
  lemma {:induction false} CellOrigin(rows: seq<seq<Cell>>, k: nat)
    requires k < |Concat(rows)|
    ensures exists i, j :: 0 <= i < |rows| && 0 <= j < |rows[i]| && Concat(rows)[k] == rows[i][j]
  {
    var h := |rows|;
    var init := rows[..h - 1];
    if k < |Concat(init)| {
      CellOrigin(init, k);
      var i, j :| 0 <= i < |init| && 0 <= j < |init[i]| && Concat(init)[k] == init[i][j];
      assert rows[i] == init[i];
    } else {
      var j := k - |Concat(init)|;
      assert Concat(rows)[k] == rows[h - 1][j];
    }
  }

  /** Cells of the whole frame in row-major order, each stringified cell one
      item; the header row is not part of the values. */
  function Cells(f: Frame): seq<Cell>
    requires Rectangular(f)
  {
    Concat(Rows(f))
  }

  /** The spreadsheet text block: every cell, row by row, joined with '\n'. */
  function Flatten(f: Frame): string
    requires Rectangular(f)
  {
    Join(Cells(f), '\n')
  }

  /** No cell of the frame holds a '\n' character. */
  predicate NoLineBreaks(f: Frame)
  {
    forall n, i :: n in f.cols && 0 <= i < |f.cols[n]| ==> '\n' !in f.cols[n][i]
  }

  lemma CellsNoLineBreaks(f: Frame)
    requires Rectangular(f) && NoLineBreaks(f)
    ensures forall k :: 0 <= k < |Cells(f)| ==> '\n' !in Cells(f)[k]
  {
    var rows := Rows(f);
    forall k | 0 <= k < |Cells(f)|
      ensures '\n' !in Cells(f)[k]
    {
      CellOrigin(rows, k);
      var i, j :| 0 <= i < |rows| && 0 <= j < |rows[i]| && Cells(f)[k] == rows[i][j];
      assert rows[i][j] == f.cols[f.names[j]][i];
    }
  }

  /** The cell in row `i` and column `j` is item `i * w + j` of the cells,
      `w` being the number of columns. */
  lemma CellAt(f: Frame, i: nat, j: nat)
    requires Rectangular(f) && i < Height(f) && j < |f.names|
    ensures i * |f.names| + j < |Cells(f)|
    ensures Cells(f)[i * |f.names| + j] == f.cols[f.names[j]][i]
  {
    var rows := Rows(f);
    var w := |f.names|;
    assert forall k :: 0 <= k < |rows| ==> |rows[k]| == w;
    ConcatAt(rows, w, i, j);
    assert rows[i][j] == f.cols[f.names[j]][i];
  }

  /** The cells number rows times columns. */
  lemma CellsLength(f: Frame)
    requires Rectangular(f)
    ensures |Cells(f)| == Height(f) * |f.names|
  {
    var rows := Rows(f);
    assert forall k :: 0 <= k < |rows| ==> |rows[k]| == |f.names|;
    ConcatLength(rows, |f.names|);
  }

  /** Splitting the text block at every '\n' gives back the cells, one piece
      per cell and in row-major order (see `CellAt`), provided no cell holds a
      '\n'. Only '\n' is a separator here: Python's `splitlines()` also
      breaks at '\r' and the other Unicode line boundaries and drops a
      trailing empty line, which this split does not model. */
  lemma FlattenLines(f: Frame)
    requires Rectangular(f) && Height(f) > 0 && |f.names| > 0 && NoLineBreaks(f)
    ensures Split(Flatten(f), '\n') == Cells(f)
    ensures |Split(Flatten(f), '\n')| == Height(f) * |f.names|
  {
    CellsLength(f);
    RowEnd(0, Height(f), |f.names|);
    CellsNoLineBreaks(f);
    SplitJoin(Cells(f), '\n');
  }

  /** A frame without columns or without rows flattens to the empty text. */
  lemma FlattenEmpty(f: Frame)
    requires Rectangular(f) && (Height(f) == 0 || |f.names| == 0)
    ensures Flatten(f) == ""
  {
    ConcatLength(Rows(f), |f.names|);
  }
}
