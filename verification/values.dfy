/** Turning raw cell values into the strings the comparator compares.
    A raw cell is text or one of the two absent markers a pandas object
    column can hold: the not-a-number marker of the spreadsheet reader (and
    of row stacking) and a Python `None`, which the document extractor can
    yield for a cell missing from its grid. */
module Values {
  import opened Frames
  import opened Compare

  datatype Value = Text(s: string) | NotANumber | Null

  predicate Absent(v: Value)
  {
    !v.Text?
  }

  /** The stringification as written, under pandas before 3.0: convert to
      text first, then fill absent values with "". With those versions the
      conversion of an object column already turns every absent value into
      a word ("nan" or "None"), so the fill never applies. */
  function AsWrittenCell(v: Value): (c: Cell)
    ensures v.Text? ==> c == v.s
    ensures v == NotANumber ==> c == "nan"
    ensures v == Null ==> c == "None"
  {
    match v
    case Text(s) => s
    case NotANumber => "nan"
    case Null => "None"
  }

  /** The stringification as intended: absent values become "" and text is
      kept. */
  function Normalize(v: Value): (c: Cell)
    ensures Absent(v) ==> c == ""
    ensures v.Text? ==> c == v.s
  {
    if v.Text? then v.s else ""
  }

  function NormalizeColumn(vs: seq<Value>): (r: seq<Cell>)
    ensures |r| == |vs|
    ensures forall i :: 0 <= i < |vs| ==> r[i] == Normalize(vs[i])
  {
    seq(|vs|, i requires 0 <= i < |vs| => Normalize(vs[i]))
  }

  function AsWrittenColumn(vs: seq<Value>): (r: seq<Cell>)
    ensures |r| == |vs|
    ensures forall i :: 0 <= i < |vs| ==> r[i] == AsWrittenCell(vs[i])
  {
    seq(|vs|, i requires 0 <= i < |vs| => AsWrittenCell(vs[i]))
  }

  /** As written (pandas before 3.0), a blank spreadsheet cell facing an
      absent document cell is reported as a mismatch between "nan" and
      "None". */
  lemma AsWrittenBlanksDiffer()
    ensures ColumnMismatches("Amount", AsWrittenColumn([NotANumber]), AsWrittenColumn([Null])) ==
              [Mismatch(0, "nan", "None", "Amount")]
  {
    assert "nan" != "None" by { assert "nan"[0] != "None"[0]; }
    SingleDifference("Amount", AsWrittenColumn([NotANumber]), AsWrittenColumn([Null]), 0);
  }

  /** As written (pandas before 3.0), a blank spreadsheet cell facing an
      empty document cell is reported as a mismatch between "nan" and "". */
  lemma AsWrittenBlankAgainstEmpty()
    ensures ColumnMismatches("Amount", AsWrittenColumn([NotANumber]), AsWrittenColumn([Text("")])) ==
              [Mismatch(0, "nan", "", "Amount")]
  {
    SingleDifference("Amount", AsWrittenColumn([NotANumber]), AsWrittenColumn([Text("")]), 0);
  }

  /** Comparing two columns of raw values with the intended normalisation. */
  function CompareValues(col: Name, v1: seq<Value>, v2: seq<Value>): (r: seq<Mismatch>)
    ensures forall k :: 0 <= k < |r| ==> !(r[k].row < |v1| && r[k].row < |v2| &&
                                         Absent(v1[r[k].row]) && Absent(v2[r[k].row]))
  {
    var r := ColumnMismatches(col, NormalizeColumn(v1), NormalizeColumn(v2));
    assert forall k :: 0 <= k < |r| ==> r[k].row in Flagged(r);
    r
  }

  /** With the intended normalisation, positions where both sides are absent
      never produce a record, whichever absent marker each side holds, and
      an absent value past the shorter column matches the "" filler. */
  lemma AbsentMatchesAbsent(col: Name, v1: seq<Value>, v2: seq<Value>, m: Mismatch)
    requires m in CompareValues(col, v1, v2)
    ensures m.row < |v1| ==> !Absent(v1[m.row]) || m.pdf != ""
    ensures m.row < |v2| ==> !Absent(v2[m.row]) || m.excel != ""
  {
    ColumnMismatchesMember(col, NormalizeColumn(v1), NormalizeColumn(v2), m);
  }

  /** With the intended normalisation, the two blank-cell inputs above give
      no record. */
  lemma IntendedBlanksAgree()
    ensures CompareValues("Amount", [NotANumber], [Null]) == []
    ensures CompareValues("Amount", [NotANumber], [Text("")]) == []
  {
    ColumnMismatchesEmpty("Amount", NormalizeColumn([NotANumber]), NormalizeColumn([Null]));
    ColumnMismatchesEmpty("Amount", NormalizeColumn([NotANumber]), NormalizeColumn([Text("")]));
  }
}
