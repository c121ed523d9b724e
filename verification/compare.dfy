/** Positional comparison of matched columns and aggregation of the
    differences into one mismatch report. */
module Compare {
  import opened Frames
  import opened Matching

  /** One row of the report: the row position, the Excel cell, the PDF cell
      and the Excel-side name of the column. */
  datatype Mismatch = Mismatch(row: nat, excel: Cell, pdf: Cell, column: Name)

  function Max(x: nat, y: nat): nat
  {
    if x < y then y else x
  }

  /** Position `i` of a column read as if it had been extended with empty
      cells: the cell itself inside the column, "" past its end. */
  function At(s: seq<Cell>, i: nat): Cell
  {
    if i < |s| then s[i] else ""
  }

  /** Extends a column with empty cells up to length `n`. */
  function Pad(s: seq<Cell>, n: nat): (r: seq<Cell>)
    requires |s| <= n
    ensures |r| == n
    ensures r[..|s|] == s
    ensures forall i :: 0 <= i < n ==> r[i] == At(s, i)
  {
    s + seq(n - |s|, _ => "")
  }

  /** The row positions a list of records mentions. */
  function Flagged(r: seq<Mismatch>): set<nat>
  {
    set k | 0 <= k < |r| :: r[k].row
  }

  lemma FlaggedCons(m: Mismatch, rest: seq<Mismatch>)
    ensures Flagged([m] + rest) == {m.row} + Flagged(rest)
  {
    var r := [m] + rest;
    assert r[0] == m;
    forall x | x in Flagged(rest) ensures x in Flagged(r) {
      var k :| 0 <= k < |rest| && rest[k].row == x;
      assert r[k + 1] == rest[k];
    }
    forall x | x in Flagged(r) ensures x == m.row || x in Flagged(rest) {
      var k :| 0 <= k < |r| && r[k].row == x;
      if k > 0 {
        assert rest[k - 1] == r[k];
      }
    }
  }

  /** The records for the positions `i` and later of two equal-length padded
      columns, in ascending row order. */
  function MismatchesFrom(col: Name, p1: seq<Cell>, p2: seq<Cell>, i: nat): (r: seq<Mismatch>)
    requires |p1| == |p2| && i <= |p1|
    ensures forall k :: 0 <= k < |r| ==>
              && i <= r[k].row < |p1|
              && r[k].excel == p1[r[k].row] && r[k].pdf == p2[r[k].row]
              && r[k].excel != r[k].pdf
              && r[k].column == col
    ensures forall k, l :: 0 <= k < l < |r| ==> r[k].row < r[l].row
    ensures forall j :: i <= j < |p1| && p1[j] != p2[j] ==> j in Flagged(r)
    decreases |p1| - i
  {
    if i == |p1| then []
    else
      var rest := MismatchesFrom(col, p1, p2, i + 1);
      FlaggedCons(Mismatch(i, p1[i], p2[i], col), rest);
      if p1[i] != p2[i] then [Mismatch(i, p1[i], p2[i], col)] + rest else rest
  }

  /** The records of one matched pair: the Excel column `s1` named `col`
      against the PDF column `s2`, both padded to the longer length. */
  function ColumnMismatches(col: Name, s1: seq<Cell>, s2: seq<Cell>): (r: seq<Mismatch>)
    ensures forall k :: 0 <= k < |r| ==>
              && r[k].row < Max(|s1|, |s2|)
              && r[k].excel == At(s1, r[k].row) && r[k].pdf == At(s2, r[k].row)
              && r[k].column == col
    ensures forall k, l :: 0 <= k < l < |r| ==> r[k].row < r[l].row
    ensures forall i :: 0 <= i < Max(|s1|, |s2|) ==> (At(s1, i) != At(s2, i) <==> i in Flagged(r))
  {
    var n := Max(|s1|, |s2|);
    MismatchesFrom(col, Pad(s1, n), Pad(s2, n), 0)
  }

  /** A pair produces no records exactly when its padded columns agree everywhere. */
  lemma ColumnMismatchesEmpty(col: Name, s1: seq<Cell>, s2: seq<Cell>)
    ensures ColumnMismatches(col, s1, s2) == [] <==>
              forall i :: 0 <= i < Max(|s1|, |s2|) ==> At(s1, i) == At(s2, i)
  {
    var r := ColumnMismatches(col, s1, s2);
    if r != [] {
      assert r[0].row in Flagged(r);
    }
  }

  /** `m` is the record that comparing the Excel column `s1` named `col`
      with the PDF column `s2` owes at position `m.row`. */
  ghost predicate IsRecordOf(col: Name, s1: seq<Cell>, s2: seq<Cell>, m: Mismatch)
  {
    && m.row < Max(|s1|, |s2|)
    && m.column == col
    && m.excel == At(s1, m.row)
    && m.pdf == At(s2, m.row)
    && m.excel != m.pdf
  }

  /** The records of a pair are exactly the records it owes, one per
      differing position. */
  lemma ColumnMismatchesMember(col: Name, s1: seq<Cell>, s2: seq<Cell>, m: Mismatch)
    ensures m in ColumnMismatches(col, s1, s2) <==> IsRecordOf(col, s1, s2, m)
  {
    var r := ColumnMismatches(col, s1, s2);
    if IsRecordOf(col, s1, s2, m) {
      assert m.row in Flagged(r);
      var k :| 0 <= k < |r| && r[k].row == m.row;
      assert r[k] == m;
    }
  }

  /** Records in strictly ascending row order mention as many rows as there
      are records. */
  lemma {:induction false} FlaggedSize(r: seq<Mismatch>)
    requires forall k, l :: 0 <= k < l < |r| ==> r[k].row < r[l].row
    ensures |Flagged(r)| == |r|
  {
    if |r| > 0 {
      var rest := r[1..];
      assert r == [r[0]] + rest;
      FlaggedSize(rest);
      FlaggedCons(r[0], rest);
      forall x | x in Flagged(rest) ensures x > r[0].row {
        var k :| 0 <= k < |rest| && rest[k].row == x;
        assert rest[k] == r[k + 1];
      }
    }
  }

  /** A pair whose padded columns differ at one position only yields exactly
      one record, for that position. */
  lemma SingleDifference(col: Name, s1: seq<Cell>, s2: seq<Cell>, i: nat)
    requires i < Max(|s1|, |s2|) && At(s1, i) != At(s2, i)
    requires forall j :: 0 <= j < Max(|s1|, |s2|) && j != i ==> At(s1, j) == At(s2, j)
    ensures ColumnMismatches(col, s1, s2) == [Mismatch(i, At(s1, i), At(s2, i), col)]
  {
    var r := ColumnMismatches(col, s1, s2);
    assert Flagged(r) == {i};
    FlaggedSize(r);
    assert r[0].row in Flagged(r);
  }

  /** Every pair of the enumeration names an existing column on each side. */
  predicate PairsIn(excel: Frame, pdf: Frame, order: seq<Pair>)
  {
    forall k :: 0 <= k < |order| ==> order[k].0 in excel.cols && order[k].1 in pdf.cols
  }

  /** The records of one matched pair of the two frames. */
  function PairReport(excel: Frame, pdf: Frame, p: Pair): seq<Mismatch>
    requires p.0 in excel.cols && p.1 in pdf.cols
  {
    ColumnMismatches(p.0, excel.cols[p.0], pdf.cols[p.1])
  }

  /** The report for an enumeration of matched pairs: the records of each
      pair in turn. */
  function Report(excel: Frame, pdf: Frame, order: seq<Pair>): seq<Mismatch>
    requires PairsIn(excel, pdf, order)
  {
    if |order| == 0 then []
    else
      var init := order[..|order| - 1];
      assert forall k :: 0 <= k < |init| ==> init[k] == order[k];
      Report(excel, pdf, init) + PairReport(excel, pdf, order[|order| - 1])
  }

  /** Two enumerations of existing pairs laid end to end enumerate existing pairs. */
  lemma PairsInAppend(excel: Frame, pdf: Frame, o1: seq<Pair>, o2: seq<Pair>)
    requires PairsIn(excel, pdf, o1) && PairsIn(excel, pdf, o2)
    ensures PairsIn(excel, pdf, o1 + o2)
  {
    var o := o1 + o2;
    forall k | 0 <= k < |o| ensures o[k].0 in excel.cols && o[k].1 in pdf.cols {
      if k < |o1| {
        assert o[k] == o1[k];
      } else {
        assert o[k] == o2[k - |o1|];
      }
    }
  }

  /** The report of a non-empty enumeration ends with the records of its last pair. */
  lemma ReportLast(excel: Frame, pdf: Frame, order: seq<Pair>)
    requires PairsIn(excel, pdf, order) && |order| > 0
    ensures PairsIn(excel, pdf, order[..|order| - 1])
    ensures Report(excel, pdf, order) ==
              Report(excel, pdf, order[..|order| - 1]) + PairReport(excel, pdf, order[|order| - 1])
  {
    var init := order[..|order| - 1];
    assert forall k :: 0 <= k < |init| ==> init[k] == order[k];
  }

  /** The report of two enumerations laid end to end is the two reports laid
      end to end. */
  lemma {:induction false} ReportAppend(excel: Frame, pdf: Frame, o1: seq<Pair>, o2: seq<Pair>)
    requires PairsIn(excel, pdf, o1) && PairsIn(excel, pdf, o2)
    ensures PairsIn(excel, pdf, o1 + o2)
    ensures Report(excel, pdf, o1 + o2) == Report(excel, pdf, o1) + Report(excel, pdf, o2)
  {
    PairsInAppend(excel, pdf, o1, o2);
    var o := o1 + o2;
    if |o2| > 0 {
      ReportLast(excel, pdf, o2);
      ReportLast(excel, pdf, o);
      var init, last := o2[..|o2| - 1], o2[|o2| - 1];
      ReportAppend(excel, pdf, o1, init);
      assert o[..|o| - 1] == o1 + init;
      assert o[|o| - 1] == last;
    } else {
      assert o == o1;
    }
  }

  /** A record is in the report exactly when it is a record of one of the
      enumerated pairs. */
  lemma {:induction false} ReportMember(excel: Frame, pdf: Frame, order: seq<Pair>, m: Mismatch)
    requires PairsIn(excel, pdf, order)
    ensures forall k :: 0 <= k < |order| && m in PairReport(excel, pdf, order[k]) ==>
              m in Report(excel, pdf, order)
    ensures m in Report(excel, pdf, order) ==>
              exists k :: 0 <= k < |order| && m in PairReport(excel, pdf, order[k])
  {
    if |order| > 0 {
      var n := |order|;
      var init := order[..n - 1];
      assert forall k :: 0 <= k < |init| ==> init[k] == order[k];
      var whole := Report(excel, pdf, order);
      var front := Report(excel, pdf, init);
      var back := PairReport(excel, pdf, order[n - 1]);
      assert whole == front + back;
      ReportMember(excel, pdf, init, m);
      forall k | 0 <= k < n && m in PairReport(excel, pdf, order[k])
        ensures m in whole
      {
        if k < n - 1 {
          assert init[k] == order[k];
          assert m in front;
        } else {
          assert m in back;
        }
      }
      if m in whole {
        if m in front {
          var k :| 0 <= k < |init| && m in PairReport(excel, pdf, init[k]);
          assert order[k] == init[k];
        } else {
          assert m in back;
        }
      }
    }
  }

  /** A record is in the report exactly when some enumerated pair owes it. */
  lemma ReportRecords(excel: Frame, pdf: Frame, order: seq<Pair>, m: Mismatch)
    requires PairsIn(excel, pdf, order)
    ensures m in Report(excel, pdf, order) <==>
              exists k :: 0 <= k < |order| &&
                IsRecordOf(order[k].0, excel.cols[order[k].0], pdf.cols[order[k].1], m)
  {
    ReportMember(excel, pdf, order, m);
    forall k | 0 <= k < |order|
      ensures m in PairReport(excel, pdf, order[k]) <==>
                IsRecordOf(order[k].0, excel.cols[order[k].0], pdf.cols[order[k].1], m)
    {
      ColumnMismatchesMember(order[k].0, excel.cols[order[k].0], pdf.cols[order[k].1], m);
    }
  }

  /** The report is empty exactly when no enumerated pair produces a record. */
  lemma {:induction false} ReportEmpty(excel: Frame, pdf: Frame, order: seq<Pair>)
    requires PairsIn(excel, pdf, order)
    ensures Report(excel, pdf, order) == [] <==>
              forall k :: 0 <= k < |order| ==> PairReport(excel, pdf, order[k]) == []
  {
    if |order| > 0 {
      var n := |order|;
      var init := order[..n - 1];
      assert forall k :: 0 <= k < |init| ==> init[k] == order[k];
      ReportEmpty(excel, pdf, init);
      var front, back := Report(excel, pdf, init), PairReport(excel, pdf, order[n - 1]);
      assert Report(excel, pdf, order) == front + back;
      assert |front + back| == |front| + |back|;
    }
  }

  /** Reordering an enumeration keeps every pair's columns in place. */
  lemma PairsInPermutation(excel: Frame, pdf: Frame, o1: seq<Pair>, o2: seq<Pair>)
    requires PairsIn(excel, pdf, o1) && multiset(o1) == multiset(o2)
    ensures PairsIn(excel, pdf, o2)
  {
    forall k | 0 <= k < |o2|
      ensures o2[k].0 in excel.cols && o2[k].1 in pdf.cols
    {
      assert o2[k] in multiset(o2);
      assert o2[k] in o1;
    }
  }

  lemma ReportSingle(excel: Frame, pdf: Frame, p: Pair)
    requires p.0 in excel.cols && p.1 in pdf.cols
    ensures PairsIn(excel, pdf, [p]) && Report(excel, pdf, [p]) == PairReport(excel, pdf, p)
  {
    assert [p][..0] == [];
  }

  /** Taking one pair out of an enumeration takes exactly its records out
      of the report. */
  lemma ReportRemove(excel: Frame, pdf: Frame, o: seq<Pair>, j: nat)
    requires PairsIn(excel, pdf, o) && j < |o|
    ensures PairsIn(excel, pdf, o[..j] + o[j + 1..])
    ensures multiset(Report(excel, pdf, o)) ==
              multiset(Report(excel, pdf, o[..j] + o[j + 1..])) + multiset(PairReport(excel, pdf, o[j]))
  {
    var p := o[j];
    var left, right := o[..j], o[j + 1..];
    assert o == left + [p] + right;
    assert PairsIn(excel, pdf, left) && PairsIn(excel, pdf, right) by {
      assert forall k :: 0 <= k < |left| ==> left[k] == o[k];
      assert forall k :: 0 <= k < |right| ==> right[k] == o[j + 1 + k];
    }
    var pr := PairReport(excel, pdf, p);
    var rl, rr := Report(excel, pdf, left), Report(excel, pdf, right);
    ReportAppend(excel, pdf, left, right);
    ReportSingle(excel, pdf, p);
    ReportAppend(excel, pdf, left, [p]);
    ReportAppend(excel, pdf, left + [p], right);
    assert Report(excel, pdf, o) == rl + pr + rr;
  }

  /** Taking the last item of one sequence and an equal item of another
      preserves equality of their multisets. */
  lemma RemoveMatching<T>(o1: seq<T>, o2: seq<T>, j: nat)
    requires |o1| > 0 && multiset(o1) == multiset(o2)
    requires j < |o2| && o2[j] == o1[|o1| - 1]
    ensures multiset(o1[..|o1| - 1]) == multiset(o2[..j] + o2[j + 1..])
  {
    var n := |o1|;
    var p := o1[n - 1];
    var init, rest := o1[..n - 1], o2[..j] + o2[j + 1..];
    assert o1 == init + [p];
    assert o2 == o2[..j] + [p] + o2[j + 1..];
    assert multiset(init) + multiset{p} == multiset(rest) + multiset{p};
    forall x ensures multiset(init)[x] == multiset(rest)[x] {
      assert (multiset(init) + multiset{p})[x] == (multiset(rest) + multiset{p})[x];
    }
  }

  /** The enumeration order changes only the order of the records: two
      enumerations of the same pairs give reports with the same records. */
  lemma {:induction false} ReportPermutation(excel: Frame, pdf: Frame, o1: seq<Pair>, o2: seq<Pair>)
    requires PairsIn(excel, pdf, o1) && multiset(o1) == multiset(o2)
    ensures PairsIn(excel, pdf, o2)
    ensures multiset(Report(excel, pdf, o1)) == multiset(Report(excel, pdf, o2))
  {
    PairsInPermutation(excel, pdf, o1, o2);
    if |o1| > 0 {
      var n := |o1|;
      var init := o1[..n - 1];
      var p := o1[n - 1];
      assert o1 == init + [p];
      assert p in multiset(o2);
      var j :| 0 <= j < |o2| && o2[j] == p;
      var rest := o2[..j] + o2[j + 1..];
      RemoveMatching(o1, o2, j);
      assert PairsIn(excel, pdf, init);
      ReportRemove(excel, pdf, o2, j);
      ReportPermutation(excel, pdf, init, rest);
      assert Report(excel, pdf, o1) == Report(excel, pdf, init) + PairReport(excel, pdf, p);
    }
  }

  /** Visiting one more pair appends its records to the report. */
  lemma ReportSnoc(excel: Frame, pdf: Frame, order: seq<Pair>, p: Pair)
    requires PairsIn(excel, pdf, order) && p.0 in excel.cols && p.1 in pdf.cols
    ensures PairsIn(excel, pdf, order + [p])
    ensures Report(excel, pdf, order + [p]) == Report(excel, pdf, order) + PairReport(excel, pdf, p)
  {
    assert (order + [p])[..|order|] == order;
  }

  /** Every pair of the correspondence names an existing column on each side. */
  lemma MatchedColumnsExist(excel: Frame, pdf: Frame, p: Pair)
    requires Valid(excel) && Valid(pdf)
    requires p in MatchColumns(excel.names, pdf.names)
    ensures p.0 in excel.cols && p.1 in pdf.cols
  {
    if Shared(excel.names, pdf.names) == {} {
      MatchFallbackSound(excel.names, pdf.names, p);
    }
  }

  /** The whole structured comparison of an Excel frame against a PDF frame:
      match the columns, then compare each matched pair in turn. The pairs
      are visited in an unspecified order, returned as `order`. */
  method CompareSmart(excel: Frame, pdf: Frame) returns (order: seq<Pair>, report: seq<Mismatch>)
    requires Valid(excel) && Valid(pdf)
    ensures forall p :: p in order <==> p in MatchColumns(excel.names, pdf.names)
    ensures forall i, j :: 0 <= i < j < |order| ==> order[i] != order[j]
    ensures PairsIn(excel, pdf, order) && report == Report(excel, pdf, order)
    ensures MatchColumns(excel.names, pdf.names) == {} ==> report == []
  {
    var matched := MatchColumns(excel.names, pdf.names);
    forall p | p in matched
      ensures p.0 in excel.cols && p.1 in pdf.cols
    {
      MatchedColumnsExist(excel, pdf, p);
    }
    var remaining := matched;
    order, report := [], [];
    while remaining != {}
      invariant remaining <= matched
      invariant forall p :: p in order <==> p in matched && p !in remaining
      invariant forall i, j :: 0 <= i < j < |order| ==> order[i] != order[j]
      invariant |order| + |remaining| == |matched|
      invariant PairsIn(excel, pdf, order)
      invariant report == Report(excel, pdf, order)
      decreases |remaining|
    {
      var p :| p in remaining;
      ReportSnoc(excel, pdf, order, p);
      report := report + PairReport(excel, pdf, p);
      order := order + [p];
      remaining := remaining - {p};
    }
  }
}
