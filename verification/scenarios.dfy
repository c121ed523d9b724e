/** Worked examples of the reconciliation on small inputs. */
module Scenarios {
  import opened Text
  import opened Frames
  import opened Matching
  import opened Compare

  /** One changed cell gives one record, at its row. */
  lemma ChangedCell()
    ensures ColumnMismatches("Name", ["Alice", "Bob"], ["Alice", "Bobby"]) ==
              [Mismatch(1, "Bob", "Bobby", "Name")]
  {
    assert "Bob" != "Bobby" by { assert |"Bob"| != |"Bobby"|; }
    SingleDifference("Name", ["Alice", "Bob"], ["Alice", "Bobby"], 1);
  }

  /** Names that differ only in case are matched by the fallback. */
  lemma CaseOnlyDifference()
    ensures MatchColumns(["Total"], ["total"]) == {("Total", "total")}
    ensures ColumnMismatches("Total", ["10"], ["10"]) == []
  {
    assert Lower("Total") == "total";
    assert Lower("total") == "total";
    assert Shared(["Total"], ["total"]) == {} by {
      assert "Total" != "total" by { assert "Total"[0] != "total"[0]; }
    }
    assert LowerIndex(["Total"]) == map["total" := "Total"];
    assert LowerIndex(["total"]) == map["total" := "total"];
    FallbackKeyPair(["Total"], ["total"], "total");
    forall p | p in MatchColumns(["Total"], ["total"]) ensures p == ("Total", "total") {
      FallbackPairKey(["Total"], ["total"], p);
    }
    ColumnMismatchesEmpty("Total", ["10"], ["10"]);
  }

  /** When two names on one side fold to the same key, the later one is used. */
  lemma LastDuplicateWins()
    ensures MatchColumns(["Total", "TOTAL"], ["total"]) == {("TOTAL", "total")}
  {
    var a, b := ["Total", "TOTAL"], ["total"];
    assert Lower("Total") == "total";
    assert Lower("TOTAL") == "total";
    assert Lower("total") == "total";
    assert Shared(a, b) == {} by {
      assert "Total" != "total" by { assert "Total"[0] != "total"[0]; }
      assert "TOTAL" != "total" by { assert "TOTAL"[0] != "total"[0]; }
    }
    assert a[..1] == ["Total"];
    assert LowerIndex(a) == map["total" := "TOTAL"];
    assert LowerIndex(b) == map["total" := "total"];
    FallbackKeyPair(a, b, "total");
    forall p | p in MatchColumns(a, b) ensures p == ("TOTAL", "total") {
      FallbackPairKey(a, b, p);
    }
  }

  /** Past the end of the shorter column the comparison is against "". */
  lemma ShorterColumn()
    ensures ColumnMismatches("X", ["1", "2", "3"], ["1", "2"]) == [Mismatch(2, "3", "", "X")]
  {
    SingleDifference("X", ["1", "2", "3"], ["1", "2"], 2);
  }

  /** Disjoint names give an empty correspondence. */
  lemma NoSharedColumns()
    ensures MatchColumns(["A"], ["B"]) == {}
  {
    assert Lower("A") != Lower("B") by { assert Lower("A")[0] != Lower("B")[0]; }
    MatchEmpty(["A"], ["B"]);
  }
}
