/** The column matcher: which Excel column corresponds to which PDF column.
    Exact names are preferred; only when no name is shared exactly are the
    names compared case-insensitively. The correspondence is a set of
    (Excel name, PDF name) pairs, so the identity pairing of the exact pass
    and the name-to-name map of the fallback have one shape. */
module Matching {
  import opened Text
  import opened Frames

  type Pair = (Name, Name)

  /** Names present on both sides, compared exactly. */
  function Shared(a: seq<Name>, b: seq<Name>): (r: set<Name>)
  {
    set x | x in a && x in b
  }

  /** Position `i` holds the last name of `names` whose lower-cased form is `key`. */
  ghost predicate IsLastWithKey(names: seq<Name>, key: string, i: int)
  {
    && 0 <= i < |names|
    && Lower(names[i]) == key
    && forall j :: i < j < |names| ==> Lower(names[j]) != key
  }

  /** Some name on this side lower-cases to `key`. */
  ghost predicate HasKey(names: seq<Name>, key: string)
  {
    exists i :: 0 <= i < |names| && Lower(names[i]) == key
  }

  /** The lower-cased index of one side: lower-cased name to original name,
      built left to right so that a later name with the same key replaces an
      earlier one. */
  function LowerIndex(names: seq<Name>): map<string, Name>
  {
    if |names| == 0 then map[]
    else
      var last := names[|names| - 1];
      LowerIndex(names[..|names| - 1])[Lower(last) := last]
  }

  /** The index has a key exactly for each lower-cased name of its side. */
  lemma {:induction false} LowerIndexKeys(names: seq<Name>)
    ensures forall key :: key in LowerIndex(names) <==> HasKey(names, key)
  {
    if |names| > 0 {
      var init := names[..|names| - 1];
      LowerIndexKeys(init);
      forall key | HasKey(init, key) ensures HasKey(names, key) {
        var i :| 0 <= i < |init| && Lower(init[i]) == key;
        assert names[i] == init[i];
      }
      forall key | HasKey(names, key) && key != Lower(names[|names| - 1])
        ensures HasKey(init, key)
      {
        var i :| 0 <= i < |names| && Lower(names[i]) == key;
        assert init[i] == names[i];
      }
    }
  }

  /** Each key maps to the last name on its side that lower-cases to it. */
  lemma {:induction false} LowerIndexLast(names: seq<Name>, key: string)
    requires key in LowerIndex(names)
    ensures exists i :: IsLastWithKey(names, key, i) && LowerIndex(names)[key] == names[i]
  {
    var n := |names|;
    var init := names[..n - 1];
    if key == Lower(names[n - 1]) {
      assert IsLastWithKey(names, key, n - 1);
    } else {
      LowerIndexLast(init, key);
      var i :| IsLastWithKey(init, key, i) && LowerIndex(init)[key] == init[i];
      assert IsLastWithKey(names, key, i);
    }
  }

  /** The column correspondence between the Excel names `a` and the PDF names
      `b`. An exact overlap is taken as it is, each shared name paired with
      itself, and the case-insensitive pass is not consulted. */
  function MatchColumns(a: seq<Name>, b: seq<Name>): (r: set<Pair>)
    ensures Shared(a, b) != {} ==>
              forall p :: p in r <==> p.0 == p.1 && p.0 in a && p.0 in b
  {
    var shared := Shared(a, b);
    if shared != {} then
      set x | x in shared :: (x, x)
    else
      Correspond(LowerIndex(a), LowerIndex(b))
  }

  /** Pairs the values of two indexes that share a key. */
  function Correspond(ma: map<string, Name>, mb: map<string, Name>): set<Pair>
  {
    set key | key in ma && key in mb :: (ma[key], mb[key])
  }

  lemma CorrespondMember(ma: map<string, Name>, mb: map<string, Name>, p: Pair)
    requires p in Correspond(ma, mb)
    ensures exists key :: key in ma && key in mb && p == (ma[key], mb[key])
  {
  }

  /** Without an exact overlap, a pair comes from a lower-cased key present
      in both indexes. */
  lemma FallbackPairKey(a: seq<Name>, b: seq<Name>, p: Pair)
    requires Shared(a, b) == {} && p in MatchColumns(a, b)
    ensures exists key :: key in LowerIndex(a) && key in LowerIndex(b) &&
                          p == (LowerIndex(a)[key], LowerIndex(b)[key])
  {
    var ma := LowerIndex(a);
    var mb := LowerIndex(b);
    assert p in Correspond(ma, mb);
    CorrespondMember(ma, mb, p);
  }

  /** Without an exact overlap, a key present in both indexes gives a pair. */
  lemma FallbackKeyPair(a: seq<Name>, b: seq<Name>, key: string)
    requires Shared(a, b) == {} && key in LowerIndex(a) && key in LowerIndex(b)
    ensures (LowerIndex(a)[key], LowerIndex(b)[key]) in MatchColumns(a, b)
  {
    assert MatchColumns(a, b) == Correspond(LowerIndex(a), LowerIndex(b));
  }

  /** Without an exact overlap, every pair joins an Excel name and a PDF name
      that agree up to case, and on each side it is the last name with that
      lower-cased form. */
  lemma MatchFallbackSound(a: seq<Name>, b: seq<Name>, p: Pair)
    requires Shared(a, b) == {} && p in MatchColumns(a, b)
    ensures Lower(p.0) == Lower(p.1)
    ensures exists i :: IsLastWithKey(a, Lower(p.0), i) && a[i] == p.0
    ensures exists j :: IsLastWithKey(b, Lower(p.1), j) && b[j] == p.1
  {
    FallbackPairKey(a, b, p);
    var key :| key in LowerIndex(a) && key in LowerIndex(b) &&
               p == (LowerIndex(a)[key], LowerIndex(b)[key]);
    LowerIndexLast(a, key);
    LowerIndexLast(b, key);
  }

  /** Without an exact overlap, every lower-cased name found on both sides
      yields exactly one pair. */
  lemma MatchFallbackComplete(a: seq<Name>, b: seq<Name>, key: string)
    requires Shared(a, b) == {} && HasKey(a, key) && HasKey(b, key)
    ensures exists p :: p in MatchColumns(a, b) && Lower(p.0) == key
    ensures forall p, q ::
              p in MatchColumns(a, b) && q in MatchColumns(a, b) && Lower(p.0) == key && Lower(q.0) == key
              ==> p == q
  {
    LowerIndexKeys(a);
    LowerIndexKeys(b);
    LowerIndexLast(a, key);
    LowerIndexLast(b, key);
    var p := (LowerIndex(a)[key], LowerIndex(b)[key]);
    FallbackKeyPair(a, b, key);
    forall q, q' | q in MatchColumns(a, b) && q' in MatchColumns(a, b) &&
                   Lower(q.0) == key && Lower(q'.0) == key
      ensures q == q'
    {
      FallbackPairKey(a, b, q);
      FallbackPairKey(a, b, q');
      var k :| k in LowerIndex(a) && k in LowerIndex(b) &&
               q == (LowerIndex(a)[k], LowerIndex(b)[k]);
      var k' :| k' in LowerIndex(a) && k' in LowerIndex(b) &&
                q' == (LowerIndex(a)[k'], LowerIndex(b)[k']);
      LowerIndexLast(a, k);
      LowerIndexLast(a, k');
    }
  }

  /** Each Excel name is matched to at most one PDF name. */
  lemma MatchFunctional(a: seq<Name>, b: seq<Name>, p: Pair, q: Pair)
    requires p in MatchColumns(a, b) && q in MatchColumns(a, b) && p.0 == q.0
    ensures p == q
  {
    if Shared(a, b) == {} {
      FallbackPairKey(a, b, p);
      FallbackPairKey(a, b, q);
      var k :| k in LowerIndex(a) && k in LowerIndex(b) &&
               p == (LowerIndex(a)[k], LowerIndex(b)[k]);
      var k' :| k' in LowerIndex(a) && k' in LowerIndex(b) &&
                q == (LowerIndex(a)[k'], LowerIndex(b)[k']);
      LowerIndexLast(a, k);
      LowerIndexLast(a, k');
    }
  }

  /** The correspondence is empty exactly when no Excel name and PDF name
      agree even up to case. */
  lemma MatchEmpty(a: seq<Name>, b: seq<Name>)
    ensures MatchColumns(a, b) == {} <==>
              forall i, j :: 0 <= i < |a| && 0 <= j < |b| ==> Lower(a[i]) != Lower(b[j])
  {
    if MatchColumns(a, b) == {} {
      forall i, j | 0 <= i < |a| && 0 <= j < |b|
        ensures Lower(a[i]) != Lower(b[j])
      {
        if Lower(a[i]) == Lower(b[j]) {
          if Shared(a, b) == {} {
            MatchFallbackComplete(a, b, Lower(a[i]));
          }
        }
      }
    } else {
      var p :| p in MatchColumns(a, b);
      if Shared(a, b) != {} {
        var i :| 0 <= i < |a| && a[i] == p.0;
        var j :| 0 <= j < |b| && b[j] == p.0;
        assert Lower(a[i]) == Lower(b[j]);
      } else {
        MatchFallbackSound(a, b, p);
        var i :| IsLastWithKey(a, Lower(p.0), i) && a[i] == p.0;
        var j :| IsLastWithKey(b, Lower(p.1), j) && b[j] == p.1;
        assert Lower(a[i]) == Lower(b[j]);
      }
    }
  }
}
