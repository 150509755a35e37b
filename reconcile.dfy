/**
 * The date reconciler, MissingDates of epic.go: the dates the remote catalog
 * lists that the local mirror does not, in the catalog's order.
 */
module Reconcile {
  import opened Records

  /**
   * The reference definition: the catalog's date strings, in order, with
   * those the mirror lists filtered out. Duplicates in the catalog are kept.
   */
  function Missing(nasa: seq<Date>, epic: seq<Date>): (r: seq<string>)
    ensures |r| <= |nasa|
  {
    if nasa == [] then []
    else
      var last := nasa[|nasa| - 1].date;
      Missing(nasa[..|nasa| - 1], epic) + (if last in Dates(epic) then [] else [last])
  }

  /** One step of the reference definition, for the lemmas' inductions. */
  lemma MissingSnoc(nasa: seq<Date>, epic: seq<Date>)
    requires nasa != []
    ensures var front, last := nasa[..|nasa| - 1], nasa[|nasa| - 1].date;
            && Missing(nasa, epic) == Missing(front, epic) + (if last in Dates(epic) then [] else [last])
            && Dates(nasa) == Dates(front) + [last]
  {
  }

  /**
   * MissingDates(nasa, epic): a first loop collects the mirror's dates into
   * a set, a second walks the catalog and appends each date the set lacks.
   */
  method MissingDates(nasa: seq<Date>, epic: seq<Date>) returns (missing: seq<string>)
    ensures missing == Missing(nasa, epic)
  {
    var m: set<string> := {};
    for i := 0 to |epic|
      invariant forall d :: d in m <==> d in Dates(epic)[..i]
    {
      assert Dates(epic)[..i + 1] == Dates(epic)[..i] + [epic[i].date];
      m := m + {epic[i].date};
    }
    assert Dates(epic)[..|epic|] == Dates(epic);
    missing := [];
    for i := 0 to |nasa|
      invariant missing == Missing(nasa[..i], epic)
    {
      assert nasa[..i + 1][..i] == nasa[..i];
      if nasa[i].date in m {
      } else {
        missing := missing + [nasa[i].date];
      }
    }
    assert nasa[..|nasa|] == nasa;
  }

  // ---- properties of the reference definition ----

  /** Reconciling a concatenation reconciles each part. */
  lemma {:induction false} MissingAppend(a: seq<Date>, b: seq<Date>, epic: seq<Date>)
    ensures Missing(a + b, epic) == Missing(a, epic) + Missing(b, epic)
    decreases |b|
  {
    if b == [] {
      assert a + b == a;
    } else {
      var b' := b[..|b| - 1];
      assert (a + b)[..|a + b| - 1] == a + b';
      MissingAppend(a, b', epic);
    }
  }

  /** Exact membership: a date is reported iff the catalog lists it and the mirror does not. */
  lemma {:induction false} MissingMembership(nasa: seq<Date>, epic: seq<Date>, d: string)
    ensures d in Missing(nasa, epic) <==> d in Dates(nasa) && d !in Dates(epic)
    decreases |nasa|
  {
    if nasa != [] {
      var front := nasa[..|nasa| - 1];
      MissingMembership(front, epic, d);
      assert Dates(nasa) == Dates(front) + [nasa[|nasa| - 1].date];
    }
  }

  /**
   * A filter, not a deduplication: each date the mirror lacks is reported as
   * often as the catalog lists it, every other date never.
   */
  lemma {:induction false} MissingMultiplicity(nasa: seq<Date>, epic: seq<Date>, d: string)
    ensures multiset(Missing(nasa, epic))[d] == if d in Dates(epic) then 0 else multiset(Dates(nasa))[d]
    decreases |nasa|
  {
    if nasa != [] {
      var front, last := nasa[..|nasa| - 1], nasa[|nasa| - 1].date;
      MissingMultiplicity(front, epic, d);
      MissingSnoc(nasa, epic);
      var added := if last in Dates(epic) then [] else [last];
      assert multiset(Missing(nasa, epic)) == multiset(Missing(front, epic)) + multiset(added);
      assert multiset(Dates(nasa)) == multiset(Dates(front)) + multiset{last};
    }
  }

  /** `idx` picks the elements of `r`, in order, out of `s`. */
  ghost predicate Embeds(idx: seq<int>, r: seq<string>, s: seq<string>) {
    && |idx| == |r|
    && (forall j :: 0 <= j < |idx| ==> 0 <= idx[j] < |s| && s[idx[j]] == r[j])
    && (forall j, k :: 0 <= j < k < |idx| ==> idx[j] < idx[k])
  }

  lemma EmbedsExtend(idx: seq<int>, r: seq<string>, s: seq<string>, x: string)
    requires Embeds(idx, r, s)
    ensures Embeds(idx, r, s + [x])
    ensures Embeds(idx + [|s|], r + [x], s + [x])
  {
    var s' := s + [x];
    assert forall j :: 0 <= j < |idx| ==> s'[idx[j]] == s[idx[j]];
  }

  /** The report is a subsequence of the catalog's dates: their relative order is kept. */
  lemma {:induction false} MissingIsSubsequence(nasa: seq<Date>, epic: seq<Date>)
    ensures exists idx :: Embeds(idx, Missing(nasa, epic), Dates(nasa))
    decreases |nasa|
  {
    if nasa == [] {
      var idx: seq<int> := [];
      assert Missing(nasa, epic) == [] && Dates(nasa) == [];
      assert Embeds(idx, Missing(nasa, epic), Dates(nasa));
    } else {
      var front, last := nasa[..|nasa| - 1], nasa[|nasa| - 1].date;
      MissingIsSubsequence(front, epic);
      var idx :| Embeds(idx, Missing(front, epic), Dates(front));
      MissingSnoc(nasa, epic);
      EmbedsExtend(idx, Missing(front, epic), Dates(front), last);
      if last in Dates(epic) {
        assert Embeds(idx, Missing(nasa, epic), Dates(nasa));
      } else {
        assert Embeds(idx + [|Dates(front)|], Missing(nasa, epic), Dates(nasa));
      }
    }
  }

  /** A list reconciled against itself has nothing missing (in Go, the nil slice). */
  lemma MissingOfSelf(nasa: seq<Date>)
    ensures Missing(nasa, nasa) == []
  {
    if Missing(nasa, nasa) != [] {
      var d := Missing(nasa, nasa)[0];
      MissingMembership(nasa, nasa, d);
    }
  }

  /** Against an empty mirror every catalog date is missing, in order. */
  lemma {:induction false} MissingOfEmptyMirror(nasa: seq<Date>)
    ensures Missing(nasa, []) == Dates(nasa)
    decreases |nasa|
  {
    if nasa != [] {
      var front := nasa[..|nasa| - 1];
      MissingOfEmptyMirror(front);
      assert Dates(nasa) == Dates(front) + [nasa[|nasa| - 1].date];
    }
  }

  /** Only the set of the mirror's dates matters, not their order or repetition. */
  lemma {:induction false} MissingDependsOnMirrorSet(nasa: seq<Date>, e1: seq<Date>, e2: seq<Date>)
    requires forall d :: d in Dates(e1) <==> d in Dates(e2)
    ensures Missing(nasa, e1) == Missing(nasa, e2)
    decreases |nasa|
  {
    if nasa != [] {
      MissingDependsOnMirrorSet(nasa[..|nasa| - 1], e1, e2);
    }
  }

  /** Reordering the catalog does not change which dates are missing, nor how often. */
  lemma MissingCatalogOrder(n1: seq<Date>, n2: seq<Date>, epic: seq<Date>)
    requires multiset(Dates(n1)) == multiset(Dates(n2))
    ensures multiset(Missing(n1, epic)) == multiset(Missing(n2, epic))
  {
    forall d
      ensures multiset(Missing(n1, epic))[d] == multiset(Missing(n2, epic))[d]
    {
      MissingMultiplicity(n1, epic, d);
      MissingMultiplicity(n2, epic, d);
    }
  }

  /** The two reconciliation cases of epic_test.go. */
  lemma MissingExamples()
    ensures Missing([Date("2018-09-20"), Date("2018-09-19")], [Date("2018-09-20")]) == ["2018-09-19"]
    ensures Missing([Date("2018-09-20"), Date("2018-09-19")], [Date("2018-09-20"), Date("2018-09-19")]) == []
  {
    MissingOfSelf([Date("2018-09-20"), Date("2018-09-19")]);
    var nasa := [Date("2018-09-20"), Date("2018-09-19")];
    assert nasa[..1] == [Date("2018-09-20")];
    assert Dates([Date("2018-09-20")]) == ["2018-09-20"];
    assert "2018-09-19" != "2018-09-20";
  }
}
