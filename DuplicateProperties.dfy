/**
  What `duplicate_analysis` guarantees about its result, proved about the
  model in Duplicates.dfy.
 */
module DuplicateProperties {
  import opened StringOrder
  import opened Statistics
  import opened Duplicates

  function Abs(x: real): real {
    if x < 0.0 then -x else x
  }

  // ---------------------------------------------------------------------
  // The filter of lines 53-59.
  // ---------------------------------------------------------------------

  /** The filter without division or square root: a row is kept iff its
      group has fewer than two rows, or the group's variance is zero (the
      two cases `fillna(0)` covers), or 16 (x - mean)^2 < 25 var. */
  lemma {:induction false} KeptIffSquaredForm(x: real, g: seq<real>)
    ensures Kept(x, g) <==>
      (|g| < 2 || SampleVar(g) == 0.0 || 16.0 * Square(x - Mean(g)) < 25.0 * SampleVar(g))
  {
    if |g| >= 2 && SampleVar(g) != 0.0 {
      KeptDeviation(x, g);
    }
  }

  lemma {:induction false} SquareLess(a: real, b: real)
    requires a >= 0.0 && b >= 0.0
    ensures a * a < b * b <==> a < b
  {
    var p, q := b - a, b + a;
    assert b * b - a * a == p * q;
    if a < b {
      assert p > 0.0 && q > 0.0;
      ProductSign(p, q);
    } else {
      assert -p >= 0.0 && q >= 0.0;
      ProductSign(-p, q);
      assert (-p) * q == -(p * q);
    }
  }

  /** For a group whose standard deviation `sd` (the square root of the
      N - 1 variance) is positive, a row is kept iff it lies strictly closer
      to the group mean than 1.25 standard deviations; a row at exactly 1.25
      is dropped. */
  lemma {:induction false} KeptIffWithinThreshold(x: real, g: seq<real>, sd: real)
    requires |g| >= 2 && sd > 0.0 && sd * sd == SampleVar(g)
    ensures Kept(x, g) <==> Abs(x - Mean(g)) < 5.0 / 4.0 * sd
  {
    assert SampleVar(g) > 0.0 by {
      calc {
        SampleVar(g);
        sd * sd;
      >
        0.0;
      }
    }
    KeptDeviation(x, g);
    var a, b := Abs(x - Mean(g)), 5.0 / 4.0 * sd;
    assert a * a == Square(x - Mean(g));
    assert b * b == 25.0 / 16.0 * SampleVar(g);
    SquareLess(a, b);
  }

  // ---------------------------------------------------------------------
  // Per-name output rows.
  // ---------------------------------------------------------------------

  lemma {:induction false} SummarizeSingleton(nm: string, v: real)
    ensures Summarize(nm, [v]) == Summary(nm, v, 1)
  {
    assert Kept(v, [v]);
    assert KeptAreas([v]) == [v];
  }

  /** A name that occurs once keeps its row: `n` is 1 and `Area` is its value. */
  lemma {:induction false} SingleRowName(table: seq<Row>, nm: string, v: real)
    requires Group(table, nm) == [v]
    ensures Lookup(DuplicateAnalysis(table), nm) == Some(Summary(nm, v, 1))
  {
    OutputForName(table, nm);
    SummarizeSingleton(nm, v);
  }

  /** A name whose rows all have the value `c` keeps all of them. */
  lemma {:induction false} ConstantName(table: seq<Row>, nm: string, c: real)
    requires |Group(table, nm)| > 0
    requires forall i :: 0 <= i < |Group(table, nm)| ==> Group(table, nm)[i] == c
    ensures Lookup(DuplicateAnalysis(table), nm) == Some(Summary(nm, c, |Group(table, nm)|))
  {
    var g := Group(table, nm);
    OutputForName(table, nm);
    ConstantStatistics(g, c);
    if |g| >= 2 {
      ConstantVariance(g, c);
    }
    assert forall i :: 0 <= i < |g| ==> Kept(g[i], g);
    assert KeptAreas(g) == g;
  }

  /** A name's output row: present iff the name is in the input; its `n`
      counts the kept rows, at least one and at most the name's rows; its
      `Area` is the mean of the kept values, so it lies between their
      minimum and maximum, and between those of all the name's values. */
  lemma {:induction false} OutputBounds(table: seq<Row>, nm: string)
    ensures Lookup(DuplicateAnalysis(table), nm).Some? <==> nm in NamesOf(table)
    ensures Lookup(DuplicateAnalysis(table), nm).Some? ==>
      var s, g := Lookup(DuplicateAnalysis(table), nm).value, Group(table, nm);
      var k := KeptAreas(g);
      && |k| > 0
      && s.name == nm
      && s.n == |k| && 1 <= s.n <= |g|
      && s.area == Mean(k)
      && Min(k) <= s.area <= Max(k)
      && Min(g) <= s.area <= Max(g)
      && forall x :: x in k ==> x in g
  {
    OutputForName(table, nm);
    if nm in NamesOf(table) {
      var g := Group(table, nm);
      AtLeastOneKept(g);
      MeanBounds(KeptAreas(g));
    }
  }

  /** No name is invented and none is lost: the output has one row per
      distinct input name, in ascending order, each with `n` >= 1. */
  lemma {:induction false} NamesPreserved(table: seq<Row>)
    ensures var out := DuplicateAnalysis(table);
      && Ascending(Keys(out))
      && Elements(Keys(out)) == NamesOf(table)
      && |out| == |NamesOf(table)|
      && forall i :: 0 <= i < |out| ==> out[i].name in NamesOf(table) && out[i].n >= 1
  {
    var out := DuplicateAnalysis(table);
    AnalysisCharacterization(table);
    AscendingCardinality(Keys(out));
  }

  // ---------------------------------------------------------------------
  // Locality and order independence.
  // ---------------------------------------------------------------------

  /** A summary depends only on the multiset of its group's values. */
  lemma {:induction false} SummarizePermutation(nm: string, g1: seq<real>, g2: seq<real>)
    requires |g1| > 0 && multiset(g1) == multiset(g2)
    ensures |g2| > 0 && Summarize(nm, g1) == Summarize(nm, g2)
  {
    assert |g1| == |multiset(g1)| == |multiset(g2)| == |g2|;
    KeptAreasPermutation(g1, g2);
    var k1, k2 := KeptAreas(g1), KeptAreas(g2);
    assert |k1| == |multiset(k1)| == |multiset(k2)| == |k2|;
    AtLeastOneKept(g1);
    MeanVarPermutation(k1, k2);
  }

  /** One name's output row depends only on that name's rows, as a multiset:
      rows of other names and the order of the rows do not matter. */
  lemma {:induction false} SameGroupSameRow(t1: seq<Row>, t2: seq<Row>, nm: string)
    requires multiset(Group(t1, nm)) == multiset(Group(t2, nm))
    ensures Lookup(DuplicateAnalysis(t1), nm) == Lookup(DuplicateAnalysis(t2), nm)
  {
    OutputForName(t1, nm);
    OutputForName(t2, nm);
    assert |Group(t1, nm)| == |multiset(Group(t1, nm))| == |multiset(Group(t2, nm))| == |Group(t2, nm)|;
    if nm in NamesOf(t1) {
      SummarizePermutation(nm, Group(t1, nm), Group(t2, nm));
    }
  }

  lemma {:induction false} GroupWithoutName(rows: seq<Row>, nm: string)
    requires forall r :: r in rows ==> r.name != nm
    ensures Group(rows, nm) == []
  {
    if rows != [] {
      assert rows[0] in rows;
      GroupWithoutName(rows[1..], nm);
    }
  }

  /** Adding rows of other names, before or after, leaves a name's row alone. */
  lemma {:induction false} OtherNamesIrrelevant(table: seq<Row>, other: seq<Row>, nm: string)
    requires forall r :: r in other ==> r.name != nm
    ensures Lookup(DuplicateAnalysis(table + other), nm) == Lookup(DuplicateAnalysis(table), nm)
    ensures Lookup(DuplicateAnalysis(other + table), nm) == Lookup(DuplicateAnalysis(table), nm)
  {
    GroupWithoutName(other, nm);
    GroupConcat(table, other, nm);
    GroupConcat(other, table, nm);
    assert Group(table + other, nm) == Group(table, nm);
    assert Group(other + table, nm) == Group(table, nm);
    SameGroupSameRow(table + other, table, nm);
    SameGroupSameRow(other + table, table, nm);
  }

  lemma {:induction false} PermutedNames(t1: seq<Row>, t2: seq<Row>)
    requires multiset(t1) == multiset(t2)
    ensures NamesOf(t1) == NamesOf(t2)
  {
    forall nm ensures nm in NamesOf(t1) <==> nm in NamesOf(t2) {
      GroupPermutation(t1, t2, nm);
      assert |Group(t1, nm)| == |multiset(Group(t1, nm))| == |multiset(Group(t2, nm))| == |Group(t2, nm)|;
    }
  }

  /** Two tables that are permutations of each other have one analysis. */
  lemma {:induction false} AnalysisOfPermutation(t1: seq<Row>, t2: seq<Row>, o1: seq<Summary>, o2: seq<Summary>)
    requires multiset(t1) == multiset(t2)
    requires IsAnalysisOf(t1, o1) && IsAnalysisOf(t2, o2)
    ensures o1 == o2
  {
    PermutedNames(t1, t2);
    AscendingUnique(Keys(o1), Keys(o2));
    forall i | 0 <= i < |o1| ensures o1[i] == o2[i] {
      var nm := o1[i].name;
      assert nm == Keys(o1)[i] == Keys(o2)[i] == o2[i].name;
      GroupPermutation(t1, t2, nm);
      SummarizePermutation(nm, Group(t1, nm), Group(t2, nm));
    }
  }

  /** Reordering the rows of a table does not change the result at all. */
  lemma {:induction false} PermutationInvariant(t1: seq<Row>, t2: seq<Row>)
    requires multiset(t1) == multiset(t2)
    ensures DuplicateAnalysis(t1) == DuplicateAnalysis(t2)
  {
    AnalysisCharacterization(t1);
    AnalysisCharacterization(t2);
    AnalysisOfPermutation(t1, t2, DuplicateAnalysis(t1), DuplicateAnalysis(t2));
  }

  // ---------------------------------------------------------------------
  // Feeding a summary back in.
  // ---------------------------------------------------------------------

  /** A summary table read back as a sheet: one row per name with its mean. */
  function Resubmit(out: seq<Summary>): (rows: seq<Row>)
    ensures |rows| == |out|
    ensures forall i :: 0 <= i < |out| ==> rows[i] == Row(out[i].name, out[i].area)
  {
    seq(|out|, i requires 0 <= i < |out| => Row(out[i].name, out[i].area))
  }

  lemma {:induction false} ResubmitGroup(out: seq<Summary>, nm: string)
    requires Ascending(Keys(out))
    ensures Group(Resubmit(out), nm) ==
      match Lookup(out, nm) case Some(s) => [s.area] case None => []
  {
    if out != [] {
      var rows := Resubmit(out);
      assert rows[1..] == Resubmit(out[1..]);
      assert Keys(out[1..]) == Keys(out)[1..];
      AscendingTail(Keys(out));
      ResubmitGroup(out[1..], nm);
    }
  }

  lemma ResubmitNames(out: seq<Summary>)
    requires Ascending(Keys(out))
    ensures NamesOf(Resubmit(out)) == Elements(Keys(out))
  {
    forall nm ensures nm in NamesOf(Resubmit(out)) <==> nm in Elements(Keys(out)) {
      ResubmitGroup(out, nm);
      if nm in Elements(Keys(out)) {
        var i :| 0 <= i < |Keys(out)| && Keys(out)[i] == nm;
        LookupAscending(out, i);
      }
    }
  }

  /** The analysis of a resubmitted summary keeps each name and mean. */
  lemma {:induction false} AnalysisOfResubmit(out: seq<Summary>, again: seq<Summary>)
    requires Ascending(Keys(out)) && IsAnalysisOf(Resubmit(out), again)
    ensures |again| == |out|
    ensures forall i :: 0 <= i < |out| ==> again[i] == Summary(out[i].name, out[i].area, 1)
  {
    ResubmitNames(out);
    AscendingUnique(Keys(again), Keys(out));
    forall i | 0 <= i < |out| ensures again[i] == Summary(out[i].name, out[i].area, 1) {
      var nm := out[i].name;
      assert Keys(again)[i] == nm;
      LookupAscending(out, i);
      ResubmitGroup(out, nm);
      SummarizeSingleton(nm, out[i].area);
    }
  }

  /** Running the analysis again on its own output keeps every name and
      every mean; each count becomes 1, since every name now has one row. */
  lemma {:induction false} ReanalysisKeepsAreas(table: seq<Row>)
    ensures var out := DuplicateAnalysis(table);
      var again := DuplicateAnalysis(Resubmit(out));
      |again| == |out| &&
      forall i :: 0 <= i < |out| ==> again[i] == Summary(out[i].name, out[i].area, 1)
  {
    var out := DuplicateAnalysis(table);
    AnalysisCharacterization(table);
    AnalysisCharacterization(Resubmit(out));
    AnalysisOfResubmit(out, DuplicateAnalysis(Resubmit(out)));
  }

  // ---------------------------------------------------------------------
  // A worked example.
  // ---------------------------------------------------------------------

  /** Values 10, 10, 10, 100 have mean 32.5 and variance 2025, standard
      deviation 45. */
  lemma {:induction false} OutlierExampleStatistics()
    ensures Mean([10.0, 10.0, 10.0, 100.0]) == 32.5
    ensures SampleVar([10.0, 10.0, 10.0, 100.0]) == 2025.0
  {
    var g := [10.0, 10.0, 10.0, 100.0];
    assert Sum(g) == 130.0;
    assert SqDev(g, 32.5) == 6075.0;
  }

  lemma {:induction false} OutlierExampleScores()
    ensures ZSquared(10.0, [10.0, 10.0, 10.0, 100.0]) == 0.25
    ensures ZSquared(100.0, [10.0, 10.0, 10.0, 100.0]) == 2.25
  {
    OutlierExampleStatistics();
  }

  lemma {:induction false} OutlierExampleFilter(g: seq<real>)
    requires Kept(10.0, g) && !Kept(100.0, g)
    ensures KeptAmong([10.0, 10.0, 10.0, 100.0], g) == [10.0, 10.0, 10.0]
  {
    assert KeptAmong([100.0], g) == [];
    assert KeptAmong([10.0, 100.0], g) == [10.0];
    assert KeptAmong([10.0, 10.0, 100.0], g) == [10.0, 10.0];
  }

  lemma {:induction false} SummaryOfThreeTens(nm: string, g: seq<real>)
    requires |g| > 0 && KeptAreas(g) == [10.0, 10.0, 10.0]
    ensures Summarize(nm, g) == Summary(nm, 10.0, 3)
  {
    ConstantStatistics([10.0, 10.0, 10.0], 10.0);
  }

  /** In that group the 10s have z = -0.5 and stay, 100 has z = 1.5 and
      goes, so the summary is Area 10 over n = 3 rows. */
  lemma {:induction false} OutlierExampleGroup()
    ensures Summarize("a", [10.0, 10.0, 10.0, 100.0]) == Summary("a", 10.0, 3)
  {
    var g := [10.0, 10.0, 10.0, 100.0];
    OutlierExampleScores();
    OutlierExampleFilter(g);
    SummaryOfThreeTens("a", g);
  }

  /** The same group as a whole sheet. */
  lemma {:induction false} OutlierExample()
    ensures Lookup(DuplicateAnalysis([Row("a", 10.0), Row("a", 10.0), Row("a", 10.0), Row("a", 100.0)]), "a")
      == Some(Summary("a", 10.0, 3))
  {
    var table := [Row("a", 10.0), Row("a", 10.0), Row("a", 10.0), Row("a", 100.0)];
    assert Group(table, "a") == [10.0, 10.0, 10.0, 100.0];
    assert "a" in NamesOf(table);
    OutputForName(table, "a");
    OutlierExampleGroup();
  }
}
