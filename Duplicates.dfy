/**
  `duplicate_analysis` of spec.py: one sheet of replicate measurements goes
  in as rows of (`Metabolite Name`, `Area`); rows are sorted by name, each
  row gets the z-score of its `Area` within its name's group, rows whose
  |z| is not below 1.25 are dropped, and the remaining rows are reduced to
  one summary row per name holding their mean `Area` and their count `n`.

  `Area` is an exact real. There is no square root here, so the z-score is
  carried as its square: |z| < 1.25 is the same as z^2 < 25/16.
 */
module Duplicates {
  import opened StringOrder
  import opened Statistics

  /** One row of a sheet. */
  datatype Row = Row(name: string, area: real)

  /** One row of the returned frame: the name, the mean `Area` of its kept
      rows and their number `n`. */
  datatype Summary = Summary(name: string, area: real, n: nat)

  datatype Option<T> = None | Some(value: T)

  /** The distinct names of a table. */
  function NamesOf(rows: seq<Row>): set<string> {
    if rows == [] then {} else {rows[0].name} + NamesOf(rows[1..])
  }

  /** The `Area` values of the rows named `nm`, in table order: one group of
      `groupby("Metabolite Name")["Area"]`. */
  function Group(rows: seq<Row>, nm: string): (g: seq<real>)
    ensures |g| <= |rows|
    ensures |g| > 0 <==> nm in NamesOf(rows)
  {
    if rows == [] then []
    else
      (if rows[0].name == nm then [rows[0].area] else []) + Group(rows[1..], nm)
  }

  lemma {:induction false} GroupConcat(a: seq<Row>, b: seq<Row>, nm: string)
    ensures Group(a + b, nm) == Group(a, nm) + Group(b, nm)
  {
    if a == [] {
      assert a + b == b;
    } else {
      var head := if a[0].name == nm then [a[0].area] else [];
      assert (a + b)[0] == a[0] && (a + b)[1..] == a[1..] + b;
      GroupConcat(a[1..], b, nm);
      calc {
        Group(a + b, nm);
        head + Group(a[1..] + b, nm);
        head + (Group(a[1..], nm) + Group(b, nm));
        (head + Group(a[1..], nm)) + Group(b, nm);
        Group(a, nm) + Group(b, nm);
      }
    }
  }

  /** A permutation of the rows permutes each group. */
  lemma {:induction false} GroupPermutation(a: seq<Row>, b: seq<Row>, nm: string)
    requires multiset(a) == multiset(b)
    ensures multiset(Group(a, nm)) == multiset(Group(b, nm))
    decreases |a|
  {
    if a == [] {
      assert |multiset(b)| == 0;
    } else {
      assert a[0] in multiset(b);
      var k :| 0 <= k < |b| && b[k] == a[0];
      var rest := b[..k] + b[k + 1..];
      assert b == b[..k] + [b[k]] + b[k + 1..];
      assert a == [a[0]] + a[1..];
      calc {
        multiset(a[1..]);
        multiset(a) - multiset{a[0]};
        multiset(b) - multiset{b[k]};
        multiset(rest);
      }
      GroupPermutation(a[1..], rest, nm);
      GroupConcat(b[..k] + [b[k]], b[k + 1..], nm);
      GroupConcat(b[..k], [b[k]], nm);
      GroupConcat(b[..k], b[k + 1..], nm);
      GroupConcat([a[0]], a[1..], nm);
    }
  }

  // ---------------------------------------------------------------------
  // Line 51: `sort_values("Metabolite Name")`.
  // ---------------------------------------------------------------------

  predicate SortedByName(rows: seq<Row>) {
    forall i, j :: 0 <= i < j < |rows| ==> LessEq(rows[i].name, rows[j].name)
  }

  lemma SortedCons(r: Row, s: seq<Row>)
    requires SortedByName(s)
    requires forall x | x in s :: LessEq(r.name, x.name)
    ensures SortedByName([r] + s)
  {
    forall i, j | 0 <= i < j < |[r] + s|
      ensures LessEq(([r] + s)[i].name, ([r] + s)[j].name)
    {
      if i == 0 {
        assert ([r] + s)[j] in s;
      }
    }
  }

  lemma {:induction false} InsertRowFront(r: Row, s: seq<Row>)
    requires SortedByName(s)
    requires s == [] || LessEq(r.name, s[0].name)
    ensures SortedByName([r] + s)
    ensures forall nm :: Group([r] + s, nm) == Group([r], nm) + Group(s, nm)
  {
    forall x | x in s ensures LessEq(r.name, x.name) {
      var j :| 0 <= j < |s| && s[j] == x;
      if j > 0 {
        LessEqTransitive(r.name, s[0].name, x.name);
      }
    }
    SortedCons(r, s);
    forall nm ensures Group([r] + s, nm) == Group([r], nm) + Group(s, nm) {
      GroupConcat([r], s, nm);
    }
  }

  lemma {:induction false} InsertRowStepSorted(r: Row, s: seq<Row>, rest: seq<Row>)
    requires SortedByName(s) && |s| > 0 && Less(s[0].name, r.name)
    requires SortedByName(rest) && multiset(rest) == multiset(s[1..]) + multiset{r}
    ensures SortedByName([s[0]] + rest)
  {
    forall x | x in rest ensures LessEq(s[0].name, x.name) {
      assert x in multiset(rest);
      if x != r {
        assert x in s[1..];
      }
    }
    SortedCons(s[0], rest);
  }

  lemma {:induction false} InsertRowStepGroups(r: Row, s: seq<Row>, rest: seq<Row>)
    requires |s| > 0 && s[0].name != r.name
    requires forall nm :: Group(rest, nm) == Group([r], nm) + Group(s[1..], nm)
    ensures forall nm :: Group([s[0]] + rest, nm) == Group([r], nm) + Group(s, nm)
  {
    assert s == [s[0]] + s[1..];
    forall nm ensures Group([s[0]] + rest, nm) == Group([r], nm) + Group(s, nm) {
      GroupConcat([s[0]], rest, nm);
      GroupConcat([s[0]], s[1..], nm);
      if nm == r.name {
        assert Group([s[0]], nm) == [];
      } else {
        assert Group([r], nm) == [];
      }
    }
  }

  lemma {:induction false} InsertRowStep(r: Row, s: seq<Row>, rest: seq<Row>)
    requires SortedByName(s) && |s| > 0 && Less(s[0].name, r.name)
    requires SortedByName(rest) && multiset(rest) == multiset(s[1..]) + multiset{r}
    requires forall nm :: Group(rest, nm) == Group([r], nm) + Group(s[1..], nm)
    ensures SortedByName([s[0]] + rest)
    ensures multiset([s[0]] + rest) == multiset(s) + multiset{r}
    ensures forall nm :: Group([s[0]] + rest, nm) == Group([r], nm) + Group(s, nm)
  {
    InsertRowStepSorted(r, s, rest);
    assert s == [s[0]] + s[1..];
    LessAsymmetric(s[0].name, r.name);
    InsertRowStepGroups(r, s, rest);
  }

  /** Inserts `r` in front of the first row whose name is not below it. */
  function InsertRow(r: Row, s: seq<Row>): (t: seq<Row>)
    requires SortedByName(s)
    ensures SortedByName(t)
    ensures multiset(t) == multiset(s) + multiset{r}
    ensures forall nm :: Group(t, nm) == Group([r], nm) + Group(s, nm)
  {
    if s == [] || LessEq(r.name, s[0].name) then
      InsertRowFront(r, s);
      [r] + s
    else
      NotLessIsLessEq(r.name, s[0].name);
      InsertRowStep(r, s, InsertRow(r, s[1..]));
      [s[0]] + InsertRow(r, s[1..])
  }

  /** A stable sort by name: each name's rows keep their table order. */
  function SortByName(rows: seq<Row>): (s: seq<Row>)
    ensures SortedByName(s)
    ensures multiset(s) == multiset(rows)
    ensures forall nm :: Group(s, nm) == Group(rows, nm)
  {
    if rows == [] then []
    else
      assert rows == [rows[0]] + rows[1..];
      assert forall nm :: Group(rows, nm) == Group([rows[0]], nm) + Group(rows[1..], nm) by {
        forall nm ensures Group(rows, nm) == Group([rows[0]], nm) + Group(rows[1..], nm) {
          GroupConcat([rows[0]], rows[1..], nm);
        }
      }
      InsertRow(rows[0], SortByName(rows[1..]))
  }

  // ---------------------------------------------------------------------
  // Lines 53-59: per-name z-score, `fillna(0)`, `abs(z_score) < 1.25`.
  // ---------------------------------------------------------------------

  /** The square of the z-score of `x` in its group `g`:
      ((x - mean) / std)^2 = (x - mean)^2 / var with the N - 1 variance.
      A one-row group has a NaN std and a constant group gives 0/0; either
      way the z-score is NaN, which `fillna(0)` turns into 0. */
  function ZSquared(x: real, g: seq<real>): (z2: real)
    ensures z2 >= 0.0
  {
    if |g| < 2 || SampleVar(g) == 0.0 then 0.0
    else
      var v := SampleVar(g);
      var z2 := Square(x - Mean(g)) / v;
      assert z2 * v == Square(x - Mean(g));
      assert z2 >= 0.0 by {
        if z2 < 0.0 {
          ProductSign(-z2, v);
        }
      }
      z2
  }

  /** The row filter: |z| < 1.25, i.e. z^2 < 25/16. */
  predicate Kept(x: real, g: seq<real>) {
    ZSquared(x, g) < 25.0 / 16.0
  }

  /** `a` is `b` with some elements removed: the values of `a` occur in `b`
      in the same order. */
  predicate IsSubsequence(a: seq<real>, b: seq<real>)
    decreases |b|
  {
    a == [] || (b != [] && ((a[0] == b[0] && IsSubsequence(a[1..], b[1..])) || IsSubsequence(a, b[1..])))
  }

  /** The values of `xs` that pass the filter against the group `g`, in
      order; `KeptAmongMultiplicity` and `KeptAmongSubsequence` give their
      count and order. */
  function KeptAmong(xs: seq<real>, g: seq<real>): (k: seq<real>)
    ensures |k| <= |xs|
    ensures forall x :: x in k <==> x in xs && Kept(x, g)
    ensures (forall i :: 0 <= i < |xs| ==> Kept(xs[i], g)) ==> k == xs
  {
    if xs == [] then []
    else
      assert forall x :: x in xs <==> x == xs[0] || x in xs[1..] by {
        assert xs == [xs[0]] + xs[1..];
      }
      (if Kept(xs[0], g) then [xs[0]] else []) + KeptAmong(xs[1..], g)
  }

  /** Each passing value is kept as often as it occurs; no other value is. */
  lemma {:induction false} KeptAmongMultiplicity(xs: seq<real>, g: seq<real>)
    ensures forall x :: multiset(KeptAmong(xs, g))[x] == if Kept(x, g) then multiset(xs)[x] else 0
  {
    if xs != [] {
      KeptAmongMultiplicity(xs[1..], g);
      assert xs == [xs[0]] + xs[1..];
      var head := if Kept(xs[0], g) then [xs[0]] else [];
      assert KeptAmong(xs, g) == head + KeptAmong(xs[1..], g);
    }
  }

  /** The kept values appear in the order they have in `xs`. */
  lemma {:induction false} KeptAmongSubsequence(xs: seq<real>, g: seq<real>)
    ensures IsSubsequence(KeptAmong(xs, g), xs)
  {
    if xs != [] {
      KeptAmongSubsequence(xs[1..], g);
      var rest := KeptAmong(xs[1..], g);
      if Kept(xs[0], g) {
        assert KeptAmong(xs, g) == [xs[0]] + rest;
        assert ([xs[0]] + rest)[1..] == rest;
      } else {
        assert KeptAmong(xs, g) == rest;
      }
    }
  }

  /** The kept values of one group. */
  function KeptAreas(g: seq<real>): seq<real> {
    KeptAmong(g, g)
  }

  lemma {:induction false} KeptAmongConcat(a: seq<real>, b: seq<real>, g: seq<real>)
    ensures KeptAmong(a + b, g) == KeptAmong(a, g) + KeptAmong(b, g)
  {
    if a == [] {
      assert a + b == b;
    } else {
      assert (a + b)[1..] == a[1..] + b;
      KeptAmongConcat(a[1..], b, g);
    }
  }

  /** With a defined variance, the filter keeps exactly the values whose
      squared deviation is below 25/16 of the variance. */
  lemma KeptDeviation(x: real, g: seq<real>)
    requires |g| >= 2 && SampleVar(g) != 0.0
    ensures Kept(x, g) <==> Square(x - Mean(g)) < 25.0 / 16.0 * SampleVar(g)
  {
    var v, z2 := SampleVar(g), ZSquared(x, g);
    assert z2 * v == Square(x - Mean(g));
    assert Square(x - Mean(g)) - 25.0 / 16.0 * v == (z2 - 25.0 / 16.0) * v;
    if z2 < 25.0 / 16.0 {
      ProductSign(25.0 / 16.0 - z2, v);
    } else {
      ProductSign(z2 - 25.0 / 16.0, v);
    }
  }

  /** With k >= 2 values and a positive variance v, the squared deviations,
      which sum to (k - 1) v, cannot all be at least 25/16 v. */
  lemma DeviationBudget(v: real, k: real, total: real)
    requires v > 0.0 && k >= 2.0 && total == v * (k - 1.0)
    ensures total < k * (25.0 / 16.0 * v)
  {
    assert k * (25.0 / 16.0 * v) - total == v * (1.0 + 9.0 / 16.0 * k);
    ProductSign(v, 1.0 + 9.0 / 16.0 * k);
  }

  /** If the squared deviations of values from `m` sum to (k - 1) v with
      v > 0, then some squared deviation is below 25/16 v. */
  lemma {:induction false} SomeDeviationBelow(xs: seq<real>, m: real, v: real)
    requires |xs| >= 2 && v > 0.0 && v * (|xs| - 1) as real == SqDev(xs, m)
    ensures exists i :: 0 <= i < |xs| && Square(xs[i] - m) < 25.0 / 16.0 * v
  {
    var c, n, total := 25.0 / 16.0 * v, |xs| as real, SqDev(xs, m);
    DeviationBudget(v, n, total);
    if forall i :: 0 <= i < |xs| ==> c <= Square(xs[i] - m) {
      SqDevLowerBound(xs, m, c);
    }
  }

  /** Some value of a group with a positive variance lies within 5/4
      standard deviations of the mean. */
  lemma SomeDeviationSmall(g: seq<real>)
    requires |g| >= 2 && SampleVar(g) != 0.0
    ensures exists i :: 0 <= i < |g| && Square(g[i] - Mean(g)) < 25.0 / 16.0 * SampleVar(g)
  {
    SomeDeviationBelow(g, Mean(g), SampleVar(g));
  }

  /** In a group with a defined, non-zero z-score some value passes. */
  lemma {:induction false} SomeValueKept(g: seq<real>)
    requires |g| >= 2 && SampleVar(g) != 0.0
    ensures exists i :: 0 <= i < |g| && Kept(g[i], g)
  {
    SomeDeviationSmall(g);
    var i :| 0 <= i < |g| && Square(g[i] - Mean(g)) < 25.0 / 16.0 * SampleVar(g);
    KeptDeviation(g[i], g);
  }

  /** Every non-empty group keeps at least one row. The squared z-scores of
      a group of k values sum to k - 1, so they cannot all reach 25/16. */
  lemma {:induction false} AtLeastOneKept(g: seq<real>)
    requires |g| > 0
    ensures |KeptAreas(g)| > 0
  {
    var i := 0;
    if |g| >= 2 && SampleVar(g) != 0.0 {
      SomeValueKept(g);
      i :| 0 <= i < |g| && Kept(g[i], g);
    }
    assert Kept(g[i], g);
    assert g[i] in KeptAreas(g);
  }

  /** The filter reads a group only through its size, mean and variance,
      so permuting the group does not change which values pass. */
  lemma KeptPermutation(x: real, g1: seq<real>, g2: seq<real>)
    requires multiset(g1) == multiset(g2)
    ensures Kept(x, g1) == Kept(x, g2)
  {
    assert |g1| == |multiset(g1)| == |multiset(g2)| == |g2|;
    if |g1| > 0 {
      MeanVarPermutation(g1, g2);
    }
  }

  lemma {:induction false} KeptAmongGroupPermutation(xs: seq<real>, g1: seq<real>, g2: seq<real>)
    requires multiset(g1) == multiset(g2)
    ensures KeptAmong(xs, g1) == KeptAmong(xs, g2)
  {
    if xs != [] {
      KeptPermutation(xs[0], g1, g2);
      KeptAmongGroupPermutation(xs[1..], g1, g2);
    }
  }

  lemma {:induction false} KeptAmongRemove(b: seq<real>, k: nat, g: seq<real>)
    requires k < |b|
    ensures multiset(KeptAmong(b, g)) ==
      multiset(KeptAmong([b[k]], g)) + multiset(KeptAmong(b[..k] + b[k + 1..], g))
  {
    assert b == b[..k] + [b[k]] + b[k + 1..];
    KeptAmongConcat(b[..k] + [b[k]], b[k + 1..], g);
    KeptAmongConcat(b[..k], [b[k]], g);
    KeptAmongConcat(b[..k], b[k + 1..], g);
  }

  lemma {:induction false} KeptAmongPermutation(a: seq<real>, b: seq<real>, g: seq<real>)
    requires multiset(a) == multiset(b)
    ensures multiset(KeptAmong(a, g)) == multiset(KeptAmong(b, g))
    decreases |a|
  {
    if a == [] {
      assert |multiset(b)| == 0;
    } else {
      assert a[0] in multiset(b);
      var k :| 0 <= k < |b| && b[k] == a[0];
      RemoveMatching(a, b, k);
      KeptAmongPermutation(a[1..], b[..k] + b[k + 1..], g);
      KeptAmongRemove(b, k, g);
      KeptAmongConcat([a[0]], a[1..], g);
      assert a == [a[0]] + a[1..];
    }
  }

  /** The kept values of a group depend only on its multiset of values. */
  lemma KeptAreasPermutation(g1: seq<real>, g2: seq<real>)
    requires multiset(g1) == multiset(g2)
    ensures multiset(KeptAreas(g1)) == multiset(KeptAreas(g2))
  {
    KeptAmongPermutation(g1, g2, g1);
    KeptAmongGroupPermutation(g2, g1, g2);
  }

  /** The summary row of one name whose rows carry the values `g`: the mean
      and the count of the values that pass the filter. This is the meaning
      of lines 53-63 for a single group, stated without the table. */
  function Summarize(nm: string, g: seq<real>): (s: Summary)
    requires |g| > 0
    ensures s.name == nm && 1 <= s.n <= |g|
    ensures Min(g) <= s.area <= Max(g)
  {
    AtLeastOneKept(g);
    var k := KeptAreas(g);
    MeanBounds(k);
    assert Min(g) <= Min(k) by {
      assert Min(k) in g;
    }
    assert Max(k) <= Max(g) by {
      assert Max(k) in g;
    }
    Summary(nm, Mean(k), |k|)
  }

  lemma {:induction false} KeepRowsStep(rs: seq<Row>, table: seq<Row>, keep: bool, rest: seq<Row>)
    requires |rs| > 0 && keep == Kept(rs[0].area, Group(table, rs[0].name))
    requires forall nm :: Group(rest, nm) == KeptAmong(Group(rs[1..], nm), Group(table, nm))
    ensures forall nm :: Group((if keep then [rs[0]] else []) + rest, nm) == KeptAmong(Group(rs, nm), Group(table, nm))
  {
    var head := if keep then [rs[0]] else [];
    forall nm ensures Group(head + rest, nm) == KeptAmong(Group(rs, nm), Group(table, nm)) {
      GroupConcat(head, rest, nm);
      var g0 := if rs[0].name == nm then [rs[0].area] else [];
      assert Group(rs, nm) == g0 + Group(rs[1..], nm);
      KeptAmongConcat(g0, Group(rs[1..], nm), Group(table, nm));
      assert Group(head, nm) == KeptAmong(g0, Group(table, nm));
    }
  }

  lemma {:induction false} KeepRowsMembers(rs: seq<Row>, table: seq<Row>, keep: bool, rest: seq<Row>)
    requires |rs| > 0 && keep == Kept(rs[0].area, Group(table, rs[0].name))
    requires forall r :: r in rest <==> r in rs[1..] && Kept(r.area, Group(table, r.name))
    ensures forall r :: r in (if keep then [rs[0]] else []) + rest <==> r in rs && Kept(r.area, Group(table, r.name))
  {
    assert rs == [rs[0]] + rs[1..];
  }

  /** The rows of `rs` that pass the filter, each judged against its name's
      group in `table`: the boolean mask of line 59 after lines 53-57. */
  function KeepRows(rs: seq<Row>, table: seq<Row>): (kept: seq<Row>)
    ensures forall r :: r in kept <==> r in rs && Kept(r.area, Group(table, r.name))
    ensures forall nm :: Group(kept, nm) == KeptAmong(Group(rs, nm), Group(table, nm))
  {
    if rs == [] then []
    else
      var keep := Kept(rs[0].area, Group(table, rs[0].name));
      var rest := KeepRows(rs[1..], table);
      KeepRowsMembers(rs, table, keep, rest);
      KeepRowsStep(rs, table, keep, rest);
      (if keep then [rs[0]] else []) + rest
  }

  // ---------------------------------------------------------------------
  // Lines 61-65: `groupby("Metabolite Name").agg(Area=mean, n=size)`.
  // ---------------------------------------------------------------------

  lemma InsertKeyFront(x: string, ks: seq<string>)
    requires Ascending(ks) && |ks| > 0 && Less(x, ks[0])
    ensures Ascending([x] + ks)
    ensures Elements([x] + ks) == Elements(ks) + {x}
  {
    forall j | 0 <= j < |ks| ensures Less(x, ks[j]) {
      if j > 0 {
        LessTransitive(x, ks[0], ks[j]);
      }
    }
  }

  lemma InsertKeyStep(x: string, ks: seq<string>, rest: seq<string>)
    requires Ascending(ks) && |ks| > 0 && Less(ks[0], x)
    requires Ascending(rest) && Elements(rest) == Elements(ks[1..]) + {x}
    ensures Ascending([ks[0]] + rest)
    ensures Elements([ks[0]] + rest) == Elements(ks) + {x}
  {
    forall j | 0 <= j < |rest| ensures Less(ks[0], rest[j]) {
      assert rest[j] in Elements(rest);
      if rest[j] != x {
        var i :| 0 <= i < |ks[1..]| && ks[1..][i] == rest[j];
        assert Less(ks[0], ks[i + 1]);
      }
    }
    assert ks == [ks[0]] + ks[1..];
    assert Elements([ks[0]] + rest) == {ks[0]} + Elements(rest);
  }

  /** Adds a name to an ascending sequence of names. */
  function InsertKey(x: string, ks: seq<string>): (r: seq<string>)
    requires Ascending(ks)
    ensures Ascending(r)
    ensures Elements(r) == Elements(ks) + {x}
  {
    if ks == [] then [x]
    else if x == ks[0] then ks
    else if Less(x, ks[0]) then
      InsertKeyFront(x, ks);
      [x] + ks
    else
      AscendingTail(ks);
      LessTotal(x, ks[0]);
      InsertKeyStep(x, ks, InsertKey(x, ks[1..]));
      [ks[0]] + InsertKey(x, ks[1..])
  }

  /** The sorted distinct names of a table: the keys of `groupby`. */
  function GroupKeys(rows: seq<Row>): (keys: seq<string>)
    ensures Ascending(keys)
    ensures Elements(keys) == NamesOf(rows)
  {
    if rows == [] then []
    else
      InsertKey(rows[0].name, GroupKeys(rows[1..]))
  }

  /** `duplicate_analysis(per_sheet)`. */
  function DuplicateAnalysis(table: seq<Row>): seq<Summary> {
    var sorted := SortByName(table);
    var kept := KeepRows(sorted, sorted);
    var keys := GroupKeys(kept);
    seq(|keys|, i requires 0 <= i < |keys| =>
      assert keys[i] in Elements(keys);
      var g := Group(kept, keys[i]);
      Summary(keys[i], Mean(g), |g|))
  }

  /** The names of the summary rows, in order. */
  function Keys(out: seq<Summary>): (ks: seq<string>)
    ensures |ks| == |out|
    ensures forall i :: 0 <= i < |out| ==> ks[i] == out[i].name
  {
    seq(|out|, i requires 0 <= i < |out| => out[i].name)
  }

  /** The rows `table` keeps under name `nm` are exactly the kept values of
      that name's group. */
  lemma KeptGroup(table: seq<Row>, nm: string)
    ensures Group(KeepRows(SortByName(table), SortByName(table)), nm) == KeptAreas(Group(table, nm))
  {
  }

  /** What a correct result of `duplicate_analysis` on `table` is: one row
      per name of the input, in ascending name order, and for each name the
      summary of that name's own group. The conjunct `out[i].name in
      NamesOf(table)` follows from the second one; it is stated next to
      `Summarize` so that the group passed to it is visibly non-empty. */
  predicate IsAnalysisOf(table: seq<Row>, out: seq<Summary>) {
    && Ascending(Keys(out))
    && Elements(Keys(out)) == NamesOf(table)
    && forall i :: 0 <= i < |out| ==>
         out[i].name in NamesOf(table) && out[i] == Summarize(out[i].name, Group(table, out[i].name))
  }

  /** `DuplicateAnalysis(table)` satisfies `IsAnalysisOf(table, _)`. */
  lemma {:induction false} AnalysisCharacterization(table: seq<Row>)
    ensures IsAnalysisOf(table, DuplicateAnalysis(table))
  {
    var out := DuplicateAnalysis(table);
    var sorted := SortByName(table);
    var kept := KeepRows(sorted, sorted);
    var keys := GroupKeys(kept);
    assert Keys(out) == keys;
    forall nm ensures nm in NamesOf(kept) <==> nm in NamesOf(table) {
      KeptGroup(table, nm);
      if nm in NamesOf(table) {
        AtLeastOneKept(Group(table, nm));
      }
    }
    assert NamesOf(kept) == NamesOf(table);
    forall i | 0 <= i < |out|
      ensures out[i].name in NamesOf(table) && out[i] == Summarize(out[i].name, Group(table, out[i].name))
    {
      assert keys[i] in Elements(keys);
      KeptGroup(table, keys[i]);
    }
  }

  /** The summary row named `nm`, if there is one (the first, if several). */
  function Lookup(out: seq<Summary>, nm: string): (o: Option<Summary>)
    ensures o.Some? ==> o.value in out && o.value.name == nm
    ensures o.None? ==> forall i :: 0 <= i < |out| ==> out[i].name != nm
  {
    if out == [] then None
    else if out[0].name == nm then Some(out[0])
    else Lookup(out[1..], nm)
  }

  lemma {:induction false} LookupAscending(out: seq<Summary>, i: nat)
    requires i < |out| && Ascending(Keys(out))
    ensures Lookup(out, out[i].name) == Some(out[i])
  {
    if out[0].name != out[i].name {
      assert i > 0;
      assert Keys(out[1..])[..] == Keys(out)[1..];
      LookupAscending(out[1..], i - 1);
    } else if i > 0 {
      assert Less(Keys(out)[0], Keys(out)[i]);
      LessIrreflexive(out[0].name);
    }
  }

  /** The output row for one name is the summary of that name's group, and
      there is none for a name the input does not have. */
  lemma OutputForName(table: seq<Row>, nm: string)
    ensures Lookup(DuplicateAnalysis(table), nm) ==
      if nm in NamesOf(table) then Some(Summarize(nm, Group(table, nm))) else None
  {
    var out := DuplicateAnalysis(table);
    AnalysisCharacterization(table);
    LookupAnalysis(table, out, nm);
  }

  lemma {:induction false} LookupAnalysis(table: seq<Row>, out: seq<Summary>, nm: string)
    requires IsAnalysisOf(table, out)
    ensures Lookup(out, nm) ==
      if nm in NamesOf(table) then Some(Summarize(nm, Group(table, nm))) else None
  {
    if nm in NamesOf(table) {
      assert nm in Elements(Keys(out));
      var i :| 0 <= i < |Keys(out)| && Keys(out)[i] == nm;
      LookupAscending(out, i);
    }
  }
}
