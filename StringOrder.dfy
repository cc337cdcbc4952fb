/**
  The order in which pandas sorts a column of Python `str` values and the
  keys of a `groupby`: lexicographic by code point, a proper prefix first.
 */
module StringOrder {

  /** Python's `a < b` on two strings. */
  predicate Less(a: string, b: string)
    decreases |a|
  {
    |b| > 0 && (|a| == 0 || a[0] < b[0] || (a[0] == b[0] && Less(a[1..], b[1..])))
  }

  /** Python's `a <= b` on two strings. */
  predicate LessEq(a: string, b: string) {
    a == b || Less(a, b)
  }

  lemma {:induction false} LessIrreflexive(a: string)
    ensures !Less(a, a)
  {
    if |a| > 0 {
      LessIrreflexive(a[1..]);
    }
  }

  lemma {:induction false} LessTransitive(a: string, b: string, c: string)
    requires Less(a, b) && Less(b, c)
    ensures Less(a, c)
  {
    if |a| > 0 && a[0] == b[0] && b[0] == c[0] {
      LessTransitive(a[1..], b[1..], c[1..]);
    }
  }

  lemma {:induction false} LessTotal(a: string, b: string)
    requires a != b
    ensures Less(a, b) || Less(b, a)
  {
    if |a| > 0 && |b| > 0 && a[0] == b[0] {
      assert a == [a[0]] + a[1..] && b == [b[0]] + b[1..];
      LessTotal(a[1..], b[1..]);
    }
  }

  lemma LessAsymmetric(a: string, b: string)
    requires Less(a, b)
    ensures !Less(b, a) && a != b
  {
    LessIrreflexive(a);
    if Less(b, a) {
      LessTransitive(a, b, a);
    }
  }

  /** Outside `Less`, `LessEq` is the complementary relation. */
  lemma NotLessIsLessEq(a: string, b: string)
    ensures !Less(a, b) <==> LessEq(b, a)
  {
    if a != b && !Less(a, b) {
      LessTotal(a, b);
    }
    if Less(b, a) {
      LessAsymmetric(b, a);
    }
  }

  lemma LessEqTransitive(a: string, b: string, c: string)
    requires LessEq(a, b) && LessEq(b, c)
    ensures LessEq(a, c)
  {
    if Less(a, b) && Less(b, c) {
      LessTransitive(a, b, c);
    }
  }

  /** The first-difference form of `Less` for `a`, `b` carries over to
      the two strings with one more equal character in front. */
  lemma FirstDifferenceCons(a: string, b: string)
    requires |a| > 0 && |b| > 0 && a[0] == b[0]
    ensures ((|a| < |b| && a == b[..|a|]) ||
             (exists k :: 0 <= k < |a| && k < |b| && a[..k] == b[..k] && a[k] < b[k]))
      <==>
            ((|a[1..]| < |b[1..]| && a[1..] == b[1..][..|a[1..]|]) ||
             (exists k :: 0 <= k < |a[1..]| && k < |b[1..]| && a[1..][..k] == b[1..][..k] && a[1..][k] < b[1..][k]))
  {
    if exists k :: 0 <= k < |a| - 1 && k < |b| - 1 && a[1..][..k] == b[1..][..k] && a[1..][k] < b[1..][k] {
      var k :| 0 <= k < |a| - 1 && k < |b| - 1 && a[1..][..k] == b[1..][..k] && a[1..][k] < b[1..][k];
      assert a[..k + 1] == [a[0]] + a[1..][..k];
      assert b[..k + 1] == [b[0]] + b[1..][..k];
    }
    if exists k :: 0 <= k < |a| && k < |b| && a[..k] == b[..k] && a[k] < b[k] {
      var k :| 0 <= k < |a| && k < |b| && a[..k] == b[..k] && a[k] < b[k];
      assert k > 0;
      assert a[1..][..k - 1] == a[..k][1..];
      assert b[1..][..k - 1] == b[..k][1..];
    }
    if |a| < |b| && a == b[..|a|] {
      assert a[1..] == b[1..][..|a| - 1];
    }
    if |a| - 1 < |b| - 1 && a[1..] == b[1..][..|a| - 1] {
      assert a == [a[0]] + a[1..];
      assert b[..|a|] == [b[0]] + b[1..][..|a| - 1];
    }
  }

  /** The recursive definition agrees with the textbook one: a proper prefix,
      or a smaller character at the first position where the two differ. */
  lemma {:induction false} LessIffFirstDifference(a: string, b: string)
    ensures Less(a, b) <==>
      ((|a| < |b| && a == b[..|a|]) ||
       (exists k :: 0 <= k < |a| && k < |b| && a[..k] == b[..k] && a[k] < b[k]))
  {
    if |a| > 0 && |b| > 0 {
      if a[0] == b[0] {
        LessIffFirstDifference(a[1..], b[1..]);
        FirstDifferenceCons(a, b);
      } else if a[0] < b[0] {
        assert a[..0] == b[..0];
      }
    } else if |a| == 0 && |b| > 0 {
      assert a == b[..0];
    }
  }

  /** The members of a sequence of names. */
  function Elements(ks: seq<string>): set<string> {
    set k | k in ks
  }

  /** Strictly ascending, hence free of duplicates, as `groupby` keys are. */
  predicate Ascending(ks: seq<string>) {
    forall i, j :: 0 <= i < j < |ks| ==> Less(ks[i], ks[j])
  }

  lemma AscendingTail(ks: seq<string>)
    requires |ks| > 0 && Ascending(ks)
    ensures Ascending(ks[1..])
    ensures ks[0] !in ks[1..]
    ensures Elements(ks[1..]) == Elements(ks) - {ks[0]}
  {
    if ks[0] in ks[1..] {
      var j :| 0 <= j < |ks[1..]| && ks[1..][j] == ks[0];
      assert Less(ks[0], ks[j + 1]);
      LessIrreflexive(ks[0]);
    }
    assert ks == [ks[0]] + ks[1..];
  }

  /** An ascending sequence has as many names as it has positions. */
  lemma {:induction false} AscendingCardinality(ks: seq<string>)
    requires Ascending(ks)
    ensures |Elements(ks)| == |ks|
  {
    if ks != [] {
      AscendingTail(ks);
      AscendingCardinality(ks[1..]);
    }
  }

  /** Two ascending sequences with the same names are the same sequence. */
  lemma {:induction false} AscendingUnique(a: seq<string>, b: seq<string>)
    requires Ascending(a) && Ascending(b) && Elements(a) == Elements(b)
    ensures a == b
  {
    AscendingCardinality(a);
    AscendingCardinality(b);
    if a != [] {
      assert a[0] in Elements(b) && b[0] in Elements(a);
      var i :| 0 <= i < |a| && a[i] == b[0];
      var j :| 0 <= j < |b| && b[j] == a[0];
      if i > 0 && j > 0 {
        assert Less(a[0], b[0]) && Less(b[0], a[0]);
        LessTransitive(a[0], b[0], a[0]);
        LessIrreflexive(a[0]);
      }
      if i > 0 && j == 0 {
        assert Less(a[0], a[i]);
        LessIrreflexive(a[0]);
      }
      if i == 0 && j > 0 {
        assert Less(b[0], b[j]);
        LessIrreflexive(b[0]);
      }
      AscendingTail(a);
      AscendingTail(b);
      AscendingUnique(a[1..], b[1..]);
      assert a == [a[0]] + a[1..] && b == [b[0]] + b[1..];
    }
  }
}
