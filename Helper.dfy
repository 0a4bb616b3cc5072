/** Numeric helpers over pandas objects: min-max normalisation of a score
    Series, the Jaccard score of two aligned topic vectors, and the split of
    the user and repository feature tables into aligned language and topic
    parts (code/helper.py). */
module Helper {
  import opened Types
  import opened Text

  // ---------------------------------------------------------------------
  // Score Series
  // ---------------------------------------------------------------------

  /** One labelled entry of a float Series. */
  datatype Scored = Scored(id: string, score: real)

  /** `Series.max()` of a non-empty Series. */
  function Max(s: seq<Scored>): real
    requires |s| > 0
  {
    if |s| == 1 then s[0].score
    else if s[0].score >= Max(s[1..]) then s[0].score else Max(s[1..])
  }

  /** `Series.min()` of a non-empty Series. */
  function Min(s: seq<Scored>): real
    requires |s| > 0
  {
    if |s| == 1 then s[0].score
    else if s[0].score <= Min(s[1..]) then s[0].score else Min(s[1..])
  }

  /** The position of a largest entry. */
  function ArgMax(s: seq<Scored>): (k: nat)
    requires |s| > 0
    ensures k < |s| && s[k].score == Max(s)
  {
    if |s| == 1 || s[0].score >= Max(s[1..]) then 0 else ArgMax(s[1..]) + 1
  }

  /** The position of a smallest entry. */
  function ArgMin(s: seq<Scored>): (k: nat)
    requires |s| > 0
    ensures k < |s| && s[k].score == Min(s)
  {
    if |s| == 1 || s[0].score <= Min(s[1..]) then 0 else ArgMin(s[1..]) + 1
  }

  /** The maximum bounds every score. */
  lemma {:induction false} MaxIsLargest(s: seq<Scored>, i: int)
    requires 0 <= i < |s|
    ensures s[i].score <= Max(s)
  {
    if i > 0 {
      MaxIsLargest(s[1..], i - 1);
    }
  }

  /** The minimum bounds every score from below. */
  lemma {:induction false} MinIsSmallest(s: seq<Scored>, i: int)
    requires 0 <= i < |s|
    ensures Min(s) <= s[i].score
  {
    if i > 0 {
      MinIsSmallest(s[1..], i - 1);
    }
  }

  /** Same labels in the same order. */
  predicate SameIds(s: seq<Scored>, t: seq<Scored>)
  {
    |s| == |t| && forall i :: 0 <= i < |s| ==> s[i].id == t[i].id
  }

  /** Every score of `s` mapped through x |-> (x - lo) / d. */
  function Rescale(s: seq<Scored>, lo: real, d: real): (r: seq<Scored>)
    requires d != 0.0
  {
    seq(|s|, i requires 0 <= i < |s| => Scored(s[i].id, (s[i].score - lo) / d))
  }

  /** `normalize`: min-max scaling to [0, 1]; a Series whose range is zero
      (a constant or empty Series) is returned unchanged. */
  function Normalize(s: seq<Scored>): (r: seq<Scored>)
  {
    if |s| == 0 then s
    else
      Between(s, Min(s), Max(s))
  }

  /** Normalisation keeps the labels and their order. */
  lemma NormalizeIds(s: seq<Scored>)
    ensures SameIds(s, Normalize(s))
  {
  }

  /** Scaling by a positive amount keeps the relative order of two
      entries, in both directions. */
  lemma DivMonotone(x: real, y: real, d: real)
    requires d > 0.0
    ensures x <= y <==> x / d <= y / d
  {
    assert x / d * d == x;
    assert y / d * d == y;
    if x / d <= y / d {
      assert x / d * d <= y / d * d;
    }
  }

  lemma UnitFraction(x: real, d: real)
    requires 0.0 <= x <= d && d > 0.0
    ensures 0.0 <= x / d <= 1.0
    ensures x == 0.0 ==> x / d == 0.0
    ensures x == d ==> x / d == 1.0
  {
    assert x / d * d == x;
  }

  /** Rescaling keeps the relative order of any two entries. */
  lemma RescaleOrder(s: seq<Scored>, lo: real, d: real)
    requires d > 0.0
    ensures forall i, j :: 0 <= i < |s| && 0 <= j < |s| ==>
      (s[i].score <= s[j].score <==> Rescale(s, lo, d)[i].score <= Rescale(s, lo, d)[j].score)
  {
    var r := Rescale(s, lo, d);
    forall i, j | 0 <= i < |s| && 0 <= j < |s|
      ensures s[i].score <= s[j].score <==> r[i].score <= r[j].score
    {
      DivMonotone(s[i].score - lo, s[j].score - lo, d);
    }
  }

  /** Scores in [lo, lo + d] are rescaled into [0, 1], with `lo` going to 0
      and `lo + d` to 1. */
  lemma RescaleUnit(s: seq<Scored>, lo: real, d: real, i: int)
    requires d > 0.0 && 0 <= i < |s| && lo <= s[i].score <= lo + d
    ensures 0.0 <= Rescale(s, lo, d)[i].score <= 1.0
    ensures s[i].score == lo ==> Rescale(s, lo, d)[i].score == 0.0
    ensures s[i].score == lo + d ==> Rescale(s, lo, d)[i].score == 1.0
  {
    UnitFraction(s[i].score - lo, d);
  }

  /** Min-max scaling against given bounds. */
  function Between(s: seq<Scored>, lo: real, hi: real): (r: seq<Scored>)
  {
    if hi - lo == 0.0 then s else Rescale(s, lo, hi - lo)
  }

  /** `r` is `s` min-max scaled against [lo, hi]: the same labels, each
      score the entry's distance from `lo` as a fraction of hi - lo, every
      score in [0, 1], 0 wherever `s` has `lo` and 1 wherever it has `hi`. */
  predicate UnitScaled(s: seq<Scored>, r: seq<Scored>, lo: real, hi: real)
    requires lo < hi
  {
    SameIds(s, r) &&
    forall i :: 0 <= i < |s| ==>
      r[i].score == (s[i].score - lo) / (hi - lo) &&
      0.0 <= r[i].score <= 1.0 &&
      (s[i].score == lo ==> r[i].score == 0.0) &&
      (s[i].score == hi ==> r[i].score == 1.0)
  }

  /** With every score in [lo, hi] and lo < hi, scaling against the bounds
      is a unit scaling. */
  lemma BetweenUnit(s: seq<Scored>, lo: real, hi: real)
    requires lo < hi
    requires forall i :: 0 <= i < |s| ==> lo <= s[i].score <= hi
    ensures UnitScaled(s, Between(s, lo, hi), lo, hi)
  {
    var d := hi - lo;
    var r := Rescale(s, lo, d);
    assert Between(s, lo, hi) == r;
    forall i | 0 <= i < |s|
      ensures 0.0 <= r[i].score <= 1.0
      ensures s[i].score == lo ==> r[i].score == 0.0
      ensures s[i].score == hi ==> r[i].score == 1.0
    {
      RescaleUnit(s, lo, d, i);
    }
  }

  /** When the range is not zero, the normalised Series is the unit scaling
      of `s` against its minimum and maximum. */
  lemma NormalizeRange(s: seq<Scored>)
    requires |s| > 0 && Max(s) - Min(s) != 0.0
    ensures Min(s) < Max(s)
    ensures UnitScaled(s, Normalize(s), Min(s), Max(s))
  {
    var lo, hi := Min(s), Max(s);
    assert Normalize(s) == Between(s, lo, hi);
    MinIsSmallest(s, ArgMax(s));
    forall i | 0 <= i < |s| ensures lo <= s[i].score <= hi {
      MinIsSmallest(s, i);
      MaxIsLargest(s, i);
    }
    BetweenUnit(s, lo, hi);
  }

  /** Normalisation keeps the relative order of any two entries. */
  lemma NormalizeOrder(s: seq<Scored>)
    ensures forall i, j :: 0 <= i < |s| && 0 <= j < |s| ==>
      (s[i].score <= s[j].score <==> Normalize(s)[i].score <= Normalize(s)[j].score)
  {
    if |s| > 0 && Max(s) - Min(s) != 0.0 {
      var lo, hi := Min(s), Max(s);
      MinIsSmallest(s, ArgMax(s));
      assert Normalize(s) == Rescale(s, lo, hi - lo);
      RescaleOrder(s, lo, hi - lo);
    }
  }

  /** A Series whose scores are all equal is returned unchanged. */
  lemma NormalizeFlat(s: seq<Scored>)
    requires forall i, j :: 0 <= i < |s| && 0 <= j < |s| ==> s[i].score == s[j].score
    ensures Normalize(s) == s
  {
    if |s| > 0 {
      assert s[ArgMax(s)].score == s[ArgMin(s)].score;
    }
  }

  /** A Series already spanning exactly [0, 1] is a fixed point. */
  lemma NormalizeUnit(s: seq<Scored>)
    requires |s| > 0 && Min(s) == 0.0 && Max(s) == 1.0
    ensures Normalize(s) == s
  {
    var r := Rescale(s, 0.0, 1.0);
    assert Normalize(s) == r;
    forall i | 0 <= i < |s| ensures r[i] == s[i] {
      assert r[i].score == (s[i].score - 0.0) / 1.0;
    }
  }

  /** Normalising twice is the same as normalising once. */
  lemma NormalizeIdempotent(s: seq<Scored>)
    ensures Normalize(Normalize(s)) == Normalize(s)
  {
    if |s| > 0 && Max(s) - Min(s) != 0.0 {
      var r := Normalize(s);
      NormalizeRange(s);
      var a, b := ArgMin(s), ArgMax(s);
      assert r[a].score == 0.0 && r[b].score == 1.0;
      assert forall i :: 0 <= i < |r| ==> 0.0 <= r[i].score <= 1.0;
      MinIsSmallest(r, a);
      MaxIsLargest(r, b);
      var c, e := ArgMin(r), ArgMax(r);
      assert 0.0 <= r[c].score && r[e].score <= 1.0;
      NormalizeUnit(r);
    }
  }

  /** `normalize_combo_score`: division by the largest score, with the
      minimum fixed at 0; a largest score of 0 leaves the Series unchanged. */
  function NormalizeComboScore(s: seq<Scored>): (r: seq<Scored>)
  {
    if |s| == 0 then s
    else
      var hi := Max(s);
      if hi == 0.0 then s else Rescale(s, 0.0, hi)
  }

  /** The combo scaling keeps the labels and their order. */
  lemma ComboScoreIds(s: seq<Scored>)
    ensures SameIds(s, NormalizeComboScore(s))
  {
  }

  /** A largest score of 0, or an empty Series, is left as it is. */
  lemma ComboScoreZero(s: seq<Scored>)
    requires |s| == 0 || Max(s) == 0.0
    ensures NormalizeComboScore(s) == s
  {
  }

  /** Any other Series, whatever the signs of its scores, has every score
      divided by the largest one. */
  lemma ComboScoreDivides(s: seq<Scored>)
    requires |s| > 0 && Max(s) != 0.0
    ensures |NormalizeComboScore(s)| == |s|
    ensures forall i :: 0 <= i < |s| ==> NormalizeComboScore(s)[i].score == s[i].score / Max(s)
  {
    assert NormalizeComboScore(s) == Rescale(s, 0.0, Max(s));
  }

  /** With a positive largest score the relative order of any two entries
      is kept. */
  lemma ComboScoreOrder(s: seq<Scored>)
    requires |s| > 0 && Max(s) > 0.0
    ensures forall i, j :: 0 <= i < |s| && 0 <= j < |s| ==>
      (s[i].score <= s[j].score <==> NormalizeComboScore(s)[i].score <= NormalizeComboScore(s)[j].score)
  {
    assert NormalizeComboScore(s) == Rescale(s, 0.0, Max(s));
    RescaleOrder(s, 0.0, Max(s));
  }

  /** For a Series of non-negative scores that are not all zero, the combo
      scaling maps every score into [0, 1] and a largest score to 1. */
  lemma ComboScoreRange(s: seq<Scored>)
    requires |s| > 0 && Max(s) != 0.0
    requires forall i :: 0 <= i < |s| ==> s[i].score >= 0.0
    ensures Max(s) > 0.0
    ensures forall i :: 0 <= i < |s| ==> 0.0 <= NormalizeComboScore(s)[i].score <= 1.0
    ensures forall i :: 0 <= i < |s| && s[i].score == Max(s) ==> NormalizeComboScore(s)[i].score == 1.0
  {
    var hi := Max(s);
    assert s[ArgMax(s)].score == hi;
    assert NormalizeComboScore(s) == Rescale(s, 0.0, hi);
    forall i | 0 <= i < |s|
      ensures 0.0 <= Rescale(s, 0.0, hi)[i].score <= 1.0
      ensures s[i].score == hi ==> Rescale(s, 0.0, hi)[i].score == 1.0
    {
      MaxIsLargest(s, i);
      RescaleUnit(s, 0.0, hi, i);
    }
  }

  // ---------------------------------------------------------------------
  // Feature vectors and the Jaccard score
  // ---------------------------------------------------------------------

  /** A numeric Series indexed by feature name. */
  type Vector = map<string, real>

  /** The total of the entries of `m` at the features `ks`, in no
      particular order. */
  ghost function SumOver(m: Vector, ks: set<string>): real
    requires ks <= m.Keys
    decreases ks
  {
    if ks == {} then 0.0
    else
      var k :| k in ks;
      m[k] + SumOver(m, ks - {k})
  }

  /** `Series.sum()`: the total of all entries. */
  ghost function Sum(m: Vector): real
  {
    SumOver(m, m.Keys)
  }

  /** Any feature can be taken out of the sum first. */
  lemma {:induction false} SumOverRemove(m: Vector, ks: set<string>, k: string)
    requires ks <= m.Keys && k in ks
    ensures SumOver(m, ks) == m[k] + SumOver(m, ks - {k})
    decreases ks
  {
    assert exists j :: j in ks && SumOver(m, ks) == m[j] + SumOver(m, ks - {j});
    var j :| j in ks && SumOver(m, ks) == m[j] + SumOver(m, ks - {j});
    if j != k {
      assert ks - {j} - {k} == ks - {k} - {j};
      SumOverRemove(m, ks - {j}, k);
      SumOverRemove(m, ks - {k}, j);
    }
  }

  /** The sum of entries at `ks` does not depend on the entries elsewhere. */
  lemma {:induction false} SumOverAgree(m: Vector, n: Vector, ks: set<string>)
    requires ks <= m.Keys && ks <= n.Keys
    requires forall k :: k in ks ==> m[k] == n[k]
    ensures SumOver(m, ks) == SumOver(n, ks)
    decreases ks
  {
    if ks != {} {
      var k :| k in ks;
      SumOverRemove(m, ks, k);
      SumOverRemove(n, ks, k);
      SumOverAgree(m, n, ks - {k});
    }
  }

  /** Any entry can be taken out of the sum first. */
  lemma SumRemove(m: Vector, k: string)
    requires k in m
    ensures Sum(m) == m[k] + Sum(m - {k})
  {
    SumOverRemove(m, m.Keys, k);
    assert (m - {k}).Keys == m.Keys - {k};
    SumOverAgree(m, m - {k}, m.Keys - {k});
  }

  /** Every entry is 0 or 1. */
  predicate Binary(m: Vector)
  {
    forall k :: k in m ==> m[k] == 0.0 || m[k] == 1.0
  }

  predicate NonNegative(m: Vector)
  {
    forall k :: k in m ==> m[k] >= 0.0
  }

  /** The features marked (non-zero). */
  function Marked(m: Vector): set<string>
  {
    set k | k in m && m[k] != 0.0
  }

  /** A 0/1 vector sums to the number of features it marks. */
  lemma {:induction false} SumBinary(m: Vector)
    requires Binary(m)
    ensures Sum(m) == |Marked(m)| as real
    decreases |m|
  {
    if |m| > 0 {
      var k :| k in m;
      SumRemove(m, k);
      SumBinary(m - {k});
      if m[k] == 0.0 {
        assert Marked(m) == Marked(m - {k});
      } else {
        assert Marked(m) == Marked(m - {k}) + {k};
      }
    } else {
      assert Marked(m) == {};
    }
  }

  /** A non-negative vector has a non-negative sum, and a positive sum as
      soon as one entry is positive. */
  lemma {:induction false} SumNonNegative(m: Vector)
    requires NonNegative(m)
    ensures Sum(m) >= 0.0
    ensures (exists k :: k in m && m[k] > 0.0) ==> Sum(m) > 0.0
    decreases |m|
  {
    if |m| > 0 {
      var k :| k in m;
      SumRemove(m, k);
      SumNonNegative(m - {k});
      if j :| j in m && m[j] > 0.0 {
        if j != k {
          assert (m - {k})[j] > 0.0;
        }
      }
    }
  }

  /** Dropping entries of a non-negative vector does not increase its sum. */
  lemma {:induction false} SumSubvector(part: Vector, m: Vector)
    requires NonNegative(m)
    requires part.Keys <= m.Keys && forall k :: k in part ==> part[k] == m[k]
    ensures Sum(part) <= Sum(m)
    decreases |m|
  {
    if |part| == 0 {
      SumNonNegative(m);
    } else {
      var k :| k in part;
      SumRemove(part, k);
      SumRemove(m, k);
      SumSubvector(part - {k}, m - {k});
    }
  }

  /** `user_topics[repo_topics != 0]`: the user's entries at the features the
      repository marks. */
  function Masked(user: Vector, repo: Vector): (r: Vector)
  {
    map k | k in user && k in repo && repo[k] != 0.0 :: user[k]
  }

  /** `jaccard`: the user's total over the repository's marked features
      (intersection) against the sum of both vectors less that total
      (union). A union equal to the intersection scores 0; a zero union with
      a non-zero intersection is a division by zero, which Python turns into
      an infinite value: `None` here. */
  ghost function Jaccard(repo: Vector, user: Vector): (r: Option<real>)
  {
    var intersect := Sum(Masked(user, repo));
    var union := Sum(user) + Sum(repo) - intersect;
    if union - intersect == 0.0 then Some(0.0)
    else if union == 0.0 then None
    else Some(intersect / union)
  }

  /** A subset is no larger than its superset, and as large only when
      the two are equal. */
  lemma SubsetCard(a: set<string>, b: set<string>)
    requires a <= b
    ensures |a| <= |b|
    ensures |a| == |b| <==> a == b
  {
    assert b == a + (b - a);
    assert a * (b - a) == {};
    assert |b| == |a| + |b - a|;
    if |a| == |b| {
      assert |b - a| == 0;
      assert b - a == {};
    }
  }

  /** Two sets whose intersection equals their union are equal. */
  lemma MeetIsJoin(a: set<string>, b: set<string>)
    ensures a * b == a + b <==> a == b
  {
    if a * b == a + b {
      forall x | x in a ensures x in b {
        assert x in a + b;
      }
      forall x | x in b ensures x in a {
        assert x in a + b;
      }
    }
  }

  /** On two 0/1 vectors over the same features the score is the size of
      the intersection of the marked sets over the size of their union,
      except that two equal marked sets score 0. */
  lemma JaccardSets(repo: Vector, user: Vector)
    requires repo.Keys == user.Keys && Binary(repo) && Binary(user)
    ensures Marked(user) == Marked(repo) ==> Jaccard(repo, user) == Some(0.0)
    ensures Marked(user) != Marked(repo) ==>
      |Marked(user) * Marked(repo)| < |Marked(user) + Marked(repo)| &&
      Jaccard(repo, user) ==
        Some(|Marked(user) * Marked(repo)| as real / |Marked(user) + Marked(repo)| as real)
  {
    var both := Marked(user) * Marked(repo);
    var either := Marked(user) + Marked(repo);
    var masked := Masked(user, repo);
    assert Marked(masked) == both;
    SumBinary(masked);
    SumBinary(user);
    SumBinary(repo);
    assert |either| + |both| == |Marked(user)| + |Marked(repo)|;
    SubsetCard(both, either);
    MeetIsJoin(Marked(user), Marked(repo));
  }

  /** The score of two 0/1 vectors is the same in either argument order. */
  lemma JaccardSymmetric(repo: Vector, user: Vector)
    requires repo.Keys == user.Keys && Binary(repo) && Binary(user)
    ensures Jaccard(repo, user) == Jaccard(user, repo)
  {
    JaccardSets(repo, user);
    JaccardSets(user, repo);
    assert Marked(user) * Marked(repo) == Marked(repo) * Marked(user);
    assert Marked(user) + Marked(repo) == Marked(repo) + Marked(user);
  }

  /** The score of two 0/1 vectors is a number in [0, 1); in particular it
      is never 1, even for identical topic sets. */
  lemma JaccardRange(repo: Vector, user: Vector)
    requires repo.Keys == user.Keys && Binary(repo) && Binary(user)
    ensures Jaccard(repo, user).Some?
    ensures 0.0 <= Jaccard(repo, user).value < 1.0
  {
    JaccardSets(repo, user);
    if Marked(user) != Marked(repo) {
      var both := Marked(user) * Marked(repo);
      var either := Marked(user) + Marked(repo);
      BelowOne(|both| as real, |either| as real);
    }
  }

  lemma BelowOne(x: real, y: real)
    requires 0.0 <= x < y
    ensures 0.0 <= x / y < 1.0
  {
    assert x / y * y == x;
  }

  /** Non-negative vectors over the same features always have a finite
      score: the division by a zero union cannot happen. */
  lemma JaccardDefined(repo: Vector, user: Vector)
    requires repo.Keys == user.Keys && NonNegative(repo) && NonNegative(user)
    ensures Jaccard(repo, user).Some?
  {
    var masked := Masked(user, repo);
    SumSubvector(masked, user);
    SumNonNegative(masked);
    SumNonNegative(repo);
    var intersect := Sum(masked);
    var union := Sum(user) + Sum(repo) - intersect;
    if union == 0.0 {
      assert Sum(repo) == 0.0;
      assert forall k :: k in repo ==> repo[k] == 0.0;
      assert masked == map[];
    }
  }

  // ---------------------------------------------------------------------
  // Data frames and get_langs_topics
  // ---------------------------------------------------------------------

  /** A DataFrame column: its label and its cells by row label. A row label
      without a cell holds NaN. */
  datatype Column = Column(name: string, cells: Vector)

  /** A DataFrame: its row labels and its columns in order. */
  datatype Frame = Frame(index: set<string>, columns: seq<Column>)

  /** Every cell sits on a row of the frame. */
  predicate WellFormed(f: Frame)
  {
    forall i :: 0 <= i < |f.columns| ==> f.columns[i].cells.Keys <= f.index
  }

  /** Every row of every column holds a number: there is no NaN. */
  predicate Dense(f: Frame)
  {
    forall i :: 0 <= i < |f.columns| ==> f.columns[i].cells.Keys == f.index
  }

  function ColumnNames(cols: seq<Column>): set<string>
  {
    set i | 0 <= i < |cols| :: cols[i].name
  }

  /** A cell with NaN read as 0, as both `fillna(0)` and a NaN-skipping
      `sum` do. */
  function Cell(c: Column, k: string): real
  {
    if k in c.cells then c.cells[k] else 0.0
  }

  /** `agg("sum", axis=1)` at one row: the total across the columns,
      skipping NaN. */
  function RowSum(cols: seq<Column>, k: string): real
  {
    if |cols| == 0 then 0.0 else RowSum(cols[..|cols| - 1], k) + Cell(cols[|cols| - 1], k)
  }

  /** `label.split('/')[0]`: the part of a column label before its first
      slash. */
  function UserName(title: string): (u: string)
    ensures '/' !in u
    ensures StartsWith(title, u)
    ensures |u| < |title| ==> title[|u|] == '/'
  {
    var i := Find(title, "/");
    if i == -1 then
      ContainsChar(title, '/');
      title
    else
      assert "/" == ['/'];
      assert title[i..i + 1] == "/";
      assert forall j :: 0 <= j < i ==> title[..i][j] != '/' by {
        forall j | 0 <= j < i ensures title[..i][j] != '/' {
          assert !OccursAt(title, "/", j);
          assert title[j..j + 1] == [title[j]];
        }
      }
      title[..i]
  }

  /** The row labels in `keys` that start with `p`. */
  function Features(keys: set<string>, p: string): set<string>
  {
    set k | k in keys && StartsWith(k, p)
  }

  /** The vector over exactly `keys`, zero where `v` has no entry. */
  function Align(v: Vector, keys: set<string>): (r: Vector)
  {
    map k | k in keys :: if k in v then v[k] else 0.0
  }

  /** `concat(...).fillna(0)` seen from the repository frame: rows
      re-indexed to `keys`, NaN and new rows filled with 0. */
  function AlignFrame(cols: seq<Column>, keys: set<string>): (f: Frame)
  {
    Frame(keys, seq(|cols|, i requires 0 <= i < |cols| =>
      Column(cols[i].name, map k | k in keys :: Cell(cols[i], k))))
  }

  /** `drop(names, axis='columns')`: the columns whose label is not in
      `names`. */
  function DropColumns(cols: seq<Column>, names: set<string>): (r: seq<Column>)
  {
    if |cols| == 0 then []
    else if cols[0].name in names then DropColumns(cols[1..], names)
    else [cols[0]] + DropColumns(cols[1..], names)
  }

  /** `drop(labels, axis='index')` for the labels present: the rows not in
      `labels`. */
  function DropRows(f: Frame, labels: set<string>): (r: Frame)
  {
    Frame(f.index - labels, seq(|f.columns|, i requires 0 <= i < |f.columns| =>
      Column(f.columns[i].name, map k | k in f.columns[i].cells && k !in labels :: f.columns[i].cells[k])))
  }

  /** `user_topics[user_topics > 0] = 1`. */
  function Binarize(x: real): real
  {
    if x > 0.0 then 1.0 else x
  }

  datatype LangsTopics = LangsTopics(
    userLangs: Vector, userTopics: Vector, repoLangs: Frame, repoTopics: Frame)

  /** `get_langs_topics`: the per-feature totals of the user's columns and
      the repository frame, each split into its language (`l_`) and topic
      (`t_`) rows and aligned to the union of both sides' rows, with the
      user's topic totals binarised. The user name is taken from the first
      column label, so a user frame without columns is an IndexError. */
  function GetLangsTopics(user: Frame, repo: Frame): (r: Result<LangsTopics>)
    ensures r.Failure? <==> |user.columns| == 0
    ensures r.Failure? ==> r.error == IndexError
  {
    if |user.columns| == 0 then Failure(IndexError)
    else
      var name := UserName(user.columns[0].name);
      var counts := map k | k in user.index :: RowSum(user.columns, k);
      var langs := Features(user.index + repo.index, "l_");
      var topics := Features(user.index + repo.index, "t_");
      var userLangs := map k | k in counts && StartsWith(k, "l_") :: counts[k];
      var userTopics := map k | k in counts && StartsWith(k, "t_") :: Binarize(counts[k]);
      var kept := DropColumns(repo.columns, {name});
      Success(LangsTopics(
        Align(userLangs, langs), Align(userTopics, topics),
        AlignFrame(kept, langs), AlignFrame(kept, topics)))
  }

  /** Dropping labels removes exactly the columns with one of those labels
      and keeps the others in order. */
  lemma {:induction false} DropColumnsKeeps(cols: seq<Column>, names: set<string>)
    ensures forall c :: c in DropColumns(cols, names) <==> c in cols && c.name !in names
    ensures |DropColumns(cols, names)| <= |cols|
    ensures names * ColumnNames(cols) == {} ==> DropColumns(cols, names) == cols
  {
    if |cols| > 0 {
      DropColumnsKeeps(cols[1..], names);
      assert cols == [cols[0]] + cols[1..];
      if names * ColumnNames(cols) == {} {
        assert cols[0].name in ColumnNames(cols);
        assert cols[0].name !in names * ColumnNames(cols);
        assert cols[0].name !in names;
        assert names * ColumnNames(cols[1..]) == {} by {
          forall i | 0 <= i < |cols[1..]| ensures cols[1..][i].name !in names {
            assert cols[1..][i] == cols[i + 1];
            assert cols[i + 1].name in ColumnNames(cols);
          }
        }
      }
    }
  }

  /** `DropColumns` keeps its columns in their original relative order: it
      is the original sequence with some columns left out. */
  lemma {:induction false} DropColumnsOrder(cols: seq<Column>, names: set<string>)
    ensures IsSubsequence(DropColumns(cols, names), cols)
  {
    if |cols| > 0 {
      DropColumnsOrder(cols[1..], names);
      var r := DropColumns(cols[1..], names);
      var p :| Embeds(r, cols[1..], p);
      var q := seq(|p|, i requires 0 <= i < |p| => p[i] + 1);
      if cols[0].name in names {
        assert Embeds(r, cols, q);
      } else {
        var q0 := [0] + q;
        assert Embeds([cols[0]] + r, cols, q0);
      }
    } else {
      assert Embeds([], cols, []);
    }
  }

  /** `p` lists, in increasing order, the positions of `xs` that make up
      `sub`. */
  predicate Embeds<T(==)>(sub: seq<T>, xs: seq<T>, p: seq<int>)
  {
    |p| == |sub| &&
    (forall i :: 0 <= i < |p| ==> 0 <= p[i] < |xs| && xs[p[i]] == sub[i]) &&
    (forall i, j :: 0 <= i < j < |p| ==> p[i] < p[j])
  }

  ghost predicate IsSubsequence<T>(sub: seq<T>, xs: seq<T>)
  {
    exists p :: Embeds(sub, xs, p)
  }

  /** The user's and each repository's language part range over the same
      row labels: the `l_` labels of either side; likewise for topics with
      `t_`. No label is on both a language and a topic row. */
  lemma LangsTopicsAligned(user: Frame, repo: Frame)
    requires |user.columns| > 0
    ensures var lt := GetLangsTopics(user, repo).value;
      var langs := Features(user.index + repo.index, "l_");
      var topics := Features(user.index + repo.index, "t_");
      lt.userLangs.Keys == langs && lt.repoLangs.index == langs && Dense(lt.repoLangs) &&
      lt.userTopics.Keys == topics && lt.repoTopics.index == topics && Dense(lt.repoTopics) &&
      langs * topics == {}
  {
    var langs := Features(user.index + repo.index, "l_");
    var topics := Features(user.index + repo.index, "t_");
    forall k | k in langs ensures k !in topics {
      assert k[..2] == "l_" != "t_";
    }
  }

  /** The user's value at a language row is its total across the user's
      repository columns, and 0 on a row only the repositories have; at a
      topic row it is that total binarised. */
  lemma LangsTopicsUserValues(user: Frame, repo: Frame)
    requires |user.columns| > 0
    ensures var lt := GetLangsTopics(user, repo).value;
      (forall k :: k in lt.userLangs ==>
        lt.userLangs[k] == (if k in user.index then RowSum(user.columns, k) else 0.0)) &&
      (forall k :: k in lt.userTopics ==>
        lt.userTopics[k] == (if k in user.index then Binarize(RowSum(user.columns, k)) else 0.0))
  {
  }

  /** Each repository column other than one labelled with the user name
      keeps its label and position, and its value at each row is the
      original value, with NaN and rows it did not have read as 0. */
  lemma LangsTopicsRepoValues(user: Frame, repo: Frame)
    requires |user.columns| > 0 && WellFormed(repo)
    ensures var lt := GetLangsTopics(user, repo).value;
      var kept := DropColumns(repo.columns, {UserName(user.columns[0].name)});
      |lt.repoLangs.columns| == |kept| && |lt.repoTopics.columns| == |kept| &&
      forall i :: 0 <= i < |kept| ==>
        lt.repoLangs.columns[i].name == kept[i].name &&
        lt.repoTopics.columns[i].name == kept[i].name &&
        (forall k :: k in lt.repoLangs.index ==>
          lt.repoLangs.columns[i].cells[k] ==
            (if k in repo.index && k in kept[i].cells then kept[i].cells[k] else 0.0)) &&
        (forall k :: k in lt.repoTopics.index ==>
          lt.repoTopics.columns[i].cells[k] ==
            (if k in repo.index && k in kept[i].cells then kept[i].cells[k] else 0.0))
  {
    var kept := DropColumns(repo.columns, {UserName(user.columns[0].name)});
    DropColumnsKeeps(repo.columns, {UserName(user.columns[0].name)});
    forall i | 0 <= i < |kept| ensures kept[i].cells.Keys <= repo.index {
      assert kept[i] in repo.columns;
    }
  }

  /** A total of non-negative cells is non-negative. */
  lemma {:induction false} RowSumNonNegative(cols: seq<Column>, k: string)
    requires forall i :: 0 <= i < |cols| ==> Cell(cols[i], k) >= 0.0
    ensures RowSum(cols, k) >= 0.0
  {
    if |cols| > 0 {
      RowSumNonNegative(cols[..|cols| - 1], k);
    }
  }

  /** Every cell is 0 or 1. */
  predicate BinaryFrame(f: Frame)
  {
    forall i :: 0 <= i < |f.columns| ==> Binary(f.columns[i].cells)
  }

  /** Every cell on a row whose label starts with `p` is non-negative. */
  predicate NonNegativeAt(f: Frame, p: string)
  {
    forall i, k :: 0 <= i < |f.columns| && k in f.columns[i].cells && StartsWith(k, p) ==>
      f.columns[i].cells[k] >= 0.0
  }

  /** Every cell on a row whose label starts with `p` is 0 or 1. */
  predicate BinaryAt(f: Frame, p: string)
  {
    forall i, k :: 0 <= i < |f.columns| && k in f.columns[i].cells && StartsWith(k, p) ==>
      f.columns[i].cells[k] == 0.0 || f.columns[i].cells[k] == 1.0
  }

  /** With non-negative user cells and 0/1 repository cells on the topic
      rows, both topic parts are 0/1: the binarisation leaves only 0 and 1
      behind. Nothing is asked of the language rows. */
  lemma LangsTopicsBinary(user: Frame, repo: Frame)
    requires |user.columns| > 0 && WellFormed(repo)
    requires NonNegativeAt(user, "t_") && BinaryAt(repo, "t_")
    ensures var lt := GetLangsTopics(user, repo).value;
      Binary(lt.userTopics) && BinaryFrame(lt.repoTopics)
  {
    var lt := GetLangsTopics(user, repo).value;
    LangsTopicsAligned(user, repo);
    LangsTopicsUserValues(user, repo);
    forall k | k in user.index && StartsWith(k, "t_") ensures RowSum(user.columns, k) >= 0.0 {
      RowSumNonNegative(user.columns, k);
    }
    LangsTopicsRepoValues(user, repo);
    var kept := DropColumns(repo.columns, {UserName(user.columns[0].name)});
    DropColumnsKeeps(repo.columns, {UserName(user.columns[0].name)});
    forall i | 0 <= i < |lt.repoTopics.columns| ensures Binary(lt.repoTopics.columns[i].cells) {
      assert kept[i] in repo.columns;
    }
  }

  /** With non-negative user cells on the language rows, the user's
      language totals are non-negative. */
  lemma LangsNonNegative(user: Frame, repo: Frame)
    requires |user.columns| > 0 && NonNegativeAt(user, "l_")
    ensures NonNegative(GetLangsTopics(user, repo).value.userLangs)
  {
    LangsTopicsUserValues(user, repo);
    forall k | k in user.index && StartsWith(k, "l_") ensures RowSum(user.columns, k) >= 0.0 {
      RowSumNonNegative(user.columns, k);
    }
  }
}
