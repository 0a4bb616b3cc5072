/** The recommendation steps around the similarity measures: the argument
    guards, removal of the user's own repositories, the binary reshaping of
    the user and repository tables, the mean-centred language vector, the
    per-repository topic scores, and the weighted, ranked and normalised
    combination of the three signals (code/recommend.py). */
module Recommend {
  import opened Types
  import opened Text
  import opened Helper

  // ---------------------------------------------------------------------
  // Guards and dropping the user's own repositories
  // ---------------------------------------------------------------------

  /** The guard `type(a) != A and type(b) != B`: it raises only when both
      arguments have the wrong type. */
  predicate GuardFails(userType: PyType, repoType: PyType, userWant: PyType, repoWant: PyType)
  {
    userType != userWant && repoType != repoWant
  }

  /** The TypeError guards fire exactly when both arguments are wrong, so one
      wrong argument passes them. */
  lemma GuardOnlyBoth(userType: PyType, repoType: PyType, userWant: PyType, repoWant: PyType)
    ensures !GuardFails(userType, repoType, userWant, repoWant) <==>
      userType == userWant || repoType == repoWant
  {
  }

  /** The repository columns whose label is not a label of the user's
      columns: `drop(intersect1d(repo.columns, user.columns), axis='columns')`. */
  function DropOwned(repo: Frame, user: Frame): (r: Frame)
  {
    Frame(repo.index, DropColumns(repo.columns, ColumnNames(user.columns)))
  }

  /** A candidate column survives exactly when the user does not own a
      repository with its label; the survivors keep their order and rows. */
  lemma DropOwnedKeeps(repo: Frame, user: Frame)
    ensures DropOwned(repo, user).index == repo.index
    ensures forall c :: c in DropOwned(repo, user).columns <==>
      c in repo.columns && c.name !in ColumnNames(user.columns)
    ensures IsSubsequence(DropOwned(repo, user).columns, repo.columns)
    ensures WellFormed(repo) ==> WellFormed(DropOwned(repo, user))
  {
    DropColumnsKeeps(repo.columns, ColumnNames(user.columns));
    DropColumnsOrder(repo.columns, ColumnNames(user.columns));
    var r := DropOwned(repo, user);
    if WellFormed(repo) {
      forall i | 0 <= i < |r.columns| ensures r.columns[i].cells.Keys <= r.index {
        assert r.columns[i] in repo.columns;
      }
    }
  }

  /** `fillna(0)`: every row of every column holds a number. */
  function FillNa(f: Frame): Frame
  {
    AlignFrame(f.columns, f.index)
  }

  // ---------------------------------------------------------------------
  // reshape
  // ---------------------------------------------------------------------

  /** `astype(int)` of a float: truncation toward zero. */
  function Trunc(x: real): (n: int)
    ensures x >= 0.0 ==> n as real <= x < n as real + 1.0
    ensures x < 0.0 ==> n as real - 1.0 < x <= n as real
  {
    if x >= 0.0 then x.Floor else -((-x).Floor)
  }

  /** `v[v != 0] = 1` at one value. */
  function Indicator(x: real): real
  {
    if x != 0.0 then 1.0 else 0.0
  }

  /** The binary user vector and repository frame that `reshape` returns. */
  datatype Reshaped = Reshaped(user: Vector, repo: Frame)

  /** `reshape`: both tables lose the `readme` row and their NaN; the
      user's columns collapse to one total per row, truncated to an integer
      and binarised; every repository cell is binarised; both sides are
      then aligned to the union of their rows, with 0 where a side has no
      such row. A Series repository argument is given as a frame with one
      column, labelled with the Series name: every step applies to it as
      to a one-column frame. A Series user fails at `sum(axis=1)`. */
  function Reshape(userType: PyType, repoType: PyType, user: Frame, repo: Frame): (r: Result<Reshaped>)
    ensures r.Failure? <==> userType != DataFrameType || repoType == OtherType
    ensures r.Failure? ==>
      r.error == (if GuardFails(userType, repoType, DataFrameType, DataFrameType)
        then TypeError else NotADataFrame)
  {
    if GuardFails(userType, repoType, DataFrameType, DataFrameType) then Failure(TypeError)
    else if userType != DataFrameType || repoType == OtherType then Failure(NotADataFrame)
    else
      var u := DropRows(user, {ReadmeKey});
      var p := DropRows(repo, {ReadmeKey});
      var keys := u.index + p.index;
      var total := map k | k in u.index :: Indicator(Trunc(RowSum(u.columns, k)) as real);
      var binary := seq(|p.columns|, i requires 0 <= i < |p.columns| =>
        Column(p.columns[i].name, map k | k in p.index :: Indicator(Cell(p.columns[i], k))));
      Success(Reshaped(Align(total, keys), AlignFrame(binary, keys)))
  }

  /** Both outputs of `reshape` range over the same rows: the union of the
      two tables' rows without `readme`. The repository frame keeps its
      columns, in order, and has no NaN. */
  lemma ReshapeShape(user: Frame, repo: Frame)
    ensures var rs := Reshape(DataFrameType, DataFrameType, user, repo).value;
      var keys := (user.index + repo.index) - {ReadmeKey};
      rs.user.Keys == keys && rs.repo.index == keys && Dense(rs.repo) &&
      |rs.repo.columns| == |repo.columns| &&
      forall i :: 0 <= i < |repo.columns| ==> rs.repo.columns[i].name == repo.columns[i].name
  {
  }

  /** A Series repository is reshaped as the one-column frame holding it:
      the result is a user vector and a one-column frame labelled with the
      Series name, over the union of both sides' rows less `readme`. */
  lemma ReshapeSeriesRepo(user: Frame, repo: Frame)
    requires |repo.columns| == 1
    ensures Reshape(DataFrameType, SeriesType, user, repo) == Reshape(DataFrameType, DataFrameType, user, repo)
    ensures var rs := Reshape(DataFrameType, SeriesType, user, repo).value;
      var keys := (user.index + repo.index) - {ReadmeKey};
      rs.user.Keys == keys && rs.repo.index == keys &&
      |rs.repo.columns| == 1 && rs.repo.columns[0].name == repo.columns[0].name
  {
    ReshapeShape(user, repo);
  }

  /** Every value `reshape` produces is 0 or 1. The user's value is 1
      exactly when the truncated total of its repositories' values on that
      row is not zero; a repository's value is 1 exactly when its original
      value, with NaN read as 0, is not zero. */
  lemma ReshapeBinary(user: Frame, repo: Frame)
    requires WellFormed(user) && WellFormed(repo)
    ensures var rs := Reshape(DataFrameType, DataFrameType, user, repo).value;
      Binary(rs.user) && BinaryFrame(rs.repo) &&
      (forall k :: k in rs.user ==>
        (rs.user[k] == 1.0 <==> k in user.index && Trunc(RowSum(user.columns, k)) != 0)) &&
      (forall i, k :: 0 <= i < |repo.columns| && k in rs.repo.index ==>
        (rs.repo.columns[i].cells[k] == 1.0 <==>
          k in repo.index && Cell(repo.columns[i], k) != 0.0))
  {
    var u := DropRows(user, {ReadmeKey});
    var p := DropRows(repo, {ReadmeKey});
    forall k | k in u.index ensures RowSum(u.columns, k) == RowSum(user.columns, k) {
      RowSumDropRows(user, {ReadmeKey}, k);
    }
    forall i, k | 0 <= i < |repo.columns| && k in p.index
      ensures Cell(p.columns[i], k) == Cell(repo.columns[i], k)
    {
    }
  }

  /** Dropping other rows does not change the total of a row. */
  lemma {:induction false} RowSumDropRows(f: Frame, labels: set<string>, k: string)
    requires k !in labels
    ensures RowSum(DropRows(f, labels).columns, k) == RowSum(f.columns, k)
    decreases |f.columns|
  {
    if |f.columns| > 0 {
      var g := Frame(f.index, f.columns[..|f.columns| - 1]);
      RowSumDropRows(g, labels, k);
      assert DropRows(f, labels).columns[..|f.columns| - 1] == DropRows(g, labels).columns;
    }
  }

  // ---------------------------------------------------------------------
  // recommend_lang: the language vectors handed to the cosine similarity
  // ---------------------------------------------------------------------

  /** `v - v.mean()`. An empty vector stays empty. */
  ghost function Centre(v: Vector): (r: Vector)
  {
    if |v| == 0 then v
    else map k | k in v :: v[k] - Sum(v) / (|v| as real)
  }

  /** Subtracting `c` from each of the entries at `ks` lowers their total by
      |ks| times `c`. */
  lemma {:induction false} SumOverShift(m: Vector, n: Vector, ks: set<string>, c: real)
    requires ks <= m.Keys && ks <= n.Keys
    requires forall k :: k in ks ==> n[k] == m[k] - c
    ensures SumOver(n, ks) == SumOver(m, ks) - (|ks| as real) * c
    decreases ks
  {
    if ks != {} {
      var k :| k in ks;
      SumOverRemove(m, ks, k);
      SumOverRemove(n, ks, k);
      SumOverShift(m, n, ks - {k}, c);
    }
  }

  /** The mean-centred vector keeps the features and sums to 0. */
  lemma CentreSumsToZero(v: Vector)
    ensures Centre(v).Keys == v.Keys
    ensures Sum(Centre(v)) == 0.0
  {
    if |v| > 0 {
      var n := |v| as real;
      var c := Sum(v) / n;
      assert |v.Keys| == |v|;
      SumOverShift(v, Centre(v), v.Keys, c);
      assert n * (Sum(v) / n) == Sum(v);
    }
  }

  /** The rows of `f` whose label starts with `p`. */
  function SelectRows(f: Frame, p: string): Frame
  {
    DropRows(f, f.index - Features(f.index, p))
  }

  datatype LangInputs = LangInputs(user: Vector, repo: Frame)

  /** `recommend_lang` up to the cosine similarity: the candidates without
      the user's own repositories, both tables reshaped, only the language
      rows kept, and the user's vector mean-centred. */
  ghost function LangInputsOf(userType: PyType, repoType: PyType, user: Frame, repo: Frame): (r: Result<LangInputs>)
    ensures r.Failure? <==> userType != DataFrameType || repoType != DataFrameType
  {
    if GuardFails(userType, repoType, SeriesType, DataFrameType) then Failure(TypeError)
    else if userType != DataFrameType || repoType != DataFrameType then Failure(NotADataFrame)
    else
      var rs := Reshape(DataFrameType, DataFrameType, user, DropOwned(repo, user)).value;
      var langs := Features(rs.user.Keys, "l_");
      var userLangs := map k | k in langs :: rs.user[k];
      Success(LangInputs(Centre(userLangs), SelectRows(rs.repo, "l_")))
  }

  /** The language vectors cover exactly the `l_` rows of both tables other
      than `readme`; the user's vector sums to 0; the candidates are the
      repositories the user does not own. */
  lemma LangInputsShape(user: Frame, repo: Frame)
    ensures var li := LangInputsOf(DataFrameType, DataFrameType, user, repo).value;
      var langs := Features((user.index + repo.index) - {ReadmeKey}, "l_");
      li.user.Keys == langs && li.repo.index == langs && Sum(li.user) == 0.0 &&
      forall c :: c in li.repo.columns ==> c.name !in ColumnNames(user.columns)
  {
    var kept := DropOwned(repo, user);
    var rs := Reshape(DataFrameType, DataFrameType, user, kept).value;
    ReshapeShape(user, kept);
    var langs := Features(rs.user.Keys, "l_");
    var userLangs := map k | k in langs :: rs.user[k];
    CentreSumsToZero(userLangs);
    DropOwnedKeeps(repo, user);
    var li := LangInputsOf(DataFrameType, DataFrameType, user, repo).value;
    forall c | c in li.repo.columns ensures c.name !in ColumnNames(user.columns) {
      var i :| 0 <= i < |li.repo.columns| && li.repo.columns[i] == c;
      assert c.name == rs.repo.columns[i].name == kept.columns[i].name;
      assert kept.columns[i] in kept.columns;
    }
  }

  // ---------------------------------------------------------------------
  // recommend_topic
  // ---------------------------------------------------------------------

  /** A candidate's topic score; `None` stands for the infinite value of a
      division by a zero union. */
  datatype TopicScore = TopicScore(id: string, score: Option<real>)

  /** `recommend_topic`: both tables lose their `readme` row (a KeyError
      when it is missing) and their NaN, the user's own repositories are
      dropped, the topic parts are aligned, and each candidate column is
      scored against the user's topics with `jaccard`. */
  ghost function TopicScores(userType: PyType, repoType: PyType, user: Frame, repo: Frame): (r: Result<seq<TopicScore>>)
  {
    if GuardFails(userType, repoType, SeriesType, DataFrameType) then Failure(TypeError)
    else if userType != DataFrameType || repoType != DataFrameType then Failure(NotADataFrame)
    else if ReadmeKey !in user.index || ReadmeKey !in repo.index then Failure(KeyError)
    else
      var u := FillNa(DropRows(user, {ReadmeKey}));
      var p := FillNa(DropRows(repo, {ReadmeKey}));
      match GetLangsTopics(u, DropOwned(p, u))
      case Failure(e) => Failure(e)
      case Success(lt) =>
        Success(seq(|lt.repoTopics.columns|, i requires 0 <= i < |lt.repoTopics.columns| =>
          TopicScore(lt.repoTopics.columns[i].name,
            Jaccard(lt.repoTopics.columns[i].cells, lt.userTopics))))
  }

  /** The topic scores fail exactly on a guard, a non-DataFrame argument, a
      missing `readme` row, or a user table without columns. */
  lemma TopicScoresErrors(userType: PyType, repoType: PyType, user: Frame, repo: Frame)
    ensures TopicScores(userType, repoType, user, repo).Success? <==>
      userType == DataFrameType && repoType == DataFrameType &&
      ReadmeKey in user.index && ReadmeKey in repo.index && |user.columns| > 0
  {
    if userType == DataFrameType && repoType == DataFrameType &&
      ReadmeKey in user.index && ReadmeKey in repo.index
    {
      var u := FillNa(DropRows(user, {ReadmeKey}));
      assert |u.columns| == |user.columns|;
    }
  }

  /** With non-negative user values and 0/1 candidate values on the topic
      rows (as the vectorised tables hold), every candidate gets a finite
      score in [0, 1), and only candidates the user does not own are
      scored. The other rows may hold anything. */
  lemma TopicScoresRange(user: Frame, repo: Frame)
    requires ReadmeKey in user.index && ReadmeKey in repo.index && |user.columns| > 0
    requires NonNegativeAt(user, "t_") && BinaryAt(repo, "t_")
    ensures TopicScores(DataFrameType, DataFrameType, user, repo).Success?
    ensures var ts := TopicScores(DataFrameType, DataFrameType, user, repo).value;
      forall i :: 0 <= i < |ts| ==>
        ts[i].score.Some? && 0.0 <= ts[i].score.value < 1.0 && ts[i].id !in ColumnNames(user.columns)
  {
    var u := FillNa(DropRows(user, {ReadmeKey}));
    var p := FillNa(DropRows(repo, {ReadmeKey}));
    var kept := DropOwned(p, u);
    assert ColumnNames(u.columns) == ColumnNames(user.columns) by {
      assert |u.columns| == |user.columns|;
      assert forall i :: 0 <= i < |u.columns| ==> u.columns[i].name == user.columns[i].name;
    }
    assert NonNegativeAt(u, "t_");
    assert BinaryAt(p, "t_");
    assert WellFormed(p);
    DropOwnedKeeps(p, u);
    assert BinaryAt(kept, "t_") by {
      forall i, k | 0 <= i < |kept.columns| && k in kept.columns[i].cells && StartsWith(k, "t_")
        ensures kept.columns[i].cells[k] == 0.0 || kept.columns[i].cells[k] == 1.0
      {
        assert kept.columns[i] in p.columns;
      }
    }
    LangsTopicsBinary(u, kept);
    LangsTopicsAligned(u, kept);
    LangsTopicsRepoValues(u, kept);
    var lt := GetLangsTopics(u, kept).value;
    var ts := TopicScores(DataFrameType, DataFrameType, user, repo).value;
    DropColumnsKeeps(kept.columns, {UserName(u.columns[0].name)});
    forall i | 0 <= i < |ts|
      ensures ts[i].score.Some? && 0.0 <= ts[i].score.value < 1.0 && ts[i].id !in ColumnNames(user.columns)
    {
      var col := lt.repoTopics.columns[i];
      assert col.cells.Keys == lt.userTopics.Keys;
      JaccardRange(col.cells, lt.userTopics);
      var kk := DropColumns(kept.columns, {UserName(u.columns[0].name)});
      assert kk[i] in kept.columns;
    }
  }

  // ---------------------------------------------------------------------
  // recommend_readme: the candidates handed to the README similarity
  // ---------------------------------------------------------------------

  /** `recommend_readme` up to the README similarity: the rows of the
      repository README vectors whose label is not a label of the user's
      vectors. Both a Series and a DataFrame have the row labels needed. */
  function ReadmeCandidates(userType: PyType, repoType: PyType, user: Frame, repo: Frame): (r: Result<Frame>)
    ensures r.Success? <==>
      (userType == SeriesType || repoType == DataFrameType) &&
      userType != OtherType && repoType != OtherType
  {
    if GuardFails(userType, repoType, SeriesType, DataFrameType) then Failure(TypeError)
    else if userType == OtherType || repoType == OtherType then Failure(NotADataFrame)
    else Success(DropRows(repo, user.index))
  }

  /** The candidates are exactly the repository rows the user does not
      have; every column keeps its label and its values on those rows. */
  lemma ReadmeCandidatesKeeps(userType: PyType, repoType: PyType, user: Frame, repo: Frame)
    requires userType == SeriesType || repoType == DataFrameType
    requires userType != OtherType && repoType != OtherType
    ensures var c := ReadmeCandidates(userType, repoType, user, repo).value;
      c.index == repo.index - user.index &&
      |c.columns| == |repo.columns| &&
      forall i :: 0 <= i < |repo.columns| ==>
        c.columns[i].name == repo.columns[i].name &&
        forall k :: k in repo.columns[i].cells ==>
          (k in c.columns[i].cells <==> k !in user.index) &&
          (k in c.columns[i].cells ==> c.columns[i].cells[k] == repo.columns[i].cells[k])
  {
  }

  // ---------------------------------------------------------------------
  // combine_scores and get_feature_weights
  // ---------------------------------------------------------------------

  /** One candidate's row of the three-signal table. */
  datatype Candidate = Candidate(id: string, signals: seq<real>)

  /** The three-signal table: its column labels and its rows. */
  datatype Signals = Signals(names: seq<string>, rows: seq<Candidate>)

  /** A DataFrame is rectangular: every row has one value per column. */
  predicate Rectangular(f: Signals)
  {
    forall i :: 0 <= i < |f.rows| ==> |f.rows[i].signals| == |f.names|
  }

  function Dot(xs: seq<real>, ws: seq<real>): real
    requires |xs| == |ws|
  {
    if |xs| == 0 then 0.0 else Dot(xs[..|xs| - 1], ws[..|ws| - 1]) + xs[|xs| - 1] * ws[|ws| - 1]
  }

  /** `features.dot(weights)` with the candidates as index. */
  function Weighted(f: Signals, ws: seq<real>): (r: seq<Scored>)
    requires Rectangular(f) && |f.names| == |ws|
  {
    seq(|f.rows|, i requires 0 <= i < |f.rows| => Scored(f.rows[i].id, Dot(f.rows[i].signals, ws)))
  }

  /** No score is below a later one. */
  predicate NonIncreasing(s: seq<Scored>)
  {
    forall i, j :: 0 <= i < j < |s| ==> s[i].score >= s[j].score
  }

  /** Places `x` in front of the first entry with a smaller score. */
  function Insert(x: Scored, s: seq<Scored>): (r: seq<Scored>)
  {
    if |s| == 0 || s[0].score <= x.score then [x] + s else [s[0]] + Insert(x, s[1..])
  }

  /** `sort_values(ascending=False)`; pandas leaves the order of equal
      scores open, and this is one of the allowed orders. */
  function SortDesc(s: seq<Scored>): (r: seq<Scored>)
  {
    if |s| == 0 then [] else Insert(s[0], SortDesc(s[1..]))
  }

  /** Inserting an entry no higher than `b` into entries no higher than `b`
      gives entries no higher than `b`. */
  lemma {:induction false} InsertBelow(x: Scored, s: seq<Scored>, b: real)
    requires x.score <= b && forall i :: 0 <= i < |s| ==> s[i].score <= b
    ensures forall i :: 0 <= i < |Insert(x, s)| ==> Insert(x, s)[i].score <= b
  {
    if |s| > 0 && s[0].score > x.score {
      InsertBelow(x, s[1..], b);
    }
  }

  /** Inserting into a non-increasing Series keeps it non-increasing. */
  lemma {:induction false} InsertSorted(x: Scored, s: seq<Scored>)
    requires NonIncreasing(s)
    ensures NonIncreasing(Insert(x, s))
  {
    if |s| > 0 && s[0].score > x.score {
      InsertSorted(x, s[1..]);
      InsertBelow(x, s[1..], s[0].score);
    }
  }

  /** Insertion adds exactly the one entry. */
  lemma {:induction false} InsertPerm(x: Scored, s: seq<Scored>)
    ensures multiset(Insert(x, s)) == multiset(s) + multiset{x}
  {
    if |s| > 0 && s[0].score > x.score {
      InsertPerm(x, s[1..]);
      assert s == [s[0]] + s[1..];
    }
  }

  /** The sorted Series is ordered by non-increasing score and holds the
      same entries. */
  lemma {:induction false} SortDescSorted(s: seq<Scored>)
    ensures NonIncreasing(SortDesc(s))
    ensures multiset(SortDesc(s)) == multiset(s)
  {
    if |s| > 0 {
      SortDescSorted(s[1..]);
      InsertSorted(s[0], SortDesc(s[1..]));
      InsertPerm(s[0], SortDesc(s[1..]));
      assert s == [s[0]] + s[1..];
    }
  }

  /** Inserting an entry adds its label to the labels. */
  lemma {:induction false} InsertIds(x: Scored, s: seq<Scored>)
    ensures multiset(Ids(Insert(x, s))) == multiset(Ids(s)) + multiset{x.id}
  {
    if |s| == 0 || s[0].score <= x.score {
      assert Ids([x] + s) == [x.id] + Ids(s);
    } else {
      InsertIds(x, s[1..]);
      assert Ids([s[0]] + Insert(x, s[1..])) == [s[0].id] + Ids(Insert(x, s[1..]));
      assert Ids(s) == [s[0].id] + Ids(s[1..]);
    }
  }

  /** Sorting rearranges the labels and loses none. */
  lemma {:induction false} SortDescIds(s: seq<Scored>)
    ensures multiset(Ids(SortDesc(s))) == multiset(Ids(s))
  {
    if |s| > 0 {
      SortDescIds(s[1..]);
      InsertIds(s[0], SortDesc(s[1..]));
      assert Ids(s) == [s[0].id] + Ids(s[1..]);
    }
  }

  /** Min-max normalisation keeps a non-increasing order. */
  lemma NormalizeKeepsOrder(s: seq<Scored>)
    requires NonIncreasing(s)
    ensures NonIncreasing(Normalize(s))
  {
    NormalizeOrder(s);
    NormalizeIds(s);
  }

  /** `combine_scores`: each candidate's weighted signal total, sorted by
      decreasing score and min-max normalised. A weight vector whose length
      differs from the number of signals is a shape mismatch. */
  function CombineScores(f: Signals, ws: seq<real>): (r: Result<seq<Scored>>)
    requires Rectangular(f)
    ensures r.Failure? <==> |f.names| != |ws|
    ensures r.Failure? ==> r.error == ValueError
  {
    if |f.names| != |ws| then Failure(ValueError)
    else Success(Normalize(SortDesc(Weighted(f, ws))))
  }

  function Ids(s: seq<Scored>): seq<string>
  {
    seq(|s|, i requires 0 <= i < |s| => s[i].id)
  }

  function CandidateIds(f: Signals): seq<string>
  {
    seq(|f.rows|, i requires 0 <= i < |f.rows| => f.rows[i].id)
  }

  /** The combined scores are ordered by non-increasing score and carry
      each candidate exactly once; they are the normalisation of a
      rearrangement of the candidates' weighted totals. */
  lemma CombineScoresRanked(f: Signals, ws: seq<real>)
    requires Rectangular(f) && |f.names| == |ws|
    ensures var r := CombineScores(f, ws).value;
      NonIncreasing(r) &&
      multiset(Ids(r)) == multiset(CandidateIds(f)) &&
      exists t :: multiset(t) == multiset(Weighted(f, ws)) && NonIncreasing(t) && r == Normalize(t)
  {
    var raw := Weighted(f, ws);
    var t := SortDesc(raw);
    SortDescSorted(raw);
    NormalizeKeepsOrder(t);
    NormalizeIds(t);
    var r := Normalize(t);
    assert Ids(r) == Ids(t);
    SortDescIds(raw);
    assert Ids(raw) == CandidateIds(f);
  }

  /** A dot product of length three, written out. */
  lemma DotThree(xs: seq<real>, ws: seq<real>)
    requires |xs| == 3 && |ws| == 3
    ensures Dot(xs, ws) == xs[0] * ws[0] + xs[1] * ws[1] + xs[2] * ws[2]
  {
    assert xs[..2][..1] == [xs[0]] && ws[..2][..1] == [ws[0]];
    assert [xs[0]][..0] == [];
    assert Dot([xs[0]], [ws[0]]) == xs[0] * ws[0];
    assert Dot(xs[..2], ws[..2]) == xs[0] * ws[0] + xs[1] * ws[1];
  }

  /** `get_feature_weights`: the placeholder weights for the language,
      topic and README signals; the user is not consulted. */
  function FeatureWeights<U>(user: U): (w: seq<real>)
  {
    [0.33, 0.33, 0.33]
  }

  /** There are three weights, all 0.33, the same for every user; under
      them every signal counts equally, so the weighted total is 0.33 times
      the plain total of the three signals, and two candidates compare as
      their plain totals do. */
  lemma FeatureWeightsEqual<U>(user: U, other: U, xs: seq<real>, ys: seq<real>)
    requires |xs| == 3 && |ys| == 3
    ensures |FeatureWeights(user)| == 3
    ensures forall i :: 0 <= i < 3 ==> FeatureWeights(user)[i] == 0.33
    ensures FeatureWeights(user) == FeatureWeights(other)
    ensures Dot(xs, FeatureWeights(user)) == 0.33 * (xs[0] + xs[1] + xs[2])
    ensures Dot(xs, FeatureWeights(user)) <= Dot(ys, FeatureWeights(user)) <==>
      xs[0] + xs[1] + xs[2] <= ys[0] + ys[1] + ys[2]
  {
    DotThree(xs, FeatureWeights(user));
    DotThree(ys, FeatureWeights(user));
  }
}
