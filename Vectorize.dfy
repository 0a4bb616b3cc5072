/** The feature-vector builder (code/vectorize.py): every repository record
    becomes one column of sparse features, `l_<language>` to its byte count
    and `t_<topic>` to 1, plus a `readme` cell with the decoded README. */
module Vectorize {
  import opened Types
  import opened Text

  /** One item of the language dictionary: a language and its size in bytes. */
  datatype Language = Language(name: string, bytes: int)

  /** One repository record: owner, name, the language dictionary as its
      items in order (`None` when null), the topics, and the README object
      as returned by the GitHub API (a string-keyed dictionary). A record
      of a repository whose licence is not accepted has only owner and
      name; the table then holds NaN for its topics and README, written
      `None` here. */
  datatype Row = Row(
    owner: string,
    repo: string,
    languages: Option<seq<Language>>,
    topics: Option<seq<string>>,
    readme: Option<map<string, string>>)

  /** The argument of `vectorize`: a table of records, or anything else. */
  datatype Data = Frame(rows: seq<Row>) | NotFrame

  /** One output column: the numeric features and the `readme` cell
      (`None` when the README is not base64-encoded). */
  datatype Entry = Entry(features: map<string, int>, readme: Option<seq<bv8>>)

  /** The result table: the column names in order and the columns. Its row
      labels are `Index`; a label that a column's `features` lacks is NaN
      there. */
  datatype Table = Table(names: seq<string>, entries: seq<Entry>)

  function LanguageKey(name: string): string {
    "l_" + Lower(name)
  }

  function TopicKey(topic: string): string {
    "t_" + Lower(topic)
  }

  /** No two language names differ only in case. */
  predicate NoCaseClash(ls: seq<Language>) {
    forall i, j :: 0 <= i < j < |ls| ==> Lower(ls[i].name) != Lower(ls[j].name)
  }

  /** An empty or null language dictionary counts as one language,
      `Unknown`, of size 0. */
  function KnownLanguages(langs: Option<seq<Language>>): (ls: seq<Language>)
    ensures |ls| > 0
    ensures langs.Some? && |langs.value| > 0 ==> ls == langs.value
    ensures langs.None? || |langs.value| == 0 ==> ls == [Language("Unknown", 0)]
  {
    if langs.None? || |langs.value| == 0 then [Language("Unknown", 0)] else langs.value
  }

  /** The language part of a column: `l_` + the lower-cased name of each
      language, with its byte count. */
  function LanguageMap(ls: seq<Language>): map<string, int>
    decreases |ls|
  {
    if ls == [] then map[]
    else LanguageMap(ls[..|ls| - 1])[LanguageKey(ls[|ls| - 1].name) := ls[|ls| - 1].bytes]
  }

  /** Every language has its key, there are no other keys, and each value is
      the byte count of a language with that key. */
  lemma {:induction false} LanguageMapKeys(ls: seq<Language>)
    ensures forall i :: 0 <= i < |ls| ==> LanguageKey(ls[i].name) in LanguageMap(ls)
    ensures forall k :: k in LanguageMap(ls) ==>
      exists i :: 0 <= i < |ls| && k == LanguageKey(ls[i].name) && LanguageMap(ls)[k] == ls[i].bytes
    decreases |ls|
  {
    if ls != [] {
      var init, last := ls[..|ls| - 1], ls[|ls| - 1];
      LanguageMapKeys(init);
      assert forall i :: 0 <= i < |init| ==> init[i] == ls[i];
      forall k | k in LanguageMap(ls)
        ensures exists i :: 0 <= i < |ls| && k == LanguageKey(ls[i].name) && LanguageMap(ls)[k] == ls[i].bytes
      {
        if k == LanguageKey(last.name) {
          assert LanguageMap(ls)[k] == ls[|ls| - 1].bytes;
        } else {
          var i :| 0 <= i < |init| && k == LanguageKey(init[i].name) && LanguageMap(init)[k] == init[i].bytes;
          assert init[i] == ls[i];
        }
      }
    }
  }

  /** The topic part of a column: `t_` + each lower-cased topic, with value 1. */
  function TopicMap(topics: seq<string>): map<string, int>
    decreases |topics|
  {
    if topics == [] then map[]
    else TopicMap(topics[..|topics| - 1])[TopicKey(topics[|topics| - 1]) := 1]
  }

  /** Every topic has its key with value 1, and there are no other keys. */
  lemma {:induction false} TopicMapKeys(topics: seq<string>)
    ensures forall i :: 0 <= i < |topics| ==> TopicKey(topics[i]) in TopicMap(topics)
    ensures forall k :: k in TopicMap(topics) ==> TopicMap(topics)[k] == 1
    ensures forall k :: k in TopicMap(topics) ==> exists i :: 0 <= i < |topics| && k == TopicKey(topics[i])
    decreases |topics|
  {
    if topics != [] {
      var init := topics[..|topics| - 1];
      TopicMapKeys(init);
      assert forall i :: 0 <= i < |init| ==> init[i] == topics[i];
      forall k | k in TopicMap(topics) ensures exists i :: 0 <= i < |topics| && k == TopicKey(topics[i]) {
        if k != TopicKey(topics[|topics| - 1]) {
          var i :| 0 <= i < |init| && k == TopicKey(init[i]);
          assert init[i] == topics[i];
        }
      }
    }
  }

  /** The language part of a record's column. */
  function LanguageFeatures(langs: Option<seq<Language>>): map<string, int> {
    LanguageMap(KnownLanguages(langs))
  }

  /** When no two names differ only in case, each language's key holds
      exactly its byte count. */
  lemma LanguageValues(ls: seq<Language>)
    requires NoCaseClash(ls)
    ensures forall i :: 0 <= i < |ls| ==>
      LanguageKey(ls[i].name) in LanguageMap(ls) && LanguageMap(ls)[LanguageKey(ls[i].name)] == ls[i].bytes
  {
    var m := LanguageMap(ls);
    LanguageMapKeys(ls);
    forall i | 0 <= i < |ls| ensures m[LanguageKey(ls[i].name)] == ls[i].bytes {
      var k := LanguageKey(ls[i].name);
      var j :| 0 <= j < |ls| && k == LanguageKey(ls[j].name) && m[k] == ls[j].bytes;
      assert Lower(ls[i].name) == k[2..] == Lower(ls[j].name);
    }
  }

  lemma UnknownKey()
    ensures LanguageKey("Unknown") == "l_unknown"
  {
    var t := Lower("Unknown");
    assert t[0] == LowerChar('U') == 'u';
    assert forall i :: 1 <= i < 7 ==> t[i] == "Unknown"[i];
    assert t == "unknown";
  }

  /** Without a language dictionary the record gets exactly `l_unknown`,
      with value 0. */
  lemma UnknownLanguage(langs: Option<seq<Language>>)
    requires langs.None? || |langs.value| == 0
    ensures LanguageFeatures(langs) == map["l_unknown" := 0]
  {
    var ls := [Language("Unknown", 0)];
    assert KnownLanguages(langs) == ls;
    assert ls[..0] == [];
    assert LanguageMap(ls) == map[][LanguageKey("Unknown") := 0];
    UnknownKey();
  }

  /** Every language key starts with `l_`. */
  lemma LanguageKeysPrefixed(langs: Option<seq<Language>>)
    ensures forall k :: k in LanguageFeatures(langs) ==> StartsWith(k, "l_")
  {
    var ls := KnownLanguages(langs);
    LanguageMapKeys(ls);
    forall k | k in LanguageFeatures(langs) ensures StartsWith(k, "l_") {
      var i :| 0 <= i < |ls| && k == LanguageKey(ls[i].name) && LanguageMap(ls)[k] == ls[i].bytes;
      assert k[..2] == "l_";
    }
  }

  /** Every topic key starts with `t_`. */
  lemma TopicKeysPrefixed(topics: seq<string>)
    ensures forall k :: k in TopicMap(topics) ==> StartsWith(k, "t_")
  {
    TopicMapKeys(topics);
    forall k | k in TopicMap(topics) ensures StartsWith(k, "t_") {
      var i :| 0 <= i < |topics| && k == TopicKey(topics[i]);
      assert k[..2] == "t_";
    }
  }

  /** Language keys, topic keys and the readme label never collide, so
      stacking the three parts loses nothing. */
  lemma KeysDisjoint(langs: Option<seq<Language>>, topics: seq<string>)
    ensures forall k :: k in LanguageFeatures(langs) ==> StartsWith(k, "l_")
    ensures forall k :: k in TopicMap(topics) ==> StartsWith(k, "t_")
    ensures LanguageFeatures(langs).Keys !! TopicMap(topics).Keys
    ensures ReadmeKey !in LanguageFeatures(langs) && ReadmeKey !in TopicMap(topics)
  {
    LanguageKeysPrefixed(langs);
    TopicKeysPrefixed(topics);
    assert ReadmeKey[..2] == "re";
    forall k | k in LanguageFeatures(langs) ensures k !in TopicMap(topics) {
      assert k[..2] == "l_";
    }
  }

  /** The `readme` cell: the decoded `content` when `encoding` is `base64`
      (a missing `content` is a KeyError), otherwise `None`. The decoder is
      a parameter. */
  function ReadmeField(readme: map<string, string>, decode: string -> seq<bv8>): (r: Result<Option<seq<bv8>>>)
    ensures r.Failure? <==> "encoding" in readme && readme["encoding"] == "base64" && "content" !in readme
    ensures r.Failure? ==> r.error == KeyError
    ensures r.Success? && r.value.Some? <==>
      "encoding" in readme && readme["encoding"] == "base64" && "content" in readme
    ensures r.Success? && r.value.Some? ==> r.value.value == decode(readme["content"])
  {
    if "encoding" in readme && readme["encoding"] == "base64" then
      if "content" in readme then Success(Some(decode(readme["content"]))) else Failure(KeyError)
    else
      Success(None)
  }

  /** One record's column: its features are the language and topic parts
      stacked, and a README that cannot be read is the record's error.
      Iterating over NaN topics, or looking for `encoding` in a NaN README,
      is a TypeError; the topics are read first. */
  function BuildEntry(row: Row, decode: string -> seq<bv8>): Result<Entry>
  {
    match row.topics
    case None => Failure(TypeError)
    case Some(topics) =>
      match row.readme
      case None => Failure(TypeError)
      case Some(readme) =>
        match ReadmeField(readme, decode)
        case Failure(e) => Failure(e)
        case Success(cell) => Success(Entry(LanguageFeatures(row.languages) + TopicMap(topics), cell))
  }

  /** A record with NaN topics or a NaN README fails with a TypeError. */
  lemma EntryNaN(row: Row, decode: string -> seq<bv8>)
    ensures row.topics.None? || row.readme.None? ==>
      BuildEntry(row, decode) == Failure(TypeError)
  {
  }

  /** What a record's column holds: every language and topic feature with
      its value, nothing else, and the `readme` cell. A record with both
      fields present fails exactly when its README cannot be read. */
  lemma EntryContents(row: Row, decode: string -> seq<bv8>)
    ensures BuildEntry(row, decode).Failure? <==>
      row.topics.None? || row.readme.None? || ReadmeField(row.readme.value, decode).Failure?
    ensures BuildEntry(row, decode).Success? ==>
      var e, l, t := BuildEntry(row, decode).value, LanguageFeatures(row.languages), TopicMap(row.topics.value);
      && e.features.Keys == l.Keys + t.Keys
      && (forall k :: k in l ==> e.features[k] == l[k])
      && (forall k :: k in t ==> e.features[k] == 1)
      && e.readme == ReadmeField(row.readme.value, decode).value
      && ReadmeKey !in e.features
  {
    if row.topics.Some? {
      KeysDisjoint(row.languages, row.topics.value);
      TopicMapKeys(row.topics.value);
    }
  }

  /** The column name: `owner/repo`. */
  function Name(row: Row): string {
    row.owner + "/" + row.repo
  }

  /** The row labels of one column: its features and `readme`. */
  function EntryIndex(e: Entry): set<string> {
    e.features.Keys + {ReadmeKey}
  }

  /** The row labels of the concatenation: the union over all columns. */
  function IndexOf(es: seq<Entry>): set<string>
    decreases |es|
  {
    if es == [] then {} else IndexOf(es[..|es| - 1]) + EntryIndex(es[|es| - 1])
  }

  /** The row labels of a table. */
  function Index(t: Table): set<string> {
    IndexOf(t.entries)
  }

  /** A label is in the table exactly when some column has it; a column
      that lacks it reads NaN there. */
  lemma {:induction false} IndexOfMembers(es: seq<Entry>)
    ensures forall k :: k in IndexOf(es) <==> exists i :: 0 <= i < |es| && k in EntryIndex(es[i])
    decreases |es|
  {
    if es != [] {
      var init := es[..|es| - 1];
      IndexOfMembers(init);
      forall k | k in IndexOf(es) ensures exists i :: 0 <= i < |es| && k in EntryIndex(es[i]) {
        if k in IndexOf(init) {
          var i :| 0 <= i < |init| && k in EntryIndex(init[i]);
          assert es[i] == init[i];
        } else {
          assert k in EntryIndex(es[|es| - 1]);
        }
      }
      forall k | exists i :: 0 <= i < |es| && k in EntryIndex(es[i]) ensures k in IndexOf(es) {
        var i :| 0 <= i < |es| && k in EntryIndex(es[i]);
        if i < |es| - 1 {
          assert init[i] == es[i];
        }
      }
    }
  }

  /** The results of a loop that stops at the first failure: every value in
      order, or the first error. */
  function Collect<R>(rs: seq<Result<R>>): Result<seq<R>>
    decreases |rs|
  {
    if rs == [] then Success([])
    else
      match Collect(rs[..|rs| - 1])
      case Failure(e) => Failure(e)
      case Success(vs) =>
        match rs[|rs| - 1]
        case Failure(e) => Failure(e)
        case Success(v) => Success(vs + [v])
  }

  /** When every step succeeds, so does the loop. */
  lemma {:induction false} CollectAllSucceed<R>(rs: seq<Result<R>>)
    requires forall k :: 0 <= k < |rs| ==> rs[k].Success?
    ensures Collect(rs).Success?
    decreases |rs|
  {
    if rs != [] {
      var init := rs[..|rs| - 1];
      assert forall k :: 0 <= k < |init| ==> init[k] == rs[k];
      CollectAllSucceed(init);
    }
  }

  /** One failing step makes the loop fail. */
  lemma {:induction false} CollectOneFails<R>(rs: seq<Result<R>>, k: int)
    requires 0 <= k < |rs| && rs[k].Failure?
    ensures Collect(rs).Failure?
    decreases |rs|
  {
    if k < |rs| - 1 {
      var init := rs[..|rs| - 1];
      assert init[k] == rs[k];
      CollectOneFails(init, k);
    }
  }

  /** A successful loop holds every step's value, in order. */
  lemma {:induction false} CollectValues<R>(rs: seq<Result<R>>)
    requires Collect(rs).Success?
    ensures |Collect(rs).value| == |rs|
    ensures forall k :: 0 <= k < |rs| ==> rs[k] == Success(Collect(rs).value[k])
    decreases |rs|
  {
    if rs != [] {
      var init := rs[..|rs| - 1];
      CollectValues(init);
      var vs := Collect(init).value;
      var all := vs + [rs[|rs| - 1].value];
      assert Collect(rs) == Success(all);
      forall k | 0 <= k < |rs| ensures rs[k] == Success(all[k]) {
        if k < |init| {
          assert all[k] == vs[k] && init[k] == rs[k];
        }
      }
    }
  }

  /** A failing loop fails with the error of its first failing step. */
  lemma {:induction false} CollectFirstFailure<R>(rs: seq<Result<R>>)
    requires Collect(rs).Failure?
    ensures exists k ::
      0 <= k < |rs| && rs[k] == Failure(Collect(rs).error) &&
      forall j :: 0 <= j < k ==> rs[j].Success?
    decreases |rs|
  {
    var init := rs[..|rs| - 1];
    assert forall k :: 0 <= k < |init| ==> init[k] == rs[k];
    if Collect(init).Failure? {
      CollectFirstFailure(init);
      var k :| 0 <= k < |init| && init[k] == Failure(Collect(init).error) &&
        forall j :: 0 <= j < k ==> init[j].Success?;
      assert rs[k] == Failure(Collect(rs).error);
    } else {
      CollectValues(init);
      var k := |rs| - 1;
      assert rs[k] == Failure(Collect(rs).error);
      assert forall j :: 0 <= j < k ==> rs[j].Success?;
    }
  }

  /** Once a prefix fails, the whole loop fails with the same error. */
  lemma {:induction false} CollectFailurePropagates<R>(rs: seq<Result<R>>, n: int)
    requires 0 <= n <= |rs| && Collect(rs[..n]).Failure?
    ensures Collect(rs) == Collect(rs[..n])
    decreases |rs| - n
  {
    if n < |rs| {
      assert rs[..n + 1][..n] == rs[..n];
      CollectFailurePropagates(rs, n + 1);
    } else {
      assert rs[..n] == rs;
    }
  }

  /** One more step extends the prefix's values, or fails. */
  lemma CollectStep<R>(rs: seq<Result<R>>, n: int)
    requires 0 <= n < |rs|
    ensures Collect(rs[..n + 1]) ==
      if Collect(rs[..n]).Failure? then Collect(rs[..n])
      else if rs[n].Failure? then Failure(rs[n].error)
      else Success(Collect(rs[..n]).value + [rs[n].value])
  {
    assert rs[..n + 1][..n] == rs[..n];
  }

  /** Each record's column, or the error building it. */
  function Built(rows: seq<Row>, decode: string -> seq<bv8>): (bs: seq<Result<Entry>>)
    ensures |bs| == |rows| && forall k :: 0 <= k < |rows| ==> bs[k] == BuildEntry(rows[k], decode)
  {
    seq(|rows|, k requires 0 <= k < |rows| => BuildEntry(rows[k], decode))
  }

  /** The columns of the records in order, or the error of the first record
      whose column cannot be built. */
  function Columns(rows: seq<Row>, decode: string -> seq<bv8>): Result<seq<Entry>>
  {
    Collect(Built(rows, decode))
  }

  /** The column names, `owner/repo` for each record in order. */
  function Names(rows: seq<Row>): (ns: seq<string>)
    ensures |ns| == |rows| && forall k :: 0 <= k < |rows| ==> ns[k] == Name(rows[k])
  {
    seq(|rows|, k requires 0 <= k < |rows| => Name(rows[k]))
  }

  /** Every record builds, and the columns are the records' columns in
      order; otherwise the error is that of the first record that fails. */
  lemma ColumnsContents(rows: seq<Row>, decode: string -> seq<bv8>)
    ensures Columns(rows, decode).Success? <==>
      forall k :: 0 <= k < |rows| ==> BuildEntry(rows[k], decode).Success?
    ensures Columns(rows, decode).Success? ==>
      var es := Columns(rows, decode).value;
      |es| == |rows| && forall k :: 0 <= k < |rows| ==> BuildEntry(rows[k], decode) == Success(es[k])
    ensures Columns(rows, decode).Failure? ==>
      exists k :: 0 <= k < |rows| && BuildEntry(rows[k], decode) == Failure(Columns(rows, decode).error)
        && forall j :: 0 <= j < k ==> BuildEntry(rows[j], decode).Success?
  {
    var bs := Built(rows, decode);
    if forall k :: 0 <= k < |rows| ==> BuildEntry(rows[k], decode).Success? {
      CollectAllSucceed(bs);
      CollectValues(bs);
    } else {
      var k :| 0 <= k < |rows| && !BuildEntry(rows[k], decode).Success?;
      CollectOneFails(bs, k);
      CollectFirstFailure(bs);
    }
  }

  /** `vectorize` on a table of records. */
  function VectorizeRows(rows: seq<Row>, decode: string -> seq<bv8>): Result<Table> {
    match Columns(rows, decode)
    case Failure(e) => Failure(e)
    case Success(es) => Success(Table(Names(rows), es))
  }

  /** `vectorize`: one column per record, accumulated in record order. A
      record whose README cannot be read stops the loop with its error. */
  method Vectorize(data: Data, decode: string -> seq<bv8>) returns (r: Result<Table>)
    ensures data.NotFrame? ==> r == Failure(TypeError)
    ensures data.Frame? ==> r == VectorizeRows(data.rows, decode)
  {
    if data.NotFrame? {
      return Failure(TypeError);
    }
    var rows := data.rows;
    ghost var bs := Built(rows, decode);
    var t := Table([], []);
    for n := 0 to |rows|
      invariant Collect(bs[..n]) == Success(t.entries)
      invariant t.names == Names(rows[..n])
    {
      var e := BuildEntry(rows[n], decode);
      CollectStep(bs, n);
      if e.Failure? {
        CollectFailurePropagates(bs, n + 1);
        return Failure(e.error);
      }
      assert Names(rows[..n + 1]) == Names(rows[..n]) + [Name(rows[n])];
      t := Table(t.names + [Name(rows[n])], t.entries + [e.value]);
    }
    assert bs[..|rows|] == bs && rows[..|rows|] == rows;
    return Success(t);
  }

  /** The table has one column per record, named `owner/repo`, in record
      order, holding that record's column; its row labels are the union of
      the columns' labels. It fails exactly when some record's column
      cannot be built. */
  lemma VectorizeRowsShape(rows: seq<Row>, decode: string -> seq<bv8>)
    ensures VectorizeRows(rows, decode).Success? <==>
      forall k :: 0 <= k < |rows| ==> BuildEntry(rows[k], decode).Success?
    ensures VectorizeRows(rows, decode).Success? ==>
      var t := VectorizeRows(rows, decode).value;
      && |t.names| == |rows| && |t.entries| == |rows|
      && (forall k :: 0 <= k < |rows| ==> t.names[k] == Name(rows[k]))
      && (forall k :: 0 <= k < |rows| ==> BuildEntry(rows[k], decode) == Success(t.entries[k]))
      && (forall x :: x in Index(t) <==> exists k :: 0 <= k < |rows| && x in EntryIndex(t.entries[k]))
  {
    ColumnsContents(rows, decode);
    if VectorizeRows(rows, decode).Success? {
      IndexOfMembers(VectorizeRows(rows, decode).value.entries);
    }
  }
}
