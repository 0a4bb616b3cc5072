# GitHub repository recommender, modelled in Dafny

The recommender suggests GitHub repositories to a user. It compares the user's
own repositories with candidate repositories on three signals: programming
languages, topics and README text. Each signal gives one score per candidate.
The scores are then combined with fixed weights, ranked and normalised.

This project models the core of that pipeline and proves properties of it:

- **Text** — the Python string operations the core relies on: `find`,
  `replace`, `startswith`, `lower`, `split`, `join` and `strip`.
- **Preprocess** — README tokenisation. This covers quote stripping and
  lower-casing, and removal of bracketed passages as a method with its two
  nested loops. It also covers the noise-word filter, the character
  whitelist, whitespace collapsing and the minimum word length.
- **Vectorize** — repository records become feature columns: `l_<language>`
  maps to a byte count, `t_<topic>` maps to 1, and `readme` holds the decoded
  README. This is a method with the record loop.
- **Helper** — min-max normalisation and normalisation against zero, the
  Jaccard score of two topic vectors, and the split of the user and
  repository tables into aligned language and topic parts.
- **Recommend** —
  - the argument guards;
  - removal of the user's own repositories;
  - the binary `reshape`;
  - the mean-centred language vector handed to the cosine similarity;
  - the per-candidate topic scores;
  - the README candidate rows;
  - `combine_scores`: weighted, sorted by decreasing score, normalised;
  - the placeholder feature weights.

How the model represents the data:

- **Series and columns.** A pandas Series of scores is a sequence of
  `Scored(id, score)` entries. A numeric feature column is a `map` from row
  label to value. A label absent from a column's map is NaN.
- **DataFrames.** A DataFrame is a set of row labels plus a sequence of
  labelled columns.
- **Errors.** Exceptions are the `Failure` case of a `Result`. A value whose
  run-time type matters is described by a `PyType` argument.
- **Numbers.** Real numbers are exact `real`s. Integers are unbounded.

## Model

| member | source | states |
|---|---|---|
| Text.Find | code/preprocess.py:66 | `str.find`: -1 exactly when the pattern does not occur, otherwise the lowest index of an occurrence |
| Text.Replace | code/preprocess.py:69-70 | `str.replace` for a nonempty pattern; its meaning is stated by Text.ReplaceFind and the lemmas below |
| Text.ReplaceFind | code/preprocess.py:69-70 | no occurrence leaves the string unchanged; otherwise the text before the first occurrence (as `find` reports it) is kept, the occurrence becomes the replacement, and replacement continues after it |
| Text.ReplaceRemovesAll | code/preprocess.py:69-70 | replacing a pattern by a string sharing no character with it leaves no occurrence of the pattern |
| Text.ReplaceLength | code/preprocess.py:69-70 | a replacement no longer than the pattern never lengthens the string |
| Text.ReplaceDeletes | code/preprocess.py:20 | replacing one character by the empty string deletes exactly that character |
| Text.ReplaceOneByOne | code/preprocess.py:20 | replacing one character by another substitutes it at every position and changes nothing else |
| Text.Lower | code/preprocess.py:21 | lower-casing keeps the length and maps each character by itself |
| Text.LowerNormalizes | code/preprocess.py:21 | after lower-casing no A-Z letter is left, and lower-casing again changes nothing |
| Text.Split | code/preprocess.py:47 | `split()` yields only nonempty words without whitespace |
| Text.SplitLeadingSpace | code/preprocess.py:47 | a leading whitespace character is skipped |
| Text.SplitLeadingWord | code/preprocess.py:47 | a leading word followed by whitespace or the end is taken whole as the first word; with the empty case this fixes the words of every string as its maximal whitespace-free runs, in order |
| Text.SplitJoin | code/preprocess.py:47 | joining words with single spaces and splitting again gives back the same words |
| Text.SplitAppendSpace | code/preprocess.py:47 | a space separates: the words of `a + " " + b` are the words of `a` followed by those of `b` |
| Text.JoinSingleSpaced | code/preprocess.py:47 | words joined by one space form a single-spaced string with no space at either end |
| Text.StripSingleSpaced | code/preprocess.py:47 | `strip` leaves a single-spaced string unchanged |
| Preprocess.BracketStep | code/preprocess.py:68-72 | an inverted pair leaves neither delimiter and never lengthens the text; otherwise the text from the first opening delimiter through the first character of the first closing delimiter is cut out, keeping what is before and after |
| Preprocess.ClearPair | code/preprocess.py:66-72 | the `while` loop ends with the two delimiters no longer both present, and never lengthens the text |
| Preprocess.RemoveBracketed | code/preprocess.py:54-73 | the nested `for`/`while` loops compute the same text as the pair-by-pair reference definition |
| Preprocess.WithoutBrackets | code/preprocess.py:65-73 | the pair-by-pair reference definition of bracket removal; stated by the WithoutBrackets lemmas below |
| Preprocess.InvertedSpaces | code/preprocess.py:68-70 | for one-character delimiters the inverted branch substitutes a space for each delimiter and keeps every other character and the length |
| Preprocess.WithoutBracketsShorter | code/preprocess.py:65-73 | bracket removal never lengthens the text |
| Preprocess.WithoutBracketsUnchanged | code/preprocess.py:65-73 | a text in which no listed pair has both delimiters is returned unchanged |
| Preprocess.WithoutBracketsCleared | code/preprocess.py:65-73 | after the loops, the last pair and every pair of one-character delimiters no longer has both delimiters in the text |
| Preprocess.BracketsCleared | code/preprocess.py:34 | with the tokenizer's four pairs, no pair has both delimiters left |
| Preprocess.StripQuotesDeletes | code/preprocess.py:20 | the five chained replacements delete exactly newline, carriage return, both quote marks and the backtick |
| Preprocess.StripQuotes | code/preprocess.py:20 | the five chained replacements; their effect is stated by Preprocess.StripQuotesDeletes |
| Preprocess.NoiseOfWord | code/preprocess.py:31 | on a word the regular expression matches exactly when `http` or `git` starts at position 0 or 1, a noise character occurs, or `!`/`;` is in first or second place |
| Preprocess.IsNoise | code/preprocess.py:31 | `patterns.match`; its meaning on words is stated by Preprocess.NoiseOfWord |
| Preprocess.DropNoise | code/preprocess.py:37 | keeps exactly the words the pattern does not match |
| Preprocess.DropNoiseSingle | code/preprocess.py:37 | a single word is kept exactly when the pattern does not match it |
| Preprocess.DropNoiseAppend | code/preprocess.py:37 | filtering a concatenation filters each part, so the kept words keep their order |
| Preprocess.NonAsciiSeparates | code/preprocess.py:43-47 | a non-ASCII character splits the words on either side of it instead of joining them |
| Preprocess.LongWords | code/preprocess.py:50 | keeps exactly the words of at least `minlength` characters |
| Preprocess.LongWordsSingle | code/preprocess.py:50 | a single word is kept exactly when it has at least `minlength` characters |
| Preprocess.LongWordsAppend | code/preprocess.py:50 | filtering a concatenation filters each part, so the kept words keep their order |
| Preprocess.CleanedShape | code/preprocess.py:20-47 | the text before the length filter uses only space, digits and a-z, and is single-spaced |
| Preprocess.Cleaned | code/preprocess.py:20-47 | the text before the length filter; its shape is stated by Preprocess.CleanedShape |
| Preprocess.TokenizeAlphabet | code/preprocess.py:8-52 | every character of the tokenizer's output is a space, a digit or a lower-case letter |
| Preprocess.TokenizeWords | code/preprocess.py:8-52 | the output is words joined by single spaces, with no space at either end, every word at least `minlength` long |
| Preprocess.Tokenize | code/preprocess.py:19-52 | a value that is not a string gives the empty string |
| Vectorize.LanguageMapKeys | code/vectorize.py:34-35 | every language has its `l_` key, and every key is the byte count of a language with that key |
| Vectorize.LanguageMap | code/vectorize.py:34-35 | the language part of a record; stated by Vectorize.LanguageMapKeys and Vectorize.LanguageValues |
| Vectorize.LanguageValues | code/vectorize.py:34-35 | when no two names differ only in case, each language's key holds exactly its byte count |
| Vectorize.UnknownLanguage | code/vectorize.py:30-35 | a record without languages gets exactly `l_unknown` with value 0 |
| Vectorize.TopicMapKeys | code/vectorize.py:23-24 | every topic has its `t_` key with value 1, and there are no other keys |
| Vectorize.TopicMap | code/vectorize.py:23-24 | the topic part of a record; stated by Vectorize.TopicMapKeys |
| Vectorize.UnknownKey | code/vectorize.py:31-35 | the placeholder language `Unknown` becomes the label `l_unknown` |
| Vectorize.LanguageKeysPrefixed | code/vectorize.py:35 | every language label starts with `l_` |
| Vectorize.TopicKeysPrefixed | code/vectorize.py:23 | every topic label starts with `t_` |
| Vectorize.KeysDisjoint | code/vectorize.py:45 | language keys, topic keys and `readme` never collide, so stacking the parts loses nothing |
| Vectorize.ReadmeField | code/vectorize.py:38-42 | a base64 README gives its decoded content, a missing `content` is a KeyError, any other encoding gives None |
| Vectorize.EntryContents | code/vectorize.py:22-46 | a record with topics and README present fails exactly when its README cannot be read; otherwise its column holds exactly its language and topic features with their values, and its `readme` cell |
| Vectorize.EntryNaN | code/vectorize.py:22-38 | a record whose topics or README are NaN, as for a repository without an accepted licence, fails with a TypeError |
| Vectorize.BuildEntry | code/vectorize.py:22-46 | one record's column; stated by Vectorize.EntryContents, Vectorize.EntryNaN and Vectorize.ReadmeField |
| Vectorize.CollectAllSucceed | code/vectorize.py:20-49 | when every record's column builds, the record loop succeeds |
| Vectorize.CollectOneFails | code/vectorize.py:20-49 | one record whose column cannot be built makes the loop fail |
| Vectorize.CollectValues | code/vectorize.py:20-49 | a successful loop holds every record's column, in record order |
| Vectorize.CollectFirstFailure | code/vectorize.py:20-49 | a failing loop fails with the error of the first record that fails |
| Vectorize.CollectFailurePropagates | code/vectorize.py:20-49 | once a record fails, the result is that failure whatever follows |
| Vectorize.ColumnsContents | code/vectorize.py:20-49 | the loop succeeds exactly when every record builds, giving their columns in order; otherwise the error is that of the first record that fails |
| Vectorize.Vectorize | code/vectorize.py:12-51 | anything other than a table is a TypeError; otherwise the record loop computes the reference table |
| Vectorize.VectorizeRowsShape | code/vectorize.py:12-51 | one column per record, named and ordered as the records; row labels are the union of the columns' labels; failure exactly when some record fails |
| Vectorize.VectorizeRows | code/vectorize.py:17-51 | the reference table of the record loop; stated by Vectorize.VectorizeRowsShape and Vectorize.ColumnsContents |
| Helper.ArgMax | code/helper.py:245 | the maximum is the score of some entry |
| Helper.ArgMin | code/helper.py:245 | the minimum is the score of some entry |
| Helper.MaxIsLargest | code/helper.py:245 | no score exceeds the maximum |
| Helper.MinIsSmallest | code/helper.py:245 | no score is below the minimum |
| Helper.NormalizeIds | code/helper.py:240-250 | normalisation keeps the entries' labels and their order |
| Helper.Normalize | code/helper.py:240-250 | min-max scaling; stated by the Normalize lemmas |
| Helper.NormalizeRange | code/helper.py:245-250 | with a nonzero range each score becomes its distance from the minimum divided by the range, in [0, 1]; the minimum maps to 0 and the maximum to 1 |
| Helper.NormalizeOrder | code/helper.py:240-250 | normalisation preserves the order between any two scores, in both directions |
| Helper.NormalizeFlat | code/helper.py:245-248 | a Series whose scores are all equal (range 0) is returned unchanged |
| Helper.NormalizeUnit | code/helper.py:245-250 | a Series whose minimum is 0 and maximum is 1 is a fixed point |
| Helper.NormalizeIdempotent | code/helper.py:240-250 | normalising twice gives the same as normalising once |
| Helper.ComboScoreIds | code/helper.py:253-260 | normalisation against zero keeps labels and order |
| Helper.NormalizeComboScore | code/helper.py:253-260 | division by the maximum; stated by the ComboScore lemmas |
| Helper.ComboScoreZero | code/helper.py:255-258 | an empty Series, or one whose maximum is 0, is returned unchanged |
| Helper.ComboScoreDivides | code/helper.py:255-260 | any other Series, whatever the signs of its scores, has each score divided by the maximum |
| Helper.ComboScoreOrder | code/helper.py:259-260 | with a positive maximum the order between any two scores is kept, in both directions |
| Helper.ComboScoreRange | code/helper.py:253-260 | for non-negative scores with a nonzero maximum the maximum is positive, every score lands in [0, 1] and the maximum maps to 1 |
| Helper.SumBinary | code/helper.py:274-275 | the sum of a 0/1 vector is the number of its marked features |
| Helper.SumNonNegative | code/helper.py:274-275 | a non-negative vector has a non-negative sum, positive when some entry is positive |
| Helper.SumSubvector | code/helper.py:274-275 | a non-negative vector restricted to some features sums to no more than the whole |
| Helper.JaccardSets | code/helper.py:273-280 | on aligned 0/1 vectors, identical marked sets give 0; otherwise the score is the size of the intersection over the size of the union of the marked sets |
| Helper.Jaccard | code/helper.py:273-280 | the Jaccard score; stated by Helper.JaccardSets, Helper.JaccardSymmetric, Helper.JaccardRange and Helper.JaccardDefined |
| Helper.JaccardSymmetric | code/helper.py:273-280 | on aligned 0/1 vectors the score does not depend on argument order |
| Helper.JaccardRange | code/helper.py:273-280 | on aligned 0/1 vectors the score is defined and lies in [0, 1); it is never 1, even for identical topic sets |
| Helper.JaccardDefined | code/helper.py:277-280 | non-negative inputs never divide by a zero union |
| Helper.UserName | code/helper.py:297 | the user name is a prefix of the label without `/`, followed in the label by `/` unless it is the whole label: the part before the first `/` |
| Helper.GetLangsTopics | code/helper.py:295-319 | fails exactly when the user table has no column, with an IndexError |
| Helper.DropColumnsKeeps | code/helper.py:314-317 | a column survives exactly when its label is not dropped; without a clash all columns stay |
| Helper.DropColumns | code/helper.py:314-317 | `drop(..., axis='columns')`; stated by Helper.DropColumnsKeeps and Helper.DropColumnsOrder |
| Helper.DropColumnsOrder | code/helper.py:314-317 | the surviving columns keep their order |
| Helper.LangsTopicsAligned | code/helper.py:300-317 | the user and repository language parts share the `l_` labels of both tables, the topic parts share the `t_` labels, every frame is without NaN, and the two label sets are disjoint |
| Helper.LangsTopicsUserValues | code/helper.py:300-316 | the user's language value is the row total over the user's repositories; the topic value is that total binarised, and 0 where the user lacks the row |
| Helper.LangsTopicsRepoValues | code/helper.py:305-317 | the candidate columns keep their labels, their order and their values, with 0 for rows they lack |
| Helper.LangsTopicsBinary | code/helper.py:309 | with non-negative user values and 0/1 candidate values on the `t_` rows, the user topics and candidate topics are 0/1 |
| Helper.LangsNonNegative | code/helper.py:300-313 | with non-negative user values on the `l_` rows, the user language totals are non-negative |
| Recommend.GuardOnlyBoth | code/recommend.py:25-26 | each TypeError guard passes as soon as one argument has the expected type |
| Recommend.DropOwnedKeeps | code/recommend.py:29-30 | a candidate column survives exactly when the user has no column with its label; order, rows and well-formedness are kept |
| Recommend.DropOwned | code/recommend.py:29-30 | removal of the user's own repositories; stated by Recommend.DropOwnedKeeps |
| Recommend.Trunc | code/recommend.py:156 | conversion to `int` truncates toward zero |
| Recommend.Reshape | code/recommend.py:133-171 | fails exactly when the user is not a DataFrame or the repository is neither a DataFrame nor a Series: TypeError when neither is a DataFrame, otherwise the failure of the first method that does not apply |
| Recommend.ReshapeSeriesRepo | code/recommend.py:141-171 | a DataFrame user with a Series repository is reshaped, the Series acting as a one-column frame: a user vector and a one-column frame over the union of the rows less `readme` |
| Recommend.ReshapeShape | code/recommend.py:144-168 | the user vector and the repository frame range over the union of both tables' rows, less `readme`; the repository frame keeps its columns and has no NaN |
| Recommend.ReshapeBinary | code/recommend.py:151-169 | every value is 0 or 1; the user's is 1 exactly when the truncated row total is nonzero; a candidate's is 1 exactly when its value, NaN read as 0, is nonzero |
| Recommend.RowSumDropRows | code/recommend.py:144-155 | dropping other rows does not change a row's total |
| Recommend.SumOverShift | code/recommend.py:44 | subtracting a constant from n entries lowers their total by n times that constant |
| Recommend.CentreSumsToZero | code/recommend.py:44 | the mean-centred vector keeps its features and sums to 0 |
| Recommend.Centre | code/recommend.py:44 | subtraction of the mean; stated by Recommend.CentreSumsToZero |
| Recommend.LangInputsOf | code/recommend.py:10-44 | fails exactly when an argument is not a DataFrame |
| Recommend.LangInputsShape | code/recommend.py:29-44 | the vectors handed to the cosine similarity cover exactly the `l_` rows of both tables other than `readme`, the user's vector sums to 0, and no candidate is the user's own |
| Recommend.TopicScoresErrors | code/recommend.py:74-86 | topic scoring succeeds exactly when both arguments are DataFrames, both have a `readme` row and the user has a column |
| Recommend.TopicScores | code/recommend.py:59-94 | `recommend_topic` up to the Jaccard scores; stated by Recommend.TopicScoresErrors and Recommend.TopicScoresRange |
| Recommend.TopicScoresRange | code/recommend.py:59-94 | with non-negative user values and 0/1 candidate values on the `t_` rows, every scored candidate is one the user does not own and gets a finite score in [0, 1) |
| Recommend.ReadmeCandidates | code/recommend.py:117-122 | fails on the guard or when an argument has no row labels |
| Recommend.ReadmeCandidatesKeeps | code/recommend.py:121-122 | the candidates are exactly the repository rows the user does not have, with every column's label and values kept |
| Recommend.InsertBelow | code/recommend.py:179 | insertion introduces no score above a bound that the entry and the Series respect |
| Recommend.InsertSorted | code/recommend.py:179 | inserting into a non-increasing Series keeps it non-increasing |
| Recommend.InsertPerm | code/recommend.py:179 | insertion adds exactly the one entry and nothing else |
| Recommend.SortDescSorted | code/recommend.py:179 | `sort_values(ascending=False)` gives a non-increasing rearrangement of the same entries |
| Recommend.SortDesc | code/recommend.py:179 | `sort_values(ascending=False)`; stated by Recommend.SortDescSorted and Recommend.SortDescIds |
| Recommend.InsertIds | code/recommend.py:179 | insertion adds exactly the entry's label |
| Recommend.SortDescIds | code/recommend.py:179 | sorting rearranges the labels and loses none |
| Recommend.NormalizeKeepsOrder | code/recommend.py:179 | normalising a non-increasing Series keeps it non-increasing |
| Recommend.CombineScores | code/recommend.py:174-181 | a weight vector whose length differs from the number of signals is a ValueError, and is the only failure |
| Recommend.CombineScoresRanked | code/recommend.py:174-181 | the combined scores are non-increasing, list each candidate exactly once, and normalise a sorted rearrangement of the weighted totals |
| Recommend.DotThree | code/recommend.py:176 | a three-signal dot product is the sum of the three weighted signals |
| Recommend.FeatureWeightsEqual | code/recommend.py:185-191 | the weights are three times 0.33 for every user, so the weighted total is 0.33 times the plain total and candidates rank as their plain totals do |
| Recommend.FeatureWeights | code/recommend.py:185-191 | the placeholder weights; stated by Recommend.FeatureWeightsEqual |

## Left out

- Text.Lower: lower-cases only the ASCII letters A-Z; Python's `str.lower` also maps other letters. In `tokenize` most non-ASCII letters become spaces later either way, but a few map to ASCII: the Kelvin sign U+212A becomes `k`, and U+0130 becomes `i` followed by a combining dot. For these the model's output differs.
- Vectorize.LanguageMap and Vectorize.TopicMap: the feature labels use the same ASCII-only lower-casing, and `vectorize` has no non-ASCII step. A topic or language name with a non-ASCII capital, such as `ÄPFEL`, gets a different label in the model (`t_Äpfel` instead of `t_äpfel`).
- Vectorize.LanguageValues: needs language names that do not differ only in case. When two names clash, both write the same `l_` label; the model lets the last one win, while pandas keeps a duplicated label.
- The base64 decoder is a function parameter of `vectorize`. Decoding is not modelled, and neither is the error for malformed base64.
- The column selection `data[[...]]` in `vectorize` is built into the record type. A table that lacks one of the five fields (a KeyError in pandas) cannot be expressed. A field that is present but NaN for some record can be: the topics and README are optional in the record type (Vectorize.EntryNaN). A NaN language dictionary is not modelled; a record from a repository without an accepted licence has NaN topics, which fail first.
- `tfidf`, `filter_pos`, `l2_norm` and `get_readme_sim` are left out, and so is the cosine similarity in `recommend_lang`. They are floating-point linear algebra in scikit-learn, numpy and nltk. The model stops at the inputs these receive: LangInputsOf and ReadmeCandidates.
- Helper.Jaccard: numpy's division by a zero union yields infinity or NaN rather than an exception. The model returns `None` in that case.
- All arithmetic is exact. Floating-point rounding, infinities and NaN arithmetic are not modelled; a missing cell stands for an unfilled NaN.
- The order of pandas row labels is not modelled; row labels form a set. Column order is modelled.
- Recommend.Reshape and the other entry points: an argument of the wrong type that passes a guard, and that a later method does not accept, raises whatever exception that method raises on it. The model reports these uniformly as `NotADataFrame`. For example, a Series user fails at `.columns` in `recommend_lang` and at `sum(axis=1)` in `reshape`. A Series repository in `reshape` is accepted, and the model reshapes it as a one-column frame (Recommend.ReshapeSeriesRepo).
- A candidate column named like the user name, or named `User`, collides with the temporary column of the same name in `get_langs_topics` and `reshape`. Dropping it removes the candidate as well. Duplicated labels are not modelled.
- Helper.JaccardSets, Helper.JaccardSymmetric and Helper.JaccardRange: need the two vectors on the same labels. `get_langs_topics` guarantees this (LangsTopicsAligned), and pandas would align unequal labels.
- Preprocess.RemoveBracketed: the model covers only delimiters that are nonempty and contain no space. The four pairs the tokenizer passes meet this. Empty delimiters are excluded. With only one of them empty the source still ends: an empty opening delimiter in `remove_bracketed("a)b", [("", ")")])` gives `b`, and an empty closing delimiter in `remove_bracketed("(x", [("(", "")])` gives `x`. With both empty it never ends. Delimiters with a space are excluded because the clearing proof does not apply to them. Tokenize uses the reference definition the method is proved equal to.
- Preprocess.BracketStep: for delimiters longer than one character, the contract of the inverted branch states only that neither delimiter is left and the text does not grow. The full effect of that branch is two `replace` calls, described by Text.ReplaceFind. For one-character delimiters, Preprocess.InvertedSpaces states it position by position.
- The in-place binarisations `user_topics[user_topics > 0] = 1` and in `reshape` act on fresh local frames. They are modelled as value maps; there is no aliasing to observe.
- Recommend.SortDesc: pandas does not fix the order of equal scores. The model puts an entry before later ones of equal score; every statement about ranking holds for any order of ties.
- Recommend.TopicScores: the trailing `astype('float')` has no effect on exact reals and is not modelled.
- Recommend.FeatureWeightsEqual: the weights are a 3-by-1 column; the model treats them as a sequence of three reals.
