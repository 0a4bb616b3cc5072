/** README tokenization: quote stripping, bracket removal, the noise-word
    filter, the character whitelist and the minimum word length
    (code/preprocess.py). */
module Preprocess {
  import opened Text

  // ---------------------------------------------------------------------
  // remove_bracketed
  // ---------------------------------------------------------------------

  /** An opening and a closing delimiter, each a string. */
  datatype Bracket = Bracket(open: string, close: string)

  /** The delimiters this model covers: nonempty and free of spaces, as
      are the four pairs the tokenizer passes. With two empty delimiters
      the source loop never ends; a delimiter holding a space could be
      recreated by the spaces the inverted branch writes. */
  predicate ValidBracket(b: Bracket) {
    |b.open| > 0 && |b.close| > 0 && NoCharIn(b.open, " ") && NoCharIn(b.close, " ")
  }

  predicate ValidBrackets(bs: seq<Bracket>) {
    forall k :: 0 <= k < |bs| ==> ValidBracket(bs[k])
  }

  predicate SingleChars(b: Bracket) {
    |b.open| == 1 && |b.close| == 1
  }

  /** The pairs the tokenizer removes: square, angle and curly brackets and
      parenthesised links. */
  const Brackets: seq<Bracket> :=
    [Bracket("[", "]"), Bracket("<", ">"), Bracket("{", "}"), Bracket("(http", ")")]

  /** The loop condition: both delimiters occur in `s`. */
  predicate BothPresent(s: string, b: Bracket) {
    Find(s, b.open) != -1 && Find(s, b.close) != -1
  }

  /** The first opening delimiter comes after the first closing one. */
  predicate Inverted(s: string, b: Bracket) {
    Find(s, b.open) > Find(s, b.close)
  }

  /** Replacing every occurrence of both delimiters by a space leaves
      neither delimiter behind and does not lengthen the text. */
  lemma SpacingClears(s: string, b: Bracket)
    requires ValidBracket(b)
    ensures var t := Replace(Replace(s, b.open, " "), b.close, " ");
      |t| <= |s| && !Contains(t, b.open) && !Contains(t, b.close)
  {
    var t1 := Replace(s, b.open, " ");
    ReplaceRemovesAll(s, b.open, " ");
    ReplaceLength(s, b.open, " ");
    ReplaceRemovesAll(t1, b.close, " ");
    ReplaceKeepsAbsent(t1, b.close, " ", b.open);
    ReplaceLength(t1, b.close, " ");
  }

  /** `t` is `s` with the characters at `i` through `j` cut out: what comes
      before and what comes after are kept in order. */
  predicate Cut(s: string, t: string, i: int, j: int) {
    0 <= i <= j < |s| && |t| == |s| - (j + 1 - i) && t[..i] == s[..i] && t[i..] == s[j + 1..]
  }

  lemma CutKeeps(s: string, i: int, j: int)
    requires 0 <= i <= j < |s|
    ensures Cut(s, s[..i] + s[j + 1..], i, j)
  {
  }

  /** One iteration of the removal loop. An inverted pair has every
      occurrence of both delimiters turned into a space; otherwise the text
      from the first opening delimiter up to and including the first
      character of the first closing delimiter is cut out. */
  function BracketStep(s: string, b: Bracket): (t: string)
    requires ValidBracket(b) && BothPresent(s, b)
    ensures |t| <= |s|
    ensures Inverted(s, b) ==> !Contains(t, b.open) && !Contains(t, b.close)
    ensures !Inverted(s, b) ==> Cut(s, t, Find(s, b.open), Find(s, b.close))
  {
    if Inverted(s, b) then
      SpacingClears(s, b);
      Replace(Replace(s, b.open, " "), b.close, " ")
    else
      var i, j := Find(s, b.open), Find(s, b.close);
      assert OccursAt(s, b.close, j);
      CutKeeps(s, i, j);
      s[..i] + s[j + 1..]
  }

  /** The `while` loop for one pair: iterate the step while both delimiters
      occur. */
  function ClearPair(s: string, b: Bracket): (t: string)
    requires ValidBracket(b)
    ensures !BothPresent(t, b)
    ensures |t| <= |s|
    decreases |s|, if BothPresent(s, b) then 1 else 0
  {
    if BothPresent(s, b) then ClearPair(BracketStep(s, b), b) else s
  }

  /** The `for` loop: clear each pair in turn. */
  function WithoutBrackets(s: string, bs: seq<Bracket>): string
    requires ValidBrackets(bs)
    decreases |bs|
  {
    if bs == [] then s else WithoutBrackets(ClearPair(s, bs[0]), bs[1..])
  }

  /** `remove_bracketed`, with its two nested loops. */
  method RemoveBracketed(line: string, brackets: seq<Bracket>) returns (r: string)
    requires ValidBrackets(brackets)
    ensures r == WithoutBrackets(line, brackets)
  {
    r := line;
    for n := 0 to |brackets|
      invariant WithoutBrackets(r, brackets[n..]) == WithoutBrackets(line, brackets)
    {
      var b := brackets[n];
      ghost var start := r;
      while Find(r, b.open) != -1 && Find(r, b.close) != -1
        invariant ClearPair(r, b) == ClearPair(start, b)
        decreases |r|, if BothPresent(r, b) then 1 else 0
      {
        ghost var prev := r;
        if Find(r, b.open) > Find(r, b.close) {
          r := Replace(r, b.open, " ");
          r := Replace(r, b.close, " ");
        } else {
          r := r[..Find(r, b.open)] + r[Find(r, b.close) + 1..];
        }
        assert r == BracketStep(prev, b);
      }
      assert brackets[n..][1..] == brackets[n + 1..];
    }
  }

  // ---------------------------------------------------------------------
  // Properties of bracket removal
  // ---------------------------------------------------------------------

  /** For one-character delimiters, the inverted branch is a character-wise
      substitution: each delimiter becomes a space, everything else stays. */
  lemma InvertedSpaces(s: string, b: Bracket)
    requires ValidBracket(b) && SingleChars(b) && BothPresent(s, b) && Inverted(s, b)
    ensures |BracketStep(s, b)| == |s|
    ensures forall k :: 0 <= k < |s| ==>
      BracketStep(s, b)[k] == (if s[k] == b.open[0] || s[k] == b.close[0] then ' ' else s[k])
  {
    assert b.open == [b.open[0]] && b.close == [b.close[0]];
    ReplaceOneByOne(s, b.open[0], ' ');
    ReplaceOneByOne(SubstChar(s, b.open[0], ' '), b.close[0], ' ');
  }

  /** Bracket removal only deletes characters or writes spaces. */
  lemma StepChars(s: string, b: Bracket, a: set<char>)
    requires ValidBracket(b) && BothPresent(s, b) && AllIn(s, a) && ' ' in a
    ensures AllIn(BracketStep(s, b), a)
  {
    if Inverted(s, b) {
      ReplaceChars(s, b.open, " ", a);
      ReplaceChars(Replace(s, b.open, " "), b.close, " ", a);
    } else {
      CutChars(s, BracketStep(s, b), Find(s, b.open), Find(s, b.close), a);
    }
  }

  lemma CutChars(s: string, t: string, i: int, j: int, a: set<char>)
    requires Cut(s, t, i, j) && AllIn(s, a)
    ensures AllIn(t, a)
  {
    forall k | 0 <= k < |t| ensures t[k] in a {
      if k < i {
        assert t[k] == t[..i][k] == s[k];
      } else {
        assert t[k] == t[i..][k - i] == s[j + 1..][k - i];
      }
    }
  }

  lemma {:induction false} ClearPairChars(s: string, b: Bracket, a: set<char>)
    requires ValidBracket(b) && AllIn(s, a) && ' ' in a
    ensures AllIn(ClearPair(s, b), a)
    decreases |s|, if BothPresent(s, b) then 1 else 0
  {
    if BothPresent(s, b) {
      StepChars(s, b, a);
      ClearPairChars(BracketStep(s, b), b, a);
    }
  }

  lemma {:induction false} WithoutBracketsChars(s: string, bs: seq<Bracket>, a: set<char>)
    requires ValidBrackets(bs) && AllIn(s, a) && ' ' in a
    ensures AllIn(WithoutBrackets(s, bs), a)
    decreases |bs|
  {
    if bs != [] {
      ClearPairChars(s, bs[0], a);
      WithoutBracketsChars(ClearPair(s, bs[0]), bs[1..], a);
    }
  }

  /** Bracket removal never lengthens the text. */
  lemma {:induction false} WithoutBracketsShorter(s: string, bs: seq<Bracket>)
    requires ValidBrackets(bs)
    ensures |WithoutBrackets(s, bs)| <= |s|
    decreases |bs|
  {
    if bs != [] {
      WithoutBracketsShorter(ClearPair(s, bs[0]), bs[1..]);
    }
  }

  /** A text in which no listed pair has both delimiters is returned as is. */
  lemma {:induction false} WithoutBracketsUnchanged(s: string, bs: seq<Bracket>)
    requires ValidBrackets(bs)
    requires forall k :: 0 <= k < |bs| ==> !BothPresent(s, bs[k])
    ensures WithoutBrackets(s, bs) == s
    decreases |bs|
  {
    if bs != [] {
      assert !BothPresent(s, bs[0]);
      assert forall k :: 0 <= k < |bs[1..]| ==> bs[1..][k] == bs[k + 1];
      WithoutBracketsUnchanged(s, bs[1..]);
    }
  }

  /** The characters of a string. */
  function CharsOf(s: string): (cs: set<char>)
    ensures forall c :: c in cs <==> c in s
  {
    set c | c in s
  }

  lemma ClearedSingle(s: string, b: Bracket)
    requires ValidBracket(b) && SingleChars(b) && !BothPresent(s, b)
    ensures b.open[0] !in s || b.close[0] !in s
  {
    assert b.open == [b.open[0]] && b.close == [b.close[0]];
    ContainsChar(s, b.open[0]);
    ContainsChar(s, b.close[0]);
  }

  /** Once a pair of one-character delimiters is cleared, later pairs can
      only delete characters or write spaces, so it stays cleared. */
  lemma StaysCleared(s: string, b: Bracket, bs: seq<Bracket>)
    requires ValidBracket(b) && SingleChars(b) && ValidBrackets(bs) && !BothPresent(s, b)
    ensures !BothPresent(WithoutBrackets(s, bs), b)
  {
    var x, y := b.open[0], b.close[0];
    assert b.open == [x] && b.close == [y];
    ClearedSingle(s, b);
    AllInCharsOf(s);
    WithoutBracketsChars(s, bs, CharsOf(s) + {' '});
    var t := WithoutBrackets(s, bs);
    assert x != ' ' && y != ' ';
    assert x !in t || y !in t;
    ContainsChar(t, x);
    ContainsChar(t, y);
  }

  lemma AllInCharsOf(s: string)
    ensures AllIn(s, CharsOf(s) + {' '})
  {
    forall i | 0 <= i < |s| ensures s[i] in CharsOf(s) + {' '} {
      assert s[i] in s;
    }
  }

  /** After the loops, the last pair and every pair of one-character
      delimiters no longer has both delimiters in the text. */
  lemma {:induction false} WithoutBracketsCleared(s: string, bs: seq<Bracket>, k: int)
    requires ValidBrackets(bs) && 0 <= k < |bs|
    requires k == |bs| - 1 || SingleChars(bs[k])
    ensures !BothPresent(WithoutBrackets(s, bs), bs[k])
    decreases |bs|
  {
    var t := ClearPair(s, bs[0]);
    if k == 0 {
      if |bs| == 1 {
        assert bs[1..] == [];
      } else {
        StaysCleared(t, bs[0], bs[1..]);
      }
    } else {
      assert bs[1..][k - 1] == bs[k];
      WithoutBracketsCleared(t, bs[1..], k - 1);
    }
  }

  lemma BracketsValid()
    ensures ValidBrackets(Brackets)
  {
    assert ValidBracket(Brackets[3]);
  }

  /** With the tokenizer's pairs, no pair survives with both delimiters. */
  lemma BracketsCleared(s: string)
    ensures ValidBrackets(Brackets)
    ensures forall k :: 0 <= k < |Brackets| ==> !BothPresent(WithoutBrackets(s, Brackets), Brackets[k])
  {
    BracketsValid();
    forall k | 0 <= k < |Brackets|
      ensures !BothPresent(WithoutBrackets(s, Brackets), Brackets[k])
    {
      WithoutBracketsCleared(s, Brackets, k);
    }
  }

  // ---------------------------------------------------------------------
  // tokenize
  // ---------------------------------------------------------------------

  /** The README cell handed to the tokenizer: a string, or any other value
      such as the NaN of a missing README. */
  datatype ReadmeValue = Str(s: string) | NotStr

  /** The characters deleted first: newline, carriage return, both quote
      marks and the backtick. */
  const QuoteChars: set<char> := {'\n', '\r', '"', '\'', '`'}

  /** The output alphabet: space, digits and lower-case ASCII letters. */
  const KeepChars: set<char> :=
    {' ', '0', '1', '2', '3', '4', '5', '6', '7', '8', '9',
     'a', 'b', 'c', 'd', 'e', 'f', 'g', 'h', 'i', 'j', 'k', 'l', 'm',
     'n', 'o', 'p', 'q', 'r', 's', 't', 'u', 'v', 'w', 'x', 'y', 'z'}

  /** The five chained `replace` calls; the double quote first becomes a
      single quote, which the next call deletes. */
  function StripQuotes(s: string): string {
    Replace(Replace(Replace(Replace(Replace(s, "\n", ""), "\r", ""), "\"", "'"), "'", ""), "`", "")
  }

  /** The chain deletes exactly the quote characters and inserts nothing. */
  lemma StripQuotesDeletes(s: string)
    ensures StripQuotes(s) == DropChars(s, QuoteChars)
  {
    assert "\n" == ['\n'] && "\r" == ['\r'] && "\"" == ['"'] && "'" == ['\''] && "`" == ['`'];
    var s1 := Replace(s, "\n", "");
    ReplaceDeletes(s, '\n');
    var s2 := Replace(s1, "\r", "");
    ReplaceDeletes(s1, '\r');
    DropTwice(s, {'\n'}, {'\r'});
    assert {'\n'} + {'\r'} == {'\n', '\r'};
    assert s2 == DropChars(s, {'\n', '\r'});
    var s3 := Replace(s2, "\"", "'");
    ReplaceOneByOne(s2, '"', '\'');
    var s4 := Replace(s3, "'", "");
    ReplaceDeletes(s3, '\'');
    DropAfterSubst(s2, '"', '\'');
    DropTwice(s, {'\n', '\r'}, {'"', '\''});
    assert {'\n', '\r'} + {'"', '\''} == {'\n', '\r', '"', '\''};
    assert {'"', '\''} == {'\'', '"'};
    assert s4 == DropChars(s, {'\n', '\r', '"', '\''});
    ReplaceDeletes(s4, '`');
    DropTwice(s, {'\n', '\r', '"', '\''}, {'`'});
    assert {'\n', '\r', '"', '\''} + {'`'} == QuoteChars;
  }

  /** The regular-expression prefix `^.?p`: `p` at the start, or after one
      character other than a newline. */
  predicate AfterAtMostOne(w: string, p: string) {
    StartsWith(w, p) || (|w| > 0 && w[0] != '\n' && StartsWith(w[1..], p))
  }

  /** The characters whose presence makes a word noise. */
  const NoiseChars: set<char> := {'@', '\\', '/', ':', '|', '$', '*', '#', '(', ')'}

  /** The regular expression's `.*[...].*` alternatives: a noise character
      with no newline before it. */
  predicate HasNoiseChar(w: string) {
    exists i :: 0 <= i < |w| && w[i] in NoiseChars && '\n' !in w[..i]
  }

  /** A word the noise pattern matches at its start: a link or git
      reference, an address or path, or an exclamation or semicolon in
      first or second place. */
  predicate IsNoise(w: string) {
    || AfterAtMostOne(w, "http")
    || AfterAtMostOne(w, "git")
    || HasNoiseChar(w)
    || AfterAtMostOne(w, "!")
    || AfterAtMostOne(w, ";")
  }

  /** For whitespace-free words the pattern reads as plain membership tests. */
  lemma NoiseOfWord(w: string)
    requires IsWord(w)
    ensures IsNoise(w) <==>
      || StartsWith(w, "http") || (|w| > 0 && StartsWith(w[1..], "http"))
      || StartsWith(w, "git") || (|w| > 0 && StartsWith(w[1..], "git"))
      || (exists c :: c in NoiseChars && c in w)
      || (|w| > 0 && w[0] in {'!', ';'}) || (|w| > 1 && w[1] in {'!', ';'})
  {
    forall i | 0 <= i < |w| ensures w[i] != '\n' {
      assert !IsSpace(w[i]);
    }
    if HasNoiseChar(w) {
      var i :| 0 <= i < |w| && w[i] in NoiseChars && '\n' !in w[..i];
      assert w[i] in w;
    }
    if exists c :: c in NoiseChars && c in w {
      var c :| c in NoiseChars && c in w;
      var i :| 0 <= i < |w| && w[i] == c;
      assert '\n' !in w[..i];
    }
    if |w| > 0 {
      assert w[..1] == [w[0]];
    }
    if |w| > 1 {
      assert w[1..][..1] == [w[1]];
    }
  }

  /** The words the noise pattern does not match, in order. */
  function DropNoise(ws: seq<string>): (r: seq<string>)
    ensures |r| <= |ws|
    ensures forall w :: w in r <==> w in ws && !IsNoise(w)
    decreases |ws|
  {
    if ws == [] then [] else (if IsNoise(ws[0]) then [] else [ws[0]]) + DropNoise(ws[1..])
  }

  /** Non-ASCII characters become spaces. */
  function SpaceNonAscii(s: string): (t: string)
    ensures |t| == |s|
    ensures forall i :: 0 <= i < |s| ==> t[i] == (if s[i] as int < 128 then s[i] else ' ')
  {
    seq(|s|, i requires 0 <= i < |s| => if s[i] as int < 128 then s[i] else ' ')
  }

  /** The words of at least `minlength` characters, in order. */
  function LongWords(ws: seq<string>, minlength: int): (r: seq<string>)
    ensures |r| <= |ws|
    ensures forall w :: w in r <==> w in ws && |w| >= minlength
    decreases |ws|
  {
    if ws == [] then [] else (if |ws[0]| >= minlength then [ws[0]] else []) + LongWords(ws[1..], minlength)
  }

  /** The noise filter looks at one word at a time: a single word is kept
      exactly when it is not noise, and filtering distributes over
      concatenation. Together these fix the result, order included. */
  lemma DropNoiseSingle(w: string)
    ensures DropNoise([w]) == if IsNoise(w) then [] else [w]
  {
    assert [w][1..] == [];
  }

  lemma {:induction false} DropNoiseAppend(a: seq<string>, b: seq<string>)
    ensures DropNoise(a + b) == DropNoise(a) + DropNoise(b)
    decreases |a|
  {
    if a == [] {
      assert a + b == b;
    } else {
      assert (a + b)[0] == a[0] && (a + b)[1..] == a[1..] + b;
      DropNoiseAppend(a[1..], b);
    }
  }

  /** The length filter, likewise: one word at a time, in order. */
  lemma LongWordsSingle(w: string, minlength: int)
    ensures LongWords([w], minlength) == if |w| >= minlength then [w] else []
  {
    assert [w][1..] == [];
  }

  lemma {:induction false} LongWordsAppend(a: seq<string>, b: seq<string>, minlength: int)
    ensures LongWords(a + b, minlength) == LongWords(a, minlength) + LongWords(b, minlength)
    decreases |a|
  {
    if a == [] {
      assert a + b == b;
    } else {
      assert (a + b)[0] == a[0] && (a + b)[1..] == a[1..] + b;
      LongWordsAppend(a[1..], b, minlength);
    }
  }

  /** The string before the length filter (lines 20-47): quotes deleted,
      lower-cased, brackets removed, noise words dropped, non-ASCII spaced,
      the alphabet enforced and whitespace collapsed. */
  function Cleaned(line: string): string {
    var a := Lower(StripQuotes(line));
    BracketsValid();
    var b := WithoutBrackets(a, Brackets);
    var c := Join(DropNoise(Split(b)), " ");
    var d := KeepOnly(SpaceNonAscii(c), KeepChars);
    Strip(Join(Split(d), " "))
  }

  /** `tokenize`. */
  function Tokenize(v: ReadmeValue, minlength: int): (r: string)
    ensures v.NotStr? ==> r == ""
  {
    match v
    case NotStr => ""
    case Str(line) => Join(LongWords(Split(Cleaned(line)), minlength), " ")
  }

  lemma WordsOf(ws: seq<string>)
    requires forall i :: 0 <= i < |ws| ==> IsWord(ws[i])
    ensures forall w :: w in ws ==> IsWord(w)
  {
  }

  /** The collapsed string uses only the output alphabet and is already
      single-spaced. */
  lemma CleanedShape(line: string)
    ensures AllIn(Cleaned(line), KeepChars)
    ensures SingleSpaced(Cleaned(line))
  {
    BracketsValid();
    var b := WithoutBrackets(Lower(StripQuotes(line)), Brackets);
    var c := Join(DropNoise(Split(b)), " ");
    var d := KeepOnly(SpaceNonAscii(c), KeepChars);
    assert AllIn(d, KeepChars);
    SplitChars(d, KeepChars);
    JoinChars(Split(d), KeepChars);
    JoinSingleSpaced(Split(d));
    StripSingleSpaced(Join(Split(d), " "));
  }

  /** The length filter keeps the alphabet of its input. */
  lemma FilterChars(e: string, minlength: int, a: set<char>)
    requires AllIn(e, a) && ' ' in a
    ensures AllIn(Join(LongWords(Split(e), minlength), " "), a)
  {
    SplitChars(e, a);
    var ws := LongWords(Split(e), minlength);
    forall i | 0 <= i < |ws| ensures AllIn(ws[i], a) {
      var j :| 0 <= j < |Split(e)| && Split(e)[j] == ws[i];
    }
    JoinChars(ws, a);
  }

  /** After the length filter the text is single-spaced words, each at
      least `minlength` long. */
  lemma FilterWords(e: string, minlength: int)
    ensures SingleSpaced(Join(LongWords(Split(e), minlength), " "))
    ensures forall w :: w in Split(Join(LongWords(Split(e), minlength), " ")) ==> |w| >= minlength
  {
    var ws := LongWords(Split(e), minlength);
    forall i | 0 <= i < |ws| ensures IsWord(ws[i]) {
      var j :| 0 <= j < |Split(e)| && Split(e)[j] == ws[i];
    }
    JoinSingleSpaced(ws);
    SplitJoin(ws);
  }

  /** Every character of the output is a space, a digit or a lower-case
      ASCII letter. */
  lemma TokenizeAlphabet(v: ReadmeValue, minlength: int)
    ensures AllIn(Tokenize(v, minlength), KeepChars)
  {
    if v.Str? {
      CleanedShape(v.s);
      FilterChars(Cleaned(v.s), minlength, KeepChars);
    }
  }

  /** The output is words joined by single spaces, with no space at either
      end, and every word has at least `minlength` characters. */
  lemma TokenizeWords(v: ReadmeValue, minlength: int)
    ensures SingleSpaced(Tokenize(v, minlength))
    ensures forall w :: w in Split(Tokenize(v, minlength)) ==> |w| >= minlength
  {
    if v.Str? {
      FilterWords(Cleaned(v.s), minlength);
    }
  }

  lemma SpaceNonAsciiAppend(a: string, b: string)
    ensures SpaceNonAscii(a + b) == SpaceNonAscii(a) + SpaceNonAscii(b)
  {
  }

  /** A non-ASCII character separates the words on either side of it
      instead of joining them. */
  lemma NonAsciiSeparates(x: string, u: char, y: string)
    requires u as int >= 128
    ensures Split(KeepOnly(SpaceNonAscii(x + [u] + y), KeepChars))
      == Split(KeepOnly(SpaceNonAscii(x), KeepChars)) + Split(KeepOnly(SpaceNonAscii(y), KeepChars))
  {
    SpaceNonAsciiAppend(x + [u], y);
    SpaceNonAsciiAppend(x, [u]);
    assert SpaceNonAscii([u]) == " ";
    var x', y' := SpaceNonAscii(x), SpaceNonAscii(y);
    KeepAppend(x' + " ", y', KeepChars);
    KeepAppend(x', " ", KeepChars);
    assert KeepOnly(" ", KeepChars) == " ";
    SplitAppendSpace(KeepOnly(x', KeepChars), KeepOnly(y', KeepChars));
  }
}
