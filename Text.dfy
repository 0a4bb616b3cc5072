/** The Python `str` operations the tokenizer and the vectorizer rely on:
    `find`, `replace`, ASCII `lower`, whitespace `split`, `join` and `strip`,
    with the facts about them that the later proofs need. */
module Text {

  /** Python's `str.isspace()` on one character. */
  predicate IsSpace(c: char) {
    || c == ' '
    || ('\t' <= c <= '\r')
    || ('\U{1C}' <= c <= '\U{1F}')
    || c == '\U{85}' || c == '\U{A0}' || c == '\U{1680}'
    || ('\U{2000}' <= c <= '\U{200A}')
    || c == '\U{2028}' || c == '\U{2029}' || c == '\U{202F}' || c == '\U{205F}' || c == '\U{3000}'
  }

  /** Every character of `s` lies in `a`. */
  predicate AllIn(s: string, a: set<char>) {
    forall i :: 0 <= i < |s| ==> s[i] in a
  }

  /** No character of `p` occurs in `r`. */
  predicate NoCharIn(p: string, r: string) {
    forall j :: 0 <= j < |p| ==> p[j] !in r
  }

  // ---------------------------------------------------------------------
  // Occurrences, find
  // ---------------------------------------------------------------------

  predicate OccursAt(s: string, p: string, i: int) {
    0 <= i && i + |p| <= |s| && s[i..i + |p|] == p
  }

  /** `s.startswith(p)`. */
  predicate StartsWith(s: string, p: string) {
    |p| <= |s| && s[..|p|] == p
  }

  predicate Contains(s: string, p: string) {
    exists i :: 0 <= i <= |s| && OccursAt(s, p, i)
  }

  lemma OccursDrop(s: string, m: nat, p: string, i: int)
    requires m <= |s| && 0 <= i
    ensures OccursAt(s[m..], p, i) <==> OccursAt(s, p, i + m)
  {
    if i + |p| <= |s| - m {
      assert s[m..][i..i + |p|] == s[i + m..i + m + |p|];
    }
  }

  lemma OccursAppend(a: string, b: string, p: string, i: int)
    requires |a| <= i
    ensures OccursAt(a + b, p, i) <==> OccursAt(b, p, i - |a|)
  {
    OccursDrop(a + b, |a|, p, i - |a|);
    assert (a + b)[|a|..] == b;
  }

  /** An occurrence in a suffix is an occurrence in the whole string. */
  lemma ContainsDrop(s: string, m: nat, p: string)
    requires m <= |s| && Contains(s[m..], p)
    ensures Contains(s, p)
  {
    var i :| 0 <= i <= |s[m..]| && OccursAt(s[m..], p, i);
    OccursDrop(s, m, p, i);
  }

  /** A one-character pattern occurs exactly when the character does. */
  lemma ContainsChar(s: string, c: char)
    ensures Contains(s, [c]) <==> c in s
  {
    if c in s {
      var i :| 0 <= i < |s| && s[i] == c;
      assert s[i..i + 1] == [c];
      assert OccursAt(s, [c], i);
    }
    if Contains(s, [c]) {
      var i :| 0 <= i <= |s| && OccursAt(s, [c], i);
      assert s[i] == s[i..i + 1][0];
    }
  }

  lemma OccursTail(s: string, p: string)
    requires |s| > 0
    ensures forall i :: 1 <= i ==> (OccursAt(s, p, i) <==> OccursAt(s[1..], p, i - 1))
  {
    forall i | 1 <= i ensures OccursAt(s, p, i) <==> OccursAt(s[1..], p, i - 1) {
      OccursDrop(s, 1, p, i - 1);
    }
  }

  /** Python's `str.find`: the lowest index of an occurrence of `p`, or -1. */
  function Find(s: string, p: string): (r: int)
    ensures -1 <= r <= |s|
    ensures r == -1 <==> !Contains(s, p)
    ensures r >= 0 ==> OccursAt(s, p, r)
    ensures r >= 0 ==> forall i :: 0 <= i < r ==> !OccursAt(s, p, i)
    decreases |s|
  {
    if |s| < |p| then -1
    else if s[..|p|] == p then assert OccursAt(s, p, 0); 0
    else
      var k := Find(s[1..], p);
      OccursTail(s, p);
      assert !OccursAt(s, p, 0);
      if k == -1 then -1 else assert OccursAt(s, p, k + 1); k + 1
  }

  // ---------------------------------------------------------------------
  // replace
  // ---------------------------------------------------------------------

  /** Python's `str.replace(p, r)` for a nonempty pattern: every occurrence,
      found left to right without overlap, becomes `r`. */
  function Replace(s: string, p: string, r: string): string
    requires |p| > 0
    decreases |s|
  {
    if |s| < |p| then s
    else if s[..|p|] == p then r + Replace(s[|p|..], p, r)
    else [s[0]] + Replace(s[1..], p, r)
  }

  /** `replace` in terms of `find`: no occurrence leaves the string as it
      is; otherwise the text before the first occurrence is kept, the
      occurrence becomes `r`, and replacement goes on after it. */
  lemma ReplaceFind(s: string, p: string, r: string)
    requires |p| > 0
    ensures Find(s, p) == -1 ==> Replace(s, p, r) == s
    ensures Find(s, p) >= 0 ==>
      Find(s, p) + |p| <= |s| &&
      Replace(s, p, r) == s[..Find(s, p)] + r + Replace(s[Find(s, p) + |p|..], p, r)
  {
    if Find(s, p) == -1 {
      ReplaceAbsent(s, p, r);
    } else {
      ReplaceFirst(s, p, r, Find(s, p));
    }
  }

  lemma {:induction false} ReplaceFirst(s: string, p: string, r: string, i: nat)
    requires |p| > 0 && OccursAt(s, p, i)
    requires forall j :: 0 <= j < i ==> !OccursAt(s, p, j)
    ensures Replace(s, p, r) == s[..i] + r + Replace(s[i + |p|..], p, r)
    decreases i
  {
    if i == 0 {
      ReplaceAtHead(s, p, r);
    } else {
      var t := s[1..];
      OccursDrop(s, 1, p, i - 1);
      forall j | 0 <= j < i - 1 ensures !OccursAt(t, p, j) {
        OccursDrop(s, 1, p, j);
      }
      ReplaceFirst(t, p, r, i - 1);
      ReplacePastHead(s, p, r, i, Replace(s[i + |p|..], p, r));
    }
  }

  /** An occurrence at the front is replaced. */
  lemma ReplaceAtHead(s: string, p: string, r: string)
    requires |p| > 0 && OccursAt(s, p, 0)
    ensures Replace(s, p, r) == s[..0] + r + Replace(s[|p|..], p, r)
  {
    assert s[..|p|] == s[0..|p|];
    assert s[..0] + r == r;
  }

  /** Without an occurrence at the front, the first character is kept. */
  lemma ReplacePastHead(s: string, p: string, r: string, i: nat, rest: string)
    requires |p| > 0 && 0 < i && i + |p| <= |s| && !OccursAt(s, p, 0)
    requires rest == Replace(s[i + |p|..], p, r)
    requires Replace(s[1..], p, r) == s[1..][..i - 1] + r + Replace(s[1..][i - 1 + |p|..], p, r)
    ensures Replace(s, p, r) == s[..i] + r + rest
  {
    ReplaceSkip(s, p, r);
    var t := s[1..];
    assert t[i - 1 + |p|..] == s[i + |p|..];
    var pre := t[..i - 1];
    assert [s[0]] + pre == s[..i];
    ConsSplice(s[0], pre, r, rest);
  }

  lemma ReplaceSkip(s: string, p: string, r: string)
    requires |p| > 0 && |p| <= |s| && !OccursAt(s, p, 0)
    ensures Replace(s, p, r) == [s[0]] + Replace(s[1..], p, r)
  {
    assert s[0..|p|] == s[..|p|];
  }

  lemma ConsSplice(c: char, pre: string, r: string, rest: string)
    ensures [c] + (pre + r + rest) == ([c] + pre) + r + rest
  {
  }

  /** A string without the pattern is returned unchanged. */
  lemma {:induction false} ReplaceAbsent(s: string, p: string, r: string)
    requires |p| > 0 && !Contains(s, p)
    ensures Replace(s, p, r) == s
    decreases |s|
  {
    if |s| < |p| {
    } else {
      assert !OccursAt(s, p, 0);
      if Contains(s[1..], p) { ContainsDrop(s, 1, p); }
      ReplaceAbsent(s[1..], p, r);
    }
  }

  /** A replacement no longer than the pattern never lengthens the string. */
  lemma {:induction false} ReplaceLength(s: string, p: string, r: string)
    requires |p| > 0 && |r| <= |p|
    ensures |Replace(s, p, r)| <= |s|
    decreases |s|
  {
    if |s| < |p| {
    } else if s[..|p|] == p {
      ReplaceLength(s[|p|..], p, r);
    } else {
      ReplaceLength(s[1..], p, r);
    }
  }

  /** Every character of the result comes from the input or from `r`. */
  lemma {:induction false} ReplaceChars(s: string, p: string, r: string, a: set<char>)
    requires |p| > 0 && AllIn(s, a) && AllIn(r, a)
    ensures AllIn(Replace(s, p, r), a)
    decreases |s|
  {
    if |s| < |p| {
    } else if s[..|p|] == p {
      ReplaceChars(s[|p|..], p, r, a);
    } else {
      ReplaceChars(s[1..], p, r, a);
    }
  }

  /** The first character of an occurrence is the pattern's first character. */
  lemma OccursHead(t: string, p: string, i: int)
    requires |p| > 0
    ensures OccursAt(t, p, i) ==> t[i] == p[0]
  {
    if OccursAt(t, p, i) {
      assert t[i..i + |p|][0] == t[i];
    }
  }

  /** An occurrence at the front of `[x] + rest`, one character at a time. */
  lemma OccursCons(x: char, rest: string, p: string)
    requires |p| > 0
    ensures OccursAt([x] + rest, p, 0) <==> x == p[0] && OccursAt(rest, p[1..], 0)
  {
    var t := [x] + rest;
    if |p| <= |t| {
      assert t[0..|p|] == [x] + rest[0..|p| - 1];
      assert p == [p[0]] + p[1..];
    }
  }

  /** If the result of a replacement starts with `q`, a string sharing no
      character with `r`, then the input already started with `q`. */
  lemma {:induction false} ReplaceNoNewPrefix(u: string, p: string, r: string, q: string)
    requires |p| > 0 && |r| > 0 && NoCharIn(q, r)
    ensures OccursAt(Replace(u, p, r), q, 0) ==> OccursAt(u, q, 0)
    decreases |u|
  {
    var t := Replace(u, p, r);
    if |q| == 0 {
      assert u[0..0] == q;
    } else if |u| < |p| {
    } else if u[..|p|] == p {
      assert t == r + Replace(u[|p|..], p, r);
      OccursHead(t, q, 0);
      assert t[0] == r[0];
    } else {
      var rest := Replace(u[1..], p, r);
      assert t == [u[0]] + rest;
      OccursCons(u[0], rest, q);
      ReplaceNoNewPrefix(u[1..], p, r, q[1..]);
      OccursCons(u[0], u[1..], q);
      assert [u[0]] + u[1..] == u;
    }
  }

  /** When `r` shares no character with `p`, no occurrence of `p` survives. */
  lemma {:induction false} ReplaceRemovesAll(s: string, p: string, r: string)
    requires |p| > 0 && |r| > 0 && NoCharIn(p, r)
    ensures !Contains(Replace(s, p, r), p)
    decreases |s|
  {
    var t := Replace(s, p, r);
    if |s| < |p| {
    } else if s[..|p|] == p {
      var rest := Replace(s[|p|..], p, r);
      ReplaceRemovesAll(s[|p|..], p, r);
      assert t == r + rest;
      forall i | 0 <= i <= |t| ensures !OccursAt(t, p, i) {
        if i < |r| {
          OccursHead(t, p, i);
          assert t[i] == r[i];
        } else {
          OccursAppend(r, rest, p, i);
        }
      }
    } else {
      var rest := Replace(s[1..], p, r);
      ReplaceRemovesAll(s[1..], p, r);
      assert t == [s[0]] + rest;
      forall i | 0 <= i <= |t| ensures !OccursAt(t, p, i) {
        if i == 0 {
          OccursCons(s[0], rest, p);
          ReplaceNoNewPrefix(s[1..], p, r, p[1..]);
          OccursCons(s[0], s[1..], p);
          assert [s[0]] + s[1..] == s;
          assert !OccursAt(s, p, 0);
        } else {
          OccursAppend([s[0]], rest, p, i);
        }
      }
    }
  }

  /** Replacing `c` by a string that shares no character with `o` cannot
      create an occurrence of `o`. */
  lemma {:induction false} ReplaceKeepsAbsent(u: string, c: string, r: string, o: string)
    requires |c| > 0 && |r| > 0 && |o| > 0 && NoCharIn(o, r) && !Contains(u, o)
    ensures !Contains(Replace(u, c, r), o)
    decreases |u|
  {
    var t := Replace(u, c, r);
    if |u| < |c| {
    } else if u[..|c|] == c {
      var rest := Replace(u[|c|..], c, r);
      if Contains(u[|c|..], o) { ContainsDrop(u, |c|, o); }
      ReplaceKeepsAbsent(u[|c|..], c, r, o);
      assert t == r + rest;
      forall i | 0 <= i <= |t| ensures !OccursAt(t, o, i) {
        if i < |r| {
          OccursHead(t, o, i);
          assert t[i] == r[i];
        } else {
          OccursAppend(r, rest, o, i);
        }
      }
    } else {
      var rest := Replace(u[1..], c, r);
      if Contains(u[1..], o) { ContainsDrop(u, 1, o); }
      ReplaceKeepsAbsent(u[1..], c, r, o);
      assert t == [u[0]] + rest;
      forall i | 0 <= i <= |t| ensures !OccursAt(t, o, i) {
        if i == 0 {
          OccursCons(u[0], rest, o);
          ReplaceNoNewPrefix(u[1..], c, r, o[1..]);
          OccursCons(u[0], u[1..], o);
          assert [u[0]] + u[1..] == u;
          assert !OccursAt(u, o, 0);
        } else {
          OccursAppend([u[0]], rest, o, i);
        }
      }
    }
  }

  // ---------------------------------------------------------------------
  // character-wise rewriting
  // ---------------------------------------------------------------------

  /** Every `x` becomes `y`. */
  function SubstChar(s: string, x: char, y: char): (t: string)
    ensures |t| == |s|
    ensures forall i :: 0 <= i < |s| ==> t[i] == (if s[i] == x then y else s[i])
    decreases |s|
  {
    if s == [] then [] else [if s[0] == x then y else s[0]] + SubstChar(s[1..], x, y)
  }

  /** The characters of `s` outside `cs`, in order. */
  function DropChars(s: string, cs: set<char>): (t: string)
    ensures |t| <= |s|
    ensures forall c :: c in t <==> c in s && c !in cs
    decreases |s|
  {
    if s == [] then [] else (if s[0] in cs then [] else [s[0]]) + DropChars(s[1..], cs)
  }

  /** The characters of `s` inside `cs`, in order. */
  function KeepOnly(s: string, cs: set<char>): (t: string)
    ensures |t| <= |s|
    ensures forall c :: c in t <==> c in s && c in cs
    decreases |s|
  {
    if s == [] then [] else (if s[0] in cs then [s[0]] else []) + KeepOnly(s[1..], cs)
  }

  /** `replace` of one character by one character substitutes it everywhere. */
  lemma {:induction false} ReplaceOneByOne(s: string, x: char, y: char)
    ensures Replace(s, [x], [y]) == SubstChar(s, x, y)
    decreases |s|
  {
    if s != [] {
      assert s[..1] == [s[0]];
      ReplaceOneByOne(s[1..], x, y);
    }
  }

  /** `replace` of one character by the empty string deletes it everywhere. */
  lemma {:induction false} ReplaceDeletes(s: string, x: char)
    ensures Replace(s, [x], "") == DropChars(s, {x})
    decreases |s|
  {
    if s != [] {
      assert s[..1] == [s[0]];
      ReplaceDeletes(s[1..], x);
    }
  }

  lemma {:induction false} DropAppend(a: string, b: string, cs: set<char>)
    ensures DropChars(a + b, cs) == DropChars(a, cs) + DropChars(b, cs)
    decreases |a|
  {
    if a == [] {
      assert a + b == b;
    } else {
      assert (a + b)[1..] == a[1..] + b;
      DropAppend(a[1..], b, cs);
    }
  }

  lemma {:induction false} DropTwice(s: string, a: set<char>, b: set<char>)
    ensures DropChars(DropChars(s, a), b) == DropChars(s, a + b)
    decreases |s|
  {
    if s != [] {
      var h := if s[0] in a then [] else [s[0]];
      DropTwice(s[1..], a, b);
      DropAppend(h, DropChars(s[1..], a), b);
      if s[0] !in a {
        assert h[1..] == [];
        assert DropChars(h, b) == (if s[0] in b then [] else [s[0]]) + DropChars(h[1..], b);
      }
    }
  }

  lemma {:induction false} DropAfterSubst(s: string, x: char, y: char)
    ensures DropChars(SubstChar(s, x, y), {y}) == DropChars(s, {x, y})
    decreases |s|
  {
    if s != [] {
      DropAfterSubst(s[1..], x, y);
      assert SubstChar(s, x, y)[1..] == SubstChar(s[1..], x, y);
    }
  }

  lemma {:induction false} KeepAppend(a: string, b: string, cs: set<char>)
    ensures KeepOnly(a + b, cs) == KeepOnly(a, cs) + KeepOnly(b, cs)
    decreases |a|
  {
    if a == [] {
      assert a + b == b;
    } else {
      assert (a + b)[1..] == a[1..] + b;
      KeepAppend(a[1..], b, cs);
    }
  }

  // ---------------------------------------------------------------------
  // lower (ASCII)
  // ---------------------------------------------------------------------

  predicate IsUpper(c: char) { 'A' <= c <= 'Z' }

  function LowerChar(c: char): char {
    if IsUpper(c) then (c as int + 32) as char else c
  }

  /** `str.lower()` restricted to the ASCII letters A-Z. */
  function Lower(s: string): (t: string)
    ensures |t| == |s|
    ensures forall i :: 0 <= i < |s| ==> t[i] == LowerChar(s[i])
    decreases |s|
  {
    if s == [] then [] else [LowerChar(s[0])] + Lower(s[1..])
  }

  /** Lowercasing leaves no upper-case ASCII letter and is idempotent. */
  lemma LowerNormalizes(s: string)
    ensures forall i :: 0 <= i < |s| ==> !IsUpper(Lower(s)[i])
    ensures Lower(Lower(s)) == Lower(s)
  {
  }

  // ---------------------------------------------------------------------
  // split, join, strip
  // ---------------------------------------------------------------------

  /** A nonempty run of non-whitespace characters. */
  predicate IsWord(w: string) {
    |w| > 0 && forall i :: 0 <= i < |w| ==> !IsSpace(w[i])
  }

  /** Length of the leading run of non-whitespace characters. */
  function WordEnd(s: string): (n: nat)
    ensures n <= |s|
    ensures forall i :: 0 <= i < n ==> !IsSpace(s[i])
    ensures n < |s| ==> IsSpace(s[n])
    decreases |s|
  {
    if s == [] || IsSpace(s[0]) then 0 else 1 + WordEnd(s[1..])
  }

  /** Python's `str.split()` without arguments: the maximal whitespace-free runs. */
  function Split(s: string): (ws: seq<string>)
    ensures forall i :: 0 <= i < |ws| ==> IsWord(ws[i])
    decreases |s|
  {
    if s == [] then []
    else if IsSpace(s[0]) then Split(s[1..])
    else
      var n := WordEnd(s);
      [s[..n]] + Split(s[n..])
  }

  /** Python's `sep.join(ws)`. */
  function Join(ws: seq<string>, sep: string): string
    decreases |ws|
  {
    if |ws| == 0 then "" else if |ws| == 1 then ws[0] else ws[0] + sep + Join(ws[1..], sep)
  }

  function StripLeft(s: string): string
    decreases |s|
  {
    if s != [] && IsSpace(s[0]) then StripLeft(s[1..]) else s
  }

  function StripRight(s: string): string
    decreases |s|
  {
    if s != [] && IsSpace(s[|s| - 1]) then StripRight(s[..|s| - 1]) else s
  }

  /** Python's `str.strip()`. */
  function Strip(s: string): string {
    StripRight(StripLeft(s))
  }

  /** Every whitespace character is a plain space between two non-space
      characters: words separated by single spaces, nothing at either end. */
  predicate SingleSpaced(t: string) {
    forall i :: 0 <= i < |t| && IsSpace(t[i]) ==>
      t[i] == ' ' && 0 < i < |t| - 1 && !IsSpace(t[i - 1]) && !IsSpace(t[i + 1])
  }

  lemma {:induction false} WordEndAppend(a: string, x: string)
    requires x == [] || IsSpace(x[0])
    ensures WordEnd(a + x) == WordEnd(a)
    decreases |a|
  {
    if a == [] {
      assert a + x == x;
    } else if IsSpace(a[0]) {
    } else {
      assert (a + x)[1..] == a[1..] + x;
      WordEndAppend(a[1..], x);
    }
  }

  /** A single word splits to itself. */
  lemma SplitWord(w: string)
    requires IsWord(w)
    ensures Split(w) == [w]
  {
    WordEndAppend(w, []);
    assert w + [] == w;
    assert w[..|w|] == w && w[|w|..] == [];
  }

  /** A word runs to its end. */
  lemma WordEndOfWord(w: string)
    requires IsWord(w)
    ensures WordEnd(w) == |w|
  {
  }

  /** `split()` skips a leading whitespace character. */
  lemma SplitLeadingSpace(c: char, s: string)
    requires IsSpace(c)
    ensures Split([c] + s) == Split(s)
  {
    assert ([c] + s)[1..] == s;
  }

  /** `split()` takes a leading word whole, up to the next whitespace or the
      end. With `Split("") == []` and SplitLeadingSpace this determines the
      result for every string: the maximal whitespace-free runs, in order. */
  lemma SplitLeadingWord(w: string, x: string)
    requires IsWord(w) && (x == [] || IsSpace(x[0]))
    ensures Split(w + x) == [w] + Split(x)
  {
    WordEndAppend(w, x);
    WordEndOfWord(w);
    assert (w + x)[..|w|] == w && (w + x)[|w|..] == x;
  }

  /** A space separates: splitting `a + " " + b` splits the two halves. */
  lemma {:induction false} SplitAppendSpace(a: string, b: string)
    ensures Split(a + " " + b) == Split(a) + Split(b)
    decreases |a|
  {
    var s := a + " " + b;
    if a == [] {
      assert s == [' '] + b;
      assert s[1..] == b;
    } else if IsSpace(a[0]) {
      assert s[1..] == a[1..] + " " + b;
      SplitAppendSpace(a[1..], b);
    } else {
      WordEndAppend(a, " " + b);
      assert s == a + (" " + b);
      var n := WordEnd(a);
      assert s[..n] == a[..n];
      assert s[n..] == a[n..] + " " + b;
      SplitAppendSpace(a[n..], b);
    }
  }

  /** Joining words with single spaces and splitting again gives the words back. */
  lemma {:induction false} SplitJoin(ws: seq<string>)
    requires forall i :: 0 <= i < |ws| ==> IsWord(ws[i])
    ensures Split(Join(ws, " ")) == ws
    decreases |ws|
  {
    if |ws| == 0 {
    } else if |ws| == 1 {
      SplitWord(ws[0]);
    } else {
      SplitJoin(ws[1..]);
      SplitAppendSpace(ws[0], Join(ws[1..], " "));
      SplitWord(ws[0]);
      assert ws == [ws[0]] + ws[1..];
    }
  }

  /** Joined words are single spaced; a nonempty join starts and ends with a word character. */
  lemma {:induction false} JoinSingleSpaced(ws: seq<string>)
    requires forall i :: 0 <= i < |ws| ==> IsWord(ws[i])
    ensures SingleSpaced(Join(ws, " "))
    ensures |ws| > 0 ==> |Join(ws, " ")| > 0 && !IsSpace(Join(ws, " ")[0])
                                              && !IsSpace(Join(ws, " ")[|Join(ws, " ")| - 1])
    decreases |ws|
  {
    if |ws| >= 2 {
      var w, rest := ws[0], Join(ws[1..], " ");
      JoinSingleSpaced(ws[1..]);
      var t := Join(ws, " ");
      assert t == w + " " + rest;
      forall i | 0 <= i < |t| && IsSpace(t[i])
        ensures t[i] == ' ' && 0 < i < |t| - 1 && !IsSpace(t[i - 1]) && !IsSpace(t[i + 1])
      {
        if i == |w| {
          assert t[i + 1] == rest[0];
          assert t[i - 1] == w[|w| - 1];
        } else if i > |w| {
          assert t[i] == rest[i - |w| - 1];
        }
      }
    }
  }

  /** `strip` leaves a single-spaced string alone. */
  lemma StripSingleSpaced(t: string)
    requires SingleSpaced(t)
    ensures Strip(t) == t
  {
    assert StripLeft(t) == t;
    if t != [] {
      assert !IsSpace(t[|t| - 1]);
    }
  }

  lemma {:induction false} SplitChars(s: string, a: set<char>)
    requires AllIn(s, a)
    ensures forall i :: 0 <= i < |Split(s)| ==> AllIn(Split(s)[i], a)
    decreases |s|
  {
    if s == [] {
    } else if IsSpace(s[0]) {
      SplitChars(s[1..], a);
    } else {
      var n := WordEnd(s);
      SplitChars(s[n..], a);
    }
  }

  lemma {:induction false} JoinChars(ws: seq<string>, a: set<char>)
    requires ' ' in a
    requires forall i :: 0 <= i < |ws| ==> AllIn(ws[i], a)
    ensures AllIn(Join(ws, " "), a)
    decreases |ws|
  {
    if |ws| >= 2 {
      JoinChars(ws[1..], a);
    }
  }
}
