/**
 * String primitives used by the scraper: Python's notion of whitespace,
 * maximal runs of characters, str.strip(), str.split() with no argument,
 * " ".join(...), and the regular-expression substitution re.sub(r'X+', c, s).
 */
module Text {

  /** Python's str.isspace(); str.strip(), str.split() and the regular-expression
      class \s on str patterns all use this set. */
  predicate IsWhitespace(c: char) {
    || ('\t' <= c <= '\r')
    || ('\U{1C}' <= c <= ' ')
    || c == '\U{85}' || c == '\U{A0}' || c == '\U{1680}'
    || ('\U{2000}' <= c <= '\U{200A}')
    || c == '\U{2028}' || c == '\U{2029}' || c == '\U{202F}' || c == '\U{205F}' || c == '\U{3000}'
  }

  predicate IsVisible(c: char) {
    !IsWhitespace(c)
  }

  predicate AllWhitespace(s: string) {
    forall i :: 0 <= i < |s| ==> IsWhitespace(s[i])
  }

  /** A word as str.split() produces it: non-empty, without whitespace. */
  predicate IsWord(w: string) {
    w != [] && forall i :: 0 <= i < |w| ==> IsVisible(w[i])
  }

  predicate AllWords(ws: seq<string>) {
    forall k :: 0 <= k < |ws| ==> IsWord(ws[k])
  }

  /** Length of the longest prefix of s whose characters all satisfy p. */
  function RunLength(s: string, p: char -> bool): (n: nat)
    ensures n <= |s|
    ensures forall i :: 0 <= i < n ==> p(s[i])
    ensures n < |s| ==> !p(s[n])
  {
    if s != [] && p(s[0]) then 1 + RunLength(s[1..], p) else 0
  }

  /** Length of the longest suffix of s whose characters all satisfy p. */
  function TrailingRunLength(s: string, p: char -> bool): (n: nat)
    ensures n <= |s|
    ensures forall i :: |s| - n <= i < |s| ==> p(s[i])
    ensures n < |s| ==> !p(s[|s| - 1 - n])
  {
    if s != [] && p(s[|s| - 1]) then 1 + TrailingRunLength(s[..|s| - 1], p) else 0
  }

  /** s without its longest prefix and then its longest suffix of characters
      satisfying p; once the prefix is gone, the trailing run of s is the
      trailing run of what is left. */
  function Trim(s: string, p: char -> bool): (r: string)
    ensures r == [] || (!p(r[0]) && !p(r[|r| - 1]))
    ensures r == [] <==> forall i :: 0 <= i < |s| ==> p(s[i])
    ensures RunLength(s, p) + |r| <= |s|
    ensures r == s[RunLength(s, p)..RunLength(s, p) + |r|]
    ensures forall i :: RunLength(s, p) + |r| <= i < |s| ==> p(s[i])
  {
    var a := RunLength(s, p);
    if a == |s| then []
    else
      var b := TrailingRunLength(s, p);
      assert !p(s[a]);
      s[a..|s| - b]
  }

  /** str.strip(): drop the leading whitespace, then the trailing whitespace. */
  function Strip(s: string): (r: string)
    ensures r == [] || (IsVisible(r[0]) && IsVisible(r[|r| - 1]))
    ensures r == [] <==> AllWhitespace(s)
    ensures RunLength(s, IsWhitespace) + |r| <= |s|
    ensures r == s[RunLength(s, IsWhitespace)..RunLength(s, IsWhitespace) + |r|]
    ensures forall i :: RunLength(s, IsWhitespace) + |r| <= i < |s| ==> IsWhitespace(s[i])
  {
    Trim(s, IsWhitespace)
  }

  /** str.split() with no argument: the maximal runs of non-whitespace, in order. */
  function Words(s: string): (ws: seq<string>)
    ensures AllWords(ws)
    ensures ws == [] <==> AllWhitespace(s)
    decreases |s|
  {
    var a := RunLength(s, IsWhitespace);
    var t := s[a..];
    if t == [] then []
    else
      var n := RunLength(t, IsVisible);
      FirstWord(s, a, n);
      var rest := Words(t[n..]);
      AllWordsCons(t[..n], rest);
      [t[..n]] + rest
  }

  lemma AllWordsCons(w: string, ws: seq<string>)
    requires IsWord(w) && AllWords(ws)
    ensures AllWords([w] + ws)
  {
    forall k | 0 <= k < |[w] + ws| ensures IsWord(([w] + ws)[k]) {
      if k > 0 { assert ([w] + ws)[k] == ws[k - 1]; }
    }
  }

  /** Once the leading whitespace of s is dropped, what is left starts with a
      word, and s is not all whitespace. */
  lemma FirstWord(s: string, a: nat, n: nat)
    requires a == RunLength(s, IsWhitespace) && a < |s|
    requires n == RunLength(s[a..], IsVisible)
    ensures 1 <= n <= |s| - a && IsWord(s[a..][..n]) && !AllWhitespace(s)
  {
    var t := s[a..];
    assert t[0] == s[a];
    var w := t[..n];
    assert forall i :: 0 <= i < n ==> w[i] == t[i];
  }

  /** sep.join(ws). */
  function Join(ws: seq<string>, sep: string): string {
    if |ws| == 0 then []
    else if |ws| == 1 then ws[0]
    else ws[0] + sep + Join(ws[1..], sep)
  }

  /** The expression " ".join(s.split()).strip() used for titles and cell values. */
  function Collapse(s: string): string {
    Strip(Join(Words(s), " "))
  }

  /** re.sub(r'X+', [c], s) where X is the character class p: every maximal
      run of characters satisfying p is replaced by the single character c. */
  function ReplaceRuns(s: string, p: char -> bool, c: char): (r: string)
    ensures r == [] <==> s == []
    ensures forall i :: 0 <= i < |r| ==> r[i] == c || !p(r[i])
    decreases |s|
  {
    if s == [] then []
    else if p(s[0]) then [c] + ReplaceRuns(s[RunLength(s, p)..], p, c)
    else [s[0]] + ReplaceRuns(s[1..], p, c)
  }

  /** No two neighbouring characters are both c. */
  predicate NoDoubled(s: string, c: char) {
    forall i :: 0 <= i < |s| - 1 ==> !(s[i] == c && s[i + 1] == c)
  }

  // ---------------------------------------------------------------------
  // Properties of split / join / strip
  // ---------------------------------------------------------------------

  /** Joining words with a single space gives a string whose only whitespace
      is single spaces between words, and which begins and ends with a word. */
  lemma {:induction false} JoinShape(ws: seq<string>)
    requires AllWords(ws)
    ensures Join(ws, " ") == [] <==> ws == []
    ensures Join(ws, " ") != [] ==> IsVisible(Join(ws, " ")[0]) && IsVisible(Join(ws, " ")[|Join(ws, " ")| - 1])
    ensures forall i :: 0 <= i < |Join(ws, " ")| && IsWhitespace(Join(ws, " ")[i]) ==> Join(ws, " ")[i] == ' '
    ensures NoDoubled(Join(ws, " "), ' ')
  {
    if |ws| >= 2 {
      var w, j := ws[0], Join(ws[1..], " ");
      AllWordsTail(ws);
      JoinShape(ws[1..]);
      var all := w + " " + j;
      assert Join(ws, " ") == all;
      assert forall i :: 0 <= i < |w| ==> all[i] == w[i];
      assert forall i :: |w| < i < |all| ==> all[i] == j[i - |w| - 1];
      assert all[|w|] == ' ';
      assert forall i :: 0 <= i < |all| && IsWhitespace(all[i]) ==> all[i] == ' ';
      assert |w| < |all| - 1 ==> all[|w| + 1] == j[0];
      assert forall i :: 0 <= i < |all| - 1 ==> !(all[i] == ' ' && all[i + 1] == ' ');
    } else if |ws| == 1 {
      assert IsWord(ws[0]);
    }
  }

  /** str.strip() changes nothing on a string that has no whitespace at its ends. */
  lemma StripUnchanged(x: string)
    requires x == [] || (IsVisible(x[0]) && IsVisible(x[|x| - 1]))
    ensures Strip(x) == x
  {
    if x != [] {
      assert RunLength(x, IsWhitespace) == 0;
      assert TrailingRunLength(x, IsWhitespace) == 0;
    }
  }

  /** A word followed by whitespace (or nothing) is split off as the first word. */
  lemma WordsCons(w: string, rest: string)
    requires IsWord(w)
    requires rest == [] || IsWhitespace(rest[0])
    ensures Words(w + rest) == [w] + Words(rest)
  {
    var s := w + rest;
    assert forall i :: 0 <= i < |w| ==> s[i] == w[i];
    assert forall i :: 0 <= i < |w| ==> IsVisible(s[i]);
    assert |s| > |w| ==> s[|w|] == rest[0];
    assert RunLength(s, IsWhitespace) == 0;
    assert RunLength(s, IsVisible) == |w|;
    assert s[0..] == s;
    assert s[..|w|] == w && s[|w|..] == rest;
  }

  /** A single leading space is skipped by str.split(). */
  lemma WordsAfterSpace(x: string)
    requires x == [] || IsVisible(x[0])
    ensures Words([' '] + x) == Words(x)
  {
    var s := [' '] + x;
    assert RunLength(s, IsWhitespace) == 1 by {
      assert IsWhitespace(s[0]);
      if |s| > 1 { assert s[1] == x[0]; }
    }
    assert s[1..] == x;
    if x != [] {
      assert RunLength(x, IsWhitespace) == 0;
    }
    assert x[0..] == x;
  }

  /** A word, a space, and a string starting with a word split into that word
      and the words of the rest. */
  lemma WordsOfSpaced(w: string, j: string)
    requires IsWord(w)
    requires j == [] || IsVisible(j[0])
    ensures Words(w + ([' '] + j)) == [w] + Words(j)
  {
    WordsCons(w, [' '] + j);
    WordsAfterSpace(j);
  }

  lemma AllWordsTail(ws: seq<string>)
    requires AllWords(ws) && ws != []
    ensures IsWord(ws[0]) && AllWords(ws[1..])
  {
    forall k | 0 <= k < |ws[1..]| ensures IsWord(ws[1..][k]) { assert ws[1..][k] == ws[k + 1]; }
  }

  /** A word on its own splits into itself. */
  lemma WordsOfWord(w: string)
    requires IsWord(w)
    ensures Words(w) == [w]
  {
    WordsCons(w, []);
    assert w + [] == w;
  }

  /** A non-empty join of words starts with the first character of the first word. */
  lemma JoinStartsWithWord(ws: seq<string>)
    requires AllWords(ws)
    ensures Join(ws, " ") == [] || IsVisible(Join(ws, " ")[0])
  {
    if ws != [] {
      assert IsWord(ws[0]);
      if |ws| >= 2 {
        assert Join(ws, " ")[0] == ws[0][0];
      }
    }
  }

  /** The inductive step of the round trip: given it for the tail of ws, it holds for ws. */
  lemma WordsOfJoinStep(ws: seq<string>)
    requires |ws| >= 2 && AllWords(ws)
    requires Words(Join(ws[1..], " ")) == ws[1..]
    ensures Words(Join(ws, " ")) == ws
  {
    AllWordsTail(ws);
    var w, j := ws[0], Join(ws[1..], " ");
    JoinStartsWithWord(ws[1..]);
    JoinCons(ws);
    WordsOfSpaced(w, j);
    assert [w] + ws[1..] == ws;
  }

  /** Joining two or more strings with a space puts a space after the first. */
  lemma JoinCons(ws: seq<string>)
    requires |ws| >= 2
    ensures Join(ws, " ") == ws[0] + ([' '] + Join(ws[1..], " "))
  {
    Assoc(ws[0], " ", Join(ws[1..], " "));
  }

  /** Round trip: splitting words joined by single spaces gives back the words. */
  lemma {:induction false} WordsOfJoin(ws: seq<string>)
    requires AllWords(ws)
    ensures Words(Join(ws, " ")) == ws
  {
    if |ws| == 1 {
      AllWordsTail(ws);
      WordsOfWord(ws[0]);
      assert [ws[0]] == ws;
    } else if |ws| >= 2 {
      AllWordsTail(ws);
      WordsOfJoin(ws[1..]);
      WordsOfJoinStep(ws);
    }
  }

  /** The collapsed string: only single spaces as whitespace, none at the ends,
      empty exactly when the input is all whitespace; the strip() is a no-op. */
  lemma CollapseShape(s: string)
    ensures Collapse(s) == Join(Words(s), " ")
    ensures Collapse(s) == [] <==> AllWhitespace(s)
    ensures Collapse(s) != [] ==> IsVisible(Collapse(s)[0]) && IsVisible(Collapse(s)[|Collapse(s)| - 1])
    ensures forall i :: 0 <= i < |Collapse(s)| && IsWhitespace(Collapse(s)[i]) ==> Collapse(s)[i] == ' '
    ensures NoDoubled(Collapse(s), ' ')
  {
    JoinShape(Words(s));
    StripUnchanged(Join(Words(s), " "));
  }

  /** Collapsing keeps the words of the input, so collapsing twice is collapsing once. */
  lemma CollapseIdempotent(s: string)
    ensures Words(Collapse(s)) == Words(s)
    ensures Collapse(Collapse(s)) == Collapse(s)
  {
    CollapseShape(s);
    WordsOfJoin(Words(s));
    CollapseShape(Collapse(s));
  }

  // ---------------------------------------------------------------------
  // Properties of run replacement
  // ---------------------------------------------------------------------

  /** If c does not occur in s, replacing the p-runs of s by c never puts two c side by side. */
  lemma {:induction false} ReplaceRunsNoDoubled(s: string, p: char -> bool, c: char)
    requires forall i :: 0 <= i < |s| ==> s[i] != c
    ensures NoDoubled(ReplaceRuns(s, p, c), c)
    decreases |s|
  {
    if s != [] {
      var k := if p(s[0]) then RunLength(s, p) else 1;
      var t := s[k..];
      assert forall i :: 0 <= i < |t| ==> t[i] == s[k + i];
      ReplaceRunsNoDoubled(t, p, c);
      var rt := ReplaceRuns(t, p, c);
      var r := ReplaceRuns(s, p, c);
      assert r == [r[0]] + rt;
      assert t != [] && p(s[0]) ==> !p(t[0]) && rt[0] == t[0];
      assert t != [] && !p(s[0]) ==> r[0] == s[0];
      assert forall i :: 1 <= i < |r| ==> r[i] == rt[i - 1];
      assert |r| > 1 ==> !(r[0] == c && r[1] == c);
    }
  }

  /** Every character of the result is c or a character of s outside the class p,
      so a property q of all characters of s holds of the others in the result. */
  lemma {:induction false} ReplaceRunsChars(s: string, p: char -> bool, c: char, q: char -> bool)
    requires forall i :: 0 <= i < |s| ==> q(s[i])
    ensures forall i :: 0 <= i < |ReplaceRuns(s, p, c)| ==>
      ReplaceRuns(s, p, c)[i] == c || (q(ReplaceRuns(s, p, c)[i]) && !p(ReplaceRuns(s, p, c)[i]))
    decreases |s|
  {
    if s != [] {
      var k := if p(s[0]) then RunLength(s, p) else 1;
      var t := s[k..];
      assert forall i :: 0 <= i < |t| ==> t[i] == s[k + i];
      ReplaceRunsChars(t, p, c, q);
      var rt := ReplaceRuns(t, p, c);
      var r := ReplaceRuns(s, p, c);
      assert r == [if p(s[0]) then c else s[0]] + rt;
      assert forall i :: 1 <= i < |r| ==> r[i] == rt[i - 1];
    }
  }

  /** Replacing p-runs by c is the identity when every p-character is c and no
      two p-characters are neighbours: every run already has length one. */
  lemma {:induction false} ReplaceRunsUnchanged(s: string, p: char -> bool, c: char)
    requires forall i :: 0 <= i < |s| && p(s[i]) ==> s[i] == c
    requires forall i :: 0 <= i < |s| - 1 ==> !(p(s[i]) && p(s[i + 1]))
    ensures ReplaceRuns(s, p, c) == s
    decreases |s|
  {
    if s != [] {
      var t := s[1..];
      assert forall i :: 0 <= i < |t| ==> t[i] == s[i + 1];
      if p(s[0]) {
        assert RunLength(s, p) == 1 by {
          if |s| > 1 { assert !p(s[1]); }
        }
      }
      ReplaceRunsUnchanged(t, p, c);
      assert [s[0]] + t == s;
    }
  }

  // ---------------------------------------------------------------------
  // What split, the run substitution and the deletion keep
  // ---------------------------------------------------------------------

  /** The p-run at the front of a + y ends inside a, or covers a and goes on into y. */
  lemma {:induction false} RunLengthAppend(a: string, y: string, p: char -> bool)
    ensures RunLength(a + y, p) ==
      if RunLength(a, p) < |a| then RunLength(a, p) else |a| + RunLength(y, p)
    decreases |a|
  {
    if a == [] {
      assert a + y == y;
    } else {
      assert (a + y)[0] == a[0];
      if p(a[0]) {
        RunLengthAppend(a[1..], y, p);
        assert (a + y)[1..] == a[1..] + y;
      }
    }
  }

  /** Two strings that are equal once their leading whitespace is dropped have the same words. */
  lemma WordsOfSameRest(s1: string, s2: string)
    requires s1[RunLength(s1, IsWhitespace)..] == s2[RunLength(s2, IsWhitespace)..]
    ensures Words(s1) == Words(s2)
  {
  }

  /** Whitespace in front of a string does not change its words. */
  lemma WordsAfterBlank(u: string, v: string)
    requires AllWhitespace(u)
    ensures Words(u + v) == Words(v)
  {
    RunLengthAppend(u, v, IsWhitespace);
    assert RunLength(u, IsWhitespace) == |u|;
    var k := RunLength(v, IsWhitespace);
    assert (u + v)[|u| + k..] == v[k..];
    WordsOfSameRest(u + v, v);
  }

  /** Leading whitespace, a word, and a rest that starts with whitespace (or is
      empty) split into the word and the words of the rest. */
  lemma WordsOfBlankWordRest(u: string, w: string, r: string)
    requires AllWhitespace(u) && IsWord(w)
    requires r == [] || IsWhitespace(r[0])
    ensures Words(u + (w + r)) == [w] + Words(r)
  {
    WordsAfterBlank(u, w + r);
    WordsCons(w, r);
  }

  /** A string that is not all whitespace is leading whitespace, a first word,
      and a shorter rest that starts with whitespace or is empty. */
  lemma SplitFront(a: string) returns (u: string, w: string, r: string)
    requires !AllWhitespace(a)
    ensures a == u + (w + r) && |r| < |a|
    ensures AllWhitespace(u) && IsWord(w)
    ensures r == [] || IsWhitespace(r[0])
  {
    var k := RunLength(a, IsWhitespace);
    var t := a[k..];
    var n := RunLength(t, IsVisible);
    u, w, r := a[..k], t[..n], t[n..];
    assert t[0] == a[k];
    assert forall i :: 0 <= i < n ==> w[i] == t[i];
    assert r == [] || r[0] == t[n];
    assert forall i :: 0 <= i < k ==> u[i] == a[i];
    assert w + r == t;
    assert u + t == a;
  }

  /** The inductive step of WordsAppend: a is leading whitespace u, a word w
      and a rest r for which the split is already known. */
  lemma WordsAppendStep(a: string, b: string, u: string, w: string, r: string)
    requires AllWhitespace(u) && IsWord(w) && a == u + (w + r)
    requires r == [] || IsWhitespace(r[0])
    requires b == [] || IsWhitespace(b[0])
    requires Words(r + b) == Words(r) + Words(b)
    ensures Words(a + b) == Words(a) + Words(b)
  {
    var rest := r + b;
    BlankStartAppend(r, b);
    Regroup(u, w, r, b);
    WordsOfBlankWordRest(u, w, rest);
    WordsOfBlankWordRest(u, w, r);
    Assoc([w], Words(r), Words(b));
  }

  /** WordsAppend when a is all whitespace. */
  lemma WordsAppendBlank(a: string, b: string)
    requires AllWhitespace(a)
    ensures Words(a + b) == Words(a) + Words(b)
  {
    WordsAfterBlank(a, b);
    assert Words(a) == [];
  }

  lemma BlankStartAppend(r: string, b: string)
    requires r == [] || IsWhitespace(r[0])
    requires b == [] || IsWhitespace(b[0])
    ensures r + b == [] || IsWhitespace((r + b)[0])
  {
    if r == [] { assert r + b == b; }
  }

  lemma Regroup(u: string, w: string, r: string, b: string)
    ensures u + (w + r) + b == u + (w + (r + b))
  {
  }

  lemma SliceAppend<T>(a: seq<T>, y: seq<T>, k: nat)
    requires k <= |a|
    ensures (a + y)[k..] == a[k..] + y
  {
  }

  lemma Assoc<T>(x: seq<T>, y: seq<T>, z: seq<T>)
    ensures x + (y + z) == (x + y) + z
  {
  }

  /** str.split() separates wherever whitespace begins: when b is empty or
      starts with whitespace, the words of a + b are those of a followed by
      those of b. */
  lemma {:induction false} WordsAppend(a: string, b: string)
    requires b == [] || IsWhitespace(b[0])
    ensures Words(a + b) == Words(a) + Words(b)
    decreases |a|
  {
    if AllWhitespace(a) {
      WordsAppendBlank(a, b);
    } else {
      var u, w, r := SplitFront(a);
      WordsAppend(r, b);
      WordsAppendStep(a, b, u, w, r);
    }
  }

  /** Every whitespace character separates words: the words of a, one
      whitespace character and b are the words of a followed by the words of
      b.  With WordsOfWord and the empty case this fixes the words of every
      string. */
  lemma WordsSplitAt(a: string, x: char, b: string)
    requires IsWhitespace(x)
    ensures Words(a + [x] + b) == Words(a) + Words(b)
  {
    WordsAppend(a, [x] + b);
    WordsAfterBlank([x], b);
    Assoc(a, [x], b);
  }

  /** A non-empty run of p-characters on its own becomes the single character c. */
  lemma ReplaceRunsOfRun(s: string, p: char -> bool, c: char)
    requires s != [] && forall i :: 0 <= i < |s| ==> p(s[i])
    ensures ReplaceRuns(s, p, c) == [c]
  {
    assert RunLength(s, p) == |s|;
    assert s[|s|..] == [];
  }

  /** A character outside the class is kept as it is. */
  lemma ReplaceRunsCons(x: char, b: string, p: char -> bool, c: char)
    requires !p(x)
    ensures ReplaceRuns([x] + b, p, c) == [x] + ReplaceRuns(b, p, c)
  {
    var xb := [x] + b;
    assert xb[0] == x && xb[1..] == b;
  }

  /** ReplaceRunsAppend when a starts outside the class. */
  lemma ReplaceRunsAppendKept(a: string, y: string, p: char -> bool, c: char)
    requires a != [] && !p(a[0])
    requires ReplaceRuns(a[1..] + y, p, c) == ReplaceRuns(a[1..], p, c) + ReplaceRuns(y, p, c)
    ensures ReplaceRuns(a + y, p, c) == ReplaceRuns(a, p, c) + ReplaceRuns(y, p, c)
  {
    assert (a + y)[0] == a[0];
    SliceAppend(a, y, 1);
    Assoc([a[0]], ReplaceRuns(a[1..], p, c), ReplaceRuns(y, p, c));
  }

  /** ReplaceRunsAppend when a starts with a run that ends inside a. */
  lemma ReplaceRunsAppendInner(a: string, y: string, p: char -> bool, c: char)
    requires a != [] && p(a[0]) && RunLength(a, p) < |a|
    requires ReplaceRuns(a[RunLength(a, p)..] + y, p, c) ==
      ReplaceRuns(a[RunLength(a, p)..], p, c) + ReplaceRuns(y, p, c)
    ensures ReplaceRuns(a + y, p, c) == ReplaceRuns(a, p, c) + ReplaceRuns(y, p, c)
  {
    var k := RunLength(a, p);
    RunLengthAppend(a, y, p);
    assert (a + y)[0] == a[0];
    SliceAppend(a, y, k);
    Assoc([c], ReplaceRuns(a[k..], p, c), ReplaceRuns(y, p, c));
  }

  /** ReplaceRunsAppend when all of a is one run and y does not continue it. */
  lemma ReplaceRunsAppendWhole(a: string, y: string, p: char -> bool, c: char)
    requires a != [] && p(a[0]) && RunLength(a, p) == |a|
    requires y == [] || !p(y[0])
    ensures ReplaceRuns(a + y, p, c) == ReplaceRuns(a, p, c) + ReplaceRuns(y, p, c)
  {
    RunLengthAppend(a, y, p);
    assert RunLength(y, p) == 0;
    assert (a + y)[0] == a[0] && (a + y)[|a|..] == y;
    assert a[|a|..] == [];
  }

  /** The substitution separates wherever a character outside the class
      begins: when y is empty or starts outside the class, substituting a + y
      is substituting a and y on their own. */
  lemma {:induction false} ReplaceRunsAppend(a: string, y: string, p: char -> bool, c: char)
    requires y == [] || !p(y[0])
    ensures ReplaceRuns(a + y, p, c) == ReplaceRuns(a, p, c) + ReplaceRuns(y, p, c)
    decreases |a|
  {
    if a == [] {
      assert a + y == y;
    } else if !p(a[0]) {
      ReplaceRunsAppend(a[1..], y, p, c);
      ReplaceRunsAppendKept(a, y, p, c);
    } else if RunLength(a, p) < |a| {
      ReplaceRunsAppend(a[RunLength(a, p)..], y, p, c);
      ReplaceRunsAppendInner(a, y, p, c);
    } else {
      ReplaceRunsAppendWhole(a, y, p, c);
    }
  }

  /** The substitution separates at every character outside the class: that
      character is kept, and the two sides are substituted on their own.  With
      ReplaceRunsOfRun and the empty case this fixes the result for every string. */
  lemma ReplaceRunsSplitAt(a: string, x: char, b: string, p: char -> bool, c: char)
    requires !p(x)
    ensures ReplaceRuns(a + [x] + b, p, c) == ReplaceRuns(a, p, c) + [x] + ReplaceRuns(b, p, c)
  {
    ReplaceRunsAppend(a, [x] + b, p, c);
    ReplaceRunsCons(x, b, p, c);
    Assoc(a, [x], b);
    Assoc(ReplaceRuns(a, p, c), [x], ReplaceRuns(b, p, c));
  }
}
