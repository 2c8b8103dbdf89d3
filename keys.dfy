/**
 * normalize_key: the four-step rewrite that turns a table label into a key.
 *   1. lower-case, then strip;
 *   2. delete every character outside [a-z0-9\s];
 *   3. replace each whitespace run by "_";
 *   4. replace each run of "_" by "_".
 */
module Keys {
  import opened Text

  /** str.lower() on the ASCII letters A-Z; every other character is kept. */
  function LowerChar(c: char): (r: char)
    ensures 'A' <= c <= 'Z' ==> 'a' <= r <= 'z' && r as int == c as int + 32
    ensures !('A' <= c <= 'Z') ==> r == c
  {
    if 'A' <= c <= 'Z' then (c as int + 32) as char else c
  }

  function Lower(s: string): (r: string)
    ensures |r| == |s|
    ensures forall i :: 0 <= i < |s| ==> r[i] == LowerChar(s[i])
  {
    seq(|s|, i requires 0 <= i < |s| => LowerChar(s[i]))
  }

  /** The characters of the class [a-z0-9\s]. */
  predicate IsKeyChar(c: char) {
    ('a' <= c <= 'z') || ('0' <= c <= '9') || IsWhitespace(c)
  }

  /** The characters a normalised key is made of: a-z, 0-9 and "_". */
  predicate IsNormalChar(c: char) {
    ('a' <= c <= 'z') || ('0' <= c <= '9') || c == '_'
  }

  predicate IsUnderscore(c: char) {
    c == '_'
  }

  /** re.sub(r'[^a-z0-9\s]', '', s): keep exactly the characters in [a-z0-9\s], in order. */
  function KeepKeyChars(s: string): (r: string)
    ensures forall i :: 0 <= i < |r| ==> IsKeyChar(r[i])
    ensures r == [] <==> forall i :: 0 <= i < |s| ==> !IsKeyChar(s[i])
    ensures |r| <= |s|
  {
    if s == [] then []
    else
      var rest := KeepKeyChars(s[1..]);
      assert forall i :: 1 <= i < |s| ==> s[i] == s[1..][i - 1];
      if IsKeyChar(s[0]) then [s[0]] + rest else rest
  }

  /** The deletion works character by character: a character is kept exactly
      when it is in [a-z0-9\s]. */
  lemma KeepKeyCharsOne(c: char)
    ensures KeepKeyChars([c]) == if IsKeyChar(c) then [c] else []
  {
    assert [c][1..] == [];
  }

  /** The deletion of a concatenation is the concatenation of the deletions, so
      with KeepKeyCharsOne every key character is kept, in order. */
  lemma {:induction false} KeepKeyCharsAppend(a: string, b: string)
    ensures KeepKeyChars(a + b) == KeepKeyChars(a) + KeepKeyChars(b)
    decreases |a|
  {
    if a == [] {
      assert a + b == b;
    } else {
      KeepKeyCharsAppend(a[1..], b);
      KeepKeyCharsAppendStep(a, b);
    }
  }

  lemma KeepKeyCharsAppendStep(a: string, b: string)
    requires a != []
    requires KeepKeyChars(a[1..] + b) == KeepKeyChars(a[1..]) + KeepKeyChars(b)
    ensures KeepKeyChars(a + b) == KeepKeyChars(a) + KeepKeyChars(b)
  {
    assert (a + b)[0] == a[0];
    SliceAppend(a, b, 1);
    Assoc([a[0]], KeepKeyChars(a[1..]), KeepKeyChars(b));
  }

  function Step1(key: string): string { Strip(Lower(key)) }

  function Step2(key: string): string { KeepKeyChars(Step1(key)) }

  function Step3(key: string): string { ReplaceRuns(Step2(key), IsWhitespace, '_') }

  /** normalize_key (isro_scrape/scrape.py:7-12). */
  function NormalizeKey(key: string): string {
    ReplaceRuns(Step3(key), IsUnderscore, '_')
  }

  /** The output of step 3 uses only a-z, 0-9 and "_", and has no "__". */
  lemma Step3Shape(key: string)
    ensures forall i :: 0 <= i < |Step3(key)| ==> IsNormalChar(Step3(key)[i])
    ensures NoDoubled(Step3(key), '_')
  {
    var s2 := Step2(key);
    assert forall i :: 0 <= i < |s2| ==> s2[i] != '_';
    ReplaceRunsNoDoubled(s2, IsWhitespace, '_');
    var s3 := Step3(key);
    ReplaceRunsChars(s2, IsWhitespace, '_', IsKeyChar);
  }

  /** Step 4 (the "_+" substitution) never changes anything: step 2 deleted every
      underscore of the input and step 3 never puts two underscores side by side. */
  lemma Step4Unchanged(key: string)
    ensures NormalizeKey(key) == Step3(key)
  {
    Step3Shape(key);
    ReplaceRunsUnchanged(Step3(key), IsUnderscore, '_');
  }

  /** A normalised key consists of a-z, 0-9 and "_" only, with no "__". */
  lemma NormalizeKeyShape(key: string)
    ensures forall i :: 0 <= i < |NormalizeKey(key)| ==> IsNormalChar(NormalizeKey(key)[i])
    ensures NoDoubled(NormalizeKey(key), '_')
  {
    Step4Unchanged(key);
    Step3Shape(key);
  }

  /** A normalised key is empty exactly when the lower-cased, stripped label
      contains no character of [a-z0-9\s]. */
  lemma NormalizeKeyEmpty(key: string)
    ensures NormalizeKey(key) == [] <==> forall i :: 0 <= i < |Step1(key)| ==> !IsKeyChar(Step1(key)[i])
  {
    Step4Unchanged(key);
  }

  /** s with every "_" deleted. */
  function DropUnderscores(s: string): (r: string)
    ensures forall i :: 0 <= i < |r| ==> r[i] != '_'
    ensures (forall i :: 0 <= i < |s| ==> IsNormalChar(s[i])) ==> forall i :: 0 <= i < |r| ==> IsNormalChar(r[i])
  {
    if s == [] then []
    else
      var rest := DropUnderscores(s[1..]);
      assert forall i :: 0 <= i < |s[1..]| ==> s[1..][i] == s[i + 1];
      if s[0] == '_' then rest else [s[0]] + rest
  }

  /** On a string of a-z 0-9 "_", step 2 is exactly underscore deletion. */
  lemma {:induction false} KeepKeyCharsOfNormal(s: string)
    requires forall i :: 0 <= i < |s| ==> IsNormalChar(s[i])
    ensures KeepKeyChars(s) == DropUnderscores(s)
  {
    if s != [] {
      assert forall i :: 0 <= i < |s[1..]| ==> s[1..][i] == s[i + 1];
      KeepKeyCharsOfNormal(s[1..]);
    }
  }

  /** Step 1 leaves a string of a-z 0-9 "_" unchanged. */
  lemma Step1OfNormal(k: string)
    requires forall i :: 0 <= i < |k| ==> IsNormalChar(k[i])
    ensures Step1(k) == k
  {
    assert Lower(k) == k;
    assert forall i :: 0 <= i < |k| ==> IsVisible(k[i]);
    StripUnchanged(k);
  }

  /** On a string of a-z 0-9 "_", steps 1 and 2 amount to underscore deletion. */
  lemma Step2OfNormal(k: string)
    requires forall i :: 0 <= i < |k| ==> IsNormalChar(k[i])
    ensures Step2(k) == DropUnderscores(k)
  {
    Step1OfNormal(k);
    KeepKeyCharsOfNormal(k);
  }

  /** Step 3 leaves a string without whitespace unchanged. */
  lemma WhitespaceRunsOfNormal(d: string)
    requires forall i :: 0 <= i < |d| ==> IsNormalChar(d[i])
    ensures ReplaceRuns(d, IsWhitespace, '_') == d
  {
    assert forall i :: 0 <= i < |d| ==> IsVisible(d[i]);
    ReplaceRunsUnchanged(d, IsWhitespace, '_');
  }

  /** On a string of a-z 0-9 "_", steps 1 to 3 amount to underscore deletion. */
  lemma Step3OfNormal(k: string)
    requires forall i :: 0 <= i < |k| ==> IsNormalChar(k[i])
    ensures Step3(k) == DropUnderscores(k)
  {
    Step2OfNormal(k);
    WhitespaceRunsOfNormal(DropUnderscores(k));
  }

  /** normalize_key is not idempotent: normalising a key again deletes its
      underscores and changes nothing else. */
  lemma RenormalizeDropsUnderscores(key: string)
    ensures NormalizeKey(NormalizeKey(key)) == DropUnderscores(NormalizeKey(key))
  {
    var k := NormalizeKey(key);
    NormalizeKeyShape(key);
    Step3OfNormal(k);
    var d := DropUnderscores(k);
    assert forall i :: 0 <= i < |d| ==> !IsUnderscore(d[i]);
    ReplaceRunsUnchanged(d, IsUnderscore, '_');
  }

  /** A label with no upper-case letter and no whitespace at its ends passes step 1 unchanged. */
  lemma Step1Plain(s: string)
    requires forall i :: 0 <= i < |s| ==> !('A' <= s[i] <= 'Z')
    requires s == [] || (IsVisible(s[0]) && IsVisible(s[|s| - 1]))
    ensures Step1(s) == s
  {
    assert Lower(s) == s;
    StripUnchanged(s);
  }

  lemma {:induction false} DropUnderscoresNone(s: string)
    requires forall i :: 0 <= i < |s| ==> s[i] != '_'
    ensures DropUnderscores(s) == s
  {
    if s != [] {
      assert forall i :: 0 <= i < |s[1..]| ==> s[1..][i] == s[i + 1];
      DropUnderscoresNone(s[1..]);
      assert [s[0]] + s[1..] == s;
    }
  }

  /** A label of ASCII letters and digits normalises to its lower-case form. */
  lemma NormalizeKeyOfAlnum(key: string)
    requires forall i :: 0 <= i < |key| ==> ('A' <= key[i] <= 'Z') || ('a' <= key[i] <= 'z') || ('0' <= key[i] <= '9')
    ensures NormalizeKey(key) == Lower(key)
  {
    var l := Lower(key);
    assert forall i :: 0 <= i < |l| ==> ('a' <= l[i] <= 'z') || ('0' <= l[i] <= '9');
    Step1Plain(l);
    assert Step1(key) == l by {
      assert forall i :: 0 <= i < |l| ==> IsVisible(l[i]);
      StripUnchanged(l);
    }
    KeepKeyCharsOfNormal(l);
    DropUnderscoresNone(l);
    WhitespaceRunsOfNormal(l);
    Step4Unchanged(key);
  }

  /** Steps 1 and 2 keep a label of two lower-case letters around a space. */
  lemma SpaceStep2(a: char, b: char)
    requires 'a' <= a <= 'z' && 'a' <= b <= 'z'
    ensures Step2([a, ' ', b]) == [a, ' ', b]
  {
    var s := [a, ' ', b];
    Step1Plain(s);
    assert KeepKeyChars(s[2..]) == [b];
    assert KeepKeyChars(s[1..]) == [' ', b];
  }

  /** A space between two lower-case letters becomes "_": "a b" gives "a_b". */
  lemma SpaceBecomesUnderscore(a: char, b: char)
    requires 'a' <= a <= 'z' && 'a' <= b <= 'z'
    ensures NormalizeKey([a, ' ', b]) == [a, '_', b]
  {
    var s := [a, ' ', b];
    SpaceStep2(a, b);
    assert Step3(s) == [a, '_', b] by {
      var t := [' ', b];
      assert RunLength(t, IsWhitespace) == 1;
      assert ReplaceRuns([b], IsWhitespace, '_') == [b];
      assert ReplaceRuns(t, IsWhitespace, '_') == ['_', b];
      assert s[1..] == t;
    }
    Step4Unchanged(s);
  }

  /** An underscore in a label is deleted: "a_b" gives "ab". */
  lemma UnderscoreDeleted(a: char, b: char)
    requires 'a' <= a <= 'z' && 'a' <= b <= 'z'
    ensures NormalizeKey([a, '_', b]) == [a, b]
  {
    var k := [a, '_', b];
    Step3OfNormal(k);
    DropUnderscoresBetween(a, b);
    assert Step3(k) == [a, b];
    ReplaceRunsUnchanged([a, b], IsUnderscore, '_');
    assert NormalizeKey(k) == ReplaceRuns([a, b], IsUnderscore, '_');
  }

  lemma DropUnderscoresBetween(a: char, b: char)
    requires 'a' <= a <= 'z' && 'a' <= b <= 'z'
    ensures DropUnderscores([a, '_', b]) == [a, b]
  {
    var k := [a, '_', b];
    assert DropUnderscores(k[2..]) == [b];
    assert DropUnderscores(k[1..]) == [b];
  }

  /** normalize_key is not idempotent: "a b" gives "a_b", which gives "ab". */
  lemma NotIdempotent(a: char, b: char)
    requires 'a' <= a <= 'z' && 'a' <= b <= 'z'
    ensures NormalizeKey([a, ' ', b]) == [a, '_', b]
    ensures NormalizeKey(NormalizeKey([a, ' ', b])) == [a, b]
  {
    SpaceBecomesUnderscore(a, b);
    UnderscoreDeleted(a, b);
  }

  /** A punctuation character deleted by step 2 can leave a leading space that
      the strip of step 1 has already passed: "- x" gives "_x". */
  lemma LeadingUnderscoreSurvives(p: char, x: char)
    requires IsVisible(p) && !IsKeyChar(p) && !('A' <= p <= 'Z')
    requires 'a' <= x <= 'z'
    ensures NormalizeKey([p, ' ', x]) == ['_', x]
  {
    var s := [p, ' ', x];
    Step1Plain(s);
    assert Step2(s) == [' ', x] by {
      assert KeepKeyChars(s[2..]) == [x];
      assert KeepKeyChars(s[1..]) == [' ', x];
    }
    assert Step3(s) == ['_', x] by {
      assert RunLength([' ', x], IsWhitespace) == 1;
      assert ReplaceRuns([x], IsWhitespace, '_') == [x];
    }
    Step4Unchanged(s);
  }

  /** Two punctuation characters around a space give the non-empty key "_":
      "- -" gives "_", which the caller keeps as a key. */
  lemma LoneUnderscoreKey(p: char, q: char)
    requires IsVisible(p) && !IsKeyChar(p) && !('A' <= p <= 'Z')
    requires IsVisible(q) && !IsKeyChar(q) && !('A' <= q <= 'Z')
    ensures NormalizeKey([p, ' ', q]) == ['_']
  {
    var u := [p, ' ', q];
    Step1Plain(u);
    assert Step2(u) == [' '] by {
      assert KeepKeyChars(u[2..]) == [];
      assert KeepKeyChars(u[1..]) == [' '];
    }
    assert Step3(u) == ['_'] by {
      assert RunLength([' '], IsWhitespace) == 1;
    }
    Step4Unchanged(u);
  }

  /** The examples "a b" and "a_b". */
  lemma LetterExamples()
    ensures NormalizeKey("a b") == "a_b" && NormalizeKey("a_b") == "ab"
  {
    NotIdempotent('a', 'b');
  }

  /** The examples "- x" and "- -". */
  lemma PunctuationExamples()
    ensures NormalizeKey("- x") == "_x"
    ensures NormalizeKey("- -") == "_"
  {
    LeadingUnderscoreSurvives('-', 'x');
    LoneUnderscoreKey('-', '-');
  }
}
