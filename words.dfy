/**
 * `str.split()` with no arguments: the text is cut at runs of whitespace
 * and the empty pieces are dropped, so what remains are the maximal runs
 * of non-whitespace characters.
 */
module Words {
  import opened Seqs

  /**
   * The characters `str.isspace()` accepts, which are the ones `str.split()`
   * cuts at: tab, LF, vertical tab, form feed and CR (U+0009..U+000D), the
   * separators U+001C..U+001F, space, U+0085, U+00A0, U+1680,
   * U+2000..U+200A, U+2028, U+2029, U+202F, U+205F and U+3000.
   */
  predicate IsSpace(c: char)
  {
    var v := c as int;
    || 0x09 <= v <= 0x0D
    || 0x1C <= v <= 0x20
    || v == 0x85 || v == 0xA0 || v == 0x1680
    || 0x2000 <= v <= 0x200A
    || v == 0x2028 || v == 0x2029 || v == 0x202F || v == 0x205F || v == 0x3000
  }

  /** Text made of whitespace only (possibly empty). */
  predicate AllSpace(s: string)
  {
    forall i :: 0 <= i < |s| ==> IsSpace(s[i])
  }

  /** One piece of `str.split()`: non-empty, without whitespace. */
  predicate IsWord(w: string)
  {
    w != [] && forall i :: 0 <= i < |w| ==> !IsSpace(w[i])
  }

  /** Length of the whitespace run that t starts with. */
  function LeadingSpace(t: string): (n: nat)
    ensures n <= |t|
    decreases |t|
  {
    if t == [] || !IsSpace(t[0]) then 0 else 1 + LeadingSpace(t[1..])
  }

  /** Length of the non-whitespace run that t starts with. */
  function LeadingWord(t: string): (n: nat)
    ensures n <= |t|
    decreases |t|
  {
    if t == [] || IsSpace(t[0]) then 0 else 1 + LeadingWord(t[1..])
  }

  /** LeadingSpace is the maximal whitespace prefix. */
  lemma {:induction false} LeadingSpaceIsMaximal(t: string)
    ensures forall i :: 0 <= i < LeadingSpace(t) ==> IsSpace(t[i])
    ensures LeadingSpace(t) < |t| ==> !IsSpace(t[LeadingSpace(t)])
    decreases |t|
  {
    if t != [] && IsSpace(t[0]) {
      LeadingSpaceIsMaximal(t[1..]);
    }
  }

  /** LeadingWord is the maximal non-whitespace prefix. */
  lemma {:induction false} LeadingWordIsMaximal(t: string)
    ensures forall i :: 0 <= i < LeadingWord(t) ==> !IsSpace(t[i])
    ensures LeadingWord(t) < |t| ==> IsSpace(t[LeadingWord(t)])
    decreases |t|
  {
    if t != [] && !IsSpace(t[0]) {
      LeadingWordIsMaximal(t[1..]);
    }
  }

  /** The list `str.split()` returns. */
  function Split(t: string): seq<string>
    decreases |t|
  {
    var i := LeadingSpace(t);
    if i == |t| then []
    else
      var j := i + LeadingWord(t[i..]);
      [t[i..j]] + Split(t[j..])
  }

  /** The characters of t that are not whitespace, in order. */
  function NonSpace(t: string): string
  {
    if t == [] then [] else (if IsSpace(t[0]) then [] else [t[0]]) + NonSpace(t[1..])
  }

  /**
   * The reference count: the positions where a run of non-whitespace starts,
   * i.e. a non-whitespace character at the very start or after whitespace.
   * `afterSpace` tells whether the character before t was whitespace (or
   * whether t is the start of the text).
   */
  function WordStarts(t: string, afterSpace: bool): nat
    decreases |t|
  {
    if t == [] then 0
    else (if afterSpace && !IsSpace(t[0]) then 1 else 0) + WordStarts(t[1..], IsSpace(t[0]))
  }

  // ---------------------------------------------------------------------------
  // Lemmas

  lemma {:induction false} NonSpaceAppend(a: string, b: string)
    ensures NonSpace(a + b) == NonSpace(a) + NonSpace(b)
  {
    if a == [] {
      assert a + b == b;
    } else {
      assert (a + b)[1..] == a[1..] + b;
      NonSpaceAppend(a[1..], b);
    }
  }

  lemma {:induction false} NonSpaceOfSpaces(t: string)
    requires AllSpace(t)
    ensures NonSpace(t) == []
  {
    if t != [] {
      NonSpaceOfSpaces(t[1..]);
    }
  }

  lemma {:induction false} NonSpaceOfWord(t: string)
    requires forall i :: 0 <= i < |t| ==> !IsSpace(t[i])
    ensures NonSpace(t) == t
  {
    if t != [] {
      NonSpaceOfWord(t[1..]);
    }
  }

  /** The definition of `str.split()`, unfolded once. */
  lemma SplitUnfold(t: string, i: nat, j: nat)
    requires i == LeadingSpace(t) < |t|
    requires j == i + LeadingWord(t[i..])
    ensures Split(t) == [t[i..j]] + Split(t[j..])
  {
  }

  /** The word that one step takes is non-empty and holds no whitespace. */
  lemma StepTakesWord(t: string, i: nat, j: nat)
    requires i == LeadingSpace(t) < |t|
    requires j == i + LeadingWord(t[i..])
    ensures i < j <= |t|
    ensures forall k :: i <= k < j ==> !IsSpace(t[k])
  {
    LeadingSpaceIsMaximal(t);
    LeadingWordIsMaximal(t[i..]);
    assert forall k :: i <= k < j ==> t[k] == t[i..][k - i];
  }

  /** One step of `str.split()`: skip the leading whitespace, take the word after it. */
  lemma SplitStep(t: string, i: nat, j: nat)
    requires i == LeadingSpace(t) < |t|
    requires j == i + LeadingWord(t[i..])
    ensures i < j <= |t|
    ensures Split(t) == [t[i..j]] + Split(t[j..])
    ensures forall k :: i <= k < j ==> !IsSpace(t[k])
  {
    SplitUnfold(t, i, j);
    StepTakesWord(t, i, j);
  }

  /** The pieces of `str.split()` are words. */
  lemma {:induction false} SplitGivesWords(t: string)
    ensures forall k :: 0 <= k < |Split(t)| ==> IsWord(Split(t)[k])
    decreases |t|
  {
    var i := LeadingSpace(t);
    if i < |t| {
      var j := i + LeadingWord(t[i..]);
      SplitStep(t, i, j);
      SplitGivesWords(t[j..]);
      var ws := Split(t);
      forall k | 0 <= k < |ws|
        ensures IsWord(ws[k])
      {
        if k > 0 {
          assert ws[k] == Split(t[j..])[k - 1];
        } else {
          assert forall m :: 0 <= m < j - i ==> t[i..j][m] == t[i + m];
        }
      }
    }
  }

  /** Together the pieces of `str.split()` are the non-whitespace characters of the text, in order. */
  lemma {:induction false} SplitKeepsNonSpace(t: string)
    ensures Concat(Split(t)) == NonSpace(t)
    decreases |t|
  {
    var i := LeadingSpace(t);
    assert NonSpace(t) == NonSpace(t[i..]) by {
      LeadingSpaceIsMaximal(t);
      NonSpaceOfSpaces(t[..i]);
      assert t == t[..i] + t[i..];
      NonSpaceAppend(t[..i], t[i..]);
    }
    if i < |t| {
      var j := i + LeadingWord(t[i..]);
      var w, rest := t[i..j], t[j..];
      assert Concat(Split(t)) == w + Concat(Split(rest)) by {
        SplitUnfold(t, i, j);
        ConcatCons(w, Split(rest));
      }
      assert NonSpace(t[i..]) == w + NonSpace(rest) by {
        StepTakesWord(t, i, j);
        assert forall m :: 0 <= m < |w| ==> w[m] == t[i + m];
        NonSpaceOfWord(w);
        assert t[i..] == w + rest;
        NonSpaceAppend(w, rest);
      }
      SplitKeepsNonSpace(rest);
    }
  }

  /** Whitespace before a character decides nothing beyond that character's own start. */
  lemma {:induction false} WordStartsSkipSpace(t: string, afterSpace: bool, n: nat)
    requires n <= |t| && (n > 0 || afterSpace)
    requires forall i :: 0 <= i < n ==> IsSpace(t[i])
    ensures WordStarts(t, afterSpace) == WordStarts(t[n..], true)
    decreases n
  {
    if n > 0 {
      WordStartsSkipSpace(t[1..], true, n - 1);
      assert t[1..][n - 1..] == t[n..];
    }
  }

  /** A run of non-whitespace after whitespace adds one start, and none inside it. */
  lemma {:induction false} WordStartsSkipWord(t: string, afterSpace: bool, n: nat)
    requires 0 < n <= |t|
    requires forall i :: 0 <= i < n ==> !IsSpace(t[i])
    ensures WordStarts(t, afterSpace) == (if afterSpace then 1 else 0) + WordStarts(t[n..], false)
    decreases n
  {
    if n > 1 {
      WordStartsSkipWord(t[1..], false, n - 1);
      assert t[1..][n - 1..] == t[n..];
    }
  }

  /** After a word, the start of a fresh text and the continuation of a word count alike. */
  lemma WordStartsAfterWord(t: string)
    requires t == [] || IsSpace(t[0])
    ensures WordStarts(t, false) == WordStarts(t, true)
  {
  }

  /** `str.split()` returns one piece per maximal run of non-whitespace. */
  lemma {:induction false} SplitCountsRuns(t: string)
    ensures |Split(t)| == WordStarts(t, true)
    decreases |t|
  {
    var i := LeadingSpace(t);
    LeadingSpaceIsMaximal(t);
    WordStartsSkipSpace(t, true, i);
    if i < |t| {
      var m := LeadingWord(t[i..]);
      var j := i + m;
      SplitStep(t, i, j);
      LeadingWordIsMaximal(t[i..]);
      assert t[i..][m..] == t[j..];
      WordStartsSkipWord(t[i..], true, m);
      WordStartsAfterWord(t[j..]);
      SplitCountsRuns(t[j..]);
    }
  }

  /** Empty or all-whitespace text has no words, and only such text has none. */
  lemma NoWordsIffAllSpace(t: string)
    ensures Split(t) == [] <==> AllSpace(t)
  {
    LeadingSpaceIsMaximal(t);
  }


  /** A whitespace run that ends where a non-whitespace character (or the text) starts is the leading one. */
  lemma {:induction false} LeadingSpaceOf(s: string, u: string)
    requires AllSpace(s)
    requires u == [] || !IsSpace(u[0])
    ensures LeadingSpace(s + u) == |s|
    decreases |s|
  {
    if s == [] {
      assert s + u == u;
    } else {
      assert (s + u)[1..] == s[1..] + u;
      LeadingSpaceOf(s[1..], u);
    }
  }

  /** A word that ends where whitespace (or the text) starts is the leading run of non-whitespace. */
  lemma {:induction false} LeadingWordOf(w: string, u: string)
    requires forall i :: 0 <= i < |w| ==> !IsSpace(w[i])
    requires u == [] || IsSpace(u[0])
    ensures LeadingWord(w + u) == |w|
    decreases |w|
  {
    if w == [] {
      assert w + u == u;
    } else {
      assert (w + u)[1..] == w[1..] + u;
      LeadingWordOf(w[1..], u);
    }
  }

  /** Whitespace, then a word, then whitespace or the end: `split()` takes that word first. */
  lemma SplitTakes(s: string, w: string, r: string)
    requires AllSpace(s) && IsWord(w)
    requires r == [] || IsSpace(r[0])
    ensures Split(s + w + r) == [w] + Split(r)
  {
    var t := s + w + r;
    assert t == s + (w + r);
    assert (w + r)[0] == w[0];
    LeadingSpaceOf(s, w + r);
    assert t[|s|..] == w + r;
    LeadingWordOf(w, r);
    SplitUnfold(t, |s|, |s| + |w|);
    assert t[|s|..|s| + |w|] == w;
    assert t[|s| + |w|..] == r;
  }

  /** Text made only of whitespace splits into nothing. */
  lemma SplitOfSpaces(s: string)
    requires AllSpace(s)
    ensures Split(s) == []
  {
    LeadingSpaceOf(s, []);
    assert s + [] == s;
  }

  /**
   * Leading, repeated and trailing whitespace produce no empty pieces: three
   * words separated by non-empty whitespace runs, with only whitespace
   * before the first and after the last, split into exactly those words.
   */
  lemma SplitThreeWords(s1: string, w1: string, s2: string, w2: string, s3: string, w3: string, s4: string)
    requires AllSpace(s1) && AllSpace(s2) && AllSpace(s3) && AllSpace(s4)
    requires s2 != [] && s3 != []
    requires IsWord(w1) && IsWord(w2) && IsWord(w3)
    ensures Split(s1 + w1 + (s2 + w2 + (s3 + w3 + s4))) == [w1, w2, w3]
  {
    var r3 := s3 + w3 + s4;
    var r2 := s2 + w2 + r3;
    assert Split(r3) == [w3] by {
      SplitOfSpaces(s4);
      SplitTakes(s3, w3, s4);
    }
    assert Split(r2) == [w2, w3] by {
      assert r3[0] == s3[0];
      SplitTakes(s2, w2, r3);
    }
    assert r2[0] == s2[0];
    SplitTakes(s1, w1, r2);
  }
}
