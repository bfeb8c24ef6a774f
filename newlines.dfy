/**
 * Text-mode reading with universal newlines, as `open(path, 'r')` does when
 * no `newline` argument is given: every `\r\n` and every lone `\r` reaches
 * the program as `\n`, and `readlines()` cuts the translated text after
 * each `\n`.
 */
module Newlines {
  import opened Seqs

  const CR: char := '\r'
  const LF: char := '\n'

  /** The universal-newline translation of decoded text. */
  function Translate(t: string): (r: string)
    ensures |r| <= |t|
    ensures r == [] <==> t == []
    ensures CR !in r
    decreases |t|
  {
    if t == [] then []
    else if t[0] == CR then
      if |t| > 1 && t[1] == LF then [LF] + Translate(t[2..]) else [LF] + Translate(t[1..])
    else [t[0]] + Translate(t[1..])
  }

  /** Length of the first line of t: up to and including its first LF, or all of t if it has none. */
  function FirstLineLength(t: string): (n: nat)
    requires t != []
    ensures 1 <= n <= |t|
    ensures LF !in t[..n - 1]
    ensures t[n - 1] == LF || n == |t|
    decreases |t|
  {
    if t[0] == LF || |t| == 1 then 1
    else
      var m := FirstLineLength(t[1..]);
      assert t[1..][..m - 1] == t[1..m];
      1 + m
  }

  /** The list `readlines()` returns for already translated text. */
  function ReadLines(t: string): seq<string>
    decreases |t|
  {
    if t == [] then [] else var n := FirstLineLength(t); [t[..n]] + ReadLines(t[n..])
  }

  /** One element of `readlines()`: some characters, a LF only at the end. */
  predicate IsLine(l: string)
  {
    l != [] && LF !in l[..|l| - 1]
  }

  predicate EndsWithLF(l: string)
  {
    l != [] && l[|l| - 1] == LF
  }

  /** The number of lines `readlines()` reports for decoded text read in text mode. */
  function CountLines(t: string): nat
  {
    |ReadLines(Translate(t))|
  }

  // ---------------------------------------------------------------------------
  // The reference count: one line per terminator, plus an unterminated tail

  /** Number of CR characters not immediately followed by LF. */
  function LoneCRs(t: string): nat
    decreases |t|
  {
    if t == [] then 0
    else (if t[0] == CR && (|t| == 1 || t[1] != LF) then 1 else 0) + LoneCRs(t[1..])
  }

  /** 1 when the text ends in a segment that no terminator closes, else 0. */
  function Unterminated(t: string): nat
  {
    if t != [] && t[|t| - 1] != CR && t[|t| - 1] != LF then 1 else 0
  }

  // ---------------------------------------------------------------------------
  // Lemmas

  /** `readlines()` cuts the text into lines without losing or adding anything, and only after LF. */
  lemma ReadLinesPartition(t: string)
    ensures Concat(ReadLines(t)) == t
    ensures forall i :: 0 <= i < |ReadLines(t)| ==> IsLine(ReadLines(t)[i])
    ensures forall i :: 0 <= i < |ReadLines(t)| - 1 ==> EndsWithLF(ReadLines(t)[i])
  {
    ReadLinesConcat(t);
    ReadLinesAreLines(t);
    ReadLinesEndInLF(t);
  }

  /** The first line is t[..n], and the rest of the list is `readlines()` of what follows it. */
  lemma ReadLinesUnfold(t: string, n: nat)
    requires t != [] && n == FirstLineLength(t)
    ensures ReadLines(t) == [t[..n]] + ReadLines(t[n..])
  {
  }

  lemma {:induction false} ReadLinesConcat(t: string)
    ensures Concat(ReadLines(t)) == t
    decreases |t|
  {
    if t != [] {
      var n := FirstLineLength(t);
      ReadLinesUnfold(t, n);
      ReadLinesConcat(t[n..]);
      ConcatCons(t[..n], ReadLines(t[n..]));
      assert t[..n] + t[n..] == t;
    }
  }

  lemma {:induction false} ReadLinesAreLines(t: string)
    ensures forall i :: 0 <= i < |ReadLines(t)| ==> IsLine(ReadLines(t)[i])
    decreases |t|
  {
    if t != [] {
      var n := FirstLineLength(t);
      var ls := ReadLines(t);
      ReadLinesUnfold(t, n);
      ReadLinesAreLines(t[n..]);
      assert IsLine(ls[0]) by {
        assert t[..n][..n - 1] == t[..n - 1];
      }
      forall i | 1 <= i < |ls|
        ensures IsLine(ls[i])
      {
        assert ls[i] == ReadLines(t[n..])[i - 1];
      }
    }
  }

  lemma {:induction false} ReadLinesEndInLF(t: string)
    ensures forall i :: 0 <= i < |ReadLines(t)| - 1 ==> EndsWithLF(ReadLines(t)[i])
    decreases |t|
  {
    if t != [] {
      var n := FirstLineLength(t);
      var ls := ReadLines(t);
      ReadLinesUnfold(t, n);
      ReadLinesEndInLF(t[n..]);
      if 1 < |ls| {
        assert t[n..] != [];
        assert EndsWithLF(ls[0]);
      }
      forall i | 1 <= i < |ls| - 1
        ensures EndsWithLF(ls[i])
      {
        assert ls[i] == ReadLines(t[n..])[i - 1];
      }
    }
  }

  /** Every line holds at least one character, so there are never more lines than characters. */
  lemma {:induction false} ReadLinesAtMostLength(t: string)
    ensures |ReadLines(t)| <= |t|
    decreases |t|
  {
    if t != [] {
      ReadLinesAtMostLength(t[FirstLineLength(t)..]);
    }
  }

  /** `readlines()` gives one line per LF, plus one for a final segment without LF. */
  lemma {:induction false} ReadLinesCount(t: string)
    ensures |ReadLines(t)| == Count(LF, t) + (if t != [] && t[|t| - 1] != LF then 1 else 0)
    decreases |t|
  {
    if t != [] {
      var n := FirstLineLength(t);
      var rest := t[n..];
      CountAfterFirstLine(t, n);
      ReadLinesCount(rest);
      if n < |t| {
        assert t[|t| - 1] == rest[|rest| - 1];
      }
    }
  }

  /** The first line holds one LF if it ends in one, and none otherwise. */
  lemma CountAfterFirstLine(t: string, n: nat)
    requires t != [] && n == FirstLineLength(t)
    ensures Count(LF, t) == (if t[n - 1] == LF then 1 else 0) + Count(LF, t[n..])
  {
    var rest := t[n..];
    assert t == t[..n - 1] + ([t[n - 1]] + rest);
    CountAppend(LF, t[..n - 1], [t[n - 1]] + rest);
    CountAppend(LF, [t[n - 1]], rest);
  }

  /** Translation turns every terminator, and nothing else, into one LF. */
  lemma {:induction false} TranslateCountsTerminators(t: string)
    ensures Count(LF, Translate(t)) == Count(LF, t) + LoneCRs(t)
    decreases |t|
  {
    if t != [] {
      if t[0] == CR && |t| > 1 && t[1] == LF {
        TranslateCountsTerminators(t[2..]);
        assert t[1..][1..] == t[2..];
      } else {
        TranslateCountsTerminators(t[1..]);
      }
    }
  }

  /**
   * Translation works piece by piece: translating a + b translates a and b
   * separately, unless a CR ending a meets an LF starting b (the two then
   * form one CR LF terminator).
   */
  lemma {:induction false} TranslateAppend(a: string, b: string)
    requires a == [] || b == [] || a[|a| - 1] != CR || b[0] != LF
    ensures Translate(a + b) == Translate(a) + Translate(b)
    decreases |a|
  {
    if a == [] {
      assert a + b == b;
    } else if b == [] {
      assert a + b == a;
    } else if a[0] == CR && |a| > 1 && a[1] == LF {
      assert (a + b)[1] == LF;
      assert (a + b)[2..] == a[2..] + b;
      TranslateAppend(a[2..], b);
    } else {
      if a[0] == CR && |a| > 1 {
        assert (a + b)[1] == a[1];
      }
      assert (a + b)[1..] == a[1..] + b;
      TranslateAppend(a[1..], b);
    }
  }

  /** The three terminators each become one LF; every other character is kept as it is. */
  lemma TranslateUnits(c: char)
    ensures Translate([CR, LF]) == [LF] && Translate([CR]) == [LF] && Translate([LF]) == [LF]
    ensures c != CR ==> Translate([c]) == [c]
  {
    assert [CR, LF][2..] == [];
  }

  /** Text without CR passes through translation unchanged. */
  lemma {:induction false} TranslateWithoutCR(t: string)
    requires CR !in t
    ensures Translate(t) == t
    decreases |t|
  {
    if t != [] {
      TranslateWithoutCR(t[1..]);
      assert t == [t[0]] + t[1..];
    }
  }

  /** Translated text ends in LF exactly when the original ends in a terminator character. */
  lemma {:induction false} TranslateKeepsEnding(t: string)
    requires t != []
    ensures Translate(t)[|Translate(t)| - 1] == LF <==> t[|t| - 1] == CR || t[|t| - 1] == LF
    decreases |t|
  {
    if t[0] == CR && |t| > 1 && t[1] == LF {
      if |t| > 2 {
        TranslateKeepsEnding(t[2..]);
        assert t[|t| - 1] == t[2..][|t[2..]| - 1];
      }
    } else if |t| > 1 {
      TranslateKeepsEnding(t[1..]);
      assert t[|t| - 1] == t[1..][|t[1..]| - 1];
    }
  }

  /**
   * Universal newlines: LF, CR LF and a lone CR each end exactly one line (a
   * CR followed by LF is one terminator, counted with its LF), a final
   * unterminated segment is one more line, and empty text has none.
   */
  lemma CountLinesByTerminators(t: string)
    ensures CountLines(t) == Count(LF, t) + LoneCRs(t) + Unterminated(t)
  {
    ReadLinesCount(Translate(t));
    TranslateCountsTerminators(t);
    if t != [] {
      TranslateKeepsEnding(t);
    }
  }

  /** There are never more lines than characters. */
  lemma LinesAtMostChars(t: string)
    ensures CountLines(t) <= |t|
  {
    ReadLinesAtMostLength(Translate(t));
  }

  /** Text without any CR or LF is a single line, unless it is empty. */
  lemma NoBreakIsOneLine(t: string)
    requires CR !in t && LF !in t
    ensures CountLines(t) == if t == [] then 0 else 1
  {
    CountLinesByTerminators(t);
    assert LoneCRs(t) == 0 by { LoneCRsAbsent(t); }
  }

  lemma {:induction false} LoneCRsAbsent(t: string)
    requires CR !in t
    ensures LoneCRs(t) == 0
    decreases |t|
  {
    if t != [] {
      LoneCRsAbsent(t[1..]);
    }
  }

  /** Splitting the text splits the lone CRs, except a CR at the end of a whose LF starts b. */
  lemma {:induction false} LoneCRsAppend(a: string, b: string)
    ensures LoneCRs(a + b) + (if a != [] && a[|a| - 1] == CR && b != [] && b[0] == LF then 1 else 0)
         == LoneCRs(a) + LoneCRs(b)
    decreases |a|
  {
    if a == [] {
      assert a + b == b;
    } else {
      assert (a + b)[1..] == a[1..] + b;
      LoneCRsAppend(a[1..], b);
      if |a| > 1 {
        assert (a + b)[1] == a[1];
        assert a[1..][|a[1..]| - 1] == a[|a| - 1];
      } else {
        assert a[1..] + b == b;
      }
    }
  }

  /** Lines of text in which one terminator sits between a and b. */
  lemma LinesAroundTerminator(a: string, term: string, b: string)
    requires a == [] || a[|a| - 1] != CR
    requires term == [LF] || term == [CR, LF] || (term == [CR] && (b == [] || b[0] != LF))
    ensures CountLines(a + term + b) == Count(LF, a) + LoneCRs(a) + 1 + Count(LF, b) + LoneCRs(b) + Unterminated(b)
  {
    var t := a + term + b;
    CountAround(a, term, b);
    LoneCRsAround(a, term, b);
    UnterminatedAround(a, term, b);
    TerminatorCounts(term);
    CountLinesByTerminators(t);
  }

  lemma CountAround(a: string, term: string, b: string)
    ensures Count(LF, a + term + b) == Count(LF, a) + Count(LF, term) + Count(LF, b)
  {
    assert a + term + b == a + (term + b);
    CountAppend(LF, a, term + b);
    CountAppend(LF, term, b);
  }

  lemma LoneCRsAround(a: string, term: string, b: string)
    requires a == [] || a[|a| - 1] != CR
    requires term == [LF] || term == [CR, LF] || (term == [CR] && (b == [] || b[0] != LF))
    ensures LoneCRs(a + term + b) == LoneCRs(a) + LoneCRs(term) + LoneCRs(b)
  {
    assert a + term + b == a + (term + b);
    LoneCRsAppend(term, b);
    LoneCRsAppend(a, term + b);
    assert (term + b)[0] == term[0];
  }

  lemma UnterminatedAround(a: string, term: string, b: string)
    requires term == [LF] || term == [CR, LF] || term == [CR]
    ensures Unterminated(a + term + b) == Unterminated(b)
  {
    if b == [] {
      assert a + term + b == a + term;
      LastOfAppend(a, term);
    } else {
      LastOfAppend(a + term, b);
    }
  }

  /** Each terminator holds exactly one LF or lone CR, and ends in CR or LF. */
  lemma TerminatorCounts(term: string)
    requires term == [LF] || term == [CR, LF] || term == [CR]
    ensures Count(LF, term) + LoneCRs(term) == 1
    ensures term != [] && (term[|term| - 1] == CR || term[|term| - 1] == LF)
  {
    if term == [CR, LF] {
      assert term[1..] == [LF];
    }
  }

  lemma LastOfAppend(x: string, y: string)
    requires y != []
    ensures (x + y)[|x + y| - 1] == y[|y| - 1]
  {
  }

  /** CR LF ends one line, exactly as LF alone does (after text that does not itself end in CR). */
  lemma CrLfIsOneTerminator(a: string, b: string)
    requires a == [] || a[|a| - 1] != CR
    ensures CountLines(a + [CR, LF] + b) == CountLines(a + [LF] + b)
  {
    LinesAroundTerminator(a, [CR, LF], b);
    LinesAroundTerminator(a, [LF], b);
  }

  /** A CR not followed by LF ends one line, exactly as LF does (after text that does not itself end in CR). */
  lemma LoneCrIsTerminator(a: string, b: string)
    requires a == [] || a[|a| - 1] != CR
    requires b == [] || b[0] != LF
    ensures CountLines(a + [CR] + b) == CountLines(a + [LF] + b)
  {
    LinesAroundTerminator(a, [CR], b);
    LinesAroundTerminator(a, [LF], b);
  }

  /** Terminating the final segment adds no line: "a\nb\nc" and "a\nb\nc\n" have the same count. */
  lemma TrailingNewlineAddsNoLine(t: string)
    requires t != [] && t[|t| - 1] != CR && t[|t| - 1] != LF
    ensures CountLines(t + [LF]) == CountLines(t)
  {
    CountLinesByTerminators(t);
    LinesAroundTerminator(t, [LF], []);
    assert t + [LF] + [] == t + [LF];
    assert LoneCRs([]) == 0 && Count(LF, []) == 0;
  }
}
