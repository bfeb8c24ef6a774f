/**
 * The four counters of the line/word/character/byte counting tool. Each
 * one reads the whole file and applies one expression to the content; here
 * the content is the parameter `data`, the octets the read returns, and a
 * `UnicodeDecodeError` is the result None.
 */
module Wc {
  import opened Wrappers
  import opened Seqs
  import opened Utf8
  import opened Newlines
  import opened Words

  /** The fixed encoding of every decode and text-mode read; no locale is consulted. */
  const Encoding: string := "utf-8"

  /** Number of bytes: the length of the content read in binary mode. */
  function NumBytes(data: seq<Byte>): nat
  {
    |data|
  }

  /**
   * Number of characters: the length of the content decoded as strict UTF-8.
   * Decoding fails exactly on content outside the syntax of RFC 3629, and
   * each character takes one to four bytes.
   */
  function NumChars(data: seq<Byte>): (r: Option<nat>)
    ensures r.Some? <==> IsUtf8(data)
    ensures r.Some? ==> r.value <= NumBytes(data) <= 4 * r.value
  {
    DecodeSucceedsIffUtf8(data);
    match Decode(data)
    case None => None
    case Some(text) => DecodeLength(data); Some(|text|)
  }

  /**
   * Number of lines: the length of `readlines()` on the content read in text
   * mode. It fails on the same content as NumChars; otherwise every LF,
   * every CR LF and every lone CR ends one line, an unterminated last
   * segment is one more, and there are never more lines than characters.
   */
  function NumLines(data: seq<Byte>): (r: Option<nat>)
    ensures r.Some? <==> IsUtf8(data)
    ensures match Decode(data)
      case None => r == None
      case Some(text) => r == Some(Count(LF, text) + LoneCRs(text) + Unterminated(text))
    ensures r.Some? ==> r.value <= NumChars(data).value
  {
    DecodeSucceedsIffUtf8(data);
    match Decode(data)
    case None => None
    case Some(text) =>
      CountLinesByTerminators(text);
      LinesAtMostChars(text);
      Some(CountLines(text))
  }

  /**
   * Number of words: the length of `split()` on the content read in text
   * mode. It fails on the same content as NumChars; otherwise it is the
   * number of maximal runs of non-whitespace in the decoded text, as if no
   * newline translation had happened, and never more than the characters.
   */
  function NumWords(data: seq<Byte>): (r: Option<nat>)
    ensures r.Some? <==> IsUtf8(data)
    ensures match Decode(data)
      case None => r == None
      case Some(text) => r == Some(WordStarts(text, true))
    ensures r.Some? ==> r.value <= NumChars(data).value
  {
    DecodeSucceedsIffUtf8(data);
    match Decode(data)
    case None => None
    case Some(text) =>
      SplitCountsRuns(Translate(text));
      WordStartsTranslate(text, true);
      WordStartsAtMostLength(text, true);
      Some(|Split(Translate(text))|)
  }

  // ---------------------------------------------------------------------------
  // Lemmas

  /** Universal-newline translation leaves the number of word starts unchanged: CR and LF are both whitespace. */
  lemma {:induction false} WordStartsTranslate(t: string, afterSpace: bool)
    ensures WordStarts(Translate(t), afterSpace) == WordStarts(t, afterSpace)
    decreases |t|
  {
    if t != [] {
      if t[0] == CR && |t| > 1 && t[1] == LF {
        WordStartsTranslate(t[2..], true);
        assert t[1..][1..] == t[2..];
      } else {
        WordStartsTranslate(t[1..], IsSpace(t[0]));
      }
    }
  }

  lemma {:induction false} WordStartsAtMostLength(t: string, afterSpace: bool)
    ensures WordStarts(t, afterSpace) <= |t|
    decreases |t|
  {
    if t != [] {
      WordStartsAtMostLength(t[1..], IsSpace(t[0]));
    }
  }

  /** `split()` gives as many words on the translated text as on the text before translation. */
  lemma WordsIgnoreNewlineTranslation(t: string)
    ensures |Split(Translate(t))| == |Split(t)|
  {
    SplitCountsRuns(Translate(t));
    SplitCountsRuns(t);
    WordStartsTranslate(t, true);
  }

  /** Whenever the content decodes, the byte count is the length of its characters' UTF-8 encodings. */
  lemma BytesAreEncodedChars(data: seq<Byte>)
    requires Decode(data).Some?
    ensures NumBytes(data) == |Encode(Decode(data).value)|
  {
    EncodeDecode(data);
  }

  /** The character count equals the byte count exactly when every byte is below 0x80. */
  lemma CharsEqualBytesIffAscii(data: seq<Byte>)
    ensures NumChars(data) == Some(NumBytes(data)) <==> forall i :: 0 <= i < |data| ==> data[i] < 0x80
  {
    if forall i :: 0 <= i < |data| ==> data[i] < 0x80 {
      DecodeAscii(data);
    }
    if NumChars(data) == Some(NumBytes(data)) {
      SameLengthOnlyForAscii(data);
    }
  }

  /** A decoding error stops all three decoding counters alike; only the byte count survives it. */
  lemma DecodeErrorIsShared(data: seq<Byte>)
    requires Decode(data).None?
    ensures NumChars(data).None? && NumLines(data).None? && NumWords(data).None?
  {
    DecodeSucceedsIffUtf8(data);
  }

  /** An empty file: no lines, words, characters or bytes. */
  lemma EmptyContent()
    ensures NumBytes([]) == 0
    ensures NumChars([]) == Some(0) && NumLines([]) == Some(0) && NumWords([]) == Some(0)
  {
  }

  /** "hello world\n": 12 bytes, 12 characters, 1 line, 2 words. */
  lemma HelloWorld(data: seq<Byte>)
    requires data == [0x68, 0x65, 0x6C, 0x6C, 0x6F, 0x20, 0x77, 0x6F, 0x72, 0x6C, 0x64, 0x0A]
    ensures NumBytes(data) == 12
    ensures NumChars(data) == Some(12) && NumLines(data) == Some(1) && NumWords(data) == Some(2)
  {
    var text := HelloWorldText(data);
    HelloWorldLines(text);
    HelloWorldWords(text);
  }

  lemma HelloWorldText(data: seq<Byte>) returns (text: string)
    requires data == [0x68, 0x65, 0x6C, 0x6C, 0x6F, 0x20, 0x77, 0x6F, 0x72, 0x6C, 0x64, 0x0A]
    ensures Decode(data) == Some(text) && text == "hello world\n"
  {
    DecodeAscii(data);
    text := Decode(data).value;
    assert forall i :: 0 <= i < 12 ==> text[i] as int == data[i];
  }

  lemma HelloWorldLines(t: string)
    requires t == "hello world\n"
    ensures Count(LF, t) + LoneCRs(t) + Unterminated(t) == 1
  {
    LoneCRsAbsent(t);
    var a, b := t[..11], t[11..];
    assert t == a + b;
    CountAppend(LF, a, b);
    assert forall i :: 0 <= i < |a| ==> a[i] != LF;
    assert Count(LF, a) == 0;
    assert b == [LF];
  }

  lemma HelloWorldWords(t: string)
    requires t == "hello world\n"
    ensures WordStarts(t, true) == 2
  {
    WordStartsSkipWord(t, true, 5);
    WordStartsSkipSpace(t[5..], false, 1);
    assert t[5..][1..] == t[6..];
    WordStartsSkipWord(t[6..], true, 5);
    assert t[6..][5..] == "\n";
  }

  /** "é" takes two bytes but is one character. */
  lemma TwoByteCharacter(data: seq<Byte>)
    requires data == [0xC3, 0xA9]
    ensures NumBytes(data) == 2 && NumChars(data) == Some(1)
  {
    DecodePattern(0xE9, 2, []);
    assert Pattern(0xE9, 2) + [] == data;
    DecodeStep(data);
    assert data[2..] == [];
  }

  /** An encoded surrogate and a stray byte are decoding errors for every decoding counter. */
  lemma InvalidContent(data: seq<Byte>)
    requires data == [0xED, 0xA0, 0x80] || data == [0xFF]
    ensures NumChars(data) == None && NumLines(data) == None && NumWords(data) == None
  {
  }
}
