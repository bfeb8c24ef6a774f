# pywc counters in Dafny

This project models the four counters of `pywc`, a `wc`-like tool. Each
counter reads one file whole and reports a single number:

- **bytes**: the length of the file's raw content.
- **lines**: the length of `readlines()` on the file opened in text mode as
  UTF-8, with universal newlines.
- **words**: the length of `str.split()` on that same text.
- **characters**: the length of the raw content decoded as strict UTF-8.

Here the file's content is a parameter, `data: seq<Byte>`. A decoding error
(`UnicodeDecodeError`) is the result `None`.

The model is split into modules:

- `Utf8` (`utf8.dfy`) is the strict decoder of RFC 3629.
  - `DecodeFirst` is the bit arithmetic of RFC 3629 section 3, with every
    rejection the strict codec makes: a stray continuation octet, an octet
    F8..FF, a truncated sequence, an overlong form, a surrogate, or a value
    above U+10FFFF.
  - Two independent descriptions are its partners. `Pattern` / `Encode` is
    the bit-pattern table of RFC 3629 section 3. `IsUtf8Char` / `IsUtf8` is
    the ABNF syntax of RFC 3629 section 4.
  - The decoder is proved to accept exactly the RFC 3629 section 4 syntax, and to be
    the inverse of the encoder in both directions.
- `Newlines` (`newlines.dfy`) models text-mode reading.
  - `Translate` is the universal-newline translation. Every `\r\n` and every
    lone `\r` becomes `\n`.
  - `ReadLines` is `readlines()`, which cuts the text after each `\n`.
  - `CountLines` is the number of elements `readlines()` returns. It is
    proved equal to an independent count: one line per terminator, plus one
    for an unterminated last segment.
- `Words` (`words.dfy`) models `str.split()` with no separator.
  - `IsSpace` is the set `str.isspace()` accepts. It holds the ASCII
    whitespace, U+001C..U+001F, U+0085, U+00A0, U+1680, U+2000..U+200A,
    U+2028, U+2029, U+202F, U+205F and U+3000.
  - `Split` cuts at whitespace runs and drops empty pieces. It is proved to
    yield exactly the maximal runs of non-whitespace, in order.
- `Wc` (`wc.dfy`) holds the counters themselves:
  - the `Encoding` constant;
  - `NumBytes`, `NumLines`, `NumWords` and `NumChars`;
  - the properties that relate them.
- `Seqs` and `Wrappers` hold a counting function, a concatenation function
  and `Option`.

## Model

| member | source | states |
|---|---|---|
| Wc.NumBytes | src/main.py:9-22 | No contract of its own: the byte count is the length of the content read in binary mode. Its meaning is stated by Wc.BytesAreEncodedChars and by the bounds in Wc.NumChars. |
| Wc.NumChars | src/main.py:41-47 | The character count exists exactly when the content is UTF-8 under the syntax of RFC 3629 section 4, the `Encoding` constant "utf-8" of src/main.py:7. It then lies between a quarter of the byte count and the byte count. |
| Wc.NumLines | src/main.py:24-28 | The line count fails on exactly the content NumChars fails on. Otherwise it is the number of LF, plus the number of CR not followed by LF, plus one if the text ends without a terminator. It is never more than the character count. |
| Wc.NumWords | src/main.py:30-39 | The word count fails on exactly the content NumChars fails on. Otherwise it is the number of places where a non-whitespace character starts a run: at the start of the text, or right after whitespace. It is never more than the character count. |
| Wc.BytesAreEncodedChars | src/main.py:9-22 | For content that decodes, the byte count is the total length of the UTF-8 encodings of its characters. |
| Wc.CharsEqualBytesIffAscii | src/main.py:41-47 | The character count equals the byte count if and only if every byte is below 0x80. |
| Wc.DecodeErrorIsShared | src/main.py:24-47 | Content that does not decode makes the character, line and word counts all fail. |
| Wc.WordsIgnoreNewlineTranslation | src/main.py:31-37 | `split()` gives as many words on the text after universal-newline translation as on the text before it. |
| Wc.WordStartsTranslate | src/main.py:31-37 | Translating newlines leaves the number of starts of non-whitespace runs unchanged, from either starting state (after whitespace or inside a run). |
| Wc.EmptyContent | src/main.py:9-47 | Empty content has 0 bytes, characters, lines and words. |
| Wc.HelloWorld | src/main.py:9-47 | The 12 bytes of "hello world\n" give 12 bytes, 12 characters, 1 line and 2 words. |
| Wc.TwoByteCharacter | src/main.py:41-47 | The bytes C3 A9 ("é") are 2 bytes but 1 character. |
| Wc.InvalidContent | src/main.py:24-47 | An encoded surrogate (ED A0 80) and the octet FF are decoding errors for every decoding counter. |
| Utf8.Decode | src/main.py:44 | Strict decoding of the whole content, character by character. No contract of its own: what it computes is stated by Utf8.DecodeSucceedsIffUtf8, Utf8.DecodeEncode, Utf8.EncodeDecode, Utf8.DecodeAppend and Utf8.DecodeLength. |
| Utf8.DecodeFirst | src/main.py:44 | Decodes the first character: when it succeeds, it takes between 1 octet and all of the input, exactly as many octets as the character's UTF-8 width. Utf8.DecodeFirstIsGrammar and Utf8.DecodePattern state which inputs it accepts. |
| Utf8.Pattern | src/main.py:44 | The n-octet row of the RFC 3629 section 3 table, holding any value that fits. The result is exactly n octets long. This is the decoder's independent partner; the source itself only decodes. |
| Utf8.EncodeChar | src/main.py:44 | The RFC 3629 section 3 encoding of one character, in the shortest form. No contract of its own: Utf8.DecodePattern and Utf8.DecodeFirstIsEncoding relate it to the decoder. |
| Utf8.Encode | src/main.py:44 | The encoding of a whole string. No contract of its own: Utf8.DecodeEncode and Utf8.EncodeDecode state that it is the inverse of Utf8.Decode. |
| Utf8.IsUtf8Char | src/main.py:44 | The UTF8-char production of the ABNF in RFC 3629 section 4, written as octet ranges. It is a definition, with no contract. |
| Utf8.IsUtf8 | src/main.py:44 | The UTF8-octets production of RFC 3629 section 4: a sequence of UTF8-char. It is a definition, with no contract. |
| Utf8.DecodeSucceedsIffUtf8 | src/main.py:44 | Strict decoding succeeds if and only if the octets match the UTF8-octets syntax of RFC 3629 section 4. |
| Utf8.DecodeFirstIsGrammar | src/main.py:44 | The octets the decoder takes for one character form a UTF8-char. Whenever some n-octet prefix is a UTF8-char, the decoder succeeds and takes exactly n octets. |
| Utf8.DecodePattern | src/main.py:44 | Decoding an n-octet pattern of the RFC 3629 section 3 table gives its value. The exceptions are a value that fits in fewer octets, a surrogate and a value above U+10FFFF: these are rejected. |
| Utf8.DecodeFirstIsEncoding | src/main.py:44 | The octets the decoder takes for a character are exactly that character's encoding. |
| Utf8.DecodeEncode | src/main.py:44 | Decoding the encoding of any string gives back that string. |
| Utf8.EncodeDecode | src/main.py:44 | Encoding the decoded characters gives back the original octets. |
| Utf8.DecodeAppend | src/main.py:44 | After a valid prefix, the rest alone decides whether decoding succeeds, and the decoded text is the concatenation of the two parts. |
| Utf8.RejectsStrayTail | src/main.py:44 | A continuation octet where a character should start is a decoding error, whatever follows. |
| Utf8.RejectsInvalidPattern | src/main.py:44 | An overlong form, an encoded surrogate or a value above U+10FFFF is a decoding error, wherever it appears after valid text. |
| Utf8.RejectsTruncated | src/main.py:44 | A character encoding cut short, and not continued by a continuation octet, is a decoding error. |
| Utf8.ForbiddenOctetsNeverAppear | src/main.py:44 | Content that decodes never contains the octets C0, C1 or F5..FF (RFC 3629 section 1). |
| Utf8.DecodeLength | src/main.py:44-45 | The decoded text has at most as many characters as there are octets, and at least a quarter as many. |
| Utf8.DecodeAscii | src/main.py:44-45 | Octets all below 0x80 decode to characters with the same code points, one per octet. |
| Utf8.SameLengthOnlyForAscii | src/main.py:44-45 | If decoding gives as many characters as octets, every octet is below 0x80. |
| Newlines.Translate | src/main.py:25 | Universal-newline translation never lengthens the text. It leaves empty text empty and non-empty text non-empty, and no CR survives it. Newlines.TranslateAppend and Newlines.TranslateUnits pin it down completely. |
| Newlines.TranslateAppend | src/main.py:25 | Translation works piece by piece: translating a + b gives the translation of a followed by that of b, unless a CR ending a meets an LF starting b (together they are one CR LF terminator). |
| Newlines.TranslateUnits | src/main.py:25 | CR LF, a lone CR and LF each become one LF. Every other character is kept as it is. |
| Newlines.TranslateWithoutCR | src/main.py:25 | Text without CR passes through translation unchanged. |
| Newlines.ReadLines | src/main.py:26 | The list `readlines()` returns for translated text. No contract of its own: Newlines.ReadLinesPartition and Newlines.ReadLinesCount state what it is. |
| Newlines.CountLines | src/main.py:25-26 | The number of lines of decoded text read in text mode: the length of `readlines()` after translation. No contract of its own: Newlines.CountLinesByTerminators equates it with the count of terminators. |
| Newlines.ReadLinesPartition | src/main.py:26 | The elements of `readlines()` concatenate back to the text. Each is non-empty with a LF only at its end, and every element but the last ends in LF. |
| Newlines.ReadLinesCount | src/main.py:26 | `readlines()` returns one element per LF, plus one for a final segment without LF. |
| Newlines.TranslateCountsTerminators | src/main.py:25 | Translation yields one LF per LF, CR LF or lone CR of the original text. |
| Newlines.TranslateKeepsEnding | src/main.py:25 | Translated text ends in LF exactly when the original ends in CR or LF. |
| Newlines.CountLinesByTerminators | src/main.py:25-26 | The line count is the number of terminators (LF, CR LF, lone CR) plus one for an unterminated final segment. |
| Newlines.LinesAtMostChars | src/main.py:25-26 | There are never more lines than characters. |
| Newlines.NoBreakIsOneLine | src/main.py:25-26 | Text without CR or LF is one line, or none when empty. |
| Newlines.LinesAroundTerminator | src/main.py:25-26 | Text around one terminator has the lines of the part before it, one for the terminator, and those of the part after it, provided the part before does not end in CR. |
| Newlines.CrLfIsOneTerminator | src/main.py:25-26 | CR LF ends exactly one line, as LF does, after text that does not end in CR. |
| Newlines.LoneCrIsTerminator | src/main.py:25-26 | A CR not followed by LF ends one line, as LF does, after text that does not end in CR. |
| Newlines.TrailingNewlineAddsNoLine | src/main.py:25-26 | Adding a LF after an unterminated final segment does not change the line count. |
| Words.IsSpace | src/main.py:37 | The characters `str.split()` cuts at: the 29 code points `str.isspace()` accepts. It is a definition, with no contract. |
| Words.Split | src/main.py:37 | `str.split()` with no separator. No contract of its own: Words.SplitGivesWords, Words.SplitKeepsNonSpace, Words.SplitCountsRuns and Words.SplitTakes state what it returns. |
| Words.SplitGivesWords | src/main.py:37 | Every piece `split()` returns is non-empty and holds no whitespace. |
| Words.SplitKeepsNonSpace | src/main.py:37 | The pieces concatenate to the text with all whitespace removed. Nothing is lost, nothing is added, and the order is kept. |
| Words.SplitCountsRuns | src/main.py:37 | The number of pieces is the number of maximal runs of non-whitespace. |
| Words.NoWordsIffAllSpace | src/main.py:37 | `split()` returns nothing if and only if the text is empty or all whitespace. |
| Words.SplitTakes | src/main.py:37 | After leading whitespace, the first piece is the whole run of non-whitespace up to the next whitespace or the end. |
| Words.SplitThreeWords | src/main.py:37 | Leading, repeated and trailing whitespace produce no empty pieces. Three words separated by whitespace runs split into exactly those words. |
| Words.LeadingSpaceIsMaximal | src/main.py:37 | The whitespace run `split()` skips is maximal. |
| Words.LeadingWordIsMaximal | src/main.py:37 | The piece `split()` takes is the maximal run of non-whitespace. |

## Left out

- Opening and reading the file (`open`, `read`, `readlines` on a file object) is left out. The content is the parameter `data`; an unreadable or missing file, and the `OSError` it raises, are not modelled.
- `main()` and the `FILEPATH` constant are left out. They only print the four counts for a fixed path.
- The tests in `tests/tests.py` are not part of this model.
- Reading in chunks, which the source mentions only as an alternative, is left out.
- Locale-dependent encodings are left out: the code always passes `ENCODING`, which is `Wc.Encoding`, "utf-8".
- A command-line interface, option handling, reading standard input and a formatted report are not present in `src/main.py`. They are not modelled.
- Whitespace for `NumWords` follows the code, which uses `str.split()` and therefore Python's full `str.isspace()` set. A narrower description with only space, tab, newline, carriage return, form feed and vertical tab does not match the code.
- A byte-order mark at the start of the content is kept as the character U+FEFF, as the "utf-8" codec does: it counts as a character and, being non-whitespace, as part of a word.
- Wc.NumBytes: has no contract of its own, because the byte count is the length of the content. What it means is stated by Wc.BytesAreEncodedChars, and by the bounds in Wc.NumChars.
- The memory cost of reading a whole file at once, which the source comments mention, is not modelled.
