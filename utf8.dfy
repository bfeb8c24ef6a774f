/**
 * Strict UTF-8 as defined by RFC 3629: the decoding that `bytes.decode("utf-8")`
 * and a text-mode file opened with `encoding="utf-8"` apply to the raw content.
 *
 * `Decode` follows the encoding form of RFC 3629 section 3 (bit arithmetic on the
 * octets, with the overlong, surrogate and range checks that section
 * demands); `IsUtf8` is the ABNF syntax of RFC 3629 section 4, written independently;
 * `Encode` is the RFC 3629 section 3 encoding, the decoder's inverse.
 */
module Utf8 {
  import opened Wrappers

  /** One octet of the raw file content. */
  type Byte = b: int | 0 <= b < 0x100

  /** UTF8-tail of RFC 3629 section 4: the octets that carry six bits of a multi-octet sequence. */
  predicate IsTail(b: Byte) { 0x80 <= b <= 0xBF }

  /** A Unicode scalar value: a code point that is not a surrogate. */
  predicate IsScalar(v: int) { 0 <= v < 0xD800 || 0xE000 <= v < 0x110000 }

  /** Smallest value that the n-octet form of RFC 3629 section 3 may carry (smaller ones are overlong). */
  function MinValue(n: nat): int
    requires 1 <= n <= 4
  {
    if n == 1 then 0 else if n == 2 then 0x80 else if n == 3 then 0x800 else 0x10000
  }

  /** One past the largest value that fits the x-bits of the n-octet form. */
  function Capacity(n: nat): int
    requires 1 <= n <= 4
  {
    if n == 1 then 0x80 else if n == 2 then 0x800 else if n == 3 then 0x10000 else 0x200000
  }

  /** Number of octets RFC 3629 section 3 uses for c. */
  function Width(c: char): nat
  {
    var v := c as int;
    if v < 0x80 then 1 else if v < 0x800 then 2 else if v < 0x10000 then 3 else 4
  }

  /**
   * The n-octet row of the table in RFC 3629 section 3, its x-bits filled with v
   * (high-order bits first). Meaningful for any v that fits, including the
   * overlong, surrogate and out-of-range values a decoder must refuse.
   */
  function Pattern(v: nat, n: nat): (s: seq<Byte>)
    requires 1 <= n <= 4 && v < Capacity(n)
    ensures |s| == n
  {
    var q1 := v / 0x40;
    var q2 := q1 / 0x40;
    var q3 := q2 / 0x40;
    if n == 1 then [v]
    else if n == 2 then [0xC0 + q1, 0x80 + v % 0x40]
    else if n == 3 then [0xE0 + q2, 0x80 + q1 % 0x40, 0x80 + v % 0x40]
    else [0xF0 + q3, 0x80 + q2 % 0x40, 0x80 + q1 % 0x40, 0x80 + v % 0x40]
  }

  function EncodeChar(c: char): seq<Byte>
  {
    Pattern(c as int, Width(c))
  }

  function Encode(cs: string): seq<Byte>
  {
    if cs == [] then [] else EncodeChar(cs[0]) + Encode(cs[1..])
  }

  /**
   * Decodes the character at the start of s, with the number of octets it
   * occupies, or None when s does not start with a valid sequence: a stray
   * continuation octet, an octet that never appears (F8..FF), a truncated
   * sequence, an overlong form, a surrogate or a value above U+10FFFF.
   */
  function DecodeFirst(s: seq<Byte>): (r: Option<(char, nat)>)
    requires s != []
    ensures r.Some? ==> 1 <= r.value.1 <= |s| && r.value.1 == Width(r.value.0)
  {
    var b0 := s[0] as int;
    var b1 := if |s| > 1 then s[1] as int else 0;
    var b2 := if |s| > 2 then s[2] as int else 0;
    var b3 := if |s| > 3 then s[3] as int else 0;
    if b0 < 0x80 then
      Some((b0 as char, 1))
    else if b0 < 0xC0 then
      None
    else if b0 < 0xE0 then
      if |s| < 2 || !IsTail(s[1]) then None
      else
        var v := (b0 - 0xC0) * 0x40 + (b1 - 0x80);
        if v < 0x80 then None else Some((v as char, 2))
    else if b0 < 0xF0 then
      if |s| < 3 || !IsTail(s[1]) || !IsTail(s[2]) then None
      else
        var v := (b0 - 0xE0) * 0x1000 + (b1 - 0x80) * 0x40 + (b2 - 0x80);
        if v < 0x800 || 0xD800 <= v < 0xE000 then None else Some((v as char, 3))
    else if b0 < 0xF8 then
      if |s| < 4 || !IsTail(s[1]) || !IsTail(s[2]) || !IsTail(s[3]) then None
      else
        var v := (b0 - 0xF0) * 0x40000 + (b1 - 0x80) * 0x1000 + (b2 - 0x80) * 0x40 + (b3 - 0x80);
        if v < 0x10000 || 0x110000 <= v then None else Some((v as char, 4))
    else
      None
  }

  /** Strict decoding of a whole octet sequence into scalar values; None is the decoding error. */
  function Decode(s: seq<Byte>): Option<string>
    decreases |s|
  {
    if s == [] then Some([])
    else
      match DecodeFirst(s)
      case None => None
      case Some((c, n)) =>
        match Decode(s[n..])
        case None => None
        case Some(cs) => Some([c] + cs)
  }

  // ---------------------------------------------------------------------------
  // RFC 3629 section 4: the syntax of UTF-8 byte sequences

  /** The production UTF8-char, matched against exactly the octets of s. */
  predicate IsUtf8Char(s: seq<Byte>)
  {
    if |s| == 1 then
      s[0] <= 0x7F
    else if |s| == 2 then
      0xC2 <= s[0] <= 0xDF && IsTail(s[1])
    else if |s| == 3 then
      && IsTail(s[2])
      && (|| (s[0] == 0xE0 && 0xA0 <= s[1] <= 0xBF)
          || (0xE1 <= s[0] <= 0xEC && IsTail(s[1]))
          || (s[0] == 0xED && 0x80 <= s[1] <= 0x9F)
          || (0xEE <= s[0] <= 0xEF && IsTail(s[1])))
    else if |s| == 4 then
      && IsTail(s[2]) && IsTail(s[3])
      && (|| (s[0] == 0xF0 && 0x90 <= s[1] <= 0xBF)
          || (0xF1 <= s[0] <= 0xF3 && IsTail(s[1]))
          || (s[0] == 0xF4 && 0x80 <= s[1] <= 0x8F))
    else
      false
  }

  /** The production UTF8-octets: a sequence of UTF8-char. */
  ghost predicate IsUtf8(s: seq<Byte>)
    decreases |s|
  {
    s == [] || exists n :: 1 <= n <= |s| && IsUtf8Char(s[..n]) && IsUtf8(s[n..])
  }

  /** The first character DecodeFirst accepts is exactly the one UTF8-char prefix of s. */
  lemma DecodeFirstIsGrammar(s: seq<Byte>)
    requires s != []
    ensures DecodeFirst(s).Some? ==> IsUtf8Char(s[..DecodeFirst(s).value.1])
    ensures forall n :: 1 <= n <= |s| && IsUtf8Char(s[..n]) ==>
              DecodeFirst(s).Some? && DecodeFirst(s).value.1 == n
  {
  }

  /** Strict decoding succeeds exactly on the octet sequences of RFC 3629 section 4's syntax. */
  lemma {:induction false} DecodeSucceedsIffUtf8(s: seq<Byte>)
    ensures Decode(s).Some? <==> IsUtf8(s)
    decreases |s|
  {
    if s != [] {
      DecodeFirstIsGrammar(s);
      if Decode(s).Some? {
        var n := DecodeFirst(s).value.1;
        DecodeSucceedsIffUtf8(s[n..]);
        assert IsUtf8Char(s[..n]) && IsUtf8(s[n..]);
      }
      if IsUtf8(s) {
        var n :| 1 <= n <= |s| && IsUtf8Char(s[..n]) && IsUtf8(s[n..]);
        DecodeSucceedsIffUtf8(s[n..]);
      }
    }
  }

  // ---------------------------------------------------------------------------
  // RFC 3629 section 3: the encoding form, and the decoder as its inverse

  /**
   * Decoding an n-octet pattern yields its value exactly when the value is a
   * scalar value not encodable in fewer octets; otherwise (overlong form,
   * surrogate, value above U+10FFFF) it is a decoding error.
   */
  lemma DecodePattern(v: nat, n: nat, rest: seq<Byte>)
    requires 1 <= n <= 4 && v < Capacity(n)
    ensures DecodeFirst(Pattern(v, n) + rest) ==
              if MinValue(n) <= v && IsScalar(v) then Some((v as char, n)) else None
  {
    if n == 2 {
      DecodePattern2(v, rest);
    } else if n == 3 {
      DecodePattern3(v, rest);
    } else if n == 4 {
      DecodePattern4(v, rest);
    }
  }

  lemma DecodePattern2(v: nat, rest: seq<Byte>)
    requires v < 0x800
    ensures DecodeFirst(Pattern(v, 2) + rest) == if 0x80 <= v then Some((v as char, 2)) else None
  {
    var s := Pattern(v, 2) + rest;
    var q1 := v / 0x40;
    assert v == q1 * 0x40 + v % 0x40;
    assert s[0] == 0xC0 + q1 && s[1] == 0x80 + v % 0x40;
  }

  lemma DecodePattern3(v: nat, rest: seq<Byte>)
    requires v < 0x10000
    ensures DecodeFirst(Pattern(v, 3) + rest) ==
              if 0x800 <= v && IsScalar(v) then Some((v as char, 3)) else None
  {
    var s := Pattern(v, 3) + rest;
    var q1 := v / 0x40;
    var q2 := q1 / 0x40;
    assert v == q2 * 0x1000 + (q1 % 0x40) * 0x40 + v % 0x40 by {
      assert v == q1 * 0x40 + v % 0x40;
      assert q1 == q2 * 0x40 + q1 % 0x40;
    }
    assert s[0] == 0xE0 + q2 && s[1] == 0x80 + q1 % 0x40 && s[2] == 0x80 + v % 0x40;
  }

  lemma DecodePattern4(v: nat, rest: seq<Byte>)
    requires v < 0x200000
    ensures DecodeFirst(Pattern(v, 4) + rest) ==
              if 0x10000 <= v && IsScalar(v) then Some((v as char, 4)) else None
  {
    var s := Pattern(v, 4) + rest;
    var q1 := v / 0x40;
    var q2 := q1 / 0x40;
    var q3 := q2 / 0x40;
    assert v == q3 * 0x40000 + (q2 % 0x40) * 0x1000 + (q1 % 0x40) * 0x40 + v % 0x40 by {
      assert v == q1 * 0x40 + v % 0x40;
      assert q1 == q2 * 0x40 + q1 % 0x40;
      assert q2 == q3 * 0x40 + q2 % 0x40;
    }
    assert s[0] == 0xF0 + q3 && s[1] == 0x80 + q2 % 0x40;
    assert s[2] == 0x80 + q1 % 0x40 && s[3] == 0x80 + v % 0x40;
  }

  /** Two octets of the 2-octet form carry the value whose pattern they are. */
  lemma PatternOf2(b0: Byte, b1: Byte)
    requires 0xC0 <= b0 < 0xE0 && IsTail(b1)
    ensures var v := (b0 - 0xC0) * 0x40 + (b1 - 0x80) as int;
      0 <= v < Capacity(2) && Pattern(v, 2) == [b0, b1]
  {
  }

  lemma PatternOf3(b0: Byte, b1: Byte, b2: Byte)
    requires 0xE0 <= b0 < 0xF0 && IsTail(b1) && IsTail(b2)
    ensures var v := (b0 - 0xE0) * 0x1000 + (b1 - 0x80) * 0x40 + (b2 - 0x80) as int;
      0 <= v < Capacity(3) && Pattern(v, 3) == [b0, b1, b2]
  {
    var v := (b0 - 0xE0) * 0x1000 + (b1 - 0x80) * 0x40 + (b2 - 0x80) as int;
    var q1 := (b0 - 0xE0) * 0x40 + (b1 - 0x80) as int;
    assert v == q1 * 0x40 + (b2 - 0x80);
    assert v / 0x40 == q1 && v % 0x40 == b2 - 0x80;
    assert q1 / 0x40 == b0 - 0xE0 && q1 % 0x40 == b1 - 0x80;
  }

  lemma PatternOf4(b0: Byte, b1: Byte, b2: Byte, b3: Byte)
    requires 0xF0 <= b0 < 0xF8 && IsTail(b1) && IsTail(b2) && IsTail(b3)
    ensures var v := (b0 - 0xF0) * 0x40000 + (b1 - 0x80) * 0x1000 + (b2 - 0x80) * 0x40 + (b3 - 0x80) as int;
      0 <= v < Capacity(4) && Pattern(v, 4) == [b0, b1, b2, b3]
  {
    var v := (b0 - 0xF0) * 0x40000 + (b1 - 0x80) * 0x1000 + (b2 - 0x80) * 0x40 + (b3 - 0x80) as int;
    var q2 := (b0 - 0xF0) * 0x40 + (b1 - 0x80) as int;
    var q1 := q2 * 0x40 + (b2 - 0x80);
    assert v == q1 * 0x40 + (b3 - 0x80);
    assert v / 0x40 == q1 && v % 0x40 == b3 - 0x80;
    assert q1 / 0x40 == q2 && q1 % 0x40 == b2 - 0x80;
    assert q2 / 0x40 == b0 - 0xF0 && q2 % 0x40 == b1 - 0x80;
  }

  /** Whatever DecodeFirst accepts is the RFC 3629 section 3 encoding of the character it returns. */
  lemma DecodeFirstIsEncoding(s: seq<Byte>)
    requires s != [] && DecodeFirst(s).Some?
    ensures s[..DecodeFirst(s).value.1] == EncodeChar(DecodeFirst(s).value.0)
  {
    var n := DecodeFirst(s).value.1;
    if n == 2 {
      PatternOf2(s[0], s[1]);
      assert s[..2] == [s[0], s[1]];
    } else if n == 3 {
      PatternOf3(s[0], s[1], s[2]);
      assert s[..3] == [s[0], s[1], s[2]];
    } else if n == 4 {
      PatternOf4(s[0], s[1], s[2], s[3]);
      assert s[..4] == [s[0], s[1], s[2], s[3]];
    }
  }

  /** Decoding the encoding of any text gives the text back. */
  lemma {:induction false} DecodeEncode(cs: string)
    ensures Decode(Encode(cs)) == Some(cs)
  {
    if cs != [] {
      var c := cs[0];
      var s := Encode(cs);
      DecodePattern(c as int, Width(c), Encode(cs[1..]));
      assert DecodeFirst(s) == Some((c, Width(c)));
      assert s[Width(c)..] == Encode(cs[1..]);
      DecodeEncode(cs[1..]);
      DecodeStep(s);
      assert cs == [c] + cs[1..];
    }
  }

  /** Whatever decodes successfully is the encoding of what it decodes to. */
  lemma {:induction false} EncodeDecode(s: seq<Byte>)
    requires Decode(s).Some?
    ensures Encode(Decode(s).value) == s
    decreases |s|
  {
    if s != [] {
      var (c, n) := DecodeFirst(s).value;
      DecodeFirstIsEncoding(s);
      EncodeDecode(s[n..]);
      assert s == s[..n] + s[n..];
    }
  }

  /** RFC 3629 section 1: the octets C0, C1 and F5 to FF never appear in valid UTF-8. */
  lemma {:induction false} ForbiddenOctetsNeverAppear(s: seq<Byte>)
    requires Decode(s).Some?
    ensures forall i :: 0 <= i < |s| ==> s[i] != 0xC0 && s[i] != 0xC1 && s[i] < 0xF5
    decreases |s|
  {
    if s != [] {
      var n := DecodeFirst(s).value.1;
      ForbiddenOctetsNeverAppear(s[n..]);
      forall i | 0 <= i < |s|
        ensures s[i] != 0xC0 && s[i] != 0xC1 && s[i] < 0xF5
      {
        if i >= n {
          assert s[i] == s[n..][i - n];
        }
      }
    }
  }

  // ---------------------------------------------------------------------------
  // Decoding proceeds character by character, so an error anywhere is an error

  /** One step of Decode, when the first character is valid. */
  lemma DecodeStep(s: seq<Byte>)
    requires s != [] && DecodeFirst(s).Some?
    ensures var (c, n) := DecodeFirst(s).value;
      Decode(s) == if Decode(s[n..]).Some? then Some([c] + Decode(s[n..]).value) else None
  {
  }

  /** Decoding only looks at the octets of the first character. */
  lemma DecodeFirstPrefix(s: seq<Byte>, t: seq<Byte>)
    requires s != [] && DecodeFirst(s).Some?
    ensures DecodeFirst(s + t) == DecodeFirst(s)
  {
    var n := DecodeFirst(s).value.1;
    assert forall i :: 0 <= i < n ==> (s + t)[i] == s[i];
  }

  /** Decoding p + q takes the first character of p, then goes on with the rest of p followed by q. */
  lemma DecodeStepAppend(p: seq<Byte>, q: seq<Byte>)
    requires p != [] && DecodeFirst(p).Some?
    ensures var c := DecodeFirst(p).value.0;
      var n := DecodeFirst(p).value.1;
      (Decode(p + q).Some? <==> Decode(p[n..] + q).Some?) &&
      (Decode(p[n..] + q).Some? ==> Decode(p + q).value == [c] + Decode(p[n..] + q).value)
  {
    var n := DecodeFirst(p).value.1;
    DecodeFirstPrefix(p, q);
    assert (p + q)[n..] == p[n..] + q;
    DecodeStep(p + q);
  }

  /** After a valid prefix, the outcome of decoding is decided by the rest. */
  lemma {:induction false} DecodeAppend(p: seq<Byte>, q: seq<Byte>)
    requires Decode(p).Some?
    ensures Decode(p + q).Some? <==> Decode(q).Some?
    ensures Decode(q).Some? ==> Decode(p + q).value == Decode(p).value + Decode(q).value
    decreases |p|
  {
    if p == [] {
      assert p + q == q;
    } else {
      var c := DecodeFirst(p).value.0;
      var n := DecodeFirst(p).value.1;
      assert Decode(p[n..]).Some? && Decode(p).value == [c] + Decode(p[n..]).value by {
        DecodeStep(p);
      }
      DecodeStepAppend(p, q);
      DecodeAppend(p[n..], q);
      if Decode(q).Some? {
        var rest, tail := Decode(p[n..]).value, Decode(q).value;
        assert Decode(p + q).value == [c] + (rest + tail);
        assert [c] + (rest + tail) == ([c] + rest) + tail;
      }
    }
  }

  /** A continuation octet where a character should start makes decoding fail. */
  lemma RejectsStrayTail(p: seq<Byte>, b: Byte, q: seq<Byte>)
    requires Decode(p).Some? && IsTail(b)
    ensures Decode(p + [b] + q) == None
  {
    assert p + [b] + q == p + ([b] + q);
    DecodeAppend(p, [b] + q);
  }

  /** An overlong form, an encoded surrogate or a value above U+10FFFF makes decoding fail. */
  lemma RejectsInvalidPattern(p: seq<Byte>, v: nat, n: nat, q: seq<Byte>)
    requires Decode(p).Some?
    requires 1 <= n <= 4 && v < Capacity(n)
    requires v < MinValue(n) || !IsScalar(v)
    ensures Decode(p + Pattern(v, n) + q) == None
  {
    assert p + Pattern(v, n) + q == p + (Pattern(v, n) + q);
    DecodePattern(v, n, q);
    DecodeAppend(p, Pattern(v, n) + q);
  }

  /** The lead octet of an n-octet pattern announces n, and the others are continuation octets. */
  lemma PatternShape(v: nat, n: nat)
    requires 2 <= n <= 4 && MinValue(n) <= v < Capacity(n)
    ensures var s := Pattern(v, n);
      && (n == 2 ==> 0xC2 <= s[0] < 0xE0)
      && (n == 3 ==> 0xE0 <= s[0] < 0xF0)
      && (n == 4 ==> 0xF0 <= s[0] < 0xF8)
      && forall i :: 1 <= i < n ==> IsTail(s[i])
  {
  }

  /** A sequence announced by its lead octet but cut off before its last continuation octet. */
  lemma DecodeFirstTruncated(c: char, k: nat, q: seq<Byte>)
    requires 1 <= k < Width(c)
    requires q == [] || !IsTail(q[0])
    ensures DecodeFirst(EncodeChar(c)[..k] + q) == None
  {
    var t := EncodeChar(c)[..k] + q;
    var e := EncodeChar(c);
    PatternShape(c as int, Width(c));
    assert t[0] == e[0];
    assert forall i :: 1 <= i < k ==> t[i] == e[i];
    assert |t| == k || t[k] == q[0];
  }

  /** A multi-octet character cut short, at the end or before a non-continuation octet, makes decoding fail. */
  lemma RejectsTruncated(p: seq<Byte>, c: char, k: nat, q: seq<Byte>)
    requires Decode(p).Some?
    requires 1 <= k < Width(c)
    requires q == [] || !IsTail(q[0])
    ensures Decode(p + EncodeChar(c)[..k] + q) == None
  {
    assert p + EncodeChar(c)[..k] + q == p + (EncodeChar(c)[..k] + q);
    DecodeFirstTruncated(c, k, q);
    DecodeAppend(p, EncodeChar(c)[..k] + q);
  }

  // ---------------------------------------------------------------------------
  // Counting characters against octets

  /** Every character takes one to four octets. */
  lemma {:induction false} DecodeLength(s: seq<Byte>)
    requires Decode(s).Some?
    ensures |Decode(s).value| <= |s| <= 4 * |Decode(s).value|
    decreases |s|
  {
    if s != [] {
      var n := DecodeFirst(s).value.1;
      DecodeLength(s[n..]);
    }
  }

  /** Octets below 0x80 decode one-to-one into the characters with the same values. */
  lemma {:induction false} DecodeAscii(s: seq<Byte>)
    requires forall i :: 0 <= i < |s| ==> s[i] < 0x80
    ensures Decode(s).Some? && |Decode(s).value| == |s|
    ensures forall i :: 0 <= i < |s| ==> Decode(s).value[i] as int == s[i]
    decreases |s|
  {
    if s != [] {
      DecodeAscii(s[1..]);
    }
  }

  /** Decoding gives as many characters as octets only when every octet is below 0x80. */
  lemma {:induction false} SameLengthOnlyForAscii(s: seq<Byte>)
    requires Decode(s).Some? && |Decode(s).value| == |s|
    ensures forall i :: 0 <= i < |s| ==> s[i] < 0x80
    decreases |s|
  {
    if s != [] {
      var n := DecodeFirst(s).value.1;
      DecodeLength(s[n..]);
      assert n == 1;
      SameLengthOnlyForAscii(s[1..]);
      forall i | 0 <= i < |s| ensures s[i] < 0x80 {
        if i > 0 {
          assert s[i] == s[1..][i - 1];
        }
      }
    }
  }
}
