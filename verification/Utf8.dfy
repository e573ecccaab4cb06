/**
 Bytes and UTF-8. FullRune and DecodeRune give Go's utf8.FullRune and
 utf8.DecodeRune in terms of the grammar in section 4 of RFC 3629.
 */
module Utf8 {

  type Byte = b: int | 0 <= b < 256
  type Bytes = seq<Byte>

  predicate IsTail(b: Byte) {
    0x80 <= b <= 0xBF
  }

  /** The length of the sequence that a byte leads, or 0 if it leads none. */
  function SequenceLength(lead: Byte): nat {
    if lead <= 0x7F then 1
    else if 0xC2 <= lead <= 0xDF then 2
    else if 0xE0 <= lead <= 0xEF then 3
    else if 0xF0 <= lead <= 0xF4 then 4
    else 0
  }

  /** The second bytes that exclude overlong forms, surrogates and values above U+10FFFF. */
  predicate SecondFits(lead: Byte, b: Byte) {
    if lead == 0xE0 then 0xA0 <= b <= 0xBF
    else if lead == 0xED then 0x80 <= b <= 0x9F
    else if lead == 0xF0 then 0x90 <= b <= 0xBF
    else if lead == 0xF4 then 0x80 <= b <= 0x8F
    else IsTail(b)
  }

  /** What both a character and a prefix of one satisfy. */
  predicate TailsFit(s: Bytes)
    requires s != []
  {
    && (|s| > 1 ==> SecondFits(s[0], s[1]))
    && (forall i | 2 <= i < |s| :: IsTail(s[i]))
  }

  /** One UTF8-char of the grammar. */
  predicate WellFormed(s: Bytes) {
    s != [] && |s| == SequenceLength(s[0]) && TailsFit(s)
  }

  /** A non-empty proper prefix of a well-formed sequence. */
  predicate Partial(s: Bytes) {
    s != [] && |s| < SequenceLength(s[0]) && TailsFit(s)
  }

  function Complete(s: Bytes): (t: Bytes)
    requires Partial(s)
  {
    var second :=
      if s[0] == 0xE0 then 0xA0 else if s[0] == 0xF0 then 0x90 else 0x80;
    var t := if |s| == 1 then s + [second] else s;
    t + seq(SequenceLength(s[0]) - |t|, _ => 0x80)
  }

  lemma PartialExactly(s: Bytes)
    ensures Partial(s) <==> exists t: Bytes :: s != [] && t != [] && WellFormed(s + t)
  {
    if Partial(s) {
      var c := Complete(s);
      assert c == s + c[|s|..];
      assert WellFormed(s + c[|s|..]);
    }
    if t: Bytes :| s != [] && t != [] && WellFormed(s + t) {
      var w := s + t;
      assert w[0] == s[0];
      assert |s| > 1 ==> w[1] == s[1];
      assert forall i | 2 <= i < |s| :: s[i] == w[i];
    }
  }

  /** The character that an input starts with, or nothing. */
  function Character(s: Bytes): (u: Bytes)
    ensures u <= s && (u != [] ==> WellFormed(u))
  {
    if s == [] then []
    else
      var n := SequenceLength(s[0]);
      if n <= |s| && WellFormed(s[..n]) then s[..n] else []
  }

  /** An input of which only more bytes tell whether it is a character. */
  ghost predicate IsUnfinished(s: Bytes) {
    s != [] && exists t: Bytes :: t != [] && WellFormed(s + t)
  }

  lemma UnfinishedExactly(s: Bytes)
    ensures IsUnfinished(s) <==> Partial(s)
  {
    PartialExactly(s);
  }

  const RUNE_ERROR := 0xFFFD

  datatype Decoded = Decoded(rune: int, size: nat)

  /** Invalid input counts as full, since it decodes as an error of one byte. */
  predicate FullRune(s: Bytes) {
    s != [] && !Partial(s)
  }

  function DecodeRune(s: Bytes): (d: Decoded)
    ensures s != [] ==> 1 <= d.size <= 4 && d.size <= |s|
  {
    if s == [] then
      Decoded(RUNE_ERROR, 0)
    else
      var n := SequenceLength(s[0]);
      if n <= |s| && WellFormed(s[..n]) then Decoded(Scalar(s[..n]), n)
      else Decoded(RUNE_ERROR, 1)
  }

  /** A decoding error, as callers of DecodeRune tell it from an encoded U+FFFD. */
  predicate IsError(d: Decoded) {
    d.rune == RUNE_ERROR && d.size == 1
  }

  /** The value of a well-formed sequence, by the bit layout of section 3. */
  function Scalar(s: Bytes): (c: int)
    requires WellFormed(s)
    ensures IsScalar(c)
  {
    if |s| == 1 then s[0]
    else if |s| == 2 then Join(s[0] - 0xC0, s[1])
    else if |s| == 3 then Join(Join(s[0] - 0xE0, s[1]), s[2])
    else Join(Join(Join(s[0] - 0xF0, s[1]), s[2]), s[3])
  }

  /** Adds the six bits of a tail byte to a value. */
  function Join(high: int, tail: Byte): int {
    high * 0x40 + (tail - 0x80)
  }

  predicate IsScalar(c: int) {
    0 <= c <= 0x10FFFF && !(0xD800 <= c <= 0xDFFF)
  }

  /** The tail byte that holds the low six bits of a value. */
  function TailOf(c: int): (b: Byte)
    ensures IsTail(b) && Join(c / 0x40, b) == c
  {
    0x80 + c % 0x40
  }

  function Encode(c: int): (s: Bytes)
    requires IsScalar(c)
  {
    if c < 0x80 then [c]
    else if c < 0x800 then [0xC0 + c / 0x40, TailOf(c)]
    else if c < 0x10000 then [0xE0 + c / 0x40 / 0x40, TailOf(c / 0x40), TailOf(c)]
    else
      [0xF0 + c / 0x40 / 0x40 / 0x40, TailOf(c / 0x40 / 0x40), TailOf(c / 0x40), TailOf(c)]
  }

  lemma EncodeDecodes(c: int)
    requires IsScalar(c)
    ensures WellFormed(Encode(c)) && Scalar(Encode(c)) == c
  {
  }

  lemma JoinSplits(high: int, tail: Byte)
    requires IsTail(tail)
    ensures Join(high, tail) / 0x40 == high && TailOf(Join(high, tail)) == tail
  {
  }

  lemma DecodeEncodes(s: Bytes)
    requires WellFormed(s)
    ensures Encode(Scalar(s)) == s
  {
    if |s| == 2 {
      JoinSplits(s[0] - 0xC0, s[1]);
    } else if |s| == 3 {
      var c := Join(s[0] - 0xE0, s[1]);
      JoinSplits(s[0] - 0xE0, s[1]);
      JoinSplits(c, s[2]);
    } else if |s| == 4 {
      var c := Join(s[0] - 0xF0, s[1]);
      var d := Join(c, s[2]);
      JoinSplits(s[0] - 0xF0, s[1]);
      JoinSplits(c, s[2]);
      JoinSplits(d, s[3]);
    }
  }

  /** The well-formed sequence of a value is its encoding, and no other. */
  lemma EncodingExactly(s: Bytes, c: int)
    ensures WellFormed(s) && Scalar(s) == c ==> IsScalar(c) && s == Encode(c)
    ensures IsScalar(c) && s == Encode(c) ==> WellFormed(s) && Scalar(s) == c
  {
    if WellFormed(s) {
      DecodeEncodes(s);
    }
    if IsScalar(c) {
      EncodeDecodes(c);
    }
  }

  /** Decoding looks no further than the shortest full prefix. */
  lemma DecodePrefix(q: Bytes, s: Bytes)
    requires FullRune(q)
    ensures FullRune(q + s) && DecodeRune(q + s) == DecodeRune(q)
  {
    var n := SequenceLength(q[0]);
    if n <= |q| {
      assert (q + s)[..n] == q[..n];
    } else {
      assert !TailsFit(q);
      if n <= |q + s| {
        var w := (q + s)[..n];
        assert forall i | 0 <= i < |q| :: w[i] == q[i];
      }
      if Partial(q + s) {
        assert forall i | 0 <= i < |q| :: (q + s)[i] == q[i];
      }
    }
  }

  /** A sequence that was partial until its last byte decodes whole, or as one bad byte. */
  lemma DecodeGrown(p: Bytes, b: Byte)
    requires p == [] || Partial(p)
    requires FullRune(p + [b])
    ensures var d := DecodeRune(p + [b]);
      && (d.size == |p| + 1 || d.size == 1)
      && (!IsError(d) ==> d.size == |p| + 1 && WellFormed(p + [b]) && d.rune == Scalar(p + [b]))
  {
    var q := p + [b];
    var n := SequenceLength(q[0]);
    if n <= |q| && WellFormed(q[..n]) {
      assert n == |q|;
      assert q[..n] == q;
    }
  }

  /** The C1 controls are exactly the characters that C2 and a byte below A0 encode. */
  lemma C1Encoding(s: Bytes)
    requires WellFormed(s)
    ensures 0x80 <= Scalar(s) <= 0x9F <==> s[0] == 0xC2 && s[1] <= 0x9F
    ensures |s| > 1 <==> Scalar(s) >= 0x80
  {
  }
}
