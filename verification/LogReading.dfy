/**
 What the journal must have of a guest's output, said of the whole output at once, with nothing
 of the logger in the functions here (lineLogger in tools/cmd/invirtio/run.go).
 */
module LogReading {
  import opened Sequences
  import opened Utf8
  import opened LineLogger

  /** What comes after a control sequence: after its first byte from 40 to 7E, or nothing. */
  function PastSequence(s: Bytes): (r: Bytes)
    ensures |r| <= |s|
  {
    if s == [] then [] else if 0x40 <= s[0] <= 0x7E then s[1..] else PastSequence(s[1..])
  }

  /** What comes after an ESC: the byte after it goes with it, and the sequence that ESC [ starts. */
  function PastEscape(s: Bytes): (r: Bytes)
    ensures |r| <= |s|
  {
    if s == [] then [] else if s[0] == 0x5B then PastSequence(s[1..]) else s[1..]
  }

  /** The text that stays: newlines, tabs, printable ASCII, and the characters from U+00A0 on. */
  ghost function Kept(s: Bytes): Bytes
    decreases |s|
  {
    if s == [] then []
    else if s[0] == 0x1B then Kept(PastEscape(s[1..]))
    else if s[0] == 0x0A || s[0] == 0x09 || 0x20 <= s[0] <= 0x7E then [s[0]] + Kept(s[1..])
    else if s[0] < 0x80 then Kept(s[1..])
    else if Character(s) != [] then
      (if Scalar(Character(s)) >= 0xA0 then Character(s) else []) + Kept(s[|Character(s)|..])
    else if IsUnfinished(s) then []
    else Kept(s[1..])
  }

  ghost function Rest(escape: bool, csi: bool, s: Bytes): Bytes {
    if csi then Kept(PastSequence(s)) else if escape then Kept(PastEscape(s)) else Kept(s)
  }

  lemma TextIsKept(s: Bytes)
    requires s != [] && s[0] >= 0x80 && FullRune(s)
    ensures var d := DecodeRune(s);
      Kept(s) == Sanitized(Decode(d, s[..d.size])) + Kept(s[d.size..])
  {
    hide *;
    var d := DecodeRune(s);
    TextFirst(s);
    TextText(d, s[..d.size]);
    assert [] + Kept(s[d.size..]) == Kept(s[d.size..]);
  }

  lemma TextFirst(s: Bytes)
    requires s != [] && s[0] >= 0x80 && FullRune(s)
    ensures var d := DecodeRune(s); var rest := Kept(s[d.size..]);
      Kept(s) == if !IsError(d) && d.rune > 0x9F then s[..d.size] + rest else rest
  {
    UnfinishedExactly(s);
    assert [] + Kept(s[DecodeRune(s).size..]) == Kept(s[DecodeRune(s).size..]);
    hide IsUnfinished, PastEscape, PastSequence;
  }

  lemma TextText(d: Decoded, u: Bytes)
    ensures Sanitized(Decode(d, u)) == if !IsError(d) && d.rune > 0x9F then u else []
  {
    assert Sanitized([]) == [] && [Rune(u)][1..] == [] && u + [] == u;
    hide IsError;
  }

  lemma AsciiIsKept(s: Bytes)
    requires s != [] && s[0] < 0x80
    ensures Kept(s) == Sanitized(Ascii(s[0])) + Rest(s[0] == 0x1B, false, s[1..])
  {
    hide *;
    AsciiFirst(s);
    AsciiText(s[0]);
    assert forall t: Bytes :: [] + t == t;
  }

  lemma AsciiFirst(s: Bytes)
    requires s != [] && s[0] < 0x80
    ensures var stays := s[0] == 0x0A || s[0] == 0x09 || 0x20 <= s[0] <= 0x7E;
      Kept(s) == if stays then [s[0]] + Rest(false, false, s[1..]) else Rest(s[0] == 0x1B, false, s[1..])
  {
    hide PastEscape, PastSequence, IsUnfinished, Character, Scalar, SequenceLength;
  }

  lemma AsciiText(b: Byte)
    requires b < 0x80
    ensures Sanitized(Ascii(b)) == if b == 0x0A || b == 0x09 || 0x20 <= b <= 0x7E then [b] else []
  {
    var tokens := Ascii(b);
    if tokens != [] {
      assert tokens[1..] == [] && Sanitized([]) == [];
      assert Text(tokens[0]) + [] == [b];
    }
  }

  lemma {:induction false} SanitizedAppend(a: seq<Token>, b: seq<Token>)
    ensures Sanitized(a + b) == Sanitized(a) + Sanitized(b)
  {
    if a == [] {
      assert a + b == b;
    } else {
      assert (a + b)[1..] == a[1..] + b;
      SanitizedAppend(a[1..], b);
      Regroup(Text(a[0]), Sanitized(a[1..]), Sanitized(b));
    }
  }

  lemma {:induction false} TokensAreKept(escape: bool, csi: bool, s: Bytes)
    requires !(escape && csi)
    ensures Sanitized(Tokenize(escape, csi, s).tokens) == Rest(escape, csi, s)
    decreases |s|
  {
    hide *;
    if s == [] {
      NothingIsKept(escape, csi);
    } else if csi || escape {
      EscapeIsKept(escape, csi, s);
      TokensAreKept(false, if csi then s[0] < 0x40 || s[0] > 0x7E else s[0] == 0x5B, s[1..]);
    } else if s[0] < 0x80 {
      AsciiIsKept(s);
      TokensAreKept(s[0] == 0x1B, false, s[1..]);
      AsciiTokens(s);
      SanitizedAppend(Ascii(s[0]), Tokenize(s[0] == 0x1B, false, s[1..]).tokens);
    } else if FullRune(s) {
      var d := DecodeRune(s);
      TextIsKept(s);
      TokensAreKept(false, false, s[d.size..]);
      TextTokens(s);
      SanitizedAppend(Decode(d, s[..d.size]), Tokenize(false, false, s[d.size..]).tokens);
    } else {
      UnfinishedIsDropped(s);
    }
  }

  lemma NothingIsKept(escape: bool, csi: bool)
    ensures Sanitized(Tokenize(escape, csi, []).tokens) == Rest(escape, csi, [])
  {
  }

  lemma EscapeIsKept(escape: bool, csi: bool, s: Bytes)
    requires s != [] && (escape || csi) && !(escape && csi)
    ensures var csi' := if csi then s[0] < 0x40 || s[0] > 0x7E else s[0] == 0x5B;
      && Tokenize(escape, csi, s) == Tokenize(false, csi', s[1..])
      && Rest(escape, csi, s) == Rest(false, csi', s[1..])
  {
    hide Kept;
  }

  lemma AsciiTokens(s: Bytes)
    requires s != [] && s[0] < 0x80
    ensures Tokenize(false, false, s).tokens == Ascii(s[0]) + Tokenize(s[0] == 0x1B, false, s[1..]).tokens
    ensures Rest(false, false, s) == Kept(s)
  {
  }

  lemma TextTokens(s: Bytes)
    requires s != [] && s[0] >= 0x80 && FullRune(s)
    ensures var d := DecodeRune(s);
      Tokenize(false, false, s).tokens == Decode(d, s[..d.size]) + Tokenize(false, false, s[d.size..]).tokens
    ensures forall t :: Rest(false, false, t) == Kept(t)
  {
  }

  lemma UnfinishedIsDropped(s: Bytes)
    requires s != [] && s[0] >= 0x80 && !FullRune(s)
    ensures Sanitized(Tokenize(false, false, s).tokens) == Rest(false, false, s)
  {
    UnfinishedExactly(s);
    assert Character(s) == [];
    hide IsUnfinished;
  }

  /** However the guest's output comes, the log without its forced breaks is what is kept of it. */
  lemma LogIsKept(chunks: seq<Bytes>)
    ensures Joined(Log(chunks)) == Ended(Kept(Flatten(chunks)))
  {
    LogRejoins(chunks);
    TokensAreKept(false, false, Flatten(chunks));
    hide Tokenize, Kept, Joined, Log;
  }
}
