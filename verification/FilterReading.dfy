/**
 What the filter must make of a guest's output, said of the whole output at once: there is no
 state, no step and nothing of the filter in the functions here. The numbers are those of
 ECMA-48 (fifth edition) and of the filter's comments (tools/cmd/invirtio/console.go).
 */
module FilterReading {
  import opened Sequences
  import opened Utf8
  import opened ConsoleFilter

  /** The C1 controls that open a string: DCS, SOS, OSC, PM and APC. */
  predicate OpensAsC1(c: int) {
    c == 0x90 || c == 0x98 || c == 0x9D || c == 0x9E || c == 0x9F
  }

  /** What follows ESC for the same, ] P X ^ and _, and k for a title. */
  predicate OpensAfterEscape(b: Byte) {
    b == 0x5D || b == 0x50 || b == 0x58 || b == 0x5E || b == 0x5F || b == 0x6B
  }

  /** The intermediate bytes ( ) * + - . and / of the character sets. */
  predicate SelectsCharacters(b: Byte) {
    (0x28 <= b <= 0x2B) || (0x2D <= b <= 0x2F)
  }

  /** What comes after a string: after the first BEL, byte 9C or ESC \, or nothing. */
  function PastString(s: Bytes): (r: Bytes)
    ensures |r| <= |s|
  {
    if s == [] then []
    else if s[0] == 0x07 || s[0] == 0x9C then s[1..]
    else if [0x1B, 0x5C] <= s then s[2..]
    else PastString(s[1..])
  }

  /** What passes of an input in text. */
  ghost function Reading(s: Bytes): Bytes
    decreases |s|, 0
  {
    if s == [] then []
    else if s[0] == 0x1B then AfterEscape(s[1..])
    else if s[0] < 0x80 then [s[0]] + Reading(s[1..])
    else if Character(s) != [] then
      var u, rest := Character(s), s[|Character(s)|..];
      if Scalar(u) >= 0xA0 then u + Reading(rest)
      else if OpensAsC1(Scalar(u)) then Reading(PastString(rest))
      else Reading(rest)
    else if IsUnfinished(s) then []
    else if OpensAsC1(s[0]) then Reading(PastString(s[1..]))
    else Reading(s[1..])
  }

  /** What passes of what follows an ESC. */
  ghost function AfterEscape(s: Bytes): Bytes
    decreases |s|, 1
  {
    if s == [] then []
    else if s[0] == 0x1B || s[0] == 0x7F then AfterEscape(s[1..])
    else if s[0] == 0x18 || s[0] == 0x1A then [s[0]] + Reading(s[1..])
    else if s[0] < 0x20 then [s[0]] + AfterEscape(s[1..])
    else if s[0] >= 0x80 then Reading(s)
    else if OpensAfterEscape(s[0]) then Reading(PastString(s[1..]))
    else if s[0] < 0x30 && !SelectsCharacters(s[0]) then AfterIntermediate(s[1..])
    else [0x1B, s[0]] + Reading(s[1..])
  }

  /** What passes of what follows an ESC and an intermediate byte that selects no characters. */
  ghost function AfterIntermediate(s: Bytes): Bytes
    decreases |s|, 1
  {
    if s == [] then []
    else if s[0] == 0x1B then AfterEscape(s[1..])
    else if s[0] == 0x18 || s[0] == 0x1A then [s[0]] + Reading(s[1..])
    else if s[0] < 0x20 then [s[0]] + AfterIntermediate(s[1..])
    else if s[0] >= 0x80 then Reading(s)
    else if 0x30 <= s[0] <= 0x7E then Reading(s[1..])
    else AfterIntermediate(s[1..])
  }

  /** What a state lets pass of the rest of an input. */
  ghost function Rest(state: State, s: Bytes): Bytes {
    match state
    case Text => Reading(s)
    case Escape => AfterEscape(s)
    case Drop => AfterIntermediate(s)
    case Str => Reading(PastString(s))
    case StrEscape => Reading(PastString([0x1B] + s))
  }

  lemma OpensExactly(b: Byte)
    ensures OpensString(b) <==> OpensAsC1(b) || OpensAfterEscape(b)
    ensures SelectsCharacters(b) <==> Designates(b)
  {
  }

  lemma PastStringSteps(s: Bytes)
    requires s != []
    ensures Rest(StrEscape, s)
      == if s[0] == 0x07 || s[0] == 0x9C || s[0] == 0x5C then Reading(s[1..])
         else if s[0] == 0x1B then Rest(StrEscape, s[1..])
         else Rest(Str, s[1..])
    ensures Rest(Str, s)
      == if s[0] == 0x07 || s[0] == 0x9C then Reading(s[1..])
         else if s[0] == 0x1B then Rest(StrEscape, s[1..])
         else Rest(Str, s[1..])
  {
    var t := [0x1B] + s;
    assert t[1..] == s && t[2..] == s[1..] && (s[0] == 0x1B ==> [0x1B] + s[1..] == s);
    assert [0x1B, 0x5C] <= t <==> s[0] == 0x5C;
    assert PastString(t) == if s[0] == 0x5C then s[1..] else PastString(s);
    hide Reading;
  }

  /** The text case of the reference, in which a sequence is decoded. */
  lemma TextIsRead(s: Bytes)
    requires s != [] && s[0] >= 0x80 && FullRune(s)
    ensures var d := DecodeRune(s); var a := Accept(Text, d, s[..d.size]);
      Reading(s) == a.out + Rest(a.filter.state, s[d.size..])
  {
    UnfinishedExactly(s);
    var d := DecodeRune(s);
    OpensExactly(s[0]);
    assert s[..1] == [s[0]];
    if Character(s) != [] {
      assert Character(s) == s[..d.size];
      C1Encoding(s[..d.size]);
    }
    hide IsUnfinished, PastString;
  }

  /** The one-pass reference passes what the reading has. */
  lemma {:induction false} ScanIsReading(state: State, s: Bytes)
    ensures Scan(state, s).out == Rest(state, s)
    decreases |s|, if state == Text then 0 else 1
  {
    if s == [] {
    } else if (state == Escape || state == Drop) && s[0] >= 0x80 {
      ScanIsReading(Text, s);
    } else if state == Text && s[0] >= 0x80 {
      if FullRune(s) {
        var d := DecodeRune(s);
        TextIsRead(s);
        ScanIsReading(Accept(Text, d, s[..d.size]).filter.state, s[d.size..]);
      } else {
        UnfinishedExactly(s);
        assert Character(s) == [];
      }
    } else {
      ByteIsRead(state, s);
      ScanIsReading(Feed(Filter(state, []), s[0]).filter.state, s[1..]);
    }
  }

  lemma ByteIsRead(state: State, s: Bytes)
    requires s != [] && (InString(state) || s[0] < 0x80)
    ensures var first := Feed(Filter(state, []), s[0]);
      Rest(state, s) == first.out + Rest(first.filter.state, s[1..])
  {
    OpensExactly(s[0]);
    if InString(state) {
      PastStringSteps(s);
    }
    hide PastString, IsUnfinished;
  }

  /** Whatever the guest writes, in whatever pieces, what passes is the reading of all of it. */
  lemma FilterIsReading(chunks: seq<Bytes>)
    ensures WriteAll(INITIAL, chunks).out == Reading(Flatten(chunks))
  {
    hide Scan, WriteAll, Reading;
    StreamingIsOnePass(chunks);
    ScanIsReading(Text, Flatten(chunks));
  }

  // The same of single bytes, wherever the filter is in text, with the state after the rest.

  /** A byte that is no part of a character and opens no string leaves no trace, whatever follows it. */
  lemma InvalidByteIsDropped(p: Bytes, b: Byte, s: Bytes)
    requires FeedAll(INITIAL, p).filter == INITIAL && b >= 0x80 && !OpensAsC1(b)
    requires Character([b] + s) == [] && !IsUnfinished([b] + s)
    ensures FeedAll(INITIAL, p + ([b] + s)) == After(FeedAll(INITIAL, p).out, FeedAll(INITIAL, s))
  {
    var t := [b] + s;
    UnfinishedExactly(t);
    OpensExactly(b);
    FeedSplit(INITIAL, p, t);
    FeedAllIsScan(INITIAL, t);
    FeedAllIsScan(INITIAL, s);
    assert [] + t == t && [] + s == s;
    assert t[..1] == [b] && t[1..] == s;
    hide FeedAll, Feed, IsUnfinished;
    assert After([], Scan(Text, s)) == Scan(Text, s);
  }

  /** What each byte after an ESC does, but for the openers and the dropped intermediate bytes. */
  lemma ByteAfterEscape(b: Byte, s: Bytes)
    ensures var r := FeedAll(INITIAL, [0x1B, b] + s);
      if b == 0x1B || b == 0x7F then r == FeedAll(INITIAL, [0x1B] + s)
      else if b == 0x18 || b == 0x1A then r == After([b], FeedAll(INITIAL, s))
      else if b < 0x20 then r == After([b], FeedAll(INITIAL, [0x1B] + s))
      else if b >= 0x80 then r == FeedAll(INITIAL, [b] + s)
      else if OpensAfterEscape(b) then r == FeedAll(Filter(Str, []), s)
      else if b < 0x30 && !SelectsCharacters(b) then r == FeedAll(Filter(Drop, []), s)
      else r == After([0x1B, b], FeedAll(INITIAL, s))
  {
    var f := Filter(Escape, []);
    EscapeFirst([b] + s);
    EscapeFirst(s);
    hide FeedAll, FeedText;
    OpensExactly(b);
    assert [0x1B, b] + s == [0x1B] + ([b] + s);
    ByteFirst(f, b, s);
    ByteFirst(INITIAL, b, s);
    NoOutput(FeedAll(f, s));
    NoOutput(FeedAll(Filter(Str, []), s));
    NoOutput(FeedAll(Filter(Drop, []), s));
  }

  lemma EscapeFirst(s: Bytes)
    ensures FeedAll(INITIAL, [0x1B] + s) == FeedAll(Filter(Escape, []), s)
  {
    ByteFirst(INITIAL, 0x1B, s);
    NoOutput(FeedAll(Filter(Escape, []), s));
    hide FeedAll;
  }

  /** What each byte after a dropped intermediate byte does. */
  lemma ByteAfterIntermediate(b: Byte, s: Bytes)
    ensures var f := Filter(Drop, []); var r := FeedAll(f, [b] + s);
      if b == 0x1B then r == FeedAll(INITIAL, [0x1B] + s)
      else if b == 0x18 || b == 0x1A then r == After([b], FeedAll(INITIAL, s))
      else if b < 0x20 then r == After([b], FeedAll(f, s))
      else if b >= 0x80 then r == FeedAll(INITIAL, [b] + s)
      else if 0x30 <= b <= 0x7E then r == FeedAll(INITIAL, s)
      else r == FeedAll(f, s)
  {
    var f := Filter(Drop, []);
    ByteFirst(f, b, s);
    ByteFirst(INITIAL, b, s);
    NoOutput(FeedAll(f, s));
    NoOutput(FeedAll(INITIAL, s));
    NoOutput(FeedAll(Filter(Escape, []), s));
    hide FeedAll;
  }

  lemma ByteFirst(f: Filter, b: Byte, s: Bytes)
    ensures var first := Feed(f, b); FeedAll(f, [b] + s) == After(first.out, FeedAll(first.filter, s))
  {
    assert ([b] + s)[1..] == s;
  }

  lemma NoOutput(r: Step)
    ensures After([], r) == r
  {
  }
}
