/**
 The filter between a guest's output and the user's terminal
 (tools/cmd/invirtio/console.go). Feed and Text are its transition functions, class
 EscapeFilter is the filter itself, and Scan is a one-pass reference that has the whole
 input at hand.
 */
module ConsoleFilter {
  import opened Sequences
  import opened Utf8

  const ESC: Byte := 0x1B
  const BEL: Byte := 0x07
  const CAN: Byte := 0x18
  const SUB: Byte := 0x1A
  const DEL: Byte := 0x7F
  const BACKSLASH: Byte := 0x5C
  /** The C1 string terminator as a single byte. */
  const ST: Byte := 0x9C

  datatype State = Text | Escape | Str | StrEscape | Drop

  /** The filter's two fields. */
  datatype Filter = Filter(state: State, pending: Bytes)

  datatype Step = Step(filter: Filter, out: Bytes)

  const INITIAL := Filter(Text, [])

  /** A step whose output follows some bytes. */
  function After(out: Bytes, r: Step): Step {
    Step(r.filter, out + r.out)
  }

  lemma AfterAfter(a: Bytes, b: Bytes, r: Step)
    ensures After(a, After(b, r)) == After(a + b, r)
  {
    assert a + (b + r.out) == a + b + r.out;
  }

  /** The openers after ESC, OSC DCS SOS PM APC and screen's title, and their C1 forms. */
  predicate OpensString(c: int) {
    c in {0x5D, 0x50, 0x58, 0x5E, 0x5F, 0x6B, 0x9D, 0x90, 0x98, 0x9E, 0x9F}
  }

  /** The intermediate bytes of the character set designations, ( ) * + - . and /. */
  predicate Designates(b: Byte) {
    b in {0x28, 0x29, 0x2A, 0x2B, 0x2D, 0x2E, 0x2F}
  }

  function Feed(f: Filter, b: Byte): (r: Step)
    ensures |r.filter.pending| <= |f.pending| + 1
    decreases |f.pending| + 1, 1, 0
  {
    match f.state
    case Str | StrEscape =>
      var next :=
        if b == BEL || b == ST || (f.state == StrEscape && b == BACKSLASH) then Text
        else if b == ESC then StrEscape
        else Str;
      Step(f.(state := next), [])
    case Escape =>
      if b == ESC || b == DEL then Step(f, [])
      else if b == CAN || b == SUB then Step(f.(state := Text), [b])
      else if b < 0x20 then Step(f, [b])
      else if b >= 0x80 then FeedText(f.(state := Text), b)
      else if OpensString(b) then Step(f.(state := Str), [])
      else if 0x20 <= b <= 0x2F && !Designates(b) then Step(f.(state := Drop), [])
      else Step(f.(state := Text), [ESC, b])
    case Drop =>
      if b == ESC then Step(f.(state := Escape), [])
      else if b == CAN || b == SUB then Step(f.(state := Text), [b])
      else if b < 0x20 then Step(f, [b])
      else if 0x30 <= b <= 0x7E then Step(f.(state := Text), [])
      else if b >= 0x80 then FeedText(f.(state := Text), b)
      else Step(f, [])
    case Text => FeedText(f, b)
  }

  /** What a decoded sequence does: the state after it and what passes. */
  function Accept(state: State, d: Decoded, sequence: Bytes): Step
    requires sequence != []
  {
    if IsError(d) then
      Step(Filter(if OpensString(sequence[0]) then Str else state, []), [])
    else if 0x80 <= d.rune <= 0x9F then
      Step(Filter(if OpensString(d.rune) then Str else state, []), [])
    else
      Step(Filter(state, []), sequence)
  }

  function FeedText(f: Filter, b: Byte): (r: Step)
    ensures |r.filter.pending| <= |f.pending| + 1
    decreases |f.pending| + 1, 0, 0
  {
    if f.pending == [] && b < 0x80 then
      if b == ESC then Step(f.(state := Escape), []) else Step(f, [b])
    else
      var pending := f.pending + [b];
      if !FullRune(pending) then
        Step(f.(pending := pending), [])
      else
        var d := DecodeRune(pending);
        var a := Accept(f.state, d, pending[..d.size]);
        var r := FeedAll(a.filter, pending[d.size..]);
        After(a.out, r)
  }

  function FeedAll(f: Filter, s: Bytes): (r: Step)
    ensures |r.filter.pending| <= |f.pending| + |s|
    decreases |f.pending| + |s|, 2, |s|
  {
    if s == [] then Step(f, [])
    else
      var first := Feed(f, s[0]);
      var rest := FeedAll(first.filter, s[1..]);
      After(first.out, rest)
  }

  class EscapeFilter {
    var state: State
    var pending: Bytes
    /** Everything the filter has given its writer. */
    var written: Bytes

    function Current(): Filter
      reads this
    {
      Filter(state, pending)
    }

    constructor ()
      ensures Current() == INITIAL && written == []
    {
      state, pending, written := Text, [], [];
    }

    /** The writer decides whether the write fails, and the filter has moved on even so. */
    method Write(p: Bytes, writerFails: bool) returns (n: nat, failed: bool)
      modifies this
      ensures Current() == FeedAll(old(Current()), p).filter
      ensures written == old(written) + FeedAll(old(Current()), p).out
      ensures failed == writerFails && n == if failed then 0 else |p|
    {
      var out := FeedBytes(p, []);
      written := written + out;
      if writerFails {
        return 0, true;
      }
      return |p|, false;
    }

    /** The loop over bytes in Write, and over the bytes after a sequence in text. */
    method FeedBytes(s: Bytes, out: Bytes) returns (out': Bytes)
      modifies this`state, this`pending
      ensures Current() == FeedAll(old(Current()), s).filter
      ensures out' == out + FeedAll(old(Current()), s).out
      decreases |pending| + |s|, 2
    {
      out' := out;
      for i := 0 to |s|
        invariant |pending| <= old(|pending|) + i
        invariant Current() == FeedAll(old(Current()), s[..i]).filter
        invariant out' == out + FeedAll(old(Current()), s[..i]).out
      {
        FeedSplit(old(Current()), s[..i], [s[i]]);
        FeedOne(Current(), s[i]);
        assert s[..i + 1] == s[..i] + [s[i]];
        out' := FeedByte(s[i], out');
      }
      assert s[..|s|] == s;
    }

    method FeedByte(b: Byte, out: Bytes) returns (out': Bytes)
      modifies this`state, this`pending
      ensures Current() == Feed(old(Current()), b).filter
      ensures out' == out + Feed(old(Current()), b).out
      decreases |pending| + 1, 1
    {
      out' := out;
      match state {
        case Str | StrEscape =>
          if b == BEL || b == ST || (state == StrEscape && b == BACKSLASH) {
            state := Text;
          } else if b == ESC {
            state := StrEscape;
          } else {
            state := Str;
          }
        case Escape =>
          if b == ESC || b == DEL {
          } else if b == CAN || b == SUB {
            state := Text;
            out' := out + [b];
          } else if b < 0x20 {
            out' := out + [b];
          } else if b >= 0x80 {
            state := Text;
            out' := FeedTextByte(b, out);
          } else if OpensString(b) {
            state := Str;
          } else if 0x20 <= b <= 0x2F && !Designates(b) {
            state := Drop;
          } else {
            state := Text;
            out' := out + [ESC, b];
          }
        case Drop =>
          if b == ESC {
            state := Escape;
          } else if b == CAN || b == SUB {
            state := Text;
            out' := out + [b];
          } else if b < 0x20 {
            out' := out + [b];
          } else if 0x30 <= b <= 0x7E {
            state := Text;
          } else if b >= 0x80 {
            state := Text;
            out' := FeedTextByte(b, out);
          }
        case Text =>
          out' := FeedTextByte(b, out);
      }
    }

    method FeedTextByte(b: Byte, out: Bytes) returns (out': Bytes)
      modifies this`state, this`pending
      ensures Current() == FeedText(old(Current()), b).filter
      ensures out' == out + FeedText(old(Current()), b).out
      decreases |pending| + 1, 0
    {
      hide FeedAll, Feed, Accept, TailsFit, SequenceLength, DecodeRune, IsError;
      out' := out;
      if pending == [] && b < 0x80 {
        if b == ESC {
          state := Escape;
        } else {
          out' := out + [b];
        }
        return;
      }
      pending := pending + [b];
      if !FullRune(pending) {
        return;
      }
      var d := DecodeRune(pending);
      var sequence := pending[..d.size];
      var rest := pending[d.size..];
      pending := [];
      out' := Take(d, sequence, out);
      out' := FeedBytes(rest, out');
    }

    /** The three cases of a decoded sequence in text. */
    method Take(d: Decoded, sequence: Bytes, out: Bytes) returns (out': Bytes)
      requires pending == [] && sequence != []
      modifies this`state
      ensures Current() == Accept(old(state), d, sequence).filter
      ensures out' == out + Accept(old(state), d, sequence).out
    {
      out' := out;
      if IsError(d) {
        if OpensString(sequence[0]) {
          state := Str;
        }
      } else if 0x80 <= d.rune <= 0x9F {
        if OpensString(d.rune) {
          state := Str;
        }
      } else {
        out' := out' + sequence;
      }
    }
  }

  lemma FeedOne(f: Filter, b: Byte)
    ensures FeedAll(f, [b]) == Feed(f, b)
  {
    assert FeedAll(Feed(f, b).filter, [b][1..]).out == [];
  }

  /** Where the input is cut makes no difference. */
  lemma {:induction false} FeedSplit(f: Filter, s: Bytes, t: Bytes)
    ensures var a := FeedAll(f, s); var b := FeedAll(a.filter, t);
      FeedAll(f, s + t) == After(a.out, b)
    decreases |s|
  {
    if s == [] {
      assert s + t == t;
    } else {
      assert (s + t)[1..] == s[1..] + t;
      FeedSplit(Feed(f, s[0]).filter, s[1..], t);
    }
  }

  /** The Writes of a run, one chunk each. */
  function WriteAll(f: Filter, chunks: seq<Bytes>): Step
    decreases |chunks|
  {
    if chunks == [] then Step(f, [])
    else
      var first := FeedAll(f, chunks[0]);
      var rest := WriteAll(first.filter, chunks[1..]);
      After(first.out, rest)
  }

  lemma {:induction false} ChunksDoNotMatter(f: Filter, chunks: seq<Bytes>)
    ensures WriteAll(f, chunks) == FeedAll(f, Flatten(chunks))
    decreases |chunks|
  {
    if chunks != [] {
      ChunksDoNotMatter(FeedAll(f, chunks[0]).filter, chunks[1..]);
      FeedSplit(f, chunks[0], Flatten(chunks[1..]));
    }
  }

  predicate InString(state: State) {
    state == Str || state == StrEscape
  }

  /** The states that a run can reach. */
  predicate Valid(f: Filter) {
    f.pending == [] || (f.state == Text && Partial(f.pending))
  }

  lemma {:induction false} FeedAllValid(f: Filter, s: Bytes)
    requires Valid(f)
    ensures Valid(FeedAll(f, s).filter)
    decreases |f.pending| + |s|, |s|
  {
    if s != [] {
      FeedValid(f, s[0]);
      FeedAllValid(Feed(f, s[0]).filter, s[1..]);
    }
  }

  lemma {:induction false} FeedValid(f: Filter, b: Byte)
    requires Valid(f)
    ensures Valid(Feed(f, b).filter)
    decreases |f.pending| + 1, 0
  {
    var pending := f.pending + [b];
    if !InString(f.state) && FullRune(pending) && pending != [b] {
      var d := DecodeRune(pending);
      FeedAllValid(Accept(Text, d, pending[..d.size]).filter, pending[d.size..]);
    }
  }

  /**
   The reference. It decodes the rest of the input, however long, wherever the input has
   a sequence of more than one byte, and leaves an incomplete tail in pending.
   */
  function Scan(state: State, s: Bytes): (r: Step)
    decreases |s|, if state == Text then 0 else 1
  {
    if s == [] then Step(Filter(state, []), [])
    else if (state == Escape || state == Drop) && s[0] >= 0x80 then Scan(Text, s)
    else if state == Text && s[0] >= 0x80 then
      if !FullRune(s) then Step(Filter(Text, s), [])
      else
        var d := DecodeRune(s);
        var a := Accept(Text, d, s[..d.size]);
        var r := Scan(a.filter.state, s[d.size..]);
        After(a.out, r)
    else
      var first := Feed(Filter(state, []), s[0]);
      var r := Scan(first.filter.state, s[1..]);
      After(first.out, r)
  }

  /** Streaming with a partial sequence in hand is the reference on that sequence and the rest. */
  lemma {:induction false} FeedAllIsScan(f: Filter, s: Bytes)
    requires Valid(f)
    ensures FeedAll(f, s) == Scan(f.state, f.pending + s)
    decreases |f.pending| + |s|, |s|
  {
    if s == [] {
      assert f.pending + s == f.pending;
    } else if InString(f.state) || (f.pending == [] && s[0] < 0x80) {
      var first := Feed(f, s[0]);
      FeedSingle(f, s[0]);
      FeedAllIsScan(first.filter, s[1..]);
      assert first.filter.pending + s[1..] == s[1..];
      ScanSingle(f.state, s);
      assert f.pending + s == s;
    } else if !FullRune(f.pending + [s[0]]) {
      FeedAllIsScanPartial(f, s);
    } else {
      FeedAllIsScanFull(f, s);
    }
  }

  lemma FeedSingle(f: Filter, b: Byte)
    requires Valid(f)
    requires InString(f.state) || (f.pending == [] && b < 0x80)
    ensures f == Filter(f.state, []) && Feed(f, b).filter.pending == []
  {
  }

  lemma ScanSingle(state: State, s: Bytes)
    requires s != [] && (InString(state) || s[0] < 0x80)
    ensures var first := Feed(Filter(state, []), s[0]);
      Scan(state, s) == After(first.out, Scan(first.filter.state, s[1..]))
  {
  }

  /** The case in which the sequence in hand grows. */
  lemma {:induction false} FeedAllIsScanPartial(f: Filter, s: Bytes)
    requires Valid(f) && s != []
    requires !InString(f.state) && (f.pending != [] || s[0] >= 0x80)
    requires !FullRune(f.pending + [s[0]])
    ensures FeedAll(f, s) == Scan(f.state, f.pending + s)
    decreases |f.pending| + |s|, |s|, 0
  {
    PartialUnfolds(f, s);
    hide *;
    FeedAllIsScan(Filter(Text, f.pending + [s[0]]), s[1..]);
  }

  lemma PartialUnfolds(f: Filter, s: Bytes)
    requires Valid(f) && s != []
    requires !InString(f.state) && (f.pending != [] || s[0] >= 0x80)
    requires !FullRune(f.pending + [s[0]])
    ensures var next := Filter(Text, f.pending + [s[0]]);
      && Valid(next) && FeedAll(f, s) == FeedAll(next, s[1..])
      && Scan(f.state, f.pending + s) == Scan(Text, next.pending + s[1..])
  {
    hide FeedAll, Feed, FeedText, Scan, DecodeRune, TailsFit, SequenceLength;
    FeedTextUnfolds(f, s[0]);
    FeedFirst(f, s);
    FirstByte(f, s);
    ScanTextFirst(f.state, f.pending + s);
    Regroup(f.pending, [s[0]], s[1..]);
    assert [s[0]] + s[1..] == s;
  }

  lemma FeedFirst(f: Filter, s: Bytes)
    requires s != []
    ensures var first := Feed(f, s[0]); FeedAll(f, s) == After(first.out, FeedAll(first.filter, s[1..]))
  {
  }

  lemma FirstByte(f: Filter, s: Bytes)
    requires Valid(f) && s != [] && (f.pending != [] || s[0] >= 0x80)
    ensures (f.pending + s)[0] >= 0x80
  {
  }

  /** A byte that is not ASCII ends an escape without being part of it. */
  lemma ScanTextFirst(state: State, s: Bytes)
    requires !InString(state) && s != [] && s[0] >= 0x80
    ensures Scan(state, s) == Scan(Text, s)
  {
  }

  /** Outside a string, a byte that is not ASCII or that follows one goes to the text state. */
  lemma FeedTextUnfolds(f: Filter, b: Byte)
    requires Valid(f)
    requires !InString(f.state) && (f.pending != [] || b >= 0x80)
    ensures var pending := f.pending + [b];
      if !FullRune(pending) then Feed(f, b) == Step(Filter(Text, pending), [])
      else
        var d := DecodeRune(pending);
        var a := Accept(Text, d, pending[..d.size]);
        var r := FeedAll(a.filter, pending[d.size..]);
        Feed(f, b) == After(a.out, r)
  {
  }

  lemma ScanDecodes(s: Bytes, q: Bytes, t: Bytes)
    requires s == q + t && q != [] && q[0] >= 0x80 && FullRune(q)
    ensures var d := DecodeRune(q);
      var a := Accept(Text, d, q[..d.size]);
      var r := Scan(a.filter.state, q[d.size..] + t);
      Scan(Text, s) == After(a.out, r)
  {
    DecodePrefix(q, t);
    var d := DecodeRune(q);
    assert s[..d.size] == q[..d.size];
    assert s[d.size..] == q[d.size..] + t;
  }

  /** The case in which a byte completes or breaks the sequence in hand. */
  lemma {:induction false} FeedAllIsScanFull(f: Filter, s: Bytes)
    requires Valid(f) && s != []
    requires !InString(f.state) && (f.pending != [] || s[0] >= 0x80)
    requires FullRune(f.pending + [s[0]])
    ensures FeedAll(f, s) == Scan(f.state, f.pending + s)
    decreases |f.pending| + |s|, |s|, 0
  {
    hide FeedAll, Feed, FeedText, Scan, FullRune, Partial, Valid, SequenceLength, DecodeRune;
    var pending := f.pending + [s[0]];
    var d := DecodeRune(pending);
    var a := Accept(Text, d, pending[..d.size]);
    var rest := pending[d.size..];
    var fed := FeedAll(a.filter, rest);
    var tail := FeedAll(fed.filter, s[1..]);
    FirstByte(f, s);
    FeedFirst(f, s);
    FeedTextUnfolds(f, s[0]);
    Regroup(f.pending, [s[0]], s[1..]);
    assert [s[0]] + s[1..] == s;
    ScanDecodes(f.pending + s, pending, s[1..]);
    ScanTextFirst(f.state, f.pending + s);
    Regroup(a.out, fed.out, tail.out);
    FeedAllIsScanRest(a.filter, rest, s[1..]);
  }

  lemma {:induction false} FeedAllIsScanRest(f: Filter, rest: Bytes, s: Bytes)
    requires f.pending == []
    ensures var fed := FeedAll(f, rest);
      var tail := FeedAll(fed.filter, s);
      After(fed.out, tail) == Scan(f.state, rest + s)
    decreases |rest| + |s|, |rest| + |s| + 1
  {
    FeedSplit(f, rest, s);
    FeedAllIsScan(f, rest + s);
    assert f.pending + (rest + s) == rest + s;
  }

  /** However a run's input is cut into writes, the filter gives what the reference gives. */
  lemma StreamingIsOnePass(chunks: seq<Bytes>)
    ensures WriteAll(INITIAL, chunks) == Scan(Text, Flatten(chunks))
  {
    ChunksDoNotMatter(INITIAL, chunks);
    FeedAllIsScan(INITIAL, Flatten(chunks));
    assert [] + Flatten(chunks) == Flatten(chunks);
  }

  /** What the filter holds back is a proper prefix of a character, and only in text. */
  lemma PendingIsPartial(chunks: seq<Bytes>)
    ensures var f := WriteAll(INITIAL, chunks).filter;
      && |f.pending| <= 3
      && (f.pending != [] ==> f.state == Text)
      && (f.pending != [] ==> exists t: Bytes :: t != [] && WellFormed(f.pending + t))
  {
    ChunksDoNotMatter(INITIAL, chunks);
    FeedAllValid(INITIAL, Flatten(chunks));
    var f := WriteAll(INITIAL, chunks).filter;
    if f.pending != [] {
      PartialExactly(f.pending);
      var t: Bytes :| f.pending != [] && t != [] && WellFormed(f.pending + t);
    }
  }

  /**
   The copy from the connection to the terminal, which ends when the input does or at the
   first write that fails.
   */
  method CopyOutput(chunks: seq<Bytes>, failsAt: nat) returns (written: Bytes, n: nat)
    ensures n == if failsAt < |chunks| then failsAt + 1 else |chunks|
    ensures written == Scan(Text, Flatten(chunks[..n])).out
  {
    var f := new EscapeFilter();
    n := 0;
    while n < |chunks|
      invariant n <= |chunks| && n <= failsAt
      invariant Step(f.Current(), f.written) == WriteAll(INITIAL, chunks[..n])
    {
      assert chunks[..n + 1] == chunks[..n] + [chunks[n]];
      WriteAllAppend(INITIAL, chunks[..n], chunks[n]);
      var _, failed := f.Write(chunks[n], n == failsAt);
      n := n + 1;
      if failed {
        break;
      }
    }
    assert n == |chunks| ==> chunks[..n] == chunks;
    written := f.written;
    StreamingIsOnePass(chunks[..n]);
  }

  lemma WriteAllAppend(f: Filter, chunks: seq<Bytes>, last: Bytes)
    ensures var a := WriteAll(f, chunks);
      WriteAll(f, chunks + [last]) == After(a.out, FeedAll(a.filter, last))
  {
    ChunksDoNotMatter(f, chunks);
    ChunksDoNotMatter(f, chunks + [last]);
    FlattenAppend(chunks, [last]);
    FlattenOne(last);
    FeedSplit(f, Flatten(chunks), last);
  }

  // The fixed points.

  /** What passes as a whole: an ASCII byte, an escape with an allowed byte, or a character. */
  predicate Unit(u: Bytes) {
    || (|u| == 1 && u[0] < 0x80 && u[0] != ESC)
    || (|u| == 2 && u[0] == ESC && AllowedAfterEscape(u[1]))
    || (WellFormed(u) && Scalar(u) >= 0xA0)
  }

  predicate AllowedAfterEscape(b: Byte) {
    && 0x20 <= b < 0x7F
    && !OpensString(b)
    && (b <= 0x2F ==> Designates(b))
  }

  predicate Units(us: seq<Bytes>) {
    forall u | u in us :: Unit(u)
  }

  ghost predicate Clean(s: Bytes) {
    exists us: seq<Bytes> :: Units(us) && Flatten(us) == s
  }

  lemma CleanAppend(s: Bytes, t: Bytes)
    requires Clean(s) && Clean(t)
    ensures Clean(s + t)
  {
    var us: seq<Bytes> :| Units(us) && Flatten(us) == s;
    var vs: seq<Bytes> :| Units(vs) && Flatten(vs) == t;
    FlattenAppend(us, vs);
    assert Units(us + vs);
  }

  lemma CleanUnit(u: Bytes)
    requires u == [] || Unit(u)
    ensures Clean(u)
  {
    if u == [] {
      var none: seq<Bytes> := [];
      assert Units(none) && Flatten(none) == u;
    } else {
      FlattenOne(u);
      assert Units([u]) && Flatten([u]) == u;
    }
  }

  lemma {:induction false} ScanClean(state: State, s: Bytes)
    ensures Clean(Scan(state, s).out)
    decreases |s|, if state == Text then 0 else 1
  {
    if s == [] {
      CleanUnit([]);
    } else if (state == Escape || state == Drop) && s[0] >= 0x80 {
      ScanClean(Text, s);
    } else if state == Text && s[0] >= 0x80 {
      if !FullRune(s) {
        CleanUnit([]);
      } else {
        var d := DecodeRune(s);
        var a := Accept(Text, d, s[..d.size]);
        if a.out != [] {
          assert WellFormed(a.out);
          C1Encoding(a.out);
        }
        CleanUnit(a.out);
        ScanClean(a.filter.state, s[d.size..]);
        CleanAppend(a.out, Scan(a.filter.state, s[d.size..]).out);
      }
    } else {
      var first := Feed(Filter(state, []), s[0]);
      CleanUnit(first.out);
      ScanClean(first.filter.state, s[1..]);
      CleanAppend(first.out, Scan(first.filter.state, s[1..]).out);
    }
  }

  /** Every single write, at any point of a run, gives whole units. */
  lemma WriteClean(f: Filter, p: Bytes)
    requires Valid(f)
    ensures Clean(FeedAll(f, p).out)
  {
    FeedAllIsScan(f, p);
    ScanClean(f.state, f.pending + p);
  }

  lemma UnitPasses(u: Bytes)
    requires Unit(u)
    ensures FeedAll(INITIAL, u) == Step(INITIAL, u)
  {
    if |u| == 1 && u[0] < 0x80 {
      FeedOne(INITIAL, u[0]);
      assert [u[0]] == u;
    } else if u[0] == ESC {
      assert u == [ESC] + [u[1]];
      FeedSplit(INITIAL, [ESC], [u[1]]);
      FeedOne(INITIAL, ESC);
      FeedOne(Filter(Escape, []), u[1]);
    } else {
      CharacterPasses(u);
    }
  }

  lemma CharacterPasses(u: Bytes)
    requires WellFormed(u) && Scalar(u) >= 0xA0
    ensures FeedAll(INITIAL, u) == Step(INITIAL, u)
  {
    C1Encoding(u);
    FeedAllIsScan(INITIAL, u);
    assert [] + u == u;
    assert u[..|u|] == u;
    ScanDecodes(u, u, []);
    assert Scan(Text, u[|u|..] + []) == Step(INITIAL, []);
  }

  lemma {:induction false} UnitsPass(us: seq<Bytes>)
    requires Units(us)
    ensures FeedAll(INITIAL, Flatten(us)) == Step(INITIAL, Flatten(us))
  {
    if us != [] {
      UnitPasses(us[0]);
      UnitsPass(us[1..]);
      FeedSplit(INITIAL, us[0], Flatten(us[1..]));
    }
  }

  /** The outputs of the filter are exactly the inputs that it leaves as they are. */
  lemma OutputsAreFixedPoints(s: Bytes)
    ensures Clean(s) <==> FeedAll(INITIAL, s).out == s
    ensures Clean(s) ==> FeedAll(INITIAL, s).filter == INITIAL
    ensures Clean(s) <==> exists input: Bytes :: FeedAll(INITIAL, input).out == s
  {
    if Clean(s) {
      var us: seq<Bytes> :| Units(us) && Flatten(us) == s;
      UnitsPass(us);
    }
    if input: Bytes :| FeedAll(INITIAL, input).out == s {
      WriteClean(INITIAL, input);
    }
  }

  lemma FilteringTwice(chunks: seq<Bytes>)
    ensures var once := WriteAll(INITIAL, chunks).out;
      FeedAll(INITIAL, once).out == once
  {
    ChunksDoNotMatter(INITIAL, chunks);
    OutputsAreFixedPoints(WriteAll(INITIAL, chunks).out);
  }

  // What is taken out.

  /** The first bytes of a control string: ESC and an opener, or a C1 control in one byte or two. */
  predicate Introducer(s: Bytes) {
    || (|s| == 2 && s[0] == ESC && s[1] < 0x80 && OpensString(s[1]))
    || (|s| == 1 && s[0] >= 0x80 && OpensString(s[0]))
    || (|s| == 2 && s[0] == 0xC2 && s[1] >= 0x80 && OpensString(s[1]))
  }

  predicate Terminator(s: Bytes) {
    s == [BEL] || s == [ST] || s == [ESC, BACKSLASH]
  }

  /** A string's content has no terminator, and ends before the ESC of one. */
  predicate Content(s: Bytes) {
    && (forall i | 0 <= i < |s| :: s[i] != BEL && s[i] != ST)
    && (forall i | 0 < i < |s| :: !(s[i - 1] == ESC && s[i] == BACKSLASH))
  }

  lemma EscapeOpens(b: Byte)
    requires b < 0x80 && OpensString(b as int)
    ensures FeedAll(INITIAL, [ESC, b]) == Step(Filter(Str, []), [])
  {
    assert [ESC, b] == [ESC] + [b];
    FeedSplit(INITIAL, [ESC], [b]);
    FeedOne(INITIAL, ESC);
    FeedOne(Filter(Escape, []), b);
  }

  lemma IntroducerOpens(s: Bytes)
    requires Introducer(s)
    ensures FeedAll(INITIAL, s) == Step(Filter(Str, []), [])
  {
    if s[0] == ESC {
      assert s == [ESC, s[1]];
      EscapeOpens(s[1]);
    } else {
      FeedAllIsScan(INITIAL, s);
      assert [] + s == s;
      if |s| == 2 {
        assert s[..2] == s;
        assert Scan(Str, s[2..]).out == [];
      } else {
        assert Scan(Str, s[1..]).out == [];
      }
    }
  }

  lemma {:induction false} ContentStays(s: Bytes)
    requires Content(s)
    ensures FeedAll(Filter(Str, []), s)
      == Step(Filter(if s != [] && s[|s| - 1] == ESC then StrEscape else Str, []), [])
  {
    if s != [] {
      var init := s[..|s| - 1];
      var last := s[|s| - 1];
      assert s == init + [last];
      assert forall i | 0 <= i < |init| :: init[i] == s[i];
      ContentStays(init);
      FeedSplit(Filter(Str, []), init, [last]);
      FeedOne(FeedAll(Filter(Str, []), init).filter, last);
    }
  }

  lemma TerminatorCloses(f: Filter, t: Bytes)
    requires f == Filter(Str, []) || f == Filter(StrEscape, [])
    requires Terminator(t)
    ensures FeedAll(f, t) == Step(INITIAL, [])
  {
    FeedOne(f, t[0]);
    if |t| == 1 {
      assert t == [t[0]];
    } else {
      assert t == [ESC] + [BACKSLASH];
      FeedSplit(f, [ESC], [BACKSLASH]);
      FeedOne(Filter(StrEscape, []), BACKSLASH);
    }
  }

  /** A control string in any form goes without a trace, and text goes on after it. */
  lemma StringErased(introducer: Bytes, content: Bytes, terminator: Bytes)
    requires Introducer(introducer) && Content(content) && Terminator(terminator)
    ensures FeedAll(INITIAL, introducer + content + terminator) == Step(INITIAL, [])
  {
    IntroducerOpens(introducer);
    ContentStays(content);
    FeedSplit(INITIAL, introducer, content);
    var open := FeedAll(INITIAL, introducer + content);
    FeedSplit(INITIAL, introducer + content, terminator);
    TerminatorCloses(open.filter, terminator);
  }

  /** A string that is never ended swallows the rest of the run. */
  lemma UnterminatedStringSwallows(introducer: Bytes, content: Bytes)
    requires Introducer(introducer) && Content(content)
    ensures FeedAll(INITIAL, introducer + content).out == []
  {
    IntroducerOpens(introducer);
    ContentStays(content);
    FeedSplit(INITIAL, introducer, content);
  }

  /** The first byte 9C ends a string, wherever it is, and the rest is read as text. */
  lemma StringEndsAtST(introducer: Bytes, content: Bytes, rest: Bytes)
    requires Introducer(introducer) && Content(content)
    ensures FeedAll(INITIAL, introducer + content + [ST] + rest) == Scan(Text, rest)
  {
    StringErased(introducer, content, [ST]);
    FeedSplit(INITIAL, introducer + content + [ST], rest);
    FeedAllIsScan(INITIAL, rest);
    assert [] + rest == rest;
  }

  // Strings of UTF-8 text, whose characters can have the byte 9C too.

  /** A character of a string's text, that is not BEL, ESC or a C1 control. */
  predicate InText(u: Bytes) {
    Unit(u) && u[0] != ESC && u != [BEL]
  }

  /** Each byte 9C of the character has a byte after it that opens a string again. */
  predicate Hidden(u: Bytes) {
    forall i | 0 <= i < |u| && u[i] == ST :: Reopens(u, i)
  }

  predicate Reopens(u: Bytes, i: nat) {
    exists j :: i < j < |u| && OpensString(u[j])
  }

  /** A byte that is no first byte of a character, after a byte 9C or before it. */
  lemma TailStays(state: State, b: Byte)
    requires IsTail(b) && (state == Text || state == Str)
    ensures FeedAll(Filter(state, []), [b])
      == Step(Filter(if b == ST then Text else if OpensString(b) then Str else state, []), [])
  {
    FeedOne(Filter(state, []), b);
    if state == Text {
      assert FullRune([b]) && [b][1..] == [];
      assert FeedAll(Filter(if OpensString(b) then Str else Text, []), []).out == [];
    }
  }

  /** Within a character the string is open exactly where each byte 9C so far has been undone. */
  lemma {:induction false} CharacterInString(u: Bytes, n: nat)
    requires 1 <= n <= |u| && u[0] >= 0xC0 && forall i | 1 <= i < |u| :: IsTail(u[i])
    ensures FeedAll(Filter(Str, []), u[..n]) == Step(Filter(if Hidden(u[..n]) then Str else Text, []), [])
  {
    if n == 1 {
      assert u[..1] == [u[0]];
      FeedOne(Filter(Str, []), u[0]);
    } else {
      CharacterInString(u, n - 1);
      var init, last := u[..n - 1], u[n - 1];
      assert u[..n] == init + [last];
      FeedSplit(Filter(Str, []), init, [last]);
      TailStays(FeedAll(Filter(Str, []), init).filter.state, last);
      HiddenNext(init, last);
    }
  }

  lemma HiddenNext(u: Bytes, b: Byte)
    ensures Hidden(u + [b]) <==> b != ST && (OpensString(b) || Hidden(u))
  {
    var v := u + [b];
    assert v[|u|] == b && !Reopens(v, |u|);
    forall i | 0 <= i < |u|
      ensures v[i] == u[i]
      ensures Reopens(v, i) <==> OpensString(b) || Reopens(u, i)
    {
      if OpensString(b) {
        assert i < |u| < |v| && OpensString(v[|u|]);
      } else if j :| i < j < |v| && OpensString(v[j]) {
        assert OpensString(u[j]);
      } else if j :| i < j < |u| && OpensString(u[j]) {
        assert OpensString(v[j]);
      }
    }
  }

  lemma TextInString(u: Bytes)
    requires InText(u)
    ensures FeedAll(Filter(Str, []), u) == Step(Filter(if Hidden(u) then Str else Text, []), [])
  {
    if |u| == 1 && u[0] < 0x80 {
      assert u == [u[0]];
      FeedOne(Filter(Str, []), u[0]);
    } else {
      assert u[..|u|] == u;
      C1Encoding(u);
      CharacterInString(u, |u|);
    }
  }

  /** What is left of a text from the character on that the string does not hide, which is lost itself. */
  function Shown(us: seq<Bytes>): seq<Bytes> {
    if us == [] then [] else if Hidden(us[0]) then Shown(us[1..]) else us[1..]
  }

  predicate AllHidden(us: seq<Bytes>) {
    forall u | u in us :: Hidden(u)
  }

  lemma {:induction false} TextsInString(us: seq<Bytes>)
    requires forall u | u in us :: InText(u)
    ensures FeedAll(Filter(Str, []), Flatten(us))
      == Step(Filter(if AllHidden(us) then Str else Text, []), Flatten(Shown(us)))
    ensures AllHidden(us) ==> Flatten(Shown(us)) == []
  {
    if us != [] {
      TextInString(us[0]);
      FeedSplit(Filter(Str, []), us[0], Flatten(us[1..]));
      hide FeedAll, Hidden, Unit;
      forall u | u in us[1..]
        ensures InText(u) && Unit(u)
      {
        assert u in us;
      }
      if Hidden(us[0]) {
        TextsInString(us[1..]);
        assert us == [us[0]] + us[1..];
      } else {
        UnitsPass(us[1..]);
      }
    }
  }

  /** BEL and ST, of which the latter is a C1 control in two bytes or an escape. */
  predicate TextTerminator(t: Bytes) {
    t == [BEL] || t == [0xC2, ST] || t == [ESC, BACKSLASH]
  }

  /** What the terminator of a string gives when the string has ended before it. */
  function Remnant(t: Bytes): Bytes {
    if t == [0xC2, ST] then [] else t
  }

  lemma TerminatorPasses(t: Bytes)
    requires TextTerminator(t)
    ensures FeedAll(INITIAL, t) == Step(INITIAL, Remnant(t))
    ensures FeedAll(Filter(Str, []), t) == Step(INITIAL, [])
  {
    hide FeedAll;
    if t == [0xC2, ST] {
      C1IsDropped();
      C1Closes();
    } else {
      UnitPasses(t);
      TerminatorCloses(Filter(Str, []), t);
    }
  }

  lemma C1IsDropped()
    ensures FeedAll(INITIAL, [0xC2, ST]) == Step(INITIAL, [])
  {
    var t := [0xC2, ST];
    FeedAllIsScan(INITIAL, t);
    assert [] + t == t;
    assert t[..2] == t && t[2..] == [];
    hide FeedAll, Feed;
  }

  lemma C1Closes()
    ensures FeedAll(Filter(Str, []), [0xC2, ST]) == Step(INITIAL, [])
  {
    assert [0xC2] + [ST] == [0xC2, ST];
    FeedOne(Filter(Str, []), 0xC2);
    FeedOne(Filter(Str, []), ST);
    hide FeedAll, Scan;
    FeedSplit(Filter(Str, []), [0xC2], [ST]);
  }

  /**
   What a string of UTF-8 text gives: nothing if each of its characters is hidden, and otherwise
   the text after the first that is not, and the terminator.
   */
  lemma TextStringGives(introducer: Bytes, us: seq<Bytes>, terminator: Bytes)
    requires Introducer(introducer) && TextTerminator(terminator) && forall u | u in us :: InText(u)
    ensures FeedAll(INITIAL, introducer + Flatten(us) + terminator)
      == Step(INITIAL, if AllHidden(us) then [] else Flatten(Shown(us)) + Remnant(terminator))
  {
    hide FeedAll, Hidden, AllHidden, Shown, Unit, OpensString, Remnant;
    IntroducerOpens(introducer);
    TextsInString(us);
    TerminatorPasses(terminator);
    FeedSplit(INITIAL, introducer, Flatten(us));
    FeedSplit(INITIAL, introducer + Flatten(us), terminator);
  }

  lemma {:induction false} NoneShown(us: seq<Bytes>)
    requires us != [] && forall u | u in us :: u != []
    ensures Flatten(Shown(us)) == [] <==> AllHidden(us[..|us| - 1])
  {
    hide Hidden;
    assert us == [us[0]] + us[1..];
    if |us| > 1 {
      assert us[..|us| - 1] == [us[0]] + us[1..][..|us| - 2];
      assert forall u | u in us[1..] :: u in us;
      if Hidden(us[0]) {
        NoneShown(us[1..]);
      } else {
        assert us[1] in us;
      }
    }
  }

  /**
   A string of UTF-8 text goes without a trace exactly if its characters are hidden, of which
   the last needs not to be if a C1 control ends the string.
   */
  lemma TextStringErasedExactly(introducer: Bytes, us: seq<Bytes>, terminator: Bytes)
    requires Introducer(introducer) && TextTerminator(terminator) && forall u | u in us :: InText(u)
    ensures FeedAll(INITIAL, introducer + Flatten(us) + terminator) == Step(INITIAL, [])
      <==> AllHidden(if terminator == [0xC2, ST] && us != [] then us[..|us| - 1] else us)
  {
    TextStringGives(introducer, us, terminator);
    hide FeedAll, Hidden, Unit, Shown;
    if us != [] {
      NoneShown(us);
    }
  }

  /** An escape with an intermediate that designates no character set goes whole. */
  lemma {:induction false} OtherIntermediatesErased(first: Byte, more: Bytes, final: Byte)
    requires 0x20 <= first <= 0x2F && !Designates(first)
    requires forall i | 0 <= i < |more| :: 0x20 <= more[i] <= 0x2F
    requires 0x30 <= final <= 0x7E
    ensures FeedAll(INITIAL, [ESC, first] + more + [final]) == Step(INITIAL, [])
  {
    FeedOne(INITIAL, ESC);
    FeedOne(Filter(Escape, []), first);
    FeedSplit(INITIAL, [ESC], [first]);
    assert [ESC] + [first] == [ESC, first];
    IntermediatesStay(more);
    FeedSplit(INITIAL, [ESC, first], more);
    FeedSplit(INITIAL, [ESC, first] + more, [final]);
    FeedOne(Filter(Drop, []), final);
  }

  lemma {:induction false} IntermediatesStay(s: Bytes)
    requires forall i | 0 <= i < |s| :: 0x20 <= s[i] <= 0x2F
    ensures FeedAll(Filter(Drop, []), s) == Step(Filter(Drop, []), [])
  {
    if s != [] {
      IntermediatesStay(s[1..]);
    }
  }
}
