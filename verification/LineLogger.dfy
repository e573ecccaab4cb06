/**
 The journal lines that a guest's console becomes (lineLogger in tools/cmd/invirtio/run.go).
 Feed is the transition function of the source, byte by byte, and class LineLogger is the
 logger itself. The reference is in two passes: Tokenize decodes the whole input at once, and
 Layout breaks what is left of it into lines.
 */
module LineLogger {
  import opened Sequences
  import opened Utf8

  const ESC: Byte := 0x1B
  const NEWLINE: Byte := 0x0A
  const TAB: Byte := 0x09
  const BRACKET: Byte := 0x5B
  const MAX_LOG_LINE := 1024

  /** A line as the logger writes it. A line is forced if no newline of the guest ends it. */
  datatype Line = Line(text: Bytes, forced: bool)

  /** The fields of lineLogger that change. */
  datatype Logger = Logger(line: Bytes, pending: Bytes, escape: bool, csi: bool)

  datatype Step = Step(logger: Logger, lines: seq<Line>)

  const INITIAL := Logger([], [], false, false)

  function After(lines: seq<Line>, r: Step): Step {
    Step(r.logger, lines + r.lines)
  }

  /** Adds a sequence to the line, which is written first if the sequence does not fit. */
  function Append(l: Logger, full: bool, sequence: Bytes): Step {
    if full then Step(l.(line := sequence), [Line(l.line, true)])
    else Step(l.(line := l.line + sequence), [])
  }

  predicate Printable(b: Byte) {
    b == TAB || 0x20 <= b < 0x7F
  }

  function Feed(l: Logger, b: Byte): (r: Step)
    ensures |r.logger.pending| <= |l.pending| + 1
    decreases |l.pending| + 1, 0, 0
  {
    if l.pending != [] || (b >= 0x80 && !l.escape && !l.csi) then
      var pending := l.pending + [b];
      if !FullRune(pending) then
        Step(l.(pending := pending), [])
      else
        var d := DecodeRune(pending);
        var a := Accept(l.(pending := []), d, pending[..d.size]);
        var r := FeedAll(a.logger, pending[d.size..]);
        After(a.lines, r)
    else
      FeedAscii(l, b)
  }

  /** What a decoded sequence does. The C1 controls and what is not UTF-8 are dropped. */
  function Accept(l: Logger, d: Decoded, sequence: Bytes): (r: Step)
    ensures r.logger.pending == l.pending
  {
    if !IsError(d) && d.rune > 0x9F then Append(l, |l.line| + d.size > MAX_LOG_LINE, sequence)
    else Step(l, [])
  }

  /** The switch of feed, which also has the bytes of escape sequences, whatever they are. */
  function FeedAscii(l: Logger, b: Byte): (r: Step)
    ensures r.logger.pending == l.pending
  {
    if l.csi then Step(l.(csi := b < 0x40 || b > 0x7E), [])
    else if l.escape then Step(l.(escape := false, csi := b == BRACKET), [])
    else if b == ESC then Step(l.(escape := true), [])
    else if b == NEWLINE then Step(l.(line := []), [Line(l.line, false)])
    else if Printable(b) then Append(l, |l.line| == MAX_LOG_LINE, [b])
    else Step(l, [])
  }

  function FeedAll(l: Logger, s: Bytes): (r: Step)
    ensures |r.logger.pending| <= |l.pending| + |s|
    decreases |l.pending| + |s|, 1, |s|
  {
    if s == [] then Step(l, [])
    else
      var first := Feed(l, s[0]);
      var rest := FeedAll(first.logger, s[1..]);
      After(first.lines, rest)
  }

  /** What one write to the journal has: the level for the journal, the prefix, and the line. */
  function Record(journal: bool, prefix: Bytes, text: Bytes): Bytes {
    (if journal then [0x3C, 0x37, 0x3E] else []) + prefix + text + [NEWLINE]
  }

  function Records(journal: bool, prefix: Bytes, lines: seq<Line>): seq<Bytes> {
    seq(|lines|, i requires 0 <= i < |lines| => Record(journal, prefix, lines[i].text))
  }

  lemma NoRecords(journal: bool, prefix: Bytes)
    ensures Records(journal, prefix, []) == []
  {
  }

  lemma RecordsAppend(journal: bool, prefix: Bytes, a: seq<Line>, b: seq<Line>)
    ensures Records(journal, prefix, a + b) == Records(journal, prefix, a) + Records(journal, prefix, b)
  {
  }

  class LineLogger {
    const prefix: Bytes
    const journal: bool
    var line: Bytes
    var pending: Bytes
    var escape: bool
    var csi: bool
    /** The writes to the journal. */
    var out: seq<Bytes>

    function Current(): Logger
      reads this
    {
      Logger(line, pending, escape, csi)
    }

    constructor (name: Bytes, journal: bool)
      ensures Current() == INITIAL && out == []
      ensures prefix == name + [0x3A, 0x20] && this.journal == journal
    {
      prefix, this.journal := name + [0x3A, 0x20], journal;
      line, pending, escape, csi, out := [], [], false, false, [];
    }

    /** What the records of some steps of the specification add to the journal. */
    predicate Wrote(before: seq<Bytes>, lines: seq<Line>)
      reads this`out
    {
      out == before + Records(journal, prefix, lines)
    }

    /** Write, which is also the loop over the bytes after a sequence in feed. */
    method Write(p: Bytes)
      modifies this
      ensures Current() == FeedAll(old(Current()), p).logger
      ensures Wrote(old(out), FeedAll(old(Current()), p).lines)
      decreases |pending| + |p|, 1
    {
      FeedNone(Current());
      NoRecords(journal, prefix);
      hide Feed, Record, Records, FeedAll;
      assert p[..0] == [];
      for i := 0 to |p|
        invariant |pending| <= old(|pending|) + i
        invariant Current() == FeedAll(old(Current()), p[..i]).logger
        invariant Wrote(old(out), FeedAll(old(Current()), p[..i]).lines)
      {
        FeedSplit(old(Current()), p[..i], [p[i]]);
        FeedOne(Current(), p[i]);
        assert p[..i + 1] == p[..i] + [p[i]];
        ghost var before := out;
        ghost var first, second := FeedAll(old(Current()), p[..i]).lines, Feed(Current(), p[i]).lines;
        FeedByte(p[i]);
        RecordsAppend(journal, prefix, first, second);
      }
      assert p[..|p|] == p;
    }

    /** feed */
    method FeedByte(b: Byte)
      modifies this
      ensures Current() == Feed(old(Current()), b).logger
      ensures Wrote(old(out), Feed(old(Current()), b).lines)
      decreases |pending| + 1, 0
    {
      hide FeedAll, Records, Accept, FeedAscii;
      if pending != [] || (b >= 0x80 && !escape && !csi) {
        pending := pending + [b];
        if !FullRune(pending) {
          NoRecords(journal, prefix);
          return;
        }
        var d := DecodeRune(pending);
        var sequence, rest := pending[..d.size], pending[d.size..];
        pending := [];
        Take(d, sequence);
        ghost var accepted := Accept(old(Current()).(pending := []), d, sequence).lines;
        ghost var fed := FeedAll(Current(), rest).lines;
        Write(rest);
        RecordsAppend(journal, prefix, accepted, fed);
        return;
      }
      FeedAsciiByte(b);
    }

    /** What feed does with a decoded sequence. */
    method Take(d: Decoded, sequence: Bytes)
      modifies this`line, this`out
      ensures Current() == Accept(old(Current()), d, sequence).logger
      ensures Wrote(old(out), Accept(old(Current()), d, sequence).lines)
    {
      if !IsError(d) && d.rune > 0x9F {
        if |line| + d.size > MAX_LOG_LINE {
          Flush(true);
        }
        line := line + sequence;
      }
    }

    /** The switch in feed. */
    method FeedAsciiByte(b: Byte)
      modifies this
      ensures Current() == FeedAscii(old(Current()), b).logger
      ensures Wrote(old(out), FeedAscii(old(Current()), b).lines)
    {
      if csi {
        csi := b < 0x40 || b > 0x7E;
      } else if escape {
        escape := false;
        csi := b == BRACKET;
      } else if b == ESC {
        escape := true;
      } else if b == NEWLINE {
        Flush(false);
      } else if b == TAB || (0x20 <= b < 0x7F) {
        if |line| == MAX_LOG_LINE {
          Flush(true);
        }
        line := line + [b];
      }
    }

    method Flush(ghost forced: bool)
      modifies this`line, this`out
      ensures line == [] && Wrote(old(out), [Line(old(line), forced)])
    {
      out := out + [Record(journal, prefix, line)];
      line := [];
    }

    /** The state and the records after some writes to a new logger. */
    predicate HasWritten(chunks: seq<Bytes>)
      reads this
    {
      Current() == WriteAll(INITIAL, chunks).logger && Wrote([], WriteAll(INITIAL, chunks).lines)
    }

    method WriteChunk(ghost before: seq<Bytes>, chunk: Bytes)
      requires HasWritten(before)
      modifies this
      ensures HasWritten(before + [chunk])
    {
      WriteAllAppend(INITIAL, before, chunk);
      RecordsAppend(journal, prefix, WriteAll(INITIAL, before).lines, FeedAll(Current(), chunk).lines);
      hide WriteAll, FeedAll, Records;
      Write(chunk);
    }

    /** close, which writes a last line that has no newline and drops a part of a character. */
    method Close()
      modifies this`line, this`out
      ensures line == []
      ensures Wrote(old(out), if old(line) == [] then [] else [Line(old(line), false)])
    {
      if |line| > 0 {
        Flush(false);
      }
    }

    lemma NothingWritten()
      requires Current() == INITIAL && out == []
      ensures HasWritten([])
    {
      NoRecords(journal, prefix);
      WriteNone(INITIAL);
    }

    method WriteEnd(ghost chunks: seq<Bytes>)
      requires HasWritten(chunks)
      modifies this`line, this`out
      ensures out == Records(journal, prefix, Log(chunks))
    {
      LogRecords(journal, prefix, chunks);
      hide WriteAll, Records, Log;
      Close();
    }
  }

  lemma FeedNone(l: Logger)
    ensures FeedAll(l, []) == Step(l, [])
  {
  }

  lemma FeedOne(l: Logger, b: Byte)
    ensures FeedAll(l, [b]) == Feed(l, b)
  {
    assert FeedAll(Feed(l, b).logger, [b][1..]).lines == [];
  }

  lemma {:induction false} FeedSplit(l: Logger, s: Bytes, t: Bytes)
    ensures var a := FeedAll(l, s); var b := FeedAll(a.logger, t);
      FeedAll(l, s + t) == After(a.lines, b)
    decreases |s|
  {
    if s == [] {
      assert s + t == t;
    } else {
      assert (s + t)[1..] == s[1..] + t;
      hide Feed;
      FeedSplit(Feed(l, s[0]).logger, s[1..], t);
    }
  }

  /** The Writes of a run. */
  function WriteAll(l: Logger, chunks: seq<Bytes>): Step
    decreases |chunks|
  {
    if chunks == [] then Step(l, [])
    else
      var first := FeedAll(l, chunks[0]);
      var rest := WriteAll(first.logger, chunks[1..]);
      After(first.lines, rest)
  }

  lemma {:induction false} ChunksDoNotMatter(l: Logger, chunks: seq<Bytes>)
    ensures WriteAll(l, chunks) == FeedAll(l, Flatten(chunks))
    decreases |chunks|
  {
    if chunks != [] {
      ChunksDoNotMatter(FeedAll(l, chunks[0]).logger, chunks[1..]);
      FeedSplit(l, chunks[0], Flatten(chunks[1..]));
    }
  }

  /** What is left of the input: a character that is printed, or a newline. */
  datatype Token = Rune(bytes: Bytes) | Newline

  /** The tokens of an input, and what the input ends in. */
  datatype Tokens = Tokens(tokens: seq<Token>, pending: Bytes, escape: bool, csi: bool)

  function Prepend(tokens: seq<Token>, t: Tokens): Tokens {
    t.(tokens := tokens + t.tokens)
  }

  /** Decodes the rest of the input, however long, wherever a sequence starts. */
  function Tokenize(escape: bool, csi: bool, s: Bytes): Tokens
    decreases |s|
  {
    if s == [] then Tokens([], [], escape, csi)
    else if csi then Tokenize(escape, s[0] < 0x40 || s[0] > 0x7E, s[1..])
    else if escape then Tokenize(false, s[0] == BRACKET, s[1..])
    else if s[0] < 0x80 then Prepend(Ascii(s[0]), Tokenize(s[0] == ESC, false, s[1..]))
    else if !FullRune(s) then Tokens([], s, false, false)
    else
      var d := DecodeRune(s);
      Prepend(Decode(d, s[..d.size]), Tokenize(false, false, s[d.size..]))
  }

  function Ascii(b: Byte): seq<Token> {
    if b == NEWLINE then [Newline] else if Printable(b) then [Rune([b])] else []
  }

  function Decode(d: Decoded, sequence: Bytes): seq<Token> {
    if !IsError(d) && d.rune > 0x9F then [Rune(sequence)] else []
  }

  /** Lines, and the start of the next. */
  datatype Page = Page(lines: seq<Line>, line: Bytes)

  function Put(line: Bytes, t: Token): Page {
    match t
    case Newline => Page([Line(line, false)], [])
    case Rune(bytes) =>
      if |line| + |bytes| > MAX_LOG_LINE then Page([Line(line, true)], bytes)
      else Page([], line + bytes)
  }

  function Layout(line: Bytes, tokens: seq<Token>): Page
    decreases |tokens|
  {
    if tokens == [] then Page([], line)
    else
      var first := Put(line, tokens[0]);
      var rest := Layout(first.line, tokens[1..]);
      Page(first.lines + rest.lines, rest.line)
  }

  /** The two passes together. */
  function Reference(l: Logger, s: Bytes): Step {
    var t := Tokenize(l.escape, l.csi, l.pending + s);
    var page := Layout(l.line, t.tokens);
    Step(Logger(page.line, t.pending, t.escape, t.csi), page.lines)
  }

  /** The states that a run can reach. */
  predicate Valid(l: Logger) {
    && |l.line| <= MAX_LOG_LINE
    && !(l.escape && l.csi)
    && (l.pending != [] ==> Partial(l.pending) && l.pending[0] >= 0x80 && !l.escape && !l.csi)
  }

  lemma {:induction false} LayoutAppend(line: Bytes, a: seq<Token>, b: seq<Token>)
    ensures var p := Layout(line, a); var r := Layout(p.line, b);
      Layout(line, a + b) == Page(p.lines + r.lines, r.line)
    decreases |a|
  {
    if a == [] {
      assert a + b == b;
    } else {
      hide Put;
      var first := Put(line, a[0]);
      var p := Layout(first.line, a[1..]);
      LayoutAppend(first.line, a[1..], b);
      assert a + b == [a[0]] + (a[1..] + b);
      Regroup(first.lines, p.lines, Layout(p.line, b).lines);
    }
  }

  /** Some tokens first, and then the rest. */
  lemma ReferenceSteps(l: Logger, s: Bytes, tokens: seq<Token>, escape: bool, csi: bool, t: Bytes)
    requires Tokenize(l.escape, l.csi, l.pending + s) == Prepend(tokens, Tokenize(escape, csi, t))
    ensures var page := Layout(l.line, tokens);
      Reference(l, s) == After(page.lines, Reference(Logger(page.line, [], escape, csi), t))
  {
    hide Tokenize, Layout;
    LayoutAppend(l.line, tokens, Tokenize(escape, csi, t).tokens);
    assert [] + t == t;
  }

  /** Each byte keeps a state valid, also where it has bytes fed again. */
  lemma {:induction false} FeedValid(l: Logger, b: Byte)
    requires Valid(l)
    ensures Valid(Feed(l, b).logger)
    decreases |l.pending| + 1, 0
  {
    if l.pending == [] && (b < 0x80 || l.escape || l.csi) {
      AsciiFeeds(l, b);
    } else if FullRune(l.pending + [b]) {
      var q := l.pending + [b];
      var d := DecodeRune(q);
      AcceptValid(l, b);
      hide Accept;
      FeedAllValid(Accept(l.(pending := []), d, q[..d.size]).logger, q[d.size..]);
    }
  }

  lemma {:induction false} FeedAllValid(l: Logger, s: Bytes)
    requires Valid(l)
    ensures Valid(FeedAll(l, s).logger)
    decreases |l.pending| + |s|, |s|
  {
    if s != [] {
      FeedValid(l, s[0]);
      FeedAllValid(Feed(l, s[0]).logger, s[1..]);
    }
  }

  /**
   After any writes, the logger is in a valid state, and what it still gets has the lines that
   the reference finds in the part of a character that it holds back and the rest.
   */
  lemma RunIsReference(chunks: seq<Bytes>, s: Bytes)
    ensures var l := WriteAll(INITIAL, chunks).logger;
      Valid(l) && FeedAll(l, s) == Reference(l, s)
  {
    ChunksDoNotMatter(INITIAL, chunks);
    FeedAllValid(INITIAL, Flatten(chunks));
    FeedAllIsReference(WriteAll(INITIAL, chunks).logger, s);
  }

  /** Streaming with a part of a character in hand is the reference on that part and the rest. */
  lemma {:induction false} FeedAllIsReference(l: Logger, s: Bytes)
    requires Valid(l)
    ensures FeedAll(l, s) == Reference(l, s)
    decreases |l.pending| + |s|, |s|, 1
  {
    if s == [] {
      EmptyCase(l);
    } else if l.pending != [] || (s[0] >= 0x80 && !l.escape && !l.csi) {
      if FullRune(l.pending + [s[0]]) {
        FullCase(l, s);
      } else {
        PartialFeeds(l, s);
        FeedAllIsReference(l.(pending := l.pending + [s[0]]), s[1..]);
      }
    } else {
      AsciiCase(l, s);
    }
  }

  lemma EmptyCase(l: Logger)
    requires Valid(l)
    ensures FeedAll(l, []) == Reference(l, [])
  {
    assert l.pending + [] == l.pending;
  }

  lemma PartialFeeds(l: Logger, s: Bytes)
    requires Valid(l) && s != [] && (l.pending != [] || (s[0] >= 0x80 && !l.escape && !l.csi))
    requires !FullRune(l.pending + [s[0]])
    ensures var l' := l.(pending := l.pending + [s[0]]);
      Valid(l') && FeedAll(l, s) == FeedAll(l', s[1..]) && Reference(l, s) == Reference(l', s[1..])
  {
    var l' := l.(pending := l.pending + [s[0]]);
    hide Tokenize, Layout, FeedAll;
    assert l'.pending + s[1..] == l.pending + s;
    assert FeedAll(l, s) == After([], FeedAll(l', s[1..])) by {
      FeedFirst(l, s);
    }
  }

  lemma FeedFirst(l: Logger, s: Bytes)
    requires s != []
    ensures var first := Feed(l, s[0]); FeedAll(l, s) == After(first.lines, FeedAll(first.logger, s[1..]))
  {
  }

  lemma {:induction false} AsciiCase(l: Logger, s: Bytes)
    requires Valid(l) && s != [] && l.pending == [] && (s[0] < 0x80 || l.escape || l.csi)
    ensures FeedAll(l, s) == Reference(l, s)
    decreases |l.pending| + |s|, |s|, 0
  {
    var first := FeedAscii(l, s[0]);
    var tokens := if l.escape || l.csi then [] else Ascii(s[0]);
    FeedFirst(l, s);
    AsciiFeeds(l, s[0]);
    TokenizeAscii(l, s);
    hide Tokenize, Layout, FeedAscii, Feed, FeedAll;
    assert l.pending + s == s;
    ReferenceSteps(l, s, tokens, first.logger.escape, first.logger.csi, s[1..]);
    FeedAllIsReference(first.logger, s[1..]);
  }

  /** A byte outside a sequence adds the same to the line in both forms. */
  lemma AsciiFeeds(l: Logger, b: Byte)
    requires Valid(l) && l.pending == [] && (b < 0x80 || l.escape || l.csi)
    ensures var first := FeedAscii(l, b);
      && Feed(l, b) == first && Valid(first.logger) && first.logger.pending == []
      && Layout(l.line, if l.escape || l.csi then [] else Ascii(b)) == Page(first.lines, first.logger.line)
  {
    var tokens := Ascii(b);
    if tokens != [] {
      assert Layout(Put(l.line, tokens[0]).line, tokens[1..]).lines == [];
    }
  }

  lemma TokenizeAscii(l: Logger, s: Bytes)
    requires Valid(l) && s != [] && l.pending == [] && (s[0] < 0x80 || l.escape || l.csi)
    ensures var next := FeedAscii(l, s[0]).logger;
      Tokenize(l.escape, l.csi, s)
        == Prepend(if l.escape || l.csi then [] else Ascii(s[0]), Tokenize(next.escape, next.csi, s[1..]))
  {
  }

  lemma {:induction false} FullCase(l: Logger, s: Bytes)
    requires Valid(l) && s != [] && (l.pending != [] || s[0] >= 0x80) && !l.escape && !l.csi
    requires FullRune(l.pending + [s[0]])
    ensures FeedAll(l, s) == Reference(l, s)
    decreases |l.pending| + |s|, |s|, 0
  {
    AcceptValid(l, s[0]);
    FullFeeds(l, s);
    FullReference(l, s);
    hide *;
    var q := l.pending + [s[0]];
    var d := DecodeRune(q);
    FeedAllIsReference(Accept(l.(pending := []), d, q[..d.size]).logger, q[d.size..] + s[1..]);
  }

  lemma FullReference(l: Logger, s: Bytes)
    requires Valid(l) && s != [] && (l.pending != [] || s[0] >= 0x80) && !l.escape && !l.csi
    requires FullRune(l.pending + [s[0]])
    ensures var q := l.pending + [s[0]]; var d := DecodeRune(q);
      var a := Accept(l.(pending := []), d, q[..d.size]);
      Reference(l, s) == After(a.lines, Reference(a.logger, q[d.size..] + s[1..]))
  {
    AcceptValid(l, s[0]);
    var q := l.pending + [s[0]];
    var d := DecodeRune(q);
    TokenizeFull(q, s[1..]);
    Regroup(l.pending, [s[0]], s[1..]);
    assert [s[0]] + s[1..] == s;
    hide *;
    ReferenceSteps(l, s, Decode(d, q[..d.size]), false, false, q[d.size..] + s[1..]);
  }

  lemma AcceptValid(l: Logger, b: Byte)
    requires Valid(l) && !l.escape && !l.csi
    requires FullRune(l.pending + [b]) && (l.pending != [] || b >= 0x80)
    ensures var d := DecodeRune(l.pending + [b]); var sequence := (l.pending + [b])[..d.size];
      var a := Accept(l.(pending := []), d, sequence);
      && Valid(a.logger) && a.logger == l.(pending := [], line := a.logger.line)
      && (l.pending + [b])[0] >= 0x80
      && Layout(l.line, Decode(d, sequence)) == Page(a.lines, a.logger.line)
  {
    var d := DecodeRune(l.pending + [b]);
    var sequence := (l.pending + [b])[..d.size];
    if Decode(d, sequence) != [] {
      assert Layout(Put(l.line, Rune(sequence)).line, Decode(d, sequence)[1..]).lines == [];
    }
  }

  lemma FullFeeds(l: Logger, s: Bytes)
    requires s != [] && (l.pending != [] || s[0] >= 0x80) && !l.escape && !l.csi
    requires FullRune(l.pending + [s[0]])
    ensures var q := l.pending + [s[0]]; var d := DecodeRune(q);
      var a := Accept(l.(pending := []), d, q[..d.size]);
      FeedAll(l, s) == After(a.lines, FeedAll(a.logger, q[d.size..] + s[1..]))
  {
    var q := l.pending + [s[0]];
    var d := DecodeRune(q);
    var a := Accept(l.(pending := []), d, q[..d.size]);
    var r := FeedAll(a.logger, q[d.size..]);
    FeedSplit(a.logger, q[d.size..], s[1..]);
    AfterAfter(a.lines, r.lines, FeedAll(r.logger, s[1..]));
  }

  lemma TokenizeFull(q: Bytes, t: Bytes)
    requires FullRune(q) && q[0] >= 0x80
    ensures var d := DecodeRune(q);
      Tokenize(false, false, q + t) == Prepend(Decode(d, q[..d.size]), Tokenize(false, false, q[d.size..] + t))
  {
    var d := DecodeRune(q);
    DecodePrefix(q, t);
    assert (q + t)[..d.size] == q[..d.size];
    assert (q + t)[d.size..] == q[d.size..] + t;
  }

  lemma AfterAfter(a: seq<Line>, b: seq<Line>, r: Step)
    ensures After(a, After(b, r)) == After(a + b, r)
  {
    assert a + (b + r.lines) == a + b + r.lines;
  }

  /** A character that a line can have, of at least U+00A0 if it is not ASCII. */
  predicate Printed(u: Bytes) {
    WellFormed(u) && if |u| == 1 then u[0] == 0x09 || 0x20 <= u[0] <= 0x7E else Scalar(u) > 0x9F
  }

  predicate AllPrinted(tokens: seq<Token>) {
    forall t | t in tokens :: t.Rune? ==> Printed(t.bytes)
  }

  /** Whole characters that a line can have, and nothing else. */
  predicate IsClean(text: Bytes)
    decreases |text|
  {
    text == [] ||
    (var n := SequenceLength(text[0]);
     0 < n <= |text| && Printed(text[..n]) && IsClean(text[n..]))
  }

  predicate IsLine(text: Bytes) {
    |text| <= 1024 && IsClean(text)
  }

  lemma {:induction false} TokensArePrinted(escape: bool, csi: bool, s: Bytes)
    ensures AllPrinted(Tokenize(escape, csi, s).tokens)
    decreases |s|
  {
    if s == [] {
    } else if csi || escape || s[0] < 0x80 {
      TokensArePrinted(escape && csi, if csi then s[0] < 0x40 || s[0] > 0x7E else s[0] == BRACKET, s[1..]);
      TokensArePrinted(s[0] == ESC, false, s[1..]);
      TokensArePrinted(escape, s[0] < 0x40 || s[0] > 0x7E, s[1..]);
    } else if FullRune(s) {
      TokensArePrinted(false, false, s[DecodeRune(s).size..]);
      DecodedIsPrinted(s);
    }
  }

  lemma DecodedIsPrinted(s: Bytes)
    requires s != [] && s[0] >= 0x80
    ensures var d := DecodeRune(s); AllPrinted(Decode(d, s[..d.size]))
  {
    var d := DecodeRune(s);
    if d.size == 1 && s[0] >= 0x80 {
      assert SequenceLength(s[0]) != 1;
      assert IsError(d);
    }
  }

  lemma {:induction false} CleanAppend(a: Bytes, b: Bytes)
    requires IsClean(a) && IsClean(b)
    ensures IsClean(a + b)
    decreases |a|
  {
    hide *;
    if a == [] {
      assert a + b == b;
    } else {
      var n := CleanFirst(a);
      CleanAppend(a[n..], b);
      CleanCons(a[..n], a[n..] + b);
      Regroup(a[..n], a[n..], b);
      assert a[..n] + a[n..] == a;
    }
  }

  lemma CleanFirst(text: Bytes) returns (n: nat)
    requires IsClean(text) && text != []
    ensures 0 < n <= |text| && Printed(text[..n]) && IsClean(text[n..])
  {
    n := SequenceLength(text[0]);
  }

  lemma CleanCons(u: Bytes, text: Bytes)
    requires Printed(u) && IsClean(text)
    ensures IsClean(u + text)
  {
    var n := SequenceLength(u[0]);
    assert (u + text)[..n] == u && (u + text)[n..] == text;
  }

  lemma CleanOne(u: Bytes)
    requires Printed(u)
    ensures IsClean(u)
  {
    assert u[..|u|] == u && u[|u|..] == [];
  }

  lemma {:induction false} LayoutIsClean(line: Bytes, tokens: seq<Token>)
    requires IsLine(line) && AllPrinted(tokens)
    ensures var p := Layout(line, tokens);
      IsLine(p.line) && forall k | 0 <= k < |p.lines| :: IsLine(p.lines[k].text)
    decreases |tokens|
  {
    if tokens != [] {
      if tokens[0].Rune? {
        CleanOne(tokens[0].bytes);
        CleanAppend(line, tokens[0].bytes);
      }
      hide IsClean;
      LayoutIsClean(Put(line, tokens[0]).line, tokens[1..]);
    }
  }

  /** The lines as one text, in which only the guest's newlines end a line. */
  function Joined(lines: seq<Line>): Bytes {
    if lines == [] then []
    else lines[0].text + (if lines[0].forced then [] else [NEWLINE]) + Joined(lines[1..])
  }

  function Text(t: Token): Bytes {
    match t
    case Newline => [NEWLINE]
    case Rune(bytes) => bytes
  }

  /** The guest's text without what is dropped. */
  function Sanitized(tokens: seq<Token>): Bytes {
    if tokens == [] then [] else Text(tokens[0]) + Sanitized(tokens[1..])
  }

  lemma {:induction false} JoinedAppend(a: seq<Line>, b: seq<Line>)
    ensures Joined(a + b) == Joined(a) + Joined(b)
  {
    if a == [] {
      assert a + b == b;
    } else {
      assert (a + b)[1..] == a[1..] + b;
      JoinedAppend(a[1..], b);
    }
  }

  lemma JoinedOne(line: Line)
    ensures Joined([line]) == line.text + if line.forced then [] else [NEWLINE]
  {
    assert Joined([line][1..]) == [];
  }

  lemma PutRejoins(line: Bytes, t: Token)
    ensures var first := Put(line, t); Joined(first.lines) + first.line == line + Text(t)
  {
    var first := Put(line, t);
    if first.lines != [] {
      JoinedOne(first.lines[0]);
    }
  }

  /** The layout loses and adds nothing but its forced breaks. */
  lemma {:induction false} LayoutRejoins(line: Bytes, tokens: seq<Token>)
    ensures var p := Layout(line, tokens);
      Joined(p.lines) + p.line == line + Sanitized(tokens)
    decreases |tokens|
  {
    if tokens != [] {
      hide Put, Joined, Text;
      var first := Put(line, tokens[0]);
      var rest := Layout(first.line, tokens[1..]);
      LayoutRejoins(first.line, tokens[1..]);
      PutRejoins(line, tokens[0]);
      JoinedAppend(first.lines, rest.lines);
      calc {
        Joined(first.lines) + Joined(rest.lines) + rest.line;
        { Regroup(Joined(first.lines), Joined(rest.lines), rest.line); }
        Joined(first.lines) + (first.line + Sanitized(tokens[1..]));
        { Regroup(Joined(first.lines), first.line, Sanitized(tokens[1..])); }
        line + Text(tokens[0]) + Sanitized(tokens[1..]);
        { Regroup(line, Text(tokens[0]), Sanitized(tokens[1..])); }
        line + Sanitized(tokens);
      }
    } else {
      assert Joined([]) == [];
    }
  }

  /** The text after line k. */
  function Next(p: Page, k: nat): Bytes
    requires k < |p.lines|
  {
    if k + 1 < |p.lines| then p.lines[k + 1].text else p.line
  }

  /** A forced break is where the character after it does not fit in the line. */
  predicate BreakIsNeeded(p: Page, k: nat)
    requires k < |p.lines|
  {
    p.lines[k].forced ==>
      Next(p, k) != [] && |p.lines[k].text| + DecodeRune(Next(p, k)).size > MAX_LOG_LINE
  }

  /** The first line that a layout writes, or else has, starts with the line in hand. */
  lemma {:induction false} LayoutStarts(line: Bytes, tokens: seq<Token>)
    ensures var p := Layout(line, tokens); line <= (if p.lines == [] then p.line else p.lines[0].text)
    decreases |tokens|
  {
    if tokens != [] && Put(line, tokens[0]).lines == [] {
      LayoutStarts(Put(line, tokens[0]).line, tokens[1..]);
    }
  }

  lemma {:induction false} BreaksAreNeeded(line: Bytes, tokens: seq<Token>)
    requires AllPrinted(tokens)
    ensures var p := Layout(line, tokens); forall k | 0 <= k < |p.lines| :: BreakIsNeeded(p, k)
    decreases |tokens|
  {
    if tokens != [] {
      var first := Put(line, tokens[0]);
      var rest := Layout(first.line, tokens[1..]);
      var p := Layout(line, tokens);
      BreaksAreNeeded(first.line, tokens[1..]);
      LayoutStarts(first.line, tokens[1..]);
      forall k | 0 <= k < |p.lines|
        ensures BreakIsNeeded(p, k)
      {
        if k >= |first.lines| {
          assert BreakIsNeeded(rest, k - |first.lines|);
          assert Next(p, k) == Next(rest, k - |first.lines|);
        } else if p.lines[k].forced {
          DecodesWhole(tokens[0].bytes, Next(p, k));
        }
      }
    }
  }

  lemma DecodesWhole(u: Bytes, text: Bytes)
    requires WellFormed(u) && u <= text
    ensures DecodeRune(text).size == |u|
  {
    assert text[..|u|] == u;
  }

  /** The lines of a page, of which the last is written without a newline of the guest. */
  function Closed(p: Page): seq<Line> {
    p.lines + if p.line == [] then [] else [Line(p.line, false)]
  }

  /** The log of a run: what its writes and its close write. */
  function Log(chunks: seq<Bytes>): seq<Line> {
    var end := WriteAll(INITIAL, chunks);
    Closed(Page(end.lines, end.logger.line))
  }

  lemma WriteAllAppend(l: Logger, chunks: seq<Bytes>, last: Bytes)
    ensures var a := WriteAll(l, chunks); var b := FeedAll(a.logger, last);
      WriteAll(l, chunks + [last]) == After(a.lines, b)
  {
    ChunksDoNotMatter(l, chunks);
    ChunksDoNotMatter(l, chunks + [last]);
    FlattenAppend(chunks, [last]);
    FlattenOne(last);
    FeedSplit(l, Flatten(chunks), last);
  }

  lemma LogRecords(journal: bool, prefix: Bytes, chunks: seq<Bytes>)
    ensures var end := WriteAll(INITIAL, chunks); var line := end.logger.line;
      Records(journal, prefix, Log(chunks))
        == Records(journal, prefix, end.lines)
           + Records(journal, prefix, if line == [] then [] else [Line(line, false)])
  {
    var end := WriteAll(INITIAL, chunks);
    hide WriteAll, Records;
    RecordsAppend(journal, prefix, end.lines, if end.logger.line == [] then [] else [Line(end.logger.line, false)]);
  }

  lemma WriteNone(l: Logger)
    ensures WriteAll(l, []) == Step(l, [])
  {
  }

  /** The goroutine that writes what the guest puts out to the journal, up to its end. */
  method LogOutput(name: Bytes, journal: bool, chunks: seq<Bytes>) returns (out: seq<Bytes>)
    ensures out == Records(journal, name + [0x3A, 0x20], Log(chunks))
  {
    var l := new LineLogger(name, journal);
    l.NothingWritten();
    hide *;
    assert chunks[..0] == [];
    for i := 0 to |chunks|
      invariant l.HasWritten(chunks[..i])
    {
      l.WriteChunk(chunks[..i], chunks[i]);
      assert chunks[..i + 1] == chunks[..i] + [chunks[i]];
    }
    assert chunks[..|chunks|] == chunks;
    l.WriteEnd(chunks);
    out := l.out;
  }

  /** The guest's text without what is dropped. */
  function TextOf(chunks: seq<Bytes>): Bytes {
    Sanitized(Tokenize(false, false, Flatten(chunks)).tokens)
  }

  predicate IsGood(p: Page) {
    && IsLine(p.line)
    && (forall line | line in p.lines :: IsLine(line.text))
    && (forall k | 0 <= k < |p.lines| :: BreakIsNeeded(p, k))
  }

  lemma LogIsPage(chunks: seq<Bytes>) returns (p: Page)
    ensures Log(chunks) == Closed(p) && IsGood(p) && Joined(p.lines) + p.line == TextOf(chunks)
  {
    var s := Flatten(chunks);
    ChunksDoNotMatter(INITIAL, chunks);
    FeedAllIsReference(INITIAL, s);
    assert [] + s == s;
    var tokens := Tokenize(false, false, s).tokens;
    p := Layout([], tokens);
    TokensArePrinted(false, false, s);
    assert IsLine([]);
    hide Tokenize, Layout, IsLine, FeedAll, Joined, Sanitized;
    LayoutIsClean([], tokens);
    LayoutRejoins([], tokens);
    BreaksAreNeeded([], tokens);
    assert [] + Sanitized(tokens) == Sanitized(tokens);
  }

  /**
   However the guest's output comes, each line of the log is at most 1024 bytes of whole
   characters, none of them a control but the tab.
   */
  lemma LogIsClean(chunks: seq<Bytes>)
    ensures forall line | line in Log(chunks) :: IsLine(line.text)
  {
    var p := LogIsPage(chunks);
  }

  /** A line has no control but the tab. */
  lemma {:induction false} CleanHasNoControls(text: Bytes)
    requires IsClean(text)
    ensures forall b | b in text :: b == TAB || (b >= 0x20 && b != 0x7F)
    decreases |text|
  {
    if text != [] {
      var n := SequenceLength(text[0]);
      CleanHasNoControls(text[n..]);
      assert text == text[..n] + text[n..];
    }
  }

  /** A text with a newline at its end, unless it has one or is empty. */
  function Ended(text: Bytes): Bytes {
    if text == [] || text[|text| - 1] == NEWLINE then text else text + [NEWLINE]
  }

  lemma PageIsEnded(p: Page)
    requires IsGood(p)
    ensures Joined(Closed(p)) == Ended(Joined(p.lines) + p.line)
  {
    hide IsClean, DecodeRune;
    if p.line != [] {
      LastLineIsEnded(p);
    } else if p.lines != [] {
      var n := |p.lines| - 1;
      assert BreakIsNeeded(p, n);
      hide IsGood;
      JoinedAppend(p.lines[..n], [p.lines[n]]);
      JoinedOne(p.lines[n]);
      assert p.lines[..n] + [p.lines[n]] == p.lines;
      assert p.lines + [] == p.lines && Joined(p.lines) + [] == Joined(p.lines);
    }
  }

  lemma LastLineIsEnded(p: Page)
    requires IsGood(p) && p.line != []
    ensures Joined(Closed(p)) == Ended(Joined(p.lines) + p.line)
  {
    CleanHasNoControls(p.line);
    hide IsGood, Joined;
    JoinedAppend(p.lines, [Line(p.line, false)]);
    JoinedOne(Line(p.line, false));
    Regroup(Joined(p.lines), p.line, [NEWLINE]);
    assert p.line[|p.line| - 1] in p.line;
  }

  /** The log without its forced breaks is the guest's text without what is dropped. */
  lemma LogRejoins(chunks: seq<Bytes>)
    ensures Joined(Log(chunks)) == Ended(TextOf(chunks))
  {
    var p := LogIsPage(chunks);
    PageIsEnded(p);
  }

  /** A break is forced only where the next character does not fit. */
  lemma LogBreaksAreNeeded(chunks: seq<Bytes>, k: nat)
    requires k < |Log(chunks)| && Log(chunks)[k].forced
    ensures k + 1 < |Log(chunks)|
    ensures |Log(chunks)[k].text| + DecodeRune(Log(chunks)[k + 1].text).size > 1024
  {
    var p := LogIsPage(chunks);
    hide Log, IsLine, DecodeRune, Joined;
    assert k < |p.lines| && BreakIsNeeded(p, k);
  }

  /** The characters of a clean text. */
  function Runes(text: Bytes): seq<Token>
    requires IsClean(text)
    decreases |text|
  {
    if text == [] then []
    else
      var n := SequenceLength(text[0]);
      [Rune(text[..n])] + Runes(text[n..])
  }

  lemma FirstTokenizes(text: Bytes)
    requires IsClean(text) && text != []
    ensures var n := SequenceLength(text[0]);
      Tokenize(false, false, text) == Prepend([Rune(text[..n])], Tokenize(false, false, text[n..]))
  {
    var n := SequenceLength(text[0]);
    assert DecodeRune(text) == Decoded(Scalar(text[..n]), n);
    if n == 1 {
      assert text[..1] == [text[0]];
      assert Ascii(text[0]) == [Rune(text[..1])];
    } else {
      assert FullRune(text) by {
        DecodePrefix(text[..n], text[n..]);
        assert text[..n] + text[n..] == text;
      }
      assert Decode(DecodeRune(text), text[..n]) == [Rune(text[..n])];
    }
  }

  lemma {:induction false} TokenizeClean(text: Bytes)
    requires IsClean(text)
    ensures Tokenize(false, false, text) == Tokens(Runes(text), [], false, false)
    decreases |text|
  {
    if text != [] {
      var n := SequenceLength(text[0]);
      TokenizeClean(text[n..]);
      FirstTokenizes(text);
      hide Tokenize, Printed, SequenceLength;
      assert Runes(text) == [Rune(text[..n])] + Runes(text[n..]);
    }
  }

  lemma {:induction false} LayoutFits(line: Bytes, text: Bytes)
    requires IsClean(text) && |line| + |text| <= MAX_LOG_LINE
    ensures Layout(line, Runes(text)) == Page([], line + text)
    decreases |text|
  {
    if text != [] {
      var n := SequenceLength(text[0]);
      LayoutFits(line + text[..n], text[n..]);
      assert line + text[..n] + text[n..] == line + text;
      assert Runes(text)[1..] == Runes(text[n..]);
    } else {
      assert line + text == line;
    }
  }

  /** A line and a newline give the line again. */
  lemma LinePasses(text: Bytes)
    requires IsLine(text)
    ensures FeedAll(INITIAL, text + [NEWLINE]) == Step(INITIAL, [Line(text, false)])
  {
    FeedAllIsReference(INITIAL, text);
    assert [] + text == text;
    TokenizeClean(text);
    LayoutFits([], text);
    var l := Logger(text, [], false, false);
    hide Tokenize, Layout, FeedAll, IsClean;
    FeedSplit(INITIAL, text, [NEWLINE]);
    FeedOne(l, NEWLINE);
  }

  /** Lines as a console would show them. */
  function Shown(lines: seq<Line>): Bytes {
    if lines == [] then [] else lines[0].text + [NEWLINE] + Shown(lines[1..])
  }

  function Unforced(lines: seq<Line>): seq<Line> {
    seq(|lines|, k requires 0 <= k < |lines| => lines[k].(forced := false))
  }

  lemma {:induction false} LinesPass(lines: seq<Line>)
    requires forall line | line in lines :: IsLine(line.text)
    ensures FeedAll(INITIAL, Shown(lines)) == Step(INITIAL, Unforced(lines))
  {
    if lines != [] {
      LinePasses(lines[0].text);
      FeedSplit(INITIAL, lines[0].text + [NEWLINE], Shown(lines[1..]));
      LinesPass(lines[1..]);
      assert Unforced(lines) == [lines[0].(forced := false)] + Unforced(lines[1..]);
    }
  }

  /** Logging a log again changes nothing in it. */
  lemma LoggingTwice(chunks: seq<Bytes>)
    ensures FeedAll(INITIAL, Shown(Log(chunks))) == Step(INITIAL, Unforced(Log(chunks)))
  {
    LogIsClean(chunks);
    LinesPass(Log(chunks));
  }

  /** What the guest writes cannot end a record or start another: its newline is its last byte. */
  lemma RecordIsOneLine(journal: bool, prefix: Bytes, text: Bytes)
    requires IsLine(text) && NEWLINE !in prefix
    ensures var r := Record(journal, prefix, text);
      && r[|r| - 1] == NEWLINE && NEWLINE !in r[..|r| - 1]
      && (if journal then [0x3C, 0x37, 0x3E] else []) + prefix <= r
  {
    CleanHasNoControls(text);
    var level := if journal then [0x3C, 0x37, 0x3E] else [];
    var r := Record(journal, prefix, text);
    assert r[..|r| - 1] == level + prefix + text;
  }
}
