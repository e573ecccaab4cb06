/**
 The terminal that receives the filter's output: a UTF-8 terminal with the escape and
 control sequences of sections 5.4 and 5.6 of ECMA-48 (fifth edition), and what the
 filter's comments say of terminals: a C0 control runs inside an escape, DEL is ignored
 there, CAN and SUB end it, and ESC k opens a title string. Where terminals differ the
 step is a relation that allows each behaviour.
 */
module Terminal {
  import opened Sequences
  import opened Utf8
  import ConsoleFilter

  datatype Mode = Ground | Escape | Intermediate | Csi | ControlString

  /** What the terminal reads: characters, and any byte that starts none as itself. */
  function Characters(s: Bytes): seq<int>
    decreases |s|
  {
    if s == [] then []
    else
      var n := SequenceLength(s[0]);
      if 0 < n <= |s| && WellFormed(s[..n]) then [Scalar(s[..n])] + Characters(s[n..])
      else [s[0] as int] + Characters(s[1..])
  }

  predicate IsC1(c: int) {
    0x80 <= c <= 0x9F
  }

  function C1Mode(c: int): Mode
    requires IsC1(c)
  {
    if c in {0x90, 0x98, 0x9D, 0x9E, 0x9F} then ControlString
    else if c == 0x9B then Csi
    else Ground
  }

  /** The mode after ESC and a character of the ASCII range that is not a control. */
  function EscapeMode(c: int): Mode
    requires 0x20 <= c < 0x7F
  {
    if c <= 0x2F then Intermediate
    else if c in {0x50, 0x58, 0x5D, 0x5E, 0x5F, 0x6B} then ControlString
    else if c == 0x5B then Csi
    else Ground
  }

  predicate Next(m: Mode, c: int, m': Mode) {
    if c == 0x1B then m' == Escape
    else if c == 0x18 || c == 0x1A then m' == Ground
    else if c < 0x20 then
      // BEL ends a string in most terminals.
      m' == m || (m == ControlString && c == 0x07 && m' == Ground)
    else if IsC1(c) then m' == C1Mode(c)
    else if m == ControlString then m' == ControlString
    else if c == 0x7F then m' == m
    else if c >= 0xA0 then
      // Text in ground. Inside a sequence it may end it or not.
      m' == m || m' == Ground
    else
      match m
      case Ground => m' == Ground
      case Escape => m' == EscapeMode(c)
      case Intermediate => m' == if c <= 0x2F then Intermediate else Ground
      case Csi => m' == if c <= 0x3F then Csi else Ground
  }

  ghost predicate Run(modes: seq<Mode>, cs: seq<int>) {
    && |modes| == |cs| + 1
    && forall i | 0 <= i < |cs| :: Next(modes[i], cs[i], modes[i + 1])
  }

  ghost predicate Safe(modes: seq<Mode>) {
    forall m | m in modes :: m != ControlString
  }

  predicate NoC1(cs: seq<int>) {
    forall c | c in cs :: !IsC1(c)
  }

  /** The modes between the units of the filter's output. */
  predicate Between(m: Mode) {
    m != ControlString && m != Escape
  }

  lemma CharactersOfCharacter(u: Bytes, s: Bytes)
    requires WellFormed(u)
    ensures Characters(u + s) == [Scalar(u)] + Characters(s)
  {
    assert (u + s)[..|u|] == u;
    assert (u + s)[|u|..] == s;
  }

  /** The terminal reads a unit as one or two characters, none of them a C1 control. */
  lemma CharactersOfUnit(u: Bytes, s: Bytes)
    requires ConsoleFilter.Unit(u)
    ensures Characters(u + s) == Characters(u) + Characters(s)
    ensures Characters(u) == if u[0] < 0x80 then u else [Scalar(u)]
  {
    assert u + [] == u;
    if u[0] == 0x1B {
      assert u == [0x1B] + [u[1]];
      assert u + s == [0x1B] + ([u[1]] + s);
      CharactersOfCharacter([0x1B], [u[1]] + s);
      CharactersOfCharacter([u[1]], s);
      CharactersOfCharacter([0x1B], [u[1]]);
      assert [u[1]] + [] == [u[1]];
      CharactersOfCharacter([u[1]], []);
      assert [0x1B] + ([u[1] as int] + Characters(s)) == [0x1B, u[1] as int] + Characters(s);
    } else {
      CharactersOfCharacter(u, s);
      CharactersOfCharacter(u, []);
    }
  }

  lemma UnitIsSafe(u: Bytes, modes: seq<Mode>)
    requires ConsoleFilter.Unit(u)
    requires Run(modes, Characters(u)) && Between(modes[0])
    ensures NoC1(Characters(u))
    ensures Safe(modes) && Between(modes[|modes| - 1])
  {
    CharactersOfUnit(u, []);
    if u[0] < 0x80 {
      assert Next(modes[0], u[0], modes[1]);
      if u[0] == 0x1B {
        assert Next(modes[1], u[1], modes[2]);
      }
    } else {
      assert Next(modes[0], Scalar(u), modes[1]);
    }
  }

  lemma RunSplit(modes: seq<Mode>, a: seq<int>, b: seq<int>)
    requires Run(modes, a + b)
    ensures Run(modes[..|a| + 1], a) && Run(modes[|a|..], b)
    ensures Safe(modes[..|a| + 1]) && Safe(modes[|a|..]) ==> Safe(modes)
  {
    forall i | 0 <= i < |a|
      ensures Next(modes[..|a| + 1][i], a[i], modes[..|a| + 1][i + 1])
    {
      assert (a + b)[i] == a[i];
    }
    forall i | 0 <= i < |b|
      ensures Next(modes[|a|..][i], b[i], modes[|a|..][i + 1])
    {
      assert (a + b)[|a| + i] == b[i];
    }
    assert modes == modes[..|a|] + modes[|a|..];
    assert forall m | m in modes[..|a|] :: m in modes[..|a| + 1];
  }

  lemma {:induction false} UnitsAreSafe(us: seq<Bytes>, modes: seq<Mode>)
    requires ConsoleFilter.Units(us)
    requires Run(modes, Characters(Flatten(us))) && Between(modes[0])
    ensures NoC1(Characters(Flatten(us)))
    ensures Safe(modes) && Between(modes[|modes| - 1])
  {
    if us != [] {
      var first, rest := Characters(us[0]), Characters(Flatten(us[1..]));
      assert ConsoleFilter.Unit(us[0]);
      CharactersOfUnit(us[0], Flatten(us[1..]));
      RunSplit(modes, first, rest);
      UnitIsSafe(us[0], modes[..|first| + 1]);
      UnitsAreSafe(us[1..], modes[|first|..]);
    } else {
      assert modes == [modes[0]];
    }
  }

  /**
   Whatever the guest writes, in whatever pieces, no terminal that starts in ground reads
   a C1 control or enters a control string at any point of the filter's output.
   */
  lemma TerminalIsSafe(chunks: seq<Bytes>, modes: seq<Mode>)
    requires var out := ConsoleFilter.WriteAll(ConsoleFilter.INITIAL, chunks).out;
      Run(modes, Characters(out)) && modes[0] == Ground
    ensures NoC1(Characters(ConsoleFilter.WriteAll(ConsoleFilter.INITIAL, chunks).out))
    ensures Safe(modes)
  {
    var out := ConsoleFilter.WriteAll(ConsoleFilter.INITIAL, chunks).out;
    ConsoleFilter.ChunksDoNotMatter(ConsoleFilter.INITIAL, chunks);
    ConsoleFilter.WriteClean(ConsoleFilter.INITIAL, Flatten(chunks));
    var us: seq<Bytes> :| ConsoleFilter.Units(us) && Flatten(us) == out;
    UnitsAreSafe(us, modes);
  }

  /** Some terminal run exists on every input, so the lemma above speaks of real runs. */
  lemma {:induction false} RunExists(m: Mode, cs: seq<int>) returns (modes: seq<Mode>)
    ensures Run(modes, cs) && modes[0] == m
    decreases |cs|
  {
    if cs == [] {
      modes := [m];
    } else {
      var m': Mode :| Next(m, cs[0], m');
      var rest := RunExists(m', cs[1..]);
      modes := [m] + rest;
    }
  }

  /** Without the filter, every introducer that it erases puts the terminal in a string. */
  lemma UnfilteredIsNotSafe(introducer: Bytes, modes: seq<Mode>)
    requires ConsoleFilter.Introducer(introducer)
    requires Run(modes, Characters(introducer)) && modes[0] == Ground
    ensures !Safe(modes)
  {
    var s := introducer;
    if s[0] == 0x1B {
      assert s == [0x1B] + [s[1]];
      CharactersOfCharacter([0x1B], [s[1]]);
      assert [s[1]] + [] == [s[1]];
      CharactersOfCharacter([s[1]], []);
      assert Characters(s) == [0x1B, s[1] as int];
      assert Next(modes[0], 0x1B, modes[1]) && Next(modes[1], s[1], modes[2]);
      assert modes[2] in modes;
    } else if |s| == 2 {
      assert s + [] == s;
      CharactersOfCharacter(s, []);
      assert Characters(s) == [s[1] as int];
      assert Next(modes[0], s[1], modes[1]);
      assert modes[1] in modes;
    } else {
      assert Characters(s[1..]) == [];
      assert Characters(s) == [s[0] as int];
      assert Next(modes[0], s[0], modes[1]);
      assert modes[1] in modes;
    }
  }

  /** An operating system command that sets a title, the U+00DC and an x, up to BEL. */
  const TITLE: Bytes := [0x1B, 0x5D, 0xC3, 0x9C, 0x78, 0x07]

  lemma TitleIsRead()
    ensures Characters(TITLE) == [0x1B, 0x5D, 0xDC, 0x78, 0x07]
  {
    CharactersOfCharacter([0x1B], TITLE[1..]);
    CharactersOfCharacter([0x5D], TITLE[2..]);
    CharactersOfCharacter([0xC3, 0x9C], TITLE[4..]);
    CharactersOfCharacter([0x78], TITLE[5..]);
    CharactersOfCharacter([0x07], []);
    assert TITLE == [0x1B] + TITLE[1..] && TITLE[1..] == [0x5D] + TITLE[2..];
    assert TITLE[2..] == [0xC3, 0x9C] + TITLE[4..];
    assert TITLE[4..] == [0x78] + TITLE[5..] && TITLE[5..] == [0x07] + [];
    assert Characters([]) == [];
  }

  /**
   Not every control string goes without a trace. The terminal reads the title as one string up
   to its BEL, but the filter ends it within the U+00DC, so the x and the BEL pass.
   */
  lemma TitleIsShown(modes: seq<Mode>)
    requires Run(modes, Characters(TITLE)) && modes[0] == Ground
    ensures |modes| == 6 && modes[2] == modes[3] == modes[4] == ControlString
    ensures ConsoleFilter.FeedAll(ConsoleFilter.INITIAL, TITLE).out == [0x78, 0x07]
  {
    TitleIsRead();
    TitlePasses();
    hide ConsoleFilter.FeedAll;
    assert Next(modes[0], 0x1B, modes[1]) && Next(modes[1], 0x5D, modes[2]);
    assert Next(modes[2], 0xDC, modes[3]) && Next(modes[3], 0x78, modes[4]);
  }

  lemma TitlePasses()
    ensures ConsoleFilter.FeedAll(ConsoleFilter.INITIAL, TITLE).out == [0x78, 0x07]
  {
    ConsoleFilter.StringEndsAtST([0x1B, 0x5D], [0xC3], [0x78, 0x07]);
    assert TITLE == [0x1B, 0x5D] + [0xC3] + [0x9C] + [0x78, 0x07];
    TailPasses();
    hide ConsoleFilter.FeedAll, ConsoleFilter.Scan;
  }

  lemma TailPasses()
    ensures ConsoleFilter.Scan(ConsoleFilter.Text, [0x78, 0x07]).out == [0x78, 0x07]
  {
    FlattenOne<Byte>([0x07]);
    assert Flatten<Byte>([[0x78], [0x07]]) == [0x78, 0x07];
    hide ConsoleFilter.FeedAll, ConsoleFilter.Scan;
    ConsoleFilter.UnitsPass([[0x78], [0x07]]);
    ConsoleFilter.FeedAllIsScan(ConsoleFilter.INITIAL, [0x78, 0x07]);
  }

  // The output as text.

  predicate AllWellFormed(us: seq<Bytes>) {
    forall u | u in us :: WellFormed(u)
  }

  ghost predicate IsUtf8(s: Bytes) {
    exists us: seq<Bytes> :: AllWellFormed(us) && Flatten(us) == s
  }

  /** A unit is one character, or an ESC and another. */
  lemma UnitIsUtf8(u: Bytes) returns (parts: seq<Bytes>)
    requires ConsoleFilter.Unit(u)
    ensures AllWellFormed(parts) && Flatten(parts) == u
  {
    if u[0] == 0x1B {
      parts := [[u[0]], [u[1]]];
      FlattenOne([u[1]]);
      assert parts[1..] == [[u[1]]];
      assert [u[0]] + [u[1]] == u;
    } else {
      parts := [u];
      FlattenOne(u);
    }
  }

  lemma {:induction false} UnitsAreUtf8(us: seq<Bytes>)
    requires ConsoleFilter.Units(us)
    ensures IsUtf8(Flatten(us))
  {
    if us == [] {
      var none: seq<Bytes> := [];
      assert AllWellFormed(none) && Flatten(none) == Flatten(us);
    } else {
      UnitsAreUtf8(us[1..]);
      assert ConsoleFilter.Unit(us[0]);
      hide ConsoleFilter.Unit, WellFormed;
      var vs: seq<Bytes> :| AllWellFormed(vs) && Flatten(vs) == Flatten(us[1..]);
      var parts := UnitIsUtf8(us[0]);
      FlattenAppend(parts, vs);
      assert AllWellFormed(parts + vs) && Flatten(parts + vs) == Flatten(us);
    }
  }

  /** What each write gives is well-formed UTF-8 (section 4 of RFC 3629) on its own. */
  lemma WritesAreUtf8(chunks: seq<Bytes>, p: Bytes)
    ensures IsUtf8(ConsoleFilter.FeedAll(
        ConsoleFilter.WriteAll(ConsoleFilter.INITIAL, chunks).filter, p).out)
  {
    ConsoleFilter.ChunksDoNotMatter(ConsoleFilter.INITIAL, chunks);
    ConsoleFilter.FeedAllValid(ConsoleFilter.INITIAL, Flatten(chunks));
    var f := ConsoleFilter.WriteAll(ConsoleFilter.INITIAL, chunks).filter;
    ConsoleFilter.WriteClean(f, p);
    var us: seq<Bytes> :| ConsoleFilter.Units(us)
      && Flatten(us) == ConsoleFilter.FeedAll(f, p).out;
    UnitsAreUtf8(us);
  }
}
