/**
 The client of a guest's management console (tools/internal/mconsole/mconsole.go), which
 sends one request to the relay and puts the text of the reply's packets together.
 */
module Mconsole {
  import opened Sequences
  import opened Utf8
  import opened Words
  import Relay

  const MAX_DATA: nat := 512
  const HEADER: nat := 12
  const MAX_REPLY: nat := 0x10_0000
  /** The size of the buffer that a packet is read into. */
  const BUFFER: nat := 524

  datatype Error =
    | CommandTooLong
    | ReadFailed
    | ShortReply
    | ReplyTooLong
    /** The guest's or the relay's own message. */
    | Refused(message: Bytes)

  datatype Reply = Text(text: Bytes) | Failed(error: Error)

  function BuildRequest(cmd: Bytes): Bytes
    requires |cmd| < MAX_DATA
  {
    Header(Relay.MAGIC, Relay.VERSION, |cmd|, cmd)
  }

  /** Every request that the client builds is one that the relay passes on whole. */
  lemma RelayTakesRequests(cmd: Bytes)
    requires |cmd| < 512
    ensures var p := BuildRequest(cmd);
      && Relay.IsRequest(p) && Relay.ValidRequest(p) && Relay.Received(p) == p
      && |p| == 12 + |cmd| && Get(p, 8) == |cmd| && p[12..] == cmd
  {
    HeaderWords(Relay.MAGIC, Relay.VERSION, |cmd|, cmd);
  }

  /** bytes.TrimRight of NULs. */
  function TrimNuls(s: Bytes): (r: Bytes)
    ensures r <= s
    decreases |s|
  {
    if s != [] && s[|s| - 1] == 0 then TrimNuls(s[..|s| - 1]) else s
  }

  /** The bytes that bytes.TrimSpace removes, of the ASCII ones. */
  predicate IsSpace(b: Byte) {
    b == 0x20 || 0x09 <= b <= 0x0D
  }

  function Buffered(p: Bytes): Bytes {
    if |p| <= BUFFER then p else p[..BUFFER]
  }

  /** The text of one packet: its data up to the length it gives, without the NULs at its end. */
  function Chunk(p: Bytes): Bytes
    requires |p| >= HEADER
  {
    var end := if HEADER + Get(p, 8) < |p| then HEADER + Get(p, 8) else |p|;
    TrimNuls(p[HEADER..end])
  }

  /**
   The loop over the replies. A read fails when no packet comes before the deadline, here
   when the packets run out.
   */
  function Collect(packets: seq<Bytes>, first: bool, replyErr: Word32, out: Bytes): Reply
    decreases |packets|
  {
    if packets == [] then Failed(ReadFailed)
    else
      var p := Buffered(packets[0]);
      if |p| < HEADER then Failed(ShortReply)
      else
        var err := if first then Get(p, 0) else replyErr;
        var out' := out + Chunk(p);
        if |out'| > MAX_REPLY then Failed(ReplyTooLong)
        else if Get(p, 4) != 0 then Collect(packets[1..], false, err, out')
        else Final(err, out')
  }

  function Final(err: Word32, out: Bytes): Reply {
    if err != 0 then Failed(Refused(Trim(out, IsSpace))) else Text(out)
  }

  /** Request, with the packets that arrive and the outcome of the write. */
  method Request(cmd: Bytes, packets: seq<Bytes>) returns (sent: seq<Bytes>, r: Reply)
    ensures |cmd| >= 512 ==> sent == [] && r == Failed(CommandTooLong)
    ensures |cmd| < 512 ==>
      sent == [BuildRequest(cmd)] && r == Collect(packets, true, 0, [])
  {
    if |cmd| >= MAX_DATA {
      return [], Failed(CommandTooLong);
    }
    sent := [BuildRequest(cmd)];
    var out: Bytes := [];
    var replyErr: Word32 := 0;
    var first, i, more := true, 0, true;
    while more
      invariant i <= |packets|
      invariant more ==>
        Collect(packets, true, 0, []) == Collect(packets[i..], first, replyErr, out)
      invariant !more ==> Collect(packets, true, 0, []) == Final(replyErr, out)
      decreases |packets| - i, more
    {
      if i == |packets| {
        return sent, Failed(ReadFailed);
      }
      assert packets[i..][1..] == packets[i + 1..];
      var p := Buffered(packets[i]);
      if |p| < HEADER {
        return sent, Failed(ShortReply);
      }
      if first {
        replyErr := Get(p, 0);
      }
      out := out + Chunk(p);
      if |out| > MAX_REPLY {
        return sent, Failed(ReplyTooLong);
      }
      more := Get(p, 4) != 0;
      first := false;
      i := i + 1;
    }
    r := Final(replyErr, out);
  }

  // Replies split into chunks.

  /** A chunk of text that fits in a packet with its NUL. */
  predicate Fits(text: Bytes) {
    |text| < MAX_DATA
  }

  /** The packet that carries a chunk of a reply. */
  function ChunkPacket(err: Word32, more: bool, text: Bytes): Bytes
    requires Fits(text)
  {
    Header(err, if more then 1 else 0, |text| + 1, text + [0])
  }

  /** The guest's packets for some chunks of text: all but the last say that more follow. */
  function Packets(err: Word32, chunks: seq<Bytes>): seq<Bytes>
    requires forall c | c in chunks :: Fits(c)
    decreases |chunks|
  {
    if chunks == [] then []
    else [ChunkPacket(err, |chunks| > 1, chunks[0])] + Packets(err, chunks[1..])
  }

  function Trimmed(chunks: seq<Bytes>): Bytes
    decreases |chunks|
  {
    if chunks == [] then [] else TrimNuls(chunks[0]) + Trimmed(chunks[1..])
  }

  lemma ChunkOfPacket(err: Word32, more: bool, text: Bytes)
    requires Fits(text)
    ensures var p := ChunkPacket(err, more, text);
      && Buffered(p) == p && Get(p, 0) == err && (Get(p, 4) != 0 <==> more)
      && Chunk(p) == TrimNuls(text)
  {
    var p := ChunkPacket(err, more, text);
    HeaderWords(err, if more then 1 else 0, |text| + 1, text + [0]);
    assert p[HEADER..|p|] == text + [0];
    assert (text + [0])[..|text|] == text;
  }

  lemma CollectStep(err: Word32, more: bool, text: Bytes, rest: seq<Bytes>, first: bool,
                    replyErr: Word32, out: Bytes)
    requires Fits(text) && (first || replyErr == err)
    ensures var out' := out + TrimNuls(text);
      Collect([ChunkPacket(err, more, text)] + rest, first, replyErr, out)
      == if |out'| > MAX_REPLY then Failed(ReplyTooLong)
         else if more then Collect(rest, false, err, out')
         else Final(err, out')
  {
    ChunkOfPacket(err, more, text);
    var packets := [ChunkPacket(err, more, text)] + rest;
    assert packets[1..] == rest;
  }

  lemma {:induction false} CollectJoins(err: Word32, chunks: seq<Bytes>, first: bool,
                                        replyErr: Word32, out: Bytes)
    requires chunks != [] && forall c | c in chunks :: Fits(c)
    requires first || replyErr == err
    ensures Collect(Packets(err, chunks), first, replyErr, out)
      == if |out + Trimmed(chunks)| > MAX_REPLY then Failed(ReplyTooLong)
         else Final(err, out + Trimmed(chunks))
    decreases |chunks|
  {
    hide *;
    var out' := out + TrimNuls(chunks[0]);
    assert Fits(chunks[0]);
    PacketsFirst(err, chunks);
    CollectStep(err, |chunks| > 1, chunks[0], Packets(err, chunks[1..]), first, replyErr, out);
    TrimmedFirst(chunks);
    Regroup(out, TrimNuls(chunks[0]), Trimmed(chunks[1..]));
    if |chunks| > 1 {
      if |out'| <= MAX_REPLY {
        CollectJoins(err, chunks[1..], false, err, out');
      }
    } else {
      assert out' + Trimmed(chunks[1..]) == out';
    }
  }

  lemma PacketsFirst(err: Word32, chunks: seq<Bytes>)
    requires chunks != [] && forall c | c in chunks :: Fits(c)
    ensures Packets(err, chunks) == [ChunkPacket(err, |chunks| > 1, chunks[0])] + Packets(err, chunks[1..])
  {
  }

  lemma TrimmedFirst(chunks: seq<Bytes>)
    requires chunks != []
    ensures Trimmed(chunks) == TrimNuls(chunks[0]) + Trimmed(chunks[1..])
    ensures |chunks| == 1 ==> Trimmed(chunks[1..]) == []
  {
  }

  lemma TrimNulsKeeps(s: Bytes)
    ensures TrimNuls(s) == s <==> s == [] || s[|s| - 1] != 0
    ensures TrimNuls(s) != s ==> |TrimNuls(s)| < |s|
  {
  }

  predicate NoNulAtEnd(chunks: seq<Bytes>) {
    forall c | c in chunks :: c != [] ==> c[|c| - 1] != 0
  }

  lemma {:induction false} TrimmedIsFlat(chunks: seq<Bytes>)
    ensures Trimmed(chunks) == Flatten(chunks) <==> NoNulAtEnd(chunks)
    ensures |Trimmed(chunks)| <= |Flatten(chunks)|
    ensures !NoNulAtEnd(chunks) ==> |Trimmed(chunks)| < |Flatten(chunks)|
    decreases |chunks|
  {
    if chunks != [] {
      TrimNulsKeeps(chunks[0]);
      TrimmedIsFlat(chunks[1..]);
      assert NoNulAtEnd(chunks) <==> NoNulAtEnd([chunks[0]]) && NoNulAtEnd(chunks[1..]) by {
        assert chunks == [chunks[0]] + chunks[1..];
      }
      assert NoNulAtEnd([chunks[0]]) <==> TrimNuls(chunks[0]) == chunks[0] by {
        assert chunks[0] in [chunks[0]];
      }
    }
  }

  /**
   However a reply within the limit is split, the client gets its text, or an error with its
   text, exactly if no chunk ends in a NUL.
   */
  lemma RepliesJoin(err: Word32, chunks: seq<Bytes>)
    requires chunks != [] && forall c | c in chunks :: Fits(c)
    requires |Flatten(chunks)| <= 1_048_576
    ensures NoNulAtEnd(chunks) ==>
      Collect(Packets(err, chunks), true, 0, []) == Final(err, Flatten(chunks))
    ensures err == 0 ==>
      (Collect(Packets(err, chunks), true, 0, []) == Text(Flatten(chunks)) <==> NoNulAtEnd(chunks))
  {
    CollectJoins(err, chunks, true, 0, []);
    TrimmedIsFlat(chunks);
    assert [] + Trimmed(chunks) == Trimmed(chunks);
  }

  /**
   A reply is too long exactly if its text, without the NULs at the ends of its chunks, is over
   the limit, whatever its split.
   */
  lemma LongReplyFails(err: Word32, chunks: seq<Bytes>)
    requires chunks != [] && forall c | c in chunks :: Fits(c)
    ensures Collect(Packets(err, chunks), true, 0, []) == Failed(ReplyTooLong) <==> |Trimmed(chunks)| > 1_048_576
    ensures NoNulAtEnd(chunks) <==> Trimmed(chunks) == Flatten(chunks)
  {
    CollectJoins(err, chunks, true, 0, []);
    TrimmedIsFlat(chunks);
    assert [] + Trimmed(chunks) == Trimmed(chunks);
  }

  /**
   The text of any packet is its data, as far as its length says, it goes and the buffer holds,
   without the NULs at the end.
   */
  lemma ChunkExactly(p: Bytes)
    requires |p| >= 12
    ensures var room := if |p| <= 524 then |p| else 524;
      var end := if 12 + Get(p, 8) < room then 12 + Get(p, 8) else room;
      var text := Chunk(Buffered(p));
      && text <= p[12..end] && (text != [] ==> text[|text| - 1] != 0)
      && forall i | 12 + |text| <= i < end :: p[i] == 0
  {
    var room := if |p| <= 524 then |p| else 524;
    var end := if 12 + Get(p, 8) < room then 12 + Get(p, 8) else room;
    ChunkIsTrimmed(p);
    hide Chunk, Buffered, TrimNuls, Get;
    SliceOfPrefix(p, room, 12, end);
    TrimNulsExactly(p[12..end]);
    var text := TrimNuls(p[12..end]);
    forall i | 12 + |text| <= i < end
      ensures p[i] == 0
    {
      assert p[12..end][i - 12] == p[i];
    }
  }

  lemma ChunkIsTrimmed(p: Bytes)
    requires |p| >= 12
    ensures var room := if |p| <= 524 then |p| else 524;
      var end := if 12 + Get(p, 8) < room then 12 + Get(p, 8) else room;
      Chunk(Buffered(p)) == TrimNuls(p[..room][12..end])
  {
    hide TrimNuls;
    assert p[..|p|] == p;
  }

  lemma {:induction false} TrimNulsExactly(s: Bytes)
    ensures TrimNuls(s) != [] ==> TrimNuls(s)[|TrimNuls(s)| - 1] != 0
    ensures forall i | |TrimNuls(s)| <= i < |s| :: s[i] == 0
    decreases |s|
  {
    if s != [] && s[|s| - 1] == 0 {
      TrimNulsExactly(s[..|s| - 1]);
    }
  }

  /** The guest's packets for some chunks of text that have more to follow. */
  function Unfinished(err: Word32, chunks: seq<Bytes>): seq<Bytes>
    requires forall c | c in chunks :: Fits(c)
  {
    if chunks == [] then [] else [ChunkPacket(err, true, chunks[0])] + Unfinished(err, chunks[1..])
  }

  /**
   A reply that breaks off fails as a read does, and one with a packet that has no header is
   short, unless it is too long before that.
   */
  lemma {:induction false} BrokenReplyFails(err: Word32, chunks: seq<Bytes>, rest: seq<Bytes>, first: bool,
                                            replyErr: Word32, out: Bytes)
    requires (forall c | c in chunks :: Fits(c)) && (rest == [] || |rest[0]| < 12) && |out| <= 1_048_576
    ensures Collect(Unfinished(err, chunks) + rest, first, replyErr, out)
      == Failed(if |out + Trimmed(chunks)| > 1_048_576 then ReplyTooLong
                else if rest == [] then ReadFailed
                else ShortReply)
      || (!first && replyErr != err)
    decreases |chunks|
  {
    if first || replyErr == err {
      if chunks == [] {
        assert Unfinished(err, chunks) + rest == rest && out + Trimmed(chunks) == out;
      } else {
        var more := Unfinished(err, chunks[1..]) + rest;
        var next := out + TrimNuls(chunks[0]);
        assert Fits(chunks[0]);
        assert Unfinished(err, chunks) + rest == [ChunkPacket(err, true, chunks[0])] + more;
        CollectStep(err, true, chunks[0], more, first, replyErr, out);
        TrimmedFirst(chunks);
        hide Collect, Trimmed, TrimNuls, ChunkPacket, Unfinished;
        Regroup(out, TrimNuls(chunks[0]), Trimmed(chunks[1..]));
        if |next| <= 1_048_576 {
          BrokenReplyFails(err, chunks[1..], rest, false, err, next);
        }
      }
    }
  }

  /** The first packet alone says whether the reply is an error. */
  lemma FirstErrorDecides(err: Word32, other: Word32, a: Bytes, b: Bytes)
    requires Fits(a) && Fits(b)
    ensures Collect([ChunkPacket(err, true, a), ChunkPacket(other, false, b)], true, 0, [])
      == Final(err, TrimNuls(a) + TrimNuls(b))
  {
    var p, q := ChunkPacket(err, true, a), ChunkPacket(other, false, b);
    ChunkOfPacket(err, true, a);
    ChunkOfPacket(other, false, b);
    hide ChunkPacket, TrimNuls, Chunk, Buffered, Final;
    assert [p, q][1..] == [q];
    assert [] + TrimNuls(a) == TrimNuls(a);
  }

  /** Spaces, tabs and line ends around an error's message are no part of it. */
  lemma SpaceIsTrimmed(err: Word32, out: Bytes, b: Byte)
    requires err != 0 && (b == 32 || 9 <= b <= 13)
    ensures Final(err, [b] + out) == Final(err, out) == Final(err, out + [b])
  {
    TrimAtEnds(out, IsSpace, b);
  }

  /** Two ways to split one text give the client the same. */
  lemma SplitDoesNotMatter(err: Word32, chunks: seq<Bytes>, others: seq<Bytes>)
    requires chunks != [] && (forall c | c in chunks :: Fits(c)) && NoNulAtEnd(chunks)
    requires others != [] && (forall c | c in others :: Fits(c)) && NoNulAtEnd(others)
    requires Flatten(chunks) == Flatten(others)
    ensures Collect(Packets(err, chunks), true, 0, []) == Collect(Packets(err, others), true, 0, [])
  {
    CollectJoins(err, chunks, true, 0, []);
    CollectJoins(err, others, true, 0, []);
    TrimmedIsFlat(chunks);
    TrimmedIsFlat(others);
  }

  /** The relay's own errors reach the caller as errors with the relay's message. */
  lemma RelayErrorsReachCaller(reason: Relay.Reason)
    ensures Collect([Relay.ErrorReply(Relay.Text(reason))], true, 0, [])
      == Failed(Refused(Relay.Ascii(
          if reason.BadRequest? then "The launcher relays only version 2 requests"
          else "The guest's mconsole is not available")))
  {
    var text := Relay.Text(reason);
    ReasonIsText(reason);
    hide Relay.Text, Collect, TrimNuls;
    var p := ChunkPacket(1, false, text);
    CollectStep(1, false, text, [], true, 0, []);
    assert [p] + [] == [Relay.ErrorReply(text)];
    assert [] + TrimNuls(text) == text;
    ReasonIsTrimmed(reason);
  }

  /** A text that starts and ends in a letter has nothing to trim. */
  lemma LettersStay(s: string)
    requires 0 < |s| < 512 && 'A' <= s[0] <= 'z' && 'A' <= s[|s| - 1] <= 'z'
    ensures var text := Relay.Ascii(s); Trim(text, IsSpace) == text && TrimNuls(text) == text && Fits(text)
  {
    var text := Relay.Ascii(s);
    assert text[0] == s[0] as int && text[|text| - 1] == s[|s| - 1] as int;
    TrimNulsKeeps(text);
    hide Relay.Ascii, TrimNuls;
  }

  lemma ReasonIsTrimmed(reason: Relay.Reason)
    ensures Trim(Relay.Text(reason), IsSpace) == Relay.Text(reason)
    ensures Relay.Text(reason) == Relay.Ascii(
        if reason.BadRequest? then "The launcher relays only version 2 requests"
        else "The guest's mconsole is not available")
  {
    match reason
    case BadRequest => LettersStay("The launcher relays only version 2 requests");
    case NoGuest => LettersStay("The guest's mconsole is not available");
  }

  lemma ReasonIsText(reason: Relay.Reason)
    ensures var text := Relay.Text(reason); Fits(text) && |text| <= MAX_REPLY && TrimNuls(text) == text
  {
    match reason
    case BadRequest => LettersStay("The launcher relays only version 2 requests");
    case NoGuest => LettersStay("The guest's mconsole is not available");
  }
}
