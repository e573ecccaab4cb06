/** 32-bit words in memory, on a little-endian machine. */
module Words {
  import opened Utf8

  type Word32 = w: int | 0 <= w < 0x1_0000_0000

  function Put(w: Word32): (s: Bytes)
    ensures |s| == 4
  {
    [w % 0x100, w / 0x100 % 0x100, w / 0x1_0000 % 0x100, w / 0x100_0000]
  }

  function Get(s: Bytes, at: nat): Word32
    requires at + 4 <= |s|
  {
    s[at] as int + s[at + 1] as int * 0x100 + s[at + 2] as int * 0x1_0000
    + s[at + 3] as int * 0x100_0000
  }

  lemma LittleEndian(a: Byte, b: Byte, c: Byte, d: Byte)
    ensures Get([a, b, c, d], 0) == a as int + 256 * b as int + 65536 * c as int + 16777216 * d as int
  {
  }

  lemma GetPut(before: Bytes, w: Word32, after: Bytes)
    ensures Get(before + Put(w) + after, |before|) == w
  {
    var s := before + Put(w) + after;
    BytesOf(w);
    hide Put;
    assert s[|before|..|before| + 4] == Put(w);
    assert forall i | 0 <= i < 4 :: s[|before| + i] == Put(w)[i];
  }

  lemma BytesOf(w: Word32)
    ensures Get(Put(w), 0) == w
  {
    var high := w / 0x100;
    assert high == w / 0x1_0000 * 0x100 + high % 0x100;
    assert w / 0x1_0000 == w / 0x100_0000 * 0x100 + w / 0x1_0000 % 0x100;
  }

  /** A header of three words before some data. */
  function Header(a: Word32, b: Word32, c: Word32, data: Bytes): (s: Bytes)
    ensures |s| == 12 + |data|
  {
    Put(a) + Put(b) + Put(c) + data
  }

  lemma HeaderWords(a: Word32, b: Word32, c: Word32, data: Bytes)
    ensures var s := Header(a, b, c, data);
      Get(s, 0) == a && Get(s, 4) == b && Get(s, 8) == c && s[12..] == data
  {
    var s := Header(a, b, c, data);
    GetPut([], a, Put(b) + Put(c) + data);
    assert s == [] + Put(a) + (Put(b) + Put(c) + data);
    GetPut(Put(a), b, Put(c) + data);
    assert s == Put(a) + Put(b) + (Put(c) + data);
    GetPut(Put(a) + Put(b), c, data);
  }
}
