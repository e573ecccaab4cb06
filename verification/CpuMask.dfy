/**
 CPU masks and CPU lists (tools/internal/harness/cpu.go). A mask is a list of 64-bit words, and
 the CPUs that it has are what its texts are compared by.
 */
module CpuMask {
  import opened Sequences
  import opened Wrappers

  const TWO32: nat := 0x1_0000_0000
  const TWO64: nat := 0x1_0000_0000_0000_0000

  type Word = w: nat | w < TWO64
  type Mask = seq<Word>

  /** Bit i of a number. */
  predicate Bit(w: nat, i: nat) {
    if i == 0 then w % 2 == 1 else Bit(w / 2, i - 1)
  }

  function Power(n: nat): (r: nat)
    ensures r > 0
  {
    if n == 0 then 1 else 2 * Power(n - 1)
  }

  /** w | 1 << i */
  function WithBit(w: nat, i: nat): nat {
    if i == 0 then if w % 2 == 1 then w else w + 1
    else 2 * WithBit(w / 2, i - 1) + w % 2
  }

  lemma {:induction false} WithBitHas(w: nat, i: nat, j: nat)
    ensures Bit(WithBit(w, i), j) <==> Bit(w, j) || j == i
  {
    hide *;
    var v := WithBit(w, i);
    WithBitHalves(w, i);
    BitOfHalf(v, j);
    BitOfHalf(w, j);
    if i > 0 && j > 0 {
      WithBitHas(w / 2, i - 1, j - 1);
    }
  }

  lemma BitOfHalf(w: nat, j: nat)
    ensures Bit(w, j) <==> if j == 0 then w % 2 == 1 else Bit(w / 2, j - 1)
  {
  }

  lemma WithBitHalves(w: nat, i: nat)
    ensures var v := WithBit(w, i);
      if i == 0 then v % 2 == 1 && v / 2 == w / 2 else v % 2 == w % 2 && v / 2 == WithBit(w / 2, i - 1)
  {
  }

  lemma {:induction false} WithBitFits(w: nat, i: nat, n: nat)
    requires w < Power(n) && i < n
    ensures WithBit(w, i) < Power(n)
  {
    var p := Power(n - 1);
    assert Power(n) == 2 * p;
    if i > 0 {
      assert w / 2 < p;
      WithBitFits(w / 2, i - 1, n - 1);
    }
    hide Power;
  }

  lemma {:induction false} ZeroHasNone(i: nat)
    ensures !Bit(0, i)
  {
    if i > 0 {
      ZeroHasNone(i - 1);
    }
  }

  lemma {:induction false} TooHigh(w: nat, i: nat)
    requires w < Power(i)
    ensures !Bit(w, i)
  {
    if i > 0 {
      TooHigh(w / 2, i - 1);
    }
  }

  /** Numbers with the same bits are the same. */
  lemma {:induction false} SameBits(v: nat, w: nat)
    requires forall i :: Bit(v, i) <==> Bit(w, i)
    ensures v == w
  {
    assert Bit(v, 0) <==> Bit(w, 0);
    if v > 0 && w > 0 {
      forall i: nat
        ensures Bit(v / 2, i) <==> Bit(w / 2, i)
      {
        assert Bit(v, i + 1) <==> Bit(w, i + 1);
      }
      SameBits(v / 2, w / 2);
    } else if v > 0 {
      var i := HighBit(v);
      ZeroHasNone(i);
      assert false;
    } else if w > 0 {
      var i := HighBit(w);
      ZeroHasNone(i);
      assert false;
    }
  }

  lemma {:induction false} HighBit(v: nat) returns (i: nat)
    requires v > 0
    ensures Bit(v, i)
  {
    if v == 1 {
      i := 0;
    } else {
      var j := HighBit(v / 2);
      i := j + 1;
    }
  }

  lemma Halves(w: nat, k: nat)
    requires k > 0
    ensures (w / 2) / Power(k - 1) == w / Power(k)
    ensures (w % Power(k)) / 2 == (w / 2) % Power(k - 1) && (w % Power(k)) % 2 == w % 2
  {
    HalvesOf(w, Power(k - 1));
  }

  lemma HalvesOf(w: nat, p: nat)
    requires p > 0
    ensures (w / 2) / p == w / (2 * p)
    ensures (w % (2 * p)) / 2 == (w / 2) % p && (w % (2 * p)) % 2 == w % 2
  {
    var h, b := w / 2, w % 2;
    var x, y := h / p, h % p;
    DivUnique(w, 2 * p, x, 2 * y + b);
  }

  lemma DivUnique(n: nat, d: nat, q: nat, r: nat)
    requires n == d * q + r && r < d
    ensures n / d == q && n % d == r
  {
    var x, y := n / d, n % d;
    assert d * x + y == d * q + r;
    if x + 1 <= q {
      Scale(d, x + 1, q);
    }
    if q + 1 <= x {
      Scale(d, q + 1, x);
    }
  }

  lemma Scale(d: nat, a: nat, b: nat)
    requires a <= b
    ensures d * a <= d * b
  {
  }

  /** w >> k */
  function High(w: nat, k: nat): nat {
    if k == 0 then w else High(w / 2, k - 1)
  }

  lemma {:induction false} HighDivides(w: nat, k: nat)
    ensures High(w, k) == w / Power(k)
  {
    if k > 0 {
      Halves(w, k);
      HighDivides(w / 2, k - 1);
    }
  }

  lemma {:induction false} BitAbove(w: nat, k: nat, i: nat)
    ensures Bit(High(w, k), i) <==> Bit(w, i + k)
  {
    if k > 0 {
      BitAbove(w / 2, k - 1, i);
    }
  }

  lemma {:induction false} BitBelow(w: nat, k: nat, i: nat)
    requires i < k
    ensures Bit(w % Power(k), i) <==> Bit(w, i)
  {
    Halves(w, k);
    if i > 0 {
      BitBelow(w / 2, k - 1, i - 1);
    }
  }

  lemma {:induction false} PowerSum(a: nat, b: nat)
    ensures Power(a + b) == Power(a) * Power(b)
  {
    if a > 0 {
      PowerSum(a - 1, b);
    }
  }

  lemma PowerTwice(n: nat, p: nat)
    requires Power(n) == p
    ensures Power(2 * n) == p * p
  {
    PowerSum(n, n);
  }

  lemma Power32()
    ensures Power(32) == TWO32 && Power(64) == TWO64
  {
    assert Power(4) == 16;
    hide Power;
    PowerTwice(4, 16);
    PowerTwice(8, 256);
    PowerTwice(16, 65536);
    PowerTwice(32, TWO32);
  }

  /** A mask has a CPU. */
  predicate Has(mask: Mask, c: nat) {
    c / 64 < |mask| && Bit(mask[c / 64], c % 64)
  }

  /** No word of zero at the end, which SetBit never leaves. */
  predicate IsTight(mask: Mask) {
    mask != [] ==> mask[|mask| - 1] != 0
  }

  /** SetBit, of a CPU that is not negative, which the source's callers never give. */
  method SetBit(mask: Mask, bit: nat) returns (r: Mask)
    ensures forall c: nat :: Has(r, c) <==> Has(mask, c) || c == bit
    ensures IsTight(mask) ==> IsTight(r)
  {
    r := mask;
    while |r| <= bit / 64
      invariant |r| >= |mask| && r[..|mask|] == mask
      invariant forall i | |mask| <= i < |r| :: r[i] == 0
      invariant |r| > |mask| ==> |r| <= bit / 64 + 1
      decreases bit / 64 + 1 - |r|
    {
      r := r + [0];
    }
    var k := bit / 64;
    var before := r;
    assert forall c: nat :: Has(before, c) <==> Has(mask, c) by {
      forall c: nat
        ensures Has(before, c) <==> Has(mask, c)
      {
        ZeroHasNone(c % 64);
      }
    }
    WithBitIsWord(r[k], bit % 64);
    r := r[k := WithBit(r[k], bit % 64)];
    forall c: nat
      ensures Has(r, c) <==> Has(mask, c) || c == bit
    {
      WithBitHas(before[k], bit % 64, c % 64);
      assert Has(before, c) <==> Has(mask, c);
    }
    WithBitHas(before[k], bit % 64, bit % 64);
    ZeroHasNone(bit % 64);
  }

  lemma WithBitIsWord(w: Word, i: nat)
    requires i < 64
    ensures WithBit(w, i) < TWO64
  {
    Power32();
    WithBitFits(w, i, 64);
  }

  /** Intersects */
  method Intersects(a: Mask, b: Mask) returns (r: bool)
    ensures r <==> exists c: nat :: Has(a, c) && Has(b, c)
  {
    for i := 0 to |a|
      invariant forall c: nat :: Has(a, c) && Has(b, c) ==> c / 64 >= i
    {
      if i < |b| {
        var shared := SharedBit(a[i], b[i]);
        if shared {
          var c :| 0 <= c < 64 && Bit(a[i], c) && Bit(b[i], c);
          assert Has(a, 64 * i + c) && Has(b, 64 * i + c);
          return true;
        }
      }
    }
    r := false;
  }

  /** a & b != 0, of two words. */
  predicate Shares(a: Word, b: Word) {
    exists i | 0 <= i < 64 :: Bit(a, i) && Bit(b, i)
  }

  method SharedBit(a: Word, b: Word) returns (r: bool)
    ensures r == Shares(a, b)
  {
    r := Shares(a, b);
  }

  const ZERO := "00000000"

  function HexDigit(d: nat): char
    requires d < 16
  {
    "0123456789abcdef"[d]
  }

  /** The value of a hexadecimal digit, or 16 for what is none. */
  function HexValue(c: char): (v: nat)
    ensures v <= 16
  {
    if '0' <= c <= '9' then c as int - '0' as int
    else if 'a' <= c <= 'f' then c as int - 'a' as int + 10
    else if 'A' <= c <= 'F' then c as int - 'A' as int + 10
    else 16
  }

  predicate IsHex(s: string) {
    forall i | 0 <= i < |s| :: HexValue(s[i]) < 16
  }

  function HexSum(s: string): nat {
    if s == "" then 0 else 16 * HexSum(s[..|s| - 1]) + HexValue(s[|s| - 1])
  }

  /** strconv.ParseUint in base 16 for 32 bits. */
  function ParseHex(s: string): (r: Option<nat>)
    ensures r.Some? ==> r.value < TWO32
  {
    if s != "" && IsHex(s) && HexSum(s) < TWO32 then Some(HexSum(s)) else None
  }

  /** A number in n digits. */
  function Hex(v: nat, n: nat): (s: string)
    ensures |s| == n && IsHex(s) && (forall i | 0 <= i < n :: s[i] != ',')
  {
    if n == 0 then "" else Hex(v / 16, n - 1) + [HexDigit(v % 16)]
  }

  lemma FourBits(k: nat)
    ensures Power(k + 4) == 16 * Power(k)
  {
    assert Power(k + 4) == 2 * Power(k + 3) && Power(k + 3) == 2 * Power(k + 2);
    assert Power(k + 2) == 2 * Power(k + 1) && Power(k + 1) == 2 * Power(k);
  }

  lemma {:induction false} HexParses(v: nat, n: nat)
    requires v < Power(4 * n)
    ensures HexSum(Hex(v, n)) == v
  {
    hide *;
    if n == 0 {
      NoDigits(v);
    } else {
      FirstDigits(v, n);
      HexSumNext(Hex(v / 16, n - 1), v % 16);
      HexParses(v / 16, n - 1);
    }
  }

  lemma NoDigits(v: nat)
    requires v < Power(0)
    ensures HexSum(Hex(v, 0)) == v
  {
  }

  lemma FirstDigits(v: nat, n: nat)
    requires n > 0 && v < Power(4 * n)
    ensures Hex(v, n) == Hex(v / 16, n - 1) + [HexDigit(v % 16)]
    ensures v / 16 < Power(4 * (n - 1)) && 16 * (v / 16) + v % 16 == v
  {
    FourBits(4 * (n - 1));
    LowDigit(v, Power(4 * (n - 1)));
  }

  lemma LowDigit(v: nat, p: nat)
    requires v < 16 * p
    ensures v / 16 < p && 16 * (v / 16) + v % 16 == v
  {
  }

  lemma HexSumNext(s: string, d: nat)
    requires d < 16
    ensures HexSum(s + [HexDigit(d)]) == 16 * HexSum(s) + d
  {
    assert (s + [HexDigit(d)])[..|s|] == s;
  }

  /** fmt.Sprintf("%08x", ...) of 32 bits. */
  function Group(v: nat): (s: string)
    requires v < TWO32
    ensures ParseHex(s) == Some(v) && |s| == 8 && (forall i | 0 <= i < 8 :: s[i] != ',')
  {
    Power32();
    HexParses(v, 8);
    Hex(v, 8)
  }

  /** strings.Split at commas, which gives at least one part. */
  function Split(s: string): (r: seq<string>)
    ensures r != []
  {
    if s == "" then [""]
    else if s[0] == ',' then [""] + Split(s[1..])
    else var r := Split(s[1..]); [[s[0]] + r[0]] + r[1..]
  }

  /** strings.Join with commas. */
  function Join(parts: seq<string>): string
    requires parts != []
  {
    if |parts| == 1 then parts[0] else parts[0] + ("," + Join(parts[1..]))
  }

  lemma {:induction false} SplitAfter(head: string, rest: string)
    requires ',' !in head
    ensures Split(head + ("," + rest)) == [head] + Split(rest)
    ensures Split(head) == [head]
  {
    if head == "" {
      assert head + ("," + rest) == "," + rest;
    } else {
      assert (head + ("," + rest))[1..] == head[1..] + ("," + rest);
      SplitAfter(head[1..], rest);
      assert [head[0]] + head[1..] == head;
      assert ([head[1..]] + Split(rest))[1..] == Split(rest);
    }
  }

  lemma {:induction false} SplitJoin(parts: seq<string>)
    requires parts != [] && forall part | part in parts :: ',' !in part
    ensures Split(Join(parts)) == parts
  {
    assert ',' !in parts[0];
    if |parts| == 1 {
      SplitAfter(parts[0], "");
    } else {
      SplitJoin(parts[1..]);
      SplitAfter(parts[0], Join(parts[1..]));
    }
  }

  /** What strings.TrimSpace removes, of the ASCII characters. */
  predicate IsSpace(c: char) {
    c == ' ' || '\t' <= c <= '\r'
  }

  /** Spaces, tabs and line ends around a text, such as the newline that sysfs ends it with, are no part of it. */
  lemma SpaceIsTrimmed(s: string, c: char)
    requires c == ' ' || c == '\t' || c == '\n' || c as int == 11 || c as int == 12 || c == '\r'
    ensures GroupsOf([c] + s) == GroupsOf(s) == GroupsOf(s + [c])
  {
    TrimAtEnds(s, IsSpace, c);
  }

  /** A group is a number of hexadecimal digits in either case, however many, below 2 to the 32. */
  lemma GroupExactly(s: string)
    ensures ParseHex(s).Some? <==>
      && s != "" && HexSum(s) < 0x1_0000_0000
      && forall i | 0 <= i < |s| :: '0' <= s[i] <= '9' || 'a' <= s[i] <= 'f' || 'A' <= s[i] <= 'F'
    ensures ParseHex(s).Some? ==> ParseHex(s).value == HexSum(s)
  {
    hide HexSum;
  }

  lemma DigitsAreHex(s: string, c: char)
    ensures '0' <= c <= '9' ==> HexSum(s + [c]) == 16 * HexSum(s) + c as int - 48
    ensures 'a' <= c <= 'f' ==> HexSum(s + [c]) == 16 * HexSum(s) + c as int - 87
    ensures 'A' <= c <= 'F' ==> HexSum(s + [c]) == 16 * HexSum(s) + c as int - 55
    ensures HexSum("") == 0
  {
    assert (s + [c])[..|s|] == s;
  }

  /** A list of groups, the last of them for the first 32 CPUs, has a CPU. */
  predicate InGroups(groups: seq<string>, c: nat) {
    c / 32 < |groups| && var v := ParseHex(groups[|groups| - 1 - c / 32]); v.Some? && Bit(v.value, c % 32)
  }

  predicate AllParse(groups: seq<string>) {
    forall group | group in groups :: ParseHex(group).Some?
  }

  /** The groups of a mask's text. */
  function GroupsOf(s: string): seq<string> {
    Split(Trim(s, IsSpace))
  }

  /**
   ParseMask. It fails exactly if a group is not a number of 32 bits, and else gives the one mask
   that has the CPUs of the groups and no zero word at the end.
   */
  method ParseMask(s: string) returns (mask: Mask, ok: bool)
    ensures ok == AllParse(GroupsOf(s))
    ensures ok ==> IsTight(mask) && forall c: nat :: Has(mask, c) <==> InGroups(GroupsOf(s), c)
  {
    var groups := Split(Trim(s, IsSpace));
    mask, ok := [], false;
    for i := 0 to |groups|
      invariant IsTight(mask)
      invariant forall j | |groups| - i <= j < |groups| :: ParseHex(groups[j]).Some?
      invariant forall c: nat :: Has(mask, c) <==> InGroups(groups, c) && c < 32 * i
    {
      var v := ParseHex(groups[|groups| - 1 - i]);
      if v == None {
        return;
      }
      for bit := 0 to 32
        invariant IsTight(mask)
        invariant forall c: nat :: Has(mask, c) <==> InGroups(groups, c) && c < 32 * i + bit
      {
        assert InGroups(groups, 32 * i + bit) <==> Bit(v.value, bit);
        if Bit(v.value, bit) {
          mask := SetBit(mask, 32 * i + bit);
        }
      }
    }
    ok := true;
  }

  /** w >> 32 and w & 0xffffffff */
  function Upper(w: Word): (r: nat)
    ensures r < TWO32
  {
    w / TWO32
  }

  function Lower(w: Word): (r: nat)
    ensures r < TWO32
  {
    w % TWO32
  }

  /** The text of a mask's words, most significant first. */
  function AllGroups(mask: Mask): (r: seq<string>)
    ensures |r| == 2 * |mask|
  {
    if mask == [] then []
    else
      var w := mask[|mask| - 1];
      [Group(Upper(w)), Group(Lower(w))] + AllGroups(mask[..|mask| - 1])
  }

  /** Drops the zero groups at the front, except a last one. */
  function Strip(groups: seq<string>): (r: seq<string>)
    ensures groups != [] ==> r != []
  {
    if |groups| > 1 && groups[0] == ZERO then Strip(groups[1..]) else groups
  }

  /** What a mask's text is made of before the zero groups are dropped. */
  function Unstripped(mask: Mask): (r: seq<string>)
    ensures r != []
  {
    if mask == [] then [ZERO] else AllGroups(mask)
  }

  function Format(mask: Mask): string {
    Join(Strip(Unstripped(mask)))
  }

  /** The first loop of FormatMask. */
  method MakeGroups(mask: Mask) returns (groups: seq<string>)
    ensures groups == AllGroups(mask)
  {
    hide Group;
    groups := [];
    var i := |mask|;
    assert mask[..i] == mask && groups + AllGroups(mask) == AllGroups(mask);
    while i > 0
      invariant 0 <= i <= |mask| && groups + AllGroups(mask[..i]) == AllGroups(mask)
    {
      i := i - 1;
      assert mask[..i + 1][..i] == mask[..i];
      ghost var before := groups;
      groups := groups + [Group(Upper(mask[i])), Group(Lower(mask[i]))];
      assert groups + AllGroups(mask[..i]) == before + AllGroups(mask[..i + 1]);
    }
    assert groups + AllGroups(mask[..0]) == groups;
  }

  /** FormatMask */
  method FormatMask(mask: Mask) returns (s: string)
    ensures s == Format(mask)
  {
    hide Group;
    var groups := MakeGroups(mask);
    while |groups| > 1 && groups[0] == ZERO
      invariant Strip(groups) == Strip(AllGroups(mask))
      invariant groups == [] <==> mask == []
      decreases |groups|
    {
      groups := groups[1..];
    }
    if |groups| == 0 {
      return ZERO;
    }
    return Join(groups);
  }

  /** The 32 bits of a mask from CPU 32 * i on, which are zero after its end. */
  function Part(mask: Mask, i: nat): (v: nat)
    ensures v < TWO32
  {
    if i / 2 >= |mask| then 0
    else if i % 2 == 0 then Lower(mask[i / 2])
    else Upper(mask[i / 2])
  }

  lemma HalfOfWord(c: nat)
    ensures c / 32 / 2 == c / 64 && c % 64 == c % 32 + (if c / 32 % 2 == 0 then 0 else 32)
  {
  }

  lemma PartHas(mask: Mask, c: nat)
    ensures Bit(Part(mask, c / 32), c % 32) <==> Has(mask, c)
  {
    Power32();
    HalfOfWord(c);
    hide Bit, Power, High;
    var i := c / 32;
    if i / 2 >= |mask| {
      ZeroHasNone(c % 32);
    } else {
      var w := mask[i / 2];
      if i % 2 == 0 {
        BitBelow(w, 32, c % 32);
      } else {
        BitAbove(w, 32, c % 32);
        HighDivides(w, 32);
      }
    }
  }

  /** Group i, from the end, of a text's groups, which go on with zero groups. */
  function At(groups: seq<string>, i: nat): string {
    if i < |groups| then groups[|groups| - 1 - i] else ZERO
  }

  lemma ZeroGroup()
    ensures ZERO == Group(0)
  {
    var g := Group(0);
    assert g == Hex(0, 8);
    ZeroDigits(8);
  }

  lemma {:induction false} ZeroDigits(n: nat)
    ensures forall i | 0 <= i < n :: Hex(0, n)[i] == '0'
  {
    if n > 0 {
      ZeroDigits(n - 1);
    }
  }

  lemma {:induction false} AllGroupsAt(mask: Mask, i: nat)
    ensures At(AllGroups(mask), i) == Group(Part(mask, i))
  {
    if i >= 2 * |mask| {
      ZeroGroup();
    } else {
      var n := |mask| - 1;
      LastGroups(mask, n, i);
      if i < 2 * n {
        AllGroupsAt(mask[..n], i);
        hide Group, At, AllGroups;
        assert Part(mask[..n], i) == Part(mask, i);
      } else {
        hide Group, At, AllGroups;
        assert i == 2 * n || i == 2 * n + 1;
        assert i / 2 == n;
      }
    }
  }

  lemma LastGroups(mask: Mask, n: nat, i: nat)
    requires i < 2 * |mask| && n == |mask| - 1
    ensures i < 2 * n ==> At(AllGroups(mask), i) == At(AllGroups(mask[..n]), i)
    ensures i == 2 * n ==> At(AllGroups(mask), i) == Group(Lower(mask[n]))
    ensures i == 2 * n + 1 ==> At(AllGroups(mask), i) == Group(Upper(mask[n]))
  {
    var rest := AllGroups(mask[..n]);
    assert AllGroups(mask) == [Group(Upper(mask[n])), Group(Lower(mask[n]))] + rest;
    AtPair(Group(Upper(mask[n])), Group(Lower(mask[n])), rest, i);
    hide Group, Lower, Upper, At, AllGroups;
  }

  lemma AtPair(a: string, b: string, rest: seq<string>, i: nat)
    ensures At([a, b] + rest, i) ==
      if i < |rest| then At(rest, i) else if i == |rest| then b else if i == |rest| + 1 then a else ZERO
  {
  }

  lemma UnstrippedAt(mask: Mask, i: nat)
    ensures At(Unstripped(mask), i) == Group(Part(mask, i))
  {
    AllGroupsAt(mask, i);
    if mask == [] {
      ZeroGroup();
    }
  }

  /** Stripping changes no group, as what is dropped is what a text goes on with. */
  lemma {:induction false} StripAt(groups: seq<string>, i: nat)
    ensures At(Strip(groups), i) == At(groups, i)
  {
    if |groups| > 1 && groups[0] == ZERO {
      StripAt(groups[1..], i);
    }
  }

  /** Texts with the same groups are the same once they are stripped. */
  lemma {:induction false} StripSame(a: seq<string>, b: seq<string>)
    requires a != [] && b != [] && forall i :: At(a, i) == At(b, i)
    ensures Strip(a) == Strip(b)
    decreases |a| + |b|
  {
    if |a| > |b| {
      StripShorter(a, b);
    } else if |b| > |a| {
      StripShorter(b, a);
    } else {
      forall i | 0 <= i < |a|
        ensures a[i] == b[i]
      {
        assert At(a, |a| - 1 - i) == At(b, |a| - 1 - i);
      }
      assert a == b;
    }
  }

  lemma {:induction false} StripShorter(a: seq<string>, b: seq<string>)
    requires |a| > |b| > 0 && forall i :: At(a, i) == At(b, i)
    ensures Strip(a) == Strip(b)
    decreases |a| + |b|, 0
  {
    assert At(a, |a| - 1) == At(b, |a| - 1);
    forall i: nat
      ensures At(a[1..], i) == At(b, i)
    {
      assert At(a, i) == At(b, i);
    }
    StripSame(a[1..], b);
  }

  lemma SamePart(a: Mask, b: Mask, i: nat)
    requires forall c: nat :: Has(a, c) <==> Has(b, c)
    ensures Part(a, i) == Part(b, i)
  {
    Power32();
    hide Power, Bit, Has;
    forall k: nat
      ensures Bit(Part(a, i), k) <==> Bit(Part(b, i), k)
    {
      if k < 32 {
        PartHas(a, 32 * i + k);
        PartHas(b, 32 * i + k);
      } else {
        Above32(Part(a, i), k);
        Above32(Part(b, i), k);
      }
    }
    SameBits(Part(a, i), Part(b, i));
  }

  lemma Above32(v: nat, k: nat)
    requires v < TWO32 && k >= 32
    ensures !Bit(v, k)
  {
    Power32();
    PowerGrows(32, k);
    TooHigh(v, k);
  }

  lemma {:induction false} PowerGrows(a: nat, b: nat)
    requires a <= b
    ensures Power(a) <= Power(b)
  {
    if a < b {
      PowerGrows(a, b - 1);
    }
  }

  lemma StrippedParses(mask: Mask)
    ensures AllParse(Strip(Unstripped(mask)))
    ensures forall group | group in Strip(Unstripped(mask)) :: |group| == 8 && ',' !in group && ParseHex(group).Some?
  {
    var groups := Strip(Unstripped(mask));
    hide Strip, Unstripped, Part, ParseHex;
    forall group | group in groups
      ensures |group| == 8 && ',' !in group && ParseHex(group).Some?
    {
      var i :| 0 <= i < |groups| && groups[i] == group;
      assert At(groups, |groups| - 1 - i) == group;
      StripAt(Unstripped(mask), |groups| - 1 - i);
      UnstrippedAt(mask, |groups| - 1 - i);
    }
  }

  /** A text that starts and ends in something else has no space to trim. */
  lemma {:induction false} JoinIsTrimmed(groups: seq<string>)
    requires groups != [] && forall group | group in groups :: group != "" && IsHex(group)
    ensures var s := Join(groups); s != "" && !IsSpace(s[0]) && !IsSpace(s[|s| - 1]) && Trim(s, IsSpace) == s
  {
    assert groups[0] in groups && !IsSpace(groups[0][0]) && !IsSpace(groups[0][|groups[0]| - 1]);
    if |groups| > 1 {
      assert forall group | group in groups[1..] :: group in groups;
      JoinIsTrimmed(groups[1..]);
    }
  }

  /** What sysfs reads back of a mask's text is a mask with the same CPUs. */
  lemma FormatParses(mask: Mask)
    ensures AllParse(GroupsOf(Format(mask)))
    ensures forall c: nat :: InGroups(GroupsOf(Format(mask)), c) <==> Has(mask, c)
  {
    var groups := Strip(Unstripped(mask));
    StrippedParses(mask);
    JoinIsTrimmed(groups);
    SplitJoin(groups);
    forall c: nat
      ensures InGroups(groups, c) <==> Has(mask, c)
    {
      StrippedHas(mask, c);
    }
  }

  lemma StrippedHas(mask: Mask, c: nat)
    ensures InGroups(Strip(Unstripped(mask)), c) <==> Has(mask, c)
  {
    var i := c / 32;
    StripAt(Unstripped(mask), i);
    UnstrippedAt(mask, i);
    PartHas(mask, c);
    ZeroGroup();
    ZeroHasNone(c % 32);
    assert ParseHex(At(Strip(Unstripped(mask)), i)) == Some(Part(mask, i));
    if i >= |Strip(Unstripped(mask))| {
      assert Part(mask, i) == 0;
    }
  }

  /** Masks print the same exactly if they have the same CPUs. */
  lemma SameTextExactly(a: Mask, b: Mask)
    ensures Format(a) == Format(b) <==> forall c: nat :: Has(a, c) <==> Has(b, c)
  {
    if Format(a) == Format(b) {
      FormatParses(a);
      FormatParses(b);
    }
    if forall c: nat :: Has(a, c) <==> Has(b, c) {
      forall i: nat
        ensures At(Unstripped(a), i) == At(Unstripped(b), i)
      {
        UnstrippedAt(a, i);
        UnstrippedAt(b, i);
        SamePart(a, b, i);
      }
      StripSame(Unstripped(a), Unstripped(b));
    }
  }

  const MAX_INT: int := 0x7FFF_FFFF_FFFF_FFFF

  predicate IsDecimal(s: string) {
    forall i | 0 <= i < |s| :: '0' <= s[i] <= '9'
  }

  function DecimalSum(s: string): nat
    requires IsDecimal(s)
  {
    if s == "" then 0 else 10 * DecimalSum(s[..|s| - 1]) + (s[|s| - 1] as int - '0' as int)
  }

  /** strconv.Atoi, which takes a sign. */
  function Atoi(s: string): Option<int> {
    var signed := s != "" && (s[0] == '+' || s[0] == '-');
    var digits := if signed then s[1..] else s;
    if digits == "" || !IsDecimal(digits) then None
    else
      var n: int := DecimalSum(digits);
      var v := if s[0] == '-' then -n else n;
      if -MAX_INT - 1 <= v <= MAX_INT then Some(v) else None
  }

  /** The index of the first '-', or the end. */
  function Dash(s: string): (r: nat)
    ensures r <= |s| && '-' !in s[..r]
  {
    if s == "" || s[0] == '-' then 0
    else
      assert forall r | 0 <= r < |s| :: s[..r + 1] == [s[0]] + s[1..][..r];
      1 + Dash(s[1..])
  }

  /** One part of a CPU list, a CPU or a range with both its ends. */
  function Range(part: string): Option<(int, int)> {
    var dash := Dash(part);
    var low := Atoi(part[..dash]);
    var high := if dash < |part| then Atoi(part[dash + 1..]) else low;
    if low == None || high == None then None else Some((low.value, high.value))
  }

  /** A number as it is written in decimal. */
  function Decimal(n: nat): (s: string)
    ensures s != "" && forall i | 0 <= i < |s| :: '0' <= s[i] <= '9'
  {
    (if n < 10 then "" else Decimal(n / 10)) + [('0' as int + n % 10) as char]
  }

  lemma {:induction false} DecimalParses(n: nat)
    ensures DecimalSum(Decimal(n)) == n
  {
    var last := [('0' as int + n % 10) as char];
    if n < 10 {
      assert Decimal(n) == last && last[..0] == "";
    } else {
      DecimalParses(n / 10);
      assert Decimal(n)[..|Decimal(n)| - 1] == Decimal(n / 10);
    }
  }

  lemma NumberParses(n: nat)
    requires n <= 0x7FFF_FFFF_FFFF_FFFF
    ensures Atoi(Decimal(n)) == Some(n)
  {
    DecimalParses(n);
    hide Decimal, DecimalSum;
  }

  lemma {:induction false} DashAfter(s: string, rest: string)
    requires '-' !in s && (rest == "" || rest[0] == '-')
    ensures Dash(s + rest) == |s|
  {
    if s == "" {
      assert s + rest == rest;
    } else {
      assert (s + rest)[1..] == s[1..] + rest;
      DashAfter(s[1..], rest);
    }
  }

  /** A range as the kernel prints it, a single CPU without a dash. */
  function PrintedRange(low: nat, high: nat): string {
    if low == high then Decimal(low) else Decimal(low) + ("-" + Decimal(high))
  }

  lemma RangeOfOne(a: string, n: int)
    requires '-' !in a && Atoi(a) == Some(n)
    ensures Range(a) == Some((n, n))
  {
    hide Atoi, Dash;
    DashAfter(a, "");
    assert a + "" == a && a[..|a|] == a;
  }

  lemma RangeOfTwo(a: string, b: string, m: int, n: int)
    requires '-' !in a && Atoi(a) == Some(m) && Atoi(b) == Some(n)
    ensures Range(a + ("-" + b)) == Some((m, n))
  {
    hide Atoi, Dash;
    DashAfter(a, "-" + b);
    var s := a + ("-" + b);
    assert s[..|a|] == a && s[|a| + 1..] == b;
  }

  /** What the kernel prints of a range is read as that range. */
  lemma RangeParses(low: nat, high: nat)
    requires low <= high <= 0x7FFF_FFFF_FFFF_FFFF
    ensures Range(PrintedRange(low, high)) == Some((low, high))
    ensures ',' !in PrintedRange(low, high)
  {
    hide Atoi, Dash, Decimal, Range;
    NumberParses(low);
    NumberParses(high);
    if low == high {
      RangeOfOne(Decimal(low), low);
    } else {
      RangeOfTwo(Decimal(low), Decimal(high), low, high);
    }
  }

  datatype Cpus = Cpus(low: nat, high: nat)

  /** A list of ranges as the kernel prints it. */
  predicate ArePrinted(ranges: seq<Cpus>, parts: seq<string>) {
    |parts| == |ranges| && forall i | 0 <= i < |ranges| ::
      ranges[i].low <= ranges[i].high <= 0x7FFF_FFFF_FFFF_FFFF
      && parts[i] == PrintedRange(ranges[i].low, ranges[i].high)
  }

  predicate AnyHas(ranges: seq<Cpus>, c: nat) {
    exists i :: 0 <= i < |ranges| && ranges[i].low <= c <= ranges[i].high
  }

  lemma PartParses(ranges: seq<Cpus>, parts: seq<string>, i: nat)
    requires ArePrinted(ranges, parts) && i < |parts|
    ensures Range(parts[i]) == Some((ranges[i].low, ranges[i].high)) && ',' !in parts[i]
  {
    RangeParses(ranges[i].low, ranges[i].high);
  }

  lemma PartsHave(ranges: seq<Cpus>, parts: seq<string>, c: nat)
    requires ArePrinted(ranges, parts)
    ensures FirstHave(parts, |parts|, c) <==> AnyHas(ranges, c)
  {
    hide PrintedRange, Range;
    if i :| 0 <= i < |ranges| && ranges[i].low <= c <= ranges[i].high {
      PartParses(ranges, parts, i);
      assert RangeHas(parts[i], c);
    }
    if i :| 0 <= i < |parts| && RangeHas(parts[i], c) {
      PartParses(ranges, parts, i);
      assert ranges[i].low <= c <= ranges[i].high;
    }
  }

  /** A list that the kernel prints is read as exactly the CPUs of its ranges. */
  lemma ListParsesBack(ranges: seq<Cpus>, parts: seq<string>)
    requires ranges != [] && ArePrinted(ranges, parts)
    ensures ListParses(Join(parts))
    ensures forall c: nat :: InList(Join(parts), c) <==> AnyHas(ranges, c)
  {
    forall i | 0 <= i < |parts|
      ensures Range(parts[i]).Some? && ',' !in parts[i]
    {
      PartParses(ranges, parts, i);
    }
    hide PrintedRange, Range, ArePrinted, AnyHas, FirstHave;
    SplitJoin(parts);
    forall c: nat {
      PartsHave(ranges, parts, c);
    }
  }

  /** A sign in front of a range leaves no first number, so no CPU is negative. */
  lemma RangeIsNatural(part: string)
    ensures Range(part).Some? ==> Range(part).value.0 >= 0
  {
    var low := part[..Dash(part)];
    assert low != "" ==> low[0] in low;
  }

  predicate RangeHas(part: string, c: nat) {
    var r := Range(part);
    r.Some? && r.value.0 <= c <= r.value.1
  }

  predicate ListParses(list: string) {
    forall part | part in Split(list) :: Range(part).Some?
  }

  /** One of the first n parts has the CPU. */
  predicate FirstHave(parts: seq<string>, n: nat, c: nat)
    requires n <= |parts|
  {
    exists i | 0 <= i < n :: RangeHas(parts[i], c)
  }

  predicate InList(list: string, c: nat) {
    FirstHave(Split(list), |Split(list)|, c)
  }

  /** ParseCPUList, which gives the union of the list's ranges. */
  method ParseCPUList(list: string) returns (mask: Mask, ok: bool)
    ensures ok == ListParses(list)
    ensures ok ==> IsTight(mask) && forall c: nat :: Has(mask, c) <==> InList(list, c)
  {
    hide Has, IsTight, Atoi, Dash;
    var parts := Split(list);
    mask, ok := EmptyMask(), false;
    for i := 0 to |parts|
      invariant IsTight(mask) && forall j | 0 <= j < i :: Range(parts[j]).Some?
      invariant forall c: nat :: Has(mask, c) <==> FirstHave(parts, i, c)
    {
      var r := Range(parts[i]);
      if r == None {
        assert parts[i] in parts;
        return;
      }
      RangeIsNatural(parts[i]);
      mask := SetRange(mask, r.value.0, r.value.1);
    }
    ok := true;
  }

  function EmptyMask(): (mask: Mask)
    ensures IsTight(mask) && forall c: nat :: !Has(mask, c)
  {
    []
  }

  /** The inner loop of ParseCPUList. */
  method SetRange(mask: Mask, low: nat, high: int) returns (r: Mask)
    requires IsTight(mask)
    ensures IsTight(r) && forall c: nat :: Has(r, c) <==> Has(mask, c) || low <= c <= high
  {
    r := mask;
    var c := low;
    while c <= high
      invariant low <= c && (c <= high + 1 || c == low)
      invariant IsTight(r) && forall d: nat :: Has(r, d) <==> Has(mask, d) || low <= d < c
    {
      r := SetBit(r, c);
      c := c + 1;
    }
  }

  /** What a queue's CPUs become: one CPU, or its own if one of them is online, or all online ones. */
  ghost predicate Placed(own: string, online: string, cpu: int, c: nat) {
    if cpu >= 0 then c == cpu
    else if exists d: nat :: InGroups(GroupsOf(own), d) && InList(online, d) then InGroups(GroupsOf(own), c)
    else InList(online, c)
  }

  /** A text that a queue's file can get. */
  ghost predicate IsPlaced(own: string, online: string, cpu: int, text: string) {
    AllParse(GroupsOf(text)) && forall c: nat :: InGroups(GroupsOf(text), c) <==> Placed(own, online, cpu, c)
  }

  /**
   PlaceIRQs, given what the files of the queues' CPUs and of the online CPUs have. A write can
   fail, and then it is the last.
   */
  method PlaceIRQs(files: seq<string>, onlineCpus: string, cpu: int, failsAt: nat)
    returns (writes: seq<string>, ok: bool)
    ensures |writes| <= |files| && |writes| <= failsAt + 1 && (writes != [] ==> ListParses(onlineCpus))
    ensures ok <==>
      ListParses(onlineCpus) && failsAt >= |files| && forall i | 0 <= i < |files| :: AllParse(GroupsOf(files[i]))
    ensures |writes| == |files| || !ListParses(onlineCpus)
      || |writes| == failsAt + 1 || !AllParse(GroupsOf(files[|writes|]))
    ensures forall i | 0 <= i < |writes| ::
      AllParse(GroupsOf(files[i])) && IsPlaced(files[i], onlineCpus, cpu, writes[i])
  {
    hide Has, IsPlaced, InList, AllParse;
    writes, ok := [], false;
    var online, parses := ParseCPUList(onlineCpus);
    if !parses {
      return;
    }
    for i := 0 to |files|
      invariant |writes| == i <= failsAt
      invariant forall j | 0 <= j < i ::
        AllParse(GroupsOf(files[j])) && IsPlaced(files[j], onlineCpus, cpu, writes[j])
    {
      var text, placed := PlaceOne(files[i], onlineCpus, online, cpu);
      if !placed {
        return;
      }
      writes := writes + [text];
      if i == failsAt {
        return;
      }
    }
    ok := true;
  }

  /** The body of the loop in PlaceIRQs. */
  method PlaceOne(own: string, onlineCpus: string, online: Mask, cpu: int) returns (text: string, ok: bool)
    requires ListParses(onlineCpus) && forall c: nat :: Has(online, c) <==> InList(onlineCpus, c)
    ensures ok == AllParse(GroupsOf(own))
    ensures ok ==> IsPlaced(own, onlineCpus, cpu, text)
  {
    text := "";
    var mask;
    mask, ok := ParseMask(own);
    if !ok {
      return;
    }
    var meets := Intersects(mask, online);
    if cpu >= 0 {
      mask := SetBit([], cpu);
    } else if !meets {
      mask := online;
    }
    FormatParses(mask);
    text := FormatMask(mask);
  }

  /** Where a CPU is online, every queue gets one that is. */
  lemma PlacedIsOnline(own: string, online: string, cpu: int) returns (c: nat)
    requires cpu < 0 && exists d: nat :: InList(online, d)
    ensures Placed(own, online, cpu, c) && InList(online, c)
  {
    if d: nat :| InGroups(GroupsOf(own), d) && InList(online, d) {
      c := d;
    } else {
      c :| InList(online, c);
    }
  }
}
