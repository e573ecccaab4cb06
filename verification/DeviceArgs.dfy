/**
 The launcher's -e options, its check of the guest's arguments, and the arguments that it gives
 UML (launcher/invirtio-launch.c). A string has one char for each byte and no NUL.
 */
module DeviceArgs {
  import opened Sequences
  import opened Wrappers

  const MAX_EXPORTS := 8
  const MAX_ARGS := 256
  const VDUSE_NAME_MAX := 256
  const DEVICE_PARAM := "vduse_guest.device"
  const BROKER_PARAM := "vduse_uml.broker_fd"

  /** struct export, without what only the broker uses. */
  datatype Export = Export(kind: string, name: string, logPath: string, logFd: nat)

  /** struct guest_fds and the devices, of which the arguments are made. */
  datatype Passed = Passed(
    cpuinfo: nat,
    initrd: int,
    mconsole: int,
    container: nat,
    broker: int,
    devices: seq<PciDevice>)

  datatype PciDevice = PciDevice(addr: string, groupFd: nat, romFd: int)

  datatype Arg = Null | Text(text: string)

  predicate IsKind(s: string) {
    s == "blk" || s == "net" || s == "wlan"
  }

  predicate IsName(s: string) {
    && 0 < |s| < VDUSE_NAME_MAX && '/' !in s
    && s != "." && s != ".." && s != "control"
  }

  /** strchrnul of a comma: the first one, or the end. */
  function Comma(s: string): (r: nat)
    ensures r <= |s| && ',' !in s[..r] && (r < |s| ==> s[r] == ',')
  {
    if s == "" || s[0] == ',' then 0
    else
      assert forall r | 0 <= r < |s| :: s[..r + 1] == [s[0]] + s[1..][..r];
      1 + Comma(s[1..])
  }

  /** What is before the first comma, and after it. */
  function Head(s: string): string {
    s[..Comma(s)]
  }

  function Tail(s: string): string {
    if Comma(s) < |s| then s[Comma(s) + 1..] else ""
  }

  predicate StartsOption(tail: string) {
    tail == "" || tail[0] == ','
  }

  lemma {:induction false} CommaAfter(head: string, tail: string)
    requires ',' !in head && StartsOption(tail)
    ensures Comma(head + tail) == |head|
  {
    if head == "" {
      assert head + tail == tail;
    } else {
      assert (head + tail)[1..] == head[1..] + tail;
      CommaAfter(head[1..], tail);
    }
  }

  lemma Cut(head: string, rest: string)
    requires ',' !in head
    ensures var s := head + ("," + rest); Comma(s) == |head| < |s| && Head(s) == head && Tail(s) == rest
  {
    CommaAfter(head, "," + rest);
    hide Comma;
  }

  lemma Uncut(s: string)
    requires Comma(s) < |s|
    ensures s == Head(s) + ("," + Tail(s)) && ',' !in Head(s)
  {
    SplitAt(s, Comma(s));
    assert "," == [','];
  }

  lemma SplitAt(s: string, c: nat)
    requires c < |s|
    ensures s == s[..c] + ([s[c]] + s[c + 1..])
  {
  }

  lemma TakeDrop(s: string, n: nat)
    requires n <= |s|
    ensures s == s[..n] + s[n..]
  {
  }

  /** The kernel takes - and _ in parameter names as equal. */
  predicate Alike(a: char, b: char) {
    a == b || ((a == '-' || a == '_') && (b == '-' || b == '_'))
  }

  /** An argument that sets a parameter. */
  predicate IsParam(arg: string, name: string) {
    && |name| < |arg| && arg[|name|] == '='
    && forall i | 0 <= i < |name| :: Alike(arg[i], name[i])
  }

  /** A name with its dashes as underscores. */
  function Underscored(s: string): (r: string)
    ensures |r| == |s|
  {
    seq(|s|, i requires 0 <= i < |s| => if s[i] == '-' then '_' else s[i])
  }

  /** An argument sets a parameter exactly if it is its name, written with dashes or underscores, and "=". */
  lemma ParamExactly(arg: string, name: string)
    ensures IsParam(arg, name) <==>
      |name| < |arg| && arg[|name|] == '=' && Underscored(arg[..|name|]) == Underscored(name)
  {
    if |name| < |arg| {
      var a, n := Underscored(arg[..|name|]), Underscored(name);
      forall i | 0 <= i < |name|
        ensures a[i] == n[i] <==> Alike(arg[i], name[i])
      {
      }
    }
  }

  /** is_param */
  method TestParam(arg: string, name: string) returns (r: bool)
    ensures r == IsParam(arg, name)
  {
    for i := 0 to |name|
      invariant i <= |arg|
      invariant forall j | 0 <= j < i :: Alike(arg[j], name[j])
    {
      if i == |arg| || !Alike(arg[i], name[i]) {
        return false;
      }
    }
    r := |name| < |arg| && arg[|name|] == '=';
  }

  /** A byte at which the kernel could end an argument, or that changes where it does. */
  predicate Splits(c: char) {
    c <= ' ' || c >= 0x7F as char || c == '"'
  }

  predicate Whole(s: string) {
    forall i | 0 <= i < |s| :: !Splits(s[i])
  }

  /** splits_args */
  method TestSplits(s: string) returns (r: bool)
    ensures r == !Whole(s)
  {
    for i := 0 to |s|
      invariant forall j | 0 <= j < i :: !Splits(s[j])
    {
      if s[i] <= ' ' || s[i] >= 0x7F as char || s[i] == '"' {
        return true;
      }
    }
    r := false;
  }

  predicate StandsAt(s: string, part: string, i: int) {
    0 <= i <= |s| - |part| && s[i..i + |part|] == part
  }

  /** strstr */
  predicate Contains(s: string, part: string) {
    exists i | 0 <= i <= |s| :: StandsAt(s, part, i)
  }

  predicate HasLog(arg: string) {
    Contains(arg, ",log=") || Contains(arg, ",log_fd=")
  }

  function Value(arg: string): string
    requires IsParam(arg, DEVICE_PARAM)
  {
    arg[|DEVICE_PARAM| + 1..]
  }

  predicate IsExport(e: Export) {
    && (e.kind == "blk" || e.kind == "net" || e.kind == "wlan")
    && 1 <= |e.name| <= 255 && '/' !in e.name && ',' !in e.name
    && e.name != "." && e.name != ".." && e.name != "control"
    && e.logPath != ""
  }

  /** The index of the first "--" after the program name, or the end. */
  function End(argv: seq<string>, from: nat := 1): (r: nat)
    requires from <= |argv|
    ensures from <= r <= |argv|
    ensures forall i | from <= i < r :: argv[i] != "--"
    ensures r < |argv| ==> argv[r] == "--"
    decreases |argv| - from
  {
    if from == |argv| || argv[from] == "--" then from else End(argv, from + 1)
  }

  /** What the guest gets for the arguments that are checked. */
  function Checked(argv: seq<string>, caller: seq<string>): seq<string>
    requires argv != [] && |caller| == |argv| - 1
  {
    caller[..End(argv) - 1]
  }

  function Decimal(n: nat): (r: string)
    ensures r != "" && forall i | 0 <= i < |r| :: '0' <= r[i] <= '9'
  {
    (if n < 10 then "" else Decimal(n / 10)) + ["0123456789"[n % 10]]
  }

  /** What -e <type>,<name>,log=<file> gives. */
  predicate Describes(arg: string, e: Export) {
    arg == e.kind + ("," + (e.name + ("," + ("log=" + e.logPath)))) && e.logFd == 0
  }

  /** The first half of parse_export, before it looks at the other exports. */
  function Parse(arg: string): Option<Export> {
    var rest := Tail(arg);
    var log := Tail(rest);
    if Comma(arg) == |arg| || Comma(rest) == |rest| || |log| <= 4 || log[..4] != "log=" then None
    else
      var e := Export(Head(arg), Head(rest), log[4..], 0);
      if IsKind(e.kind) && IsName(e.name) then Some(e) else None
  }

  lemma ParsesDescribed(arg: string, e: Export)
    requires Describes(arg, e) && IsExport(e)
    ensures Parse(arg) == Some(e)
  {
    var last := "log=" + e.logPath;
    Cut(e.name, last);
    Cut(e.kind, e.name + ("," + last));
    hide Comma, Head, Tail, IsKind, IsName;
  }

  lemma ParsedIsDescribed(arg: string, e: Export)
    requires Parse(arg) == Some(e)
    ensures Describes(arg, e) && IsExport(e)
  {
    Uncut(arg);
    Uncut(Tail(arg));
    hide Comma, Head, Tail, IsKind, IsName;
    TakeDrop(Tail(Tail(arg)), 4);
    assert ',' !in e.kind && ',' !in e.name;
  }

  lemma ParseExactly(arg: string, e: Export)
    ensures Parse(arg) == Some(e) <==> Describes(arg, e) && IsExport(e)
  {
    if Describes(arg, e) && IsExport(e) {
      ParsesDescribed(arg, e);
    } else if Parse(arg) == Some(e) {
      ParsedIsDescribed(arg, e);
    }
  }

  /** The value is <type>,<name>[,<options>] of the export. */
  ghost predicate Gives(value: string, e: Export) {
    exists options :: StartsOption(options) && value == e.kind + ("," + (e.name + options))
  }

  lemma GivenParts(value: string, e: Export)
    requires IsExport(e) && Gives(value, e)
    ensures Comma(value) < |value| && Head(value) == e.kind && Head(Tail(value)) == e.name
  {
    var options :| StartsOption(options) && value == e.kind + ("," + (e.name + options));
    CommaAfter(e.name, options);
    Cut(e.kind, e.name + options);
    hide Comma, IsExport;
  }

  lemma PartsGive(value: string, e: Export)
    requires Comma(value) < |value| && Head(value) == e.kind && Head(Tail(value)) == e.name
    ensures Gives(value, e)
  {
    Uncut(value);
    Options(Tail(value));
    hide Comma, Head, Tail, StartsOption;
  }

  lemma Options(s: string)
    ensures s == Head(s) + s[Comma(s)..] && StartsOption(s[Comma(s)..])
  {
    hide Comma;
  }

  /** The type and the name that a value starts with are up to its commas. */
  lemma GivesExactly(value: string, e: Export)
    requires IsExport(e)
    ensures Gives(value, e) <==> Comma(value) < |value| && Head(value) == e.kind && Head(Tail(value)) == e.name
  {
    if Gives(value, e) {
      GivenParts(value, e);
    } else if Comma(value) < |value| && Head(value) == e.kind && Head(Tail(value)) == e.name {
      PartsGive(value, e);
    }
  }

  function WithLog(arg: string, fd: nat): string {
    arg + ",log_fd=" + Decimal(fd)
  }

  function If(fd: int, param: string): (r: seq<string>)
    ensures |r| <= 1
  {
    if fd >= 0 then [param + Decimal(fd)] else []
  }

  function Fixed(p: Passed): (r: seq<string>)
    ensures |r| <= 7
  {
    ["memfd", "no_uml_dir", "seccomp=on", "sandbox", "cpuinfo_fd=" + Decimal(p.cpuinfo)]
    + If(p.initrd, "initrd=fd:") + If(p.mconsole, "mconsole=fd:")
  }

  function Container(p: Passed): (r: seq<string>)
    ensures |r| <= 1
  {
    if p.devices != [] then ["vfio_uml.container_fd=" + Decimal(p.container)] else []
  }

  function DeviceText(d: PciDevice): string {
    "vfio_uml.device=" + d.addr + ",group_fd=" + Decimal(d.groupFd)
    + if d.romFd >= 0 then ",rom_fd=" + Decimal(d.romFd) else ""
  }

  function DeviceTexts(devices: seq<PciDevice>): (r: seq<string>)
    ensures |r| == |devices|
  {
    if devices == [] then []
    else DeviceTexts(devices[..|devices| - 1]) + [DeviceText(devices[|devices| - 1])]
  }

  /** The arguments that the launcher adds, all before any of the caller's. */
  function Own(p: Passed): (r: seq<string>)
    ensures |r| <= |p.devices| + 9
  {
    Fixed(p) + Container(p) + DeviceTexts(p.devices) + If(p.broker, BROKER_PARAM + "=")
  }

  /** The value of digits. */
  function NumberOf(s: string): nat
    requires forall i | 0 <= i < |s| :: '0' <= s[i] <= '9'
  {
    if s == "" then 0 else 10 * NumberOf(s[..|s| - 1]) + (s[|s| - 1] as int - '0' as int)
  }

  /** A number is printed in decimal, without zeros in front. */
  lemma {:induction false} DecimalIsNumber(n: nat)
    ensures NumberOf(Decimal(n)) == n && (n > 0 ==> Decimal(n)[0] != '0')
  {
    hide *;
    var c := Digit(n % 10);
    LastDigit(n);
    if n < 10 {
      OneDigit(c);
    } else {
      DecimalIsNumber(n / 10);
      NumberGrows(Decimal(n / 10), c);
    }
  }

  function Digit(d: nat): (c: char)
    requires d < 10
    ensures '0' <= c <= '9' && c as int - '0' as int == d
  {
    ('0' as int + d) as char
  }

  lemma LastDigit(n: nat)
    ensures Decimal(n) == (if n < 10 then "" else Decimal(n / 10)) + [Digit(n % 10)]
  {
    assert "0123456789"[n % 10] == Digit(n % 10);
  }

  lemma OneDigit(c: char)
    requires '0' <= c <= '9'
    ensures "" + [c] == [c] && NumberOf([c]) == c as int - '0' as int
  {
    assert [c][..0] == "";
  }

  lemma NumberGrows(s: string, c: char)
    requires s != "" && (forall i | 0 <= i < |s| :: '0' <= s[i] <= '9') && '0' <= c <= '9'
    ensures NumberOf(s + [c]) == 10 * NumberOf(s) + (c as int - '0' as int) && (s + [c])[0] == s[0]
  {
    assert (s + [c])[..|s|] == s;
  }

  /** What the launcher itself passes, in its order, each descriptor in the place of its name. */
  lemma OwnExactly(p: Passed)
    ensures Own(p)
      == ["memfd", "no_uml_dir", "seccomp=on", "sandbox", "cpuinfo_fd=" + Decimal(p.cpuinfo)]
         + (if p.initrd >= 0 then ["initrd=fd:" + Decimal(p.initrd)] else [])
         + (if p.mconsole >= 0 then ["mconsole=fd:" + Decimal(p.mconsole)] else [])
         + (if p.devices != [] then ["vfio_uml.container_fd=" + Decimal(p.container)] else [])
         + DeviceTexts(p.devices)
         + (if p.broker >= 0 then ["vduse_uml.broker_fd=" + Decimal(p.broker)] else [])
    ensures forall i | 0 <= i < |p.devices| :: var d := p.devices[i];
      DeviceTexts(p.devices)[i]
      == "vfio_uml.device=" + d.addr + ",group_fd=" + Decimal(d.groupFd)
         + if d.romFd >= 0 then ",rom_fd=" + Decimal(d.romFd) else ""
  {
    hide DeviceTexts, Decimal;
    assert BROKER_PARAM + "=" == "vduse_uml.broker_fd=";
    forall i | 0 <= i < |p.devices|
      ensures DeviceTexts(p.devices)[i] == DeviceText(p.devices[i])
    {
      DeviceTextAt(p.devices, i);
    }
  }

  lemma {:induction false} DeviceTextAt(devices: seq<PciDevice>, i: nat)
    requires i < |devices|
    ensures DeviceTexts(devices)[i] == DeviceText(devices[i])
  {
    var n := |devices| - 1;
    if i < n {
      DeviceTextAt(devices[..n], i);
    }
  }

  class Launcher {
    var exports: seq<Export>
    /** The array that each run's arguments are made in. */
    const args: array<Arg>

    /** What parse_export keeps. */
    predicate Valid()
      reads this`exports
    {
      && |exports| <= MAX_EXPORTS
      && (forall e | e in exports :: IsExport(e))
      && (forall i, j | 0 <= i < j < |exports| :: exports[i].name != exports[j].name)
    }

    constructor ()
      ensures Valid() && exports == [] && args.Length == MAX_ARGS && fresh(args)
    {
      exports, args := [], new Arg[MAX_ARGS](_ => Null);
    }

    /** What parse_export takes. */
    predicate Accepts(arg: string, e: Export)
      reads this`exports
    {
      && Describes(arg, e) && IsExport(e)
      && |exports| < 8
      && forall j | 0 <= j < |exports| :: exports[j].name != e.name
    }

    /** parse_export. Each false is a death. */
    method ParseExport(arg: string) returns (ok: bool)
      requires Valid()
      modifies this`exports
      ensures Valid()
      ensures ok ==> exists e :: old(Accepts(arg, e)) && exports == old(exports) + [e]
      ensures !ok ==> exports == old(exports) && forall e :: !old(Accepts(arg, e))
    {
      forall e {
        ParseExactly(arg, e);
      }
      hide Parse, Describes, IsExport;
      var parsed := Parse(arg);
      if |exports| == MAX_EXPORTS || parsed == None {
        return false;
      }
      for j := 0 to |exports|
        invariant forall i | 0 <= i < j :: exports[i].name != parsed.value.name
      {
        if exports[j].name == parsed.value.name {
          return false;
        }
      }
      exports := exports + [parsed.value];
      return true;
    }

    ghost predicate GivenBy(arg: string, k: nat)
      reads this`exports
    {
      k < |exports| && IsParam(arg, DEVICE_PARAM) && Gives(Value(arg), exports[k])
    }

    /** No argument gives two exports. */
    lemma GivenOnce(arg: string, j: nat, k: nat)
      requires Valid() && GivenBy(arg, j) && GivenBy(arg, k)
      ensures j == k
    {
      GivesExactly(Value(arg), exports[j]);
      GivesExactly(Value(arg), exports[k]);
    }

    lemma GivenExactly(arg: string, k: nat)
      requires Valid() && k < |exports| && IsParam(arg, DEVICE_PARAM)
      ensures var value := Value(arg); GivenBy(arg, k) <==>
        Comma(value) < |value| && exports[k].kind == Head(value) && exports[k].name == Head(Tail(value))
    {
      GivesExactly(Value(arg), exports[k]);
    }

    /** arg_export, with -1 for NULL. */
    method ArgExport(arg: string) returns (k: int)
      requires Valid() && IsParam(arg, DEVICE_PARAM)
      ensures if k >= 0 then GivenBy(arg, k) else k == -1 && forall j :: !GivenBy(arg, j)
    {
      hide Comma, Head, Tail, Gives, IsExport, GivenBy;
      OnlyExportsGiven(arg);
      forall j: nat | j < |exports| {
        GivenExactly(arg, j);
      }
      var value := arg[|DEVICE_PARAM| + 1..];
      if Comma(value) == |value| {
        return -1;
      }
      var kind, name := Head(value), Head(Tail(value));
      for i := 0 to |exports|
        invariant forall j | 0 <= j < i :: !GivenBy(arg, j)
      {
        if exports[i].kind == kind && exports[i].name == name {
          return i;
        }
      }
      return -1;
    }

    lemma OnlyExportsGiven(arg: string)
      ensures forall j: nat :: GivenBy(arg, j) ==> j < |exports|
    {
    }

    /** An argument before the "--" that the check can take, whatever the others are. */
    ghost predicate IsGood(arg: string)
      reads this`exports
    {
      && (exports != [] ==> Whole(arg))
      && !IsParam(arg, "vduse_uml.broker_fd")
      && (IsParam(arg, "vduse_guest.device") ==>
           (exists k :: GivenBy(arg, k)) && !Contains(arg, ",log=") && !Contains(arg, ",log_fd="))
    }

    /** No two of the first n arguments give one export. */
    ghost predicate AreDistinct(argv: seq<string>, n: nat)
      reads this`exports
      requires n <= |argv|
    {
      forall i, j, k | 1 <= i < j < n :: !(GivenBy(argv[i], k) && GivenBy(argv[j], k))
    }

    ghost predicate IsGiven(argv: seq<string>, n: nat, k: nat)
      reads this`exports
      requires n <= |argv|
    {
      exists i | 1 <= i < n :: GivenBy(argv[i], k)
    }

    /** What check_device_args promises. */
    ghost predicate Passes(argv: seq<string>)
      reads this`exports
      requires argv != []
    {
      && (forall i | 1 <= i < End(argv) :: IsGood(argv[i]))
      && AreDistinct(argv, End(argv))
      && (forall k | 0 <= k < |exports| :: IsGiven(argv, End(argv), k))
    }

    lemma Nothing(argv: seq<string>)
      requires argv != []
      ensures AreDistinct(argv, 1) && forall k :: !IsGiven(argv, 1, k)
    {
    }

    /** What one more argument changes, which gives export k or, for -1, none. */
    lemma NextArg(argv: seq<string>, i: nat, k: int)
      requires 1 <= i < |argv| && -1 <= k < |exports| && AreDistinct(argv, i)
      requires forall j :: GivenBy(argv[i], j) <==> j == k
      ensures k >= 0 && IsGiven(argv, i, k) ==> forall n | i < n <= |argv| :: !AreDistinct(argv, n)
      ensures k < 0 || !IsGiven(argv, i, k) ==> AreDistinct(argv, i + 1)
      ensures forall j :: IsGiven(argv, i + 1, j) <==> IsGiven(argv, i, j) || j == k
    {
      hide GivenBy;
      if k >= 0 {
        assert GivenBy(argv[i], k);
        if h :| 1 <= h < i && GivenBy(argv[h], k) {
          forall n | i < n <= |argv|
            ensures !AreDistinct(argv, n)
          {
            assert GivenBy(argv[h], k) && GivenBy(argv[i], k);
          }
        }
      }
    }

    /** check_device_args. Each false is a death. */
    method CheckDeviceArgs(argv: seq<string>) returns (ok: bool)
      requires Valid() && argv != []
      ensures ok == Passes(argv)
    {
      hide IsGood, AreDistinct, IsGiven, GivenBy;
      var given := new bool[MAX_EXPORTS](_ => false);
      Nothing(argv);
      var i := 1;
      while i < |argv| && argv[i] != "--"
        invariant 1 <= i <= End(argv)
        invariant forall j | 1 <= j < i :: IsGood(argv[j])
        invariant AreDistinct(argv, i)
        invariant forall k | 0 <= k < |exports| :: given[k] == IsGiven(argv, i, k)
      {
        var k := CheckArg(argv[i]);
        if k == -2 {
          return false;
        }
        NextArg(argv, i, k);
        if k >= 0 {
          if given[k] {
            return false;
          }
          given[k] := true;
        }
        forall j: nat | j < |exports|
          ensures given[j] == IsGiven(argv, i + 1, j)
        {
          assert IsGiven(argv, i + 1, j) <==> IsGiven(argv, i, j) || j == k;
        }
        i := i + 1;
      }
      assert i == End(argv);
      for k := 0 to |exports|
        invariant forall j | 0 <= j < k :: given[j]
      {
        if !given[k] {
          return false;
        }
      }
      ok := true;
    }

    /** One argument: the export that it gives, -1 if it gives none, or -2 if it cannot be taken. */
    method CheckArg(arg: string) returns (k: int)
      requires Valid()
      ensures -2 <= k < |exports|
      ensures k == -2 <==> !IsGood(arg)
      ensures k == -1 ==> forall j :: !GivenBy(arg, j)
      ensures k >= 0 ==> forall j :: GivenBy(arg, j) <==> j == k
    {
      if |exports| > 0 {
        var splits := TestSplits(arg);
        if splits {
          return -2;
        }
      }
      var isBroker := TestParam(arg, BROKER_PARAM);
      if isBroker {
        return -2;
      }
      var isDevice := TestParam(arg, DEVICE_PARAM);
      if !isDevice {
        return -1;
      }
      k := ArgExport(arg);
      if k < 0 || HasLog(arg) {
        return -2;
      }
      forall j | GivenBy(arg, j) {
        GivenOnce(arg, j, k);
      }
    }

    /** A device argument, which only one before the "--" can be. */
    predicate IsDevice(argv: seq<string>, i: nat)
      requires argv != []
    {
      1 <= i < End(argv) && IsParam(argv[i], DEVICE_PARAM)
    }

    lemma SameArg(argv: seq<string>, i: nat, j: nat, k: nat)
      requires argv != [] && AreDistinct(argv, End(argv)) && 1 <= i < End(argv) && 1 <= j < End(argv)
      requires GivenBy(argv[i], k) && GivenBy(argv[j], k)
      ensures i == j
    {
      hide GivenBy;
    }

    /**
     If the check passes, the device arguments and the exports are in bijection: export k is
     given by argument at[k], and each device argument is one of these.
     */
    lemma Bijection(argv: seq<string>) returns (at: seq<nat>)
      requires Valid() && argv != [] && Passes(argv)
      ensures |at| == |exports|
      ensures forall k | 0 <= k < |at| :: IsDevice(argv, at[k]) && GivenBy(argv[at[k]], k)
      ensures forall i: nat | IsDevice(argv, i) :: i in at
      ensures forall j, k | 0 <= j < k < |at| :: at[j] != at[k]
    {
      at := [];
      for n := 0 to |exports|
        invariant |at| == n
        invariant forall k | 0 <= k < n :: IsDevice(argv, at[k]) && GivenBy(argv[at[k]], k)
      {
        assert IsGiven(argv, End(argv), n);
        var i :| 1 <= i < End(argv) && GivenBy(argv[i], n);
        at := at + [i];
      }
      forall i: nat | IsDevice(argv, i)
        ensures i in at
      {
        assert IsGood(argv[i]);
        var k: nat :| GivenBy(argv[i], k);
        SameArg(argv, i, at[k], k);
      }
      forall j, k | 0 <= j < k < |at|
        ensures at[j] != at[k]
      {
        if at[j] == at[k] {
          GivenOnce(argv[at[j]], j, k);
        }
      }
    }

    /** The caller's argument i as the guest gets it. */
    ghost predicate IsPassed(argv: seq<string>, i: nat, text: string)
      reads this`exports
      requires argv != [] && i < |argv|
    {
      if IsDevice(argv, i) then
        exists k: nat :: GivenBy(argv[i], k) && text == WithLog(argv[i], exports[k].logFd)
      else
        text == argv[i]
    }

    /** The caller's arguments from the first on, in their order. */
    ghost predicate ArePassed(argv: seq<string>, texts: seq<string>)
      reads this`exports
      requires argv != []
    {
      |texts| <= |argv| - 1 && forall i | 0 <= i < |texts| :: IsPassed(argv, i + 1, texts[i])
    }

    /** The array starts with some arguments. */
    predicate Holds(texts: seq<string>)
      reads args
    {
      |texts| <= args.Length && forall i | 0 <= i < |texts| :: args[i] == Text(texts[i])
    }

    method Put(ghost texts: seq<string>, n: nat, text: string) returns (n': nat)
      requires Holds(texts) && n == |texts| < args.Length
      modifies args
      ensures n' == n + 1 && Holds(texts + [text])
    {
      args[n] := Text(text);
      n' := n + 1;
    }

    /** The first half of guest_argv: what the launcher itself passes. */
    method PutOwn(program: string, p: Passed) returns (n: nat)
      requires args.Length == MAX_ARGS && |p.devices| + 10 < MAX_ARGS
      modifies args
      ensures n == |[program] + Own(p)| && Holds([program] + Own(p))
    {
      hide Fixed, Container, DeviceTexts, If, Holds;
      ghost var none: seq<string> := [];
      assert Holds(none) by {
        HoldsNone();
      }
      n := Put(none, 0, program);
      assert none + [program] == [program];
      n := PutAll([program], n, Fixed(p));
      n := PutAll([program] + Fixed(p), n, Container(p));
      n := PutDevices([program] + Fixed(p) + Container(p), n, p.devices);
      ghost var before := [program] + Fixed(p) + Container(p) + DeviceTexts(p.devices);
      n := PutAll(before, n, If(p.broker, BROKER_PARAM + "="));
      Regroup([program], Fixed(p), Container(p));
      Regroup([program], Fixed(p) + Container(p), DeviceTexts(p.devices));
      Regroup([program], Fixed(p) + Container(p) + DeviceTexts(p.devices), If(p.broker, BROKER_PARAM + "="));
    }

    lemma HoldsNone()
      ensures Holds([])
    {
    }

    /** The loop over the devices in guest_argv. */
    method PutDevices(ghost before: seq<string>, n: nat, devices: seq<PciDevice>) returns (n': nat)
      requires Holds(before) && n == |before| && n + |devices| <= args.Length
      modifies args
      ensures n' == n + |devices| && Holds(before + DeviceTexts(devices))
    {
      n' := n;
      assert before + [] == before;
      for i := 0 to |devices|
        invariant n' == n + i && Holds(before + DeviceTexts(devices[..i]))
      {
        hide DeviceText, Holds;
        assert devices[..i + 1][..i] == devices[..i];
        n' := Put(before + DeviceTexts(devices[..i]), n', DeviceText(devices[i]));
        assert before + DeviceTexts(devices[..i]) + [DeviceText(devices[i])]
          == before + DeviceTexts(devices[..i + 1]);
      }
      assert devices[..|devices|] == devices;
    }

    method PutAll(ghost texts: seq<string>, n: nat, more: seq<string>) returns (n': nat)
      requires Holds(texts) && n == |texts| && n + |more| <= args.Length
      modifies args
      ensures n' == n + |more| && Holds(texts + more)
    {
      n' := n;
      for i := 0 to |more|
        invariant n' == n + i && Holds(texts + more[..i])
      {
        n' := Put(texts + more[..i], n', more[i]);
        assert texts + more[..i] + [more[i]] == texts + more[..i + 1];
      }
      assert more[..|more|] == more;
    }

    /**
     guest_argv. The result starts with the program and what the launcher passes, then has the
     caller's arguments, and ends with a NULL inside the array.
     */
    method GuestArgv(argv: seq<string>, p: Passed) returns (n: nat, ghost caller: seq<string>, ok: bool)
      requires Valid() && argv != [] && Passes(argv) && args.Length == MAX_ARGS
      modifies args
      ensures ok <==> |argv| + |p.devices| + 11 <= 256
      ensures ok ==> n < 256 && args[n] == Null && n == |[argv[0]] + Own(p) + caller|
      ensures ok ==> |caller| == |argv| - 1 && ArePassed(argv, caller)
      ensures ok ==> Holds([argv[0]] + Own(p) + caller)
    {
      n, caller, ok := 0, [], false;
      if |argv| + |p.devices| + 11 > MAX_ARGS {
        return;
      }
      ok := true;
      n := PutOwn(argv[0], p);
      n, caller := PutCaller([argv[0]] + Own(p), n, argv);
      args[n] := Null;
    }

    /** The loop over the caller's arguments in guest_argv. */
    method PutCaller(ghost own: seq<string>, n: nat, argv: seq<string>) returns (n': nat, ghost caller: seq<string>)
      requires Valid() && argv != [] && Passes(argv)
      requires Holds(own) && n == |own| && n + |argv| <= args.Length
      modifies args
      ensures n' == |own + caller| && |caller| == |argv| - 1 && ArePassed(argv, caller)
      ensures Holds(own + caller)
    {
      hide IsPassed, Holds, Passes, Valid, IsParam;
      n', caller := n, [];
      assert own + [] == own;
      var initArgs := false;
      for i := 1 to |argv|
        invariant |caller| == i - 1 && ArePassed(argv, caller)
        invariant n' == |own + caller| && Holds(own + caller)
        invariant initArgs <==> i > End(argv)
      {
        if argv[i] == "--" {
          initArgs := true;
        }
        var text := argv[i];
        if !initArgs {
          text := AddLog(argv, i);
        } else {
          KeptAsIs(argv, i);
        }
        n' := Put(own + caller, n', text);
        assert own + caller + [text] == own + (caller + [text]);
        caller := caller + [text];
      }
    }

    lemma KeptAsIs(argv: seq<string>, i: nat)
      requires argv != [] && End(argv) <= i < |argv|
      ensures IsPassed(argv, i, argv[i])
    {
    }

    method AddLog(argv: seq<string>, i: nat) returns (text: string)
      requires Valid() && argv != [] && Passes(argv) && 1 <= i < End(argv)
      ensures IsPassed(argv, i, text)
    {
      text := argv[i];
      var isDevice := TestParam(argv[i], DEVICE_PARAM);
      if isDevice {
        var k := ArgExport(argv[i]);
        assert IsGood(argv[i]);
        text := WithLog(argv[i], exports[k].logFd);
      }
    }

    /**
     The kernel's words up to "--" are what the launcher and the check know of: exactly one
     device parameter for each export, with the export's own log, and no broker but the
     launcher's. What is after the "--" is taken apart on its own. The i-th device parameter
     is that of export order[i].
     */
    lemma KernelSees(argv: seq<string>, p: Passed, caller: seq<string>, isSpace: char -> bool)
      returns (order: seq<nat>)
      requires Valid() && argv != [] && Passes(argv) && exports != [] && CanBeSpace(isSpace)
      requires |caller| == |argv| - 1 && ArePassed(argv, caller)
      requires forall d | d in p.devices :: IsAddress(d.addr)
      ensures AreWords(argv, p, caller, isSpace, WordsOf(Own(p) + caller, isSpace))
      ensures AreServed(Params(Seen(WordsOf(Own(p) + caller, isSpace)), DEVICE_PARAM), order)
    {
      hide *;
      var words := WordsOf(Own(p) + caller, isSpace);
      order := CallerParams(argv, caller);
      WordsAreSeen(argv, p, caller, isSpace);
      assert Params(Seen(words), DEVICE_PARAM) == Params(Checked(argv, caller), DEVICE_PARAM);
    }

    /** The words up to "--", and the one broker among them. */
    predicate AreWords(argv: seq<string>, p: Passed, caller: seq<string>, isSpace: char -> bool, words: seq<string>)
      requires argv != [] && |caller| == |argv| - 1
    {
      && words == Seen(words) + WordsOf(argv[End(argv)..], isSpace)
      && Seen(words) == NonEmpty(Own(p) + Checked(argv, caller))
      && Params(Seen(words), BROKER_PARAM) == If(p.broker, BROKER_PARAM + "=")
    }

    lemma WordsAreSeen(argv: seq<string>, p: Passed, caller: seq<string>, isSpace: char -> bool)
      requires Valid() && argv != [] && Passes(argv) && exports != [] && CanBeSpace(isSpace)
      requires |caller| == |argv| - 1 && ArePassed(argv, caller)
      requires forall d | d in p.devices :: IsAddress(d.addr)
      ensures var words := WordsOf(Own(p) + caller, isSpace);
        && AreWords(argv, p, caller, isSpace, words)
        && Params(Seen(words), DEVICE_PARAM) == Params(Checked(argv, caller), DEVICE_PARAM)
    {
      hide Valid, Passes, ArePassed, CanBeSpace, Own, WordsOf, NonEmpty, Params, If, Whole, IsParam, Checked, Seen;
      hide IsAddress;
      OwnParams(p);
      CheckedTexts(argv, caller);
      RestTexts(argv, caller);
      var checked, rest := Checked(argv, caller), argv[End(argv)..];
      Regroup(Own(p), checked, rest);
      SeenWords(Own(p), checked, rest, isSpace);
    }

    /** The parameters are those of different exports. */
    ghost predicate AreSome(params: seq<string>, order: seq<nat>)
      reads this`exports
    {
      && |order| == |params|
      && (forall i | 0 <= i < |order| :: order[i] < |exports| && Serves(params[i], exports[order[i]]))
      && (forall i, j | 0 <= i < j < |order| :: order[i] != order[j])
    }

    /** Each export has exactly one of the parameters, which is its own. */
    ghost predicate AreServed(params: seq<string>, order: seq<nat>)
      reads this`exports
    {
      AreSome(params, order) && forall k | 0 <= k < |exports| :: k in order
    }

    lemma CheckedTexts(argv: seq<string>, caller: seq<string>)
      requires Valid() && argv != [] && Passes(argv) && exports != []
      requires |caller| == |argv| - 1 && ArePassed(argv, caller)
      ensures forall s | s in Checked(argv, caller) :: Whole(s) && s != "--"
      ensures Params(Checked(argv, caller), BROKER_PARAM) == []
    {
      var checked := Checked(argv, caller);
      hide Valid, Passes, IsPassed, Whole, IsParam, Params;
      forall i | 0 <= i < |checked|
        ensures Whole(checked[i]) && checked[i] != "--" && !IsParam(checked[i], BROKER_PARAM)
      {
        PassedText(argv, i + 1, caller[i]);
      }
      NoParams(checked, BROKER_PARAM);
    }

    lemma RestTexts(argv: seq<string>, caller: seq<string>)
      requires argv != [] && |caller| == |argv| - 1 && ArePassed(argv, caller)
      ensures caller == Checked(argv, caller) + argv[End(argv)..]
    {
      hide IsPassed;
      forall i | End(argv) - 1 <= i < |caller|
        ensures caller[i] == argv[i + 1]
      {
        PassedAsIs(argv, i + 1, caller[i]);
      }
    }

    lemma PassedAsIs(argv: seq<string>, i: nat, text: string)
      requires argv != [] && End(argv) <= i < |argv| && IsPassed(argv, i, text)
      ensures text == argv[i]
    {
    }

    lemma PassedText(argv: seq<string>, i: nat, text: string)
      requires Valid() && argv != [] && Passes(argv) && exports != [] && 1 <= i < End(argv)
      requires IsPassed(argv, i, text)
      ensures Whole(text) && text != "--" && !IsParam(text, BROKER_PARAM)
    {
      assert IsGood(argv[i]);
      if IsDevice(argv, i) {
        var k: nat :| GivenBy(argv[i], k) && text == WithLog(argv[i], exports[k].logFd);
        LogServes(argv[i], exports[k]);
        LogIsWhole(argv[i], exports[k].logFd);
        OneParam(text);
        hide Whole, WithLog, Gives;
      }
    }

    /** The device parameters among the caller's arguments up to "--", and what they give. */
    lemma CallerParams(argv: seq<string>, caller: seq<string>) returns (order: seq<nat>)
      requires Valid() && argv != [] && Passes(argv)
      requires |caller| == |argv| - 1 && ArePassed(argv, caller)
      ensures AreServed(Params(Checked(argv, caller), DEVICE_PARAM), order)
    {
      order := [];
      Nothing(argv);
      for i := 1 to End(argv)
        invariant AreSome(Params(caller[..i - 1], DEVICE_PARAM), order)
        invariant forall k: nat :: k in order <==> IsGiven(argv, i, k)
      {
        assert caller[..i] == caller[..i - 1] + [caller[i - 1]];
        order := NextParam(argv, i, caller[i - 1], Params(caller[..i - 1], DEVICE_PARAM), order);
        ParamsAppend(caller[..i - 1], [caller[i - 1]], DEVICE_PARAM);
      }
    }

    lemma NextParam(argv: seq<string>, i: nat, text: string, params: seq<string>, order: seq<nat>)
      returns (order': seq<nat>)
      requires Valid() && argv != [] && Passes(argv) && 1 <= i < End(argv) && IsPassed(argv, i, text)
      requires AreSome(params, order) && forall k: nat :: k in order <==> IsGiven(argv, i, k)
      ensures AreSome(params + Params([text], DEVICE_PARAM), order')
      ensures forall k: nat :: k in order' <==> IsGiven(argv, i + 1, k)
    {
      assert IsGood(argv[i]);
      assert AreDistinct(argv, i);
      if IsDevice(argv, i) {
        var k: nat :| GivenBy(argv[i], k) && text == WithLog(argv[i], exports[k].logFd);
        forall j | GivenBy(argv[i], j) {
          GivenOnce(argv[i], j, k);
        }
        LogServes(argv[i], exports[k]);
        NextArg(argv, i, k);
        assert Params([text], DEVICE_PARAM) == [text];
        hide *;
        order' := order + [k];
      } else {
        NextArg(argv, i, -1);
        order' := order;
        assert params + [] == params;
      }
    }
  }

  /**
   The log that the launcher adds to an argument is the only one there: no other place of the
   result has a log, not even across the old end of the argument.
   */
  lemma LogIsOnlyOne(arg: string, fd: nat, i: int)
    requires !HasLog(arg)
    ensures StandsAt(WithLog(arg, fd), ",log_fd=", i) <==> i == |arg|
    ensures !StandsAt(WithLog(arg, fd), ",log=", i)
  {
    var text := WithLog(arg, fd);
    assert text == arg + ",log_fd=" + Decimal(fd);
    if i == |arg| {
      assert text[i..i + 8] == ",log_fd=";
      assert text[i + 4] == '_';
    } else if 0 <= i < |text| && text[i] == ',' {
      if i > |arg| {
        CommaInLog(arg, fd, i);
      } else {
        BeforeLog(arg, fd, i);
      }
    } else {
      NoComma(text, i);
    }
  }

  lemma NoComma(text: string, i: int)
    requires !(0 <= i < |text| && text[i] == ',')
    ensures !StandsAt(text, ",log_fd=", i) && !StandsAt(text, ",log=", i)
  {
    StandsChar(text, ",log_fd=", i, 0);
    StandsChar(text, ",log=", i, 0);
  }

  lemma StandsChar(text: string, part: string, i: int, k: nat)
    requires k < |part|
    ensures StandsAt(text, part, i) ==> text[i + k] == part[k]
  {
  }

  lemma CommaInLog(arg: string, fd: nat, i: int)
    requires |arg| < i < |WithLog(arg, fd)|
    ensures WithLog(arg, fd)[i] != ','
  {
    var k := i - |arg|;
    assert WithLog(arg, fd)[i] == (",log_fd=" + Decimal(fd))[k];
  }

  /** A log that starts before the end of the argument would be in the argument, or have two commas. */
  lemma BeforeLog(arg: string, fd: nat, i: int)
    requires !HasLog(arg) && 0 <= i < |arg|
    ensures !StandsAt(WithLog(arg, fd), ",log_fd=", i) && !StandsAt(WithLog(arg, fd), ",log=", i)
  {
    NotAcross(arg, fd, i, ",log_fd=");
    NotAcross(arg, fd, i, ",log=");
  }

  lemma NotAcross(arg: string, fd: nat, i: int, log: string)
    requires !Contains(arg, log) && 0 <= i < |arg|
    requires log != "" && forall k | 0 < k < |log| :: log[k] != ','
    ensures !StandsAt(WithLog(arg, fd), log, i)
  {
    var text := WithLog(arg, fd);
    if i + |log| <= |arg| {
      assert arg[i..i + |log|] == text[i..i + |log|];
      assert !StandsAt(arg, log, i);
    } else {
      StandsChar(text, log, i, |arg| - i);
    }
  }

  /** UML's command line: its arguments, each with a space after it. */
  function Line(args: seq<string>): string {
    if args == [] then "" else args[0] + (" " + Line(args[1..]))
  }

  /**
   How the kernel takes a line apart, at the bytes that it counts as space and that are not in
   quotes. word is what it has of the current word.
   */
  function Words(line: string, isSpace: char -> bool, word: string, quoted: bool): seq<string>
    decreases |line|
  {
    if line == "" then if word == "" then [] else [word]
    else if line[0] == '"' then Words(line[1..], isSpace, word + [line[0]], !quoted)
    else if !quoted && isSpace(line[0]) then
      (if word == "" then [] else [word]) + Words(line[1..], isSpace, "", false)
    else Words(line[1..], isSpace, word + [line[0]], quoted)
  }

  function WordsOf(args: seq<string>, isSpace: char -> bool): seq<string> {
    Words(Line(args), isSpace, "", false)
  }

  /** The words that the kernel takes as its own, which are those up to "--". */
  function Seen(words: seq<string>): seq<string> {
    words[..End(words, 0)]
  }

  /** The kernel may count any bytes as space among those that the check looks for. */
  ghost predicate CanBeSpace(isSpace: char -> bool) {
    isSpace(' ') && forall c :: isSpace(c) ==> c <= ' ' || c >= 0x7F as char
  }

  function NonEmpty(args: seq<string>): seq<string> {
    if args == [] then [] else (if args[0] == "" then [] else [args[0]]) + NonEmpty(args[1..])
  }

  /** The words that set a parameter. */
  function Params(words: seq<string>, name: string): (r: seq<string>)
    ensures forall w | w in r :: IsParam(w, name)
  {
    if words == [] then []
    else (if IsParam(words[0], name) then [words[0]] else []) + Params(words[1..], name)
  }

  lemma {:induction false} WordPasses(word: string, arg: string, rest: string, isSpace: char -> bool)
    requires Whole(arg) && CanBeSpace(isSpace)
    ensures Words(arg + rest, isSpace, word, false) == Words(rest, isSpace, word + arg, false)
    decreases |arg|
  {
    if arg == "" {
      assert arg + rest == rest && word + arg == word;
    } else {
      assert !Splits(arg[0]);
      assert (arg + rest)[1..] == arg[1..] + rest;
      WordPasses(word + [arg[0]], arg[1..], rest, isSpace);
      assert word + [arg[0]] + arg[1..] == word + arg;
    }
  }

  /** Whole arguments are words of the line, and what follows them is taken apart on its own. */
  lemma {:induction false} WordsAreArguments(args: seq<string>, rest: seq<string>, isSpace: char -> bool)
    requires CanBeSpace(isSpace) && forall arg | arg in args :: Whole(arg)
    ensures WordsOf(args + rest, isSpace) == NonEmpty(args) + WordsOf(rest, isSpace)
  {
    hide *;
    if args == [] {
      assert args + rest == rest && NonEmpty(args) == [] by {
        NoArguments();
      }
    } else {
      assert Whole(args[0]);
      FirstArgument(args[0], args[1..] + rest, isSpace);
      FirstNonEmpty(args);
      assert args + rest == [args[0]] + (args[1..] + rest);
      assert WordsOf(args[1..] + rest, isSpace) == NonEmpty(args[1..]) + WordsOf(rest, isSpace) by {
        WordsAreArguments(args[1..], rest, isSpace);
      }
      Regroup(NonEmpty([args[0]]), NonEmpty(args[1..]), WordsOf(rest, isSpace));
    }
  }

  lemma NoArguments()
    ensures NonEmpty([]) == []
  {
  }

  lemma FirstNonEmpty(args: seq<string>)
    requires args != []
    ensures NonEmpty(args) == NonEmpty([args[0]]) + NonEmpty(args[1..])
  {
    OneNonEmpty(args[0]);
  }

  lemma OneNonEmpty(arg: string)
    ensures NonEmpty([arg]) == if arg == "" then [] else [arg]
  {
    assert [arg][1..] == [];
  }

  lemma FirstArgument(arg: string, rest: seq<string>, isSpace: char -> bool)
    requires CanBeSpace(isSpace) && Whole(arg)
    ensures WordsOf([arg] + rest, isSpace) == NonEmpty([arg]) + WordsOf(rest, isSpace)
  {
    var line := Line(rest);
    assert ([arg] + rest)[1..] == rest && [arg][1..] == [];
    WordPasses("", arg, " " + line, isSpace);
    assert "" + arg == arg;
    assert (" " + line)[1..] == line;
  }

  lemma {:induction false} NonEmptyParams(args: seq<string>, name: string)
    ensures Params(NonEmpty(args), name) == Params(args, name)
    ensures forall arg | arg in NonEmpty(args) :: arg in args
  {
    if args != [] {
      NonEmptyParams(args[1..], name);
      assert !IsParam("", name);
      hide IsParam;
      var rest := NonEmpty(args[1..]);
      if args[0] == "" {
        assert NonEmpty(args) == rest;
        assert Params(args, name) == Params(args[1..], name);
      } else {
        assert NonEmpty(args)[1..] == rest;
      }
    }
  }

  lemma {:induction false} ParamsAppend(a: seq<string>, b: seq<string>, name: string)
    ensures Params(a + b, name) == Params(a, name) + Params(b, name)
  {
    if a == [] {
      assert a + b == b;
    } else {
      assert (a + b)[1..] == a[1..] + b;
      ParamsAppend(a[1..], b, name);
    }
  }

  lemma {:induction false} NoParams(words: seq<string>, name: string)
    requires forall w | w in words :: !IsParam(w, name)
    ensures Params(words, name) == []
  {
    if words != [] {
      NoParams(words[1..], name);
    }
  }

  /** What comes first of the rest of the words, after the arguments that were checked. */
  lemma RestStarts(rest: seq<string>, isSpace: char -> bool)
    requires CanBeSpace(isSpace) && (rest != [] ==> rest[0] == "--")
    ensures var words := WordsOf(rest, isSpace); words != [] ==> words[0] == "--"
  {
    if rest != [] {
      assert Whole("--") && [rest[0]] + rest[1..] == rest;
      WordsAreArguments([rest[0]], rest[1..], isSpace);
      assert NonEmpty([rest[0]]) == [rest[0]];
    }
  }

  /** Where the first "--" is. */
  lemma {:induction false} EndAfter(a: seq<string>, b: seq<string>, from: nat := 0)
    requires from <= |a| && "--" !in a && (b != [] ==> b[0] == "--")
    ensures End(a + b, from) == |a|
    decreases |a| - from
  {
    if from < |a| {
      assert (a + b)[from] == a[from];
      EndAfter(a, b, from + 1);
    }
  }

  /** What the words are, and what is before the first "--". */
  lemma SeenWords(own: seq<string>, first: seq<string>, rest: seq<string>, isSpace: char -> bool)
    requires CanBeSpace(isSpace) && (rest != [] ==> rest[0] == "--")
    requires (forall s | s in own :: Whole(s) && s != "--") && (forall s | s in first :: Whole(s) && s != "--")
    ensures var words := WordsOf(own + first + rest, isSpace);
      && words == Seen(words) + WordsOf(rest, isSpace)
      && Seen(words) == NonEmpty(own + first)
      && forall name :: Params(Seen(words), name) == Params(own, name) + Params(first, name)
  {
    hide Whole, CanBeSpace, Params, WordsOf, NonEmpty, End;
    var before, after := own + first, WordsOf(rest, isSpace);
    RestStarts(rest, isSpace);
    WordsAreArguments(before, rest, isSpace);
    forall name
      ensures Params(NonEmpty(before), name) == Params(own, name) + Params(first, name)
    {
      NonEmptyParams(before, name);
      ParamsAppend(own, first, name);
    }
    NonEmptyParams(before, "");
    EndAfter(NonEmpty(before), after);
  }

  lemma WholeAppend(a: string, b: string)
    requires Whole(a) && Whole(b)
    ensures Whole(a + b)
  {
  }

  lemma LogIsWhole(arg: string, fd: nat)
    requires Whole(arg)
    ensures Whole(WithLog(arg, fd))
  {
    DecimalIsWhole(fd);
    assert Whole(",log_fd=");
    WholeAppend(arg + ",log_fd=", Decimal(fd));
  }

  lemma DecimalIsWhole(n: nat)
    ensures Whole(Decimal(n))
  {
  }

  /** valid_address */
  predicate IsAddress(addr: string) {
    && |addr| == 12 && addr[4] == addr[7] == ':' && addr[10] == '.' && '0' <= addr[11] <= '7'
    && forall i | 0 <= i < 10 && i != 4 && i != 7 :: IsHexDigit(addr[i])
  }

  predicate IsHexDigit(c: char) {
    '0' <= c <= '9' || 'a' <= c <= 'f' || 'A' <= c <= 'F'
  }

  /** An argument of the launcher that sets neither of the parameters, and is no "--". */
  predicate IsPlain(s: string) {
    Whole(s) && |s| >= 2 && s[0] != '-' && !(s[0] == 'v' && s[1] == 'd')
  }

  lemma PlainIsNoParam(s: string)
    requires IsPlain(s)
    ensures s != "--" && !IsParam(s, DEVICE_PARAM) && !IsParam(s, BROKER_PARAM)
  {
    assert DEVICE_PARAM[0] == BROKER_PARAM[0] == 'v' && DEVICE_PARAM[1] == BROKER_PARAM[1] == 'd';
  }

  lemma PlainAppend(a: string, b: string)
    requires IsPlain(a) && Whole(b)
    ensures IsPlain(a + b)
  {
    WholeAppend(a, b);
    assert (a + b)[0] == a[0] && (a + b)[1] == a[1];
    hide Whole;
  }

  lemma PlainNumber(a: string, n: nat)
    requires IsPlain(a)
    ensures IsPlain(a + Decimal(n))
  {
    DecimalIsWhole(n);
    PlainAppend(a, Decimal(n));
  }

  lemma DeviceIsPlain(d: PciDevice)
    requires IsAddress(d.addr)
    ensures IsPlain(DeviceText(d))
  {
    assert Whole(d.addr);
    assert IsPlain("vfio_uml.device=") && Whole(",group_fd=") && Whole(",rom_fd=");
    hide IsPlain, Whole, IsAddress;
    PlainAppend("vfio_uml.device=", d.addr);
    PlainAppend("vfio_uml.device=" + d.addr, ",group_fd=");
    var s := "vfio_uml.device=" + d.addr + ",group_fd=";
    PlainNumber(s, d.groupFd);
    if d.romFd >= 0 {
      DecimalIsWhole(d.romFd);
      WholeAppend(",rom_fd=", Decimal(d.romFd));
      PlainAppend(s + Decimal(d.groupFd), ",rom_fd=" + Decimal(d.romFd));
    } else {
      assert s + Decimal(d.groupFd) + "" == s + Decimal(d.groupFd);
    }
  }

  lemma {:induction false} DevicesArePlain(devices: seq<PciDevice>)
    requires forall d | d in devices :: IsAddress(d.addr)
    ensures forall s | s in DeviceTexts(devices) :: IsPlain(s)
  {
    hide IsPlain, IsAddress, DeviceText;
    if devices != [] {
      var n := |devices| - 1;
      DevicesArePlain(devices[..n]);
      DeviceIsPlain(devices[n]);
    }
  }

  lemma IfIsPlain(fd: int, param: string)
    requires IsPlain(param)
    ensures forall s | s in If(fd, param) :: IsPlain(s)
  {
    if fd >= 0 {
      PlainNumber(param, fd);
    }
  }

  /** The launcher's own arguments but the last, which is the broker's. */
  function Plain(p: Passed): seq<string> {
    Fixed(p) + Container(p) + DeviceTexts(p.devices)
  }

  lemma NamesArePlain()
    ensures IsPlain("memfd") && IsPlain("no_uml_dir") && IsPlain("seccomp=on") && IsPlain("sandbox")
    ensures IsPlain("cpuinfo_fd=") && IsPlain("initrd=fd:") && IsPlain("mconsole=fd:")
    ensures IsPlain("vfio_uml.container_fd=")
  {
  }

  lemma FixedIsPlain(p: Passed)
    ensures forall s | s in Fixed(p) + Container(p) :: IsPlain(s)
  {
    NamesArePlain();
    hide IsPlain, If;
    PlainNumber("cpuinfo_fd=", p.cpuinfo);
    PlainNumber("vfio_uml.container_fd=", p.container);
    IfIsPlain(p.initrd, "initrd=fd:");
    IfIsPlain(p.mconsole, "mconsole=fd:");
  }

  lemma OwnIsPlain(p: Passed)
    requires forall d | d in p.devices :: IsAddress(d.addr)
    ensures forall s | s in Plain(p) :: IsPlain(s)
  {
    FixedIsPlain(p);
    DevicesArePlain(p.devices);
  }

  lemma BrokerParam(fd: int)
    ensures forall s | s in If(fd, BROKER_PARAM + "=") ::
      Whole(s) && s != "--" && IsParam(s, BROKER_PARAM) && !IsParam(s, DEVICE_PARAM)
  {
    if fd >= 0 {
      var s := BROKER_PARAM + "=" + Decimal(fd);
      assert Whole(BROKER_PARAM + "=");
      DecimalIsWhole(fd);
      WholeAppend(BROKER_PARAM + "=", Decimal(fd));
      assert s[|BROKER_PARAM|] == '=' && s[..|BROKER_PARAM|] == BROKER_PARAM;
      assert forall i | 0 <= i < |BROKER_PARAM| :: s[i] == BROKER_PARAM[i];
      OneParam(s);
    }
  }

  lemma OneParam(s: string)
    ensures !(IsParam(s, DEVICE_PARAM) && IsParam(s, BROKER_PARAM))
  {
    assert DEVICE_PARAM[6] == 'g' && BROKER_PARAM[6] == 'u';
    assert IsParam(s, DEVICE_PARAM) ==> Alike(s[6], 'g');
    assert IsParam(s, BROKER_PARAM) ==> Alike(s[6], 'u');
  }

  /** What the kernel sees of the launcher's own arguments. */
  lemma OwnParams(p: Passed)
    requires forall d | d in p.devices :: IsAddress(d.addr)
    ensures forall s | s in Own(p) :: Whole(s) && s != "--"
    ensures Params(Own(p), DEVICE_PARAM) == []
    ensures Params(Own(p), BROKER_PARAM) == If(p.broker, BROKER_PARAM + "=")
  {
    OwnIsPlain(p);
    forall s | s in Plain(p)
      ensures Whole(s) && s != "--" && !IsParam(s, DEVICE_PARAM) && !IsParam(s, BROKER_PARAM)
    {
      PlainIsNoParam(s);
    }
    var broker := If(p.broker, BROKER_PARAM + "=");
    BrokerParam(p.broker);
    assert Own(p) == Plain(p) + broker;
    assert |broker| <= 1 && (broker != [] ==> broker[1..] == []);
    hide Own, Plain, If, IsParam, IsPlain, Whole, IsAddress;
    NoParams(Own(p), DEVICE_PARAM);
    NoParams(Plain(p), BROKER_PARAM);
    ParamsAppend(Plain(p), broker, BROKER_PARAM);
    assert Params(broker, BROKER_PARAM) == broker;
  }

  /** A word of the command line that is the parameter of an export, with the export's own log. */
  ghost predicate Serves(word: string, e: Export) {
    && IsParam(word, "vduse_guest.device") && Gives(Value(word), e)
    && exists arg :: !HasLog(arg) && word == WithLog(arg, e.logFd)
  }

  lemma LogServes(arg: string, e: Export)
    requires IsParam(arg, DEVICE_PARAM) && Gives(Value(arg), e) && !HasLog(arg)
    ensures Serves(WithLog(arg, e.logFd), e)
  {
    var word := WithLog(arg, e.logFd);
    var log := ",log_fd=" + Decimal(e.logFd);
    assert word == arg + log;
    assert forall i | 0 <= i < |arg| :: word[i] == arg[i];
    assert IsParam(word, DEVICE_PARAM);
    var options :| StartsOption(options) && Value(arg) == e.kind + ("," + (e.name + options));
    assert Value(word) == Value(arg) + log;
    assert StartsOption(options + log);
    assert Value(word) == e.kind + ("," + (e.name + (options + log)));
  }
}
