/**
 The launcher's seccomp program (launcher/invirtio-launch.c), as a classic BPF program
 with an interpreter for the instructions that it uses, and the policy that it must be.
 The numbers are those of x86-64.
 */
module SyscallFilter {

  type Word = bv32

  /** struct seccomp_data. */
  datatype Call = Call(nr: Word, arch: Word, ip: bv64, args: seq<bv64>)

  predicate ValidCall(d: Call) {
    |d.args| == 6
  }

  function Low(x: bv64): Word {
    (x & 0xFFFF_FFFF) as Word
  }

  function High(x: bv64): Word {
    ((x >> 32) & 0xFFFF_FFFF) as Word
  }

  /** The word at an aligned offset of struct seccomp_data, on a little-endian machine. */
  function LoadWord(d: Call, offset: nat): Word
    requires ValidCall(d) && ValidOffset(offset)
  {
    if offset == 0 then d.nr
    else if offset == 4 then d.arch
    else if offset == 8 then Low(d.ip)
    else if offset == 12 then High(d.ip)
    else
      var arg := d.args[(offset - 16) / 8];
      if offset % 8 == 0 then Low(arg) else High(arg)
  }

  predicate ValidOffset(offset: nat) {
    offset % 4 == 0 && offset < 64
  }

  datatype Instruction =
    | Load(offset: nat)
    | JumpEqual(k: Word, jt: nat, jf: nat)
    | JumpSet(k: Word, jt: nat, jf: nat)
    | Return(k: Word)

  type Program = seq<Instruction>

  datatype Outcome = Returned(value: Word) | Fault

  datatype Effect = Go(skip: nat, acc: Word) | Stop(outcome: Outcome)

  /** One instruction: how many instructions it skips and the accumulator, or the end. */
  function Execute(i: Instruction, acc: Word, d: Call): Effect
    requires ValidCall(d)
  {
    match i
    case Load(offset) =>
      if ValidOffset(offset) then Go(0, LoadWord(d, offset)) else Stop(Fault)
    case JumpEqual(k, jt, jf) => Go(if acc == k then jt else jf, acc)
    case JumpSet(k, jt, jf) => Go(if acc & k != 0 then jt else jf, acc)
    case Return(k) => Stop(Returned(k))
  }

  /** Runs a program from pc with an accumulator. Running off its end is a fault. */
  function Run(p: Program, pc: nat, acc: Word, d: Call): Outcome
    requires ValidCall(d)
    decreases |p| - pc
  {
    if pc >= |p| then Fault
    else
      match Execute(p[pc], acc, d)
      case Go(skip, acc') => Run(p, pc + 1 + skip, acc', d)
      case Stop(outcome) => outcome
  }

  /** Jumps only go forward, so what comes before an instruction has no effect on it. */
  lemma {:induction false} RunShift(before: Program, p: Program, pc: nat, acc: Word, d: Call)
    requires ValidCall(d)
    ensures Run(before + p, |before| + pc, acc, d) == Run(p, pc, acc, d)
    decreases |p| - pc
  {
    if pc < |p| {
      assert (before + p)[|before| + pc] == p[pc];
      match Execute(p[pc], acc, d)
      case Go(skip, acc') => RunShift(before, p, pc + 1 + skip, acc', d);
      case Stop(_) =>
    }
  }

  /** What the kernel checks of an instruction with so many instructions after it. */
  predicate Fits(i: Instruction, after: nat) {
    match i
    case Load(offset) => ValidOffset(offset) && 0 < after
    case JumpEqual(_, jt, jf) => jt < 256 && jf < 256 && jt < after && jf < after
    case JumpSet(_, jt, jf) => jt < 256 && jf < 256 && jt < after && jf < after
    case Return(_) => true
  }

  /** A part of a program that the kernel accepts if enough instructions follow it. */
  predicate AllFit(p: Program, after: nat) {
    forall i | 0 <= i < |p| :: Fits(p[i], |p| - i - 1 + after)
  }

  /** The kernel's check of a whole program, which must end in a return. */
  predicate Checked(p: Program) {
    p != [] && p[|p| - 1].Return? && AllFit(p, 0)
  }

  lemma AllFitAppend(a: Program, b: Program, after: nat)
    requires AllFit(a, |b| + after) && AllFit(b, after)
    ensures AllFit(a + b, after)
  {
    forall i | 0 <= i < |a + b|
      ensures Fits((a + b)[i], |a + b| - i - 1 + after)
    {
      if i >= |a| {
        assert (a + b)[i] == b[i - |a|];
      }
    }
  }

  lemma {:induction false} CheckedReturns(p: Program, pc: nat, acc: Word, d: Call)
    requires ValidCall(d) && Checked(p) && pc < |p|
    ensures Run(p, pc, acc, d).Returned?
    decreases |p| - pc
  {
    assert Fits(p[pc], |p| - pc - 1);
    match Execute(p[pc], acc, d)
    case Go(skip, acc') => CheckedReturns(p, pc + 1 + skip, acc', d);
    case Stop(_) =>
  }

  const ALLOW: Word := 0x7FFF_0000
  const ERRNO_EPERM: Word := 0x0005_0001
  const ERRNO_ENOSYS: Word := 0x0005_0026

  const NR_OFFSET: nat := 0
  const ARCH_OFFSET: nat := 4

  function ArgOffset(i: nat): nat {
    16 + 8 * i
  }

  /** The DENY macro, for each number of a list. */
  function Deny(nrs: seq<Word>): Program {
    if nrs == [] then []
    else [JumpEqual(nrs[0], 0, 1), Return(ERRNO_EPERM)] + Deny(nrs[1..])
  }

  /**
   For any list and any program after it, DENY returns EPERM for exactly the numbers of the
   list, and otherwise goes on with the accumulator as it was.
   */
  lemma {:induction false} DenyCorrect(nrs: seq<Word>, after: Program, acc: Word, d: Call)
    requires ValidCall(d)
    ensures Run(Deny(nrs) + after, 0, acc, d)
      == if acc in nrs then Returned(ERRNO_EPERM) else Run(after, 0, acc, d)
  {
    if nrs == [] {
      assert Deny(nrs) + after == after;
    } else {
      var one := [JumpEqual(nrs[0], 0, 1), Return(ERRNO_EPERM)];
      var rest := Deny(nrs[1..]) + after;
      assert Deny(nrs) + after == one + rest;
      RunShift(one, rest, 0, acc, d);
      DenyCorrect(nrs[1..], after, acc, d);
      assert acc in nrs <==> acc == nrs[0] || acc in nrs[1..];
    }
  }

  const AUDIT_ARCH_X86_64: Word := 0xC000_003E
  const X32_SYSCALL_BIT: Word := 0x4000_0000

  const NR_IOCTL: Word := 16
  const NR_SOCKET: Word := 41
  const NR_SOCKETPAIR: Word := 53
  const NR_CLONE: Word := 56
  const NR_CLONE3: Word := 435

  const TIOCSTI: Word := 0x5412
  const TIOCLINUX: Word := 0x541C
  const TIOCSETD: Word := 0x5423
  const AF_UNIX: Word := 1

  /** CLONE_NEWNS, NEWCGROUP, NEWUTS, NEWIPC, NEWUSER, NEWPID and NEWNET. */
  const CLONE_NAMESPACES: Word :=
    0x0002_0000 | 0x0200_0000 | 0x0400_0000 | 0x0800_0000
    | 0x1000_0000 | 0x2000_0000 | 0x4000_0000

  /** The denied calls, in the order of the source. */
  const DENIED: seq<Word> := [
    101, // ptrace
    310, // process_vm_readv
    311, // process_vm_writev
    165, // mount
    166, // umount2
    155, // pivot_root
    161, // chroot
    430, // fsopen
    431, // fsconfig
    432, // fsmount
    433, // fspick
    429, // move_mount
    428, // open_tree
    442, // mount_setattr
    272, // unshare
    308, // setns
    321, // bpf
    298, // perf_event_open
    323, // userfaultfd
    425, // io_uring_setup
    426, // io_uring_enter
    427, // io_uring_register
    248, // add_key
    249, // request_key
    250, // keyctl
    175, // init_module
    313, // finit_module
    176, // delete_module
    246, // kexec_load
    320, // kexec_file_load
    169, // reboot
    172, // iopl
    173, // ioperm
    167, // swapon
    168, // swapoff
    163, // acct
    179, // quotactl
    304, // open_by_handle_at
    303, // name_to_handle_at
    300, // fanotify_init
    103  // syslog
  ]

  const PROLOGUE: Program := [
    Load(ARCH_OFFSET),
    JumpEqual(AUDIT_ARCH_X86_64, 1, 0),
    Return(ERRNO_EPERM),
    Load(NR_OFFSET),
    JumpSet(X32_SYSCALL_BIT, 0, 1),
    Return(ERRNO_EPERM)
  ]

  const IOCTL: Program := [
    JumpEqual(NR_IOCTL, 0, 6),
    Load(ArgOffset(1)),
    JumpEqual(TIOCSETD, 3, 0),
    JumpEqual(TIOCSTI, 2, 0),
    JumpEqual(TIOCLINUX, 1, 0),
    Return(ALLOW),
    Return(ERRNO_EPERM)
  ]

  const CLONE3: Program := [
    JumpEqual(NR_CLONE3, 0, 1),
    Return(ERRNO_ENOSYS)
  ]

  const CLONE: Program := [
    JumpEqual(NR_CLONE, 0, 4),
    Load(ArgOffset(0)),
    JumpSet(CLONE_NAMESPACES, 1, 0),
    Return(ALLOW),
    Return(ERRNO_EPERM)
  ]

  const SOCKET: Program := [
    JumpEqual(NR_SOCKET, 1, 0),
    JumpEqual(NR_SOCKETPAIR, 0, 4),
    Load(ArgOffset(0)),
    JumpEqual(AF_UNIX, 0, 1),
    Return(ALLOW),
    Return(ERRNO_EPERM)
  ]

  /** launcher_filter, for any list of denied calls. */
  function Filter(denied: seq<Word>): Program {
    PROLOGUE + (Deny(denied) + (IOCTL + (CLONE3 + (CLONE + (SOCKET + [Return(ALLOW)])))))
  }

  datatype Decision = Allowed | Refused | Unimplemented

  function Value(v: Decision): Word {
    match v
    case Allowed => ALLOW
    case Refused => ERRNO_EPERM
    case Unimplemented => ERRNO_ENOSYS
  }

  /** The calls that the policy refuses, with no order between the reasons. */
  predicate Forbidden(denied: seq<Word>, d: Call)
    requires ValidCall(d)
  {
    || d.arch != AUDIT_ARCH_X86_64
    || d.nr & X32_SYSCALL_BIT != 0
    || d.nr in denied
    || (d.nr == NR_IOCTL && Low(d.args[1]) in {TIOCSETD, TIOCSTI, TIOCLINUX})
    || (d.nr == NR_CLONE && Low(d.args[0]) & CLONE_NAMESPACES != 0)
    || (d.nr in {NR_SOCKET, NR_SOCKETPAIR} && Low(d.args[0]) != AF_UNIX)
  }

  function Policy(denied: seq<Word>, d: Call): Decision
    requires ValidCall(d)
  {
    if Forbidden(denied, d) then Refused
    else if d.nr == NR_CLONE3 then Unimplemented
    else Allowed
  }

  lemma PrologueCorrect(after: Program, acc: Word, d: Call)
    requires ValidCall(d)
    ensures Run(PROLOGUE + after, 0, acc, d)
      == if d.arch != AUDIT_ARCH_X86_64 || d.nr & X32_SYSCALL_BIT != 0
         then Returned(ERRNO_EPERM)
         else Run(after, 0, d.nr, d)
  {
    var p := PROLOGUE + after;
    assert p[..6] == PROLOGUE;
    assert Run(p, 0, acc, d) == Run(p, 1, d.arch, d);
    assert Run(p, 1, d.arch, d)
      == Run(p, if d.arch == AUDIT_ARCH_X86_64 then 3 else 2, d.arch, d);
    assert Run(p, 2, d.arch, d) == Returned(ERRNO_EPERM);
    assert Run(p, 3, d.arch, d) == Run(p, 4, d.nr, d);
    assert Run(p, 4, d.nr, d) == Run(p, if d.nr & X32_SYSCALL_BIT != 0 then 5 else 6, d.nr, d);
    assert Run(p, 5, d.nr, d) == Returned(ERRNO_EPERM);
    RunShift(PROLOGUE, after, 0, d.nr, d);
  }

  lemma IoctlCorrect(after: Program, acc: Word, d: Call)
    requires ValidCall(d)
    ensures Run(IOCTL + after, 0, acc, d)
      == if acc == NR_IOCTL then
           if Low(d.args[1]) in {TIOCSETD, TIOCSTI, TIOCLINUX} then Returned(ERRNO_EPERM)
           else Returned(ALLOW)
         else Run(after, 0, acc, d)
  {
    var p := IOCTL + after;
    assert p[..7] == IOCTL;
    if acc == NR_IOCTL {
      var request := Low(d.args[1]);
      assert Run(p, 0, acc, d) == Run(p, 1, acc, d);
      assert Run(p, 1, acc, d) == Run(p, 2, request, d);
      assert Run(p, 2, request, d) == Run(p, if request == TIOCSETD then 6 else 3, request, d);
      assert Run(p, 3, request, d) == Run(p, if request == TIOCSTI then 6 else 4, request, d);
      assert Run(p, 4, request, d) == Run(p, if request == TIOCLINUX then 6 else 5, request, d);
      assert Run(p, 5, request, d) == Returned(ALLOW);
      assert Run(p, 6, request, d) == Returned(ERRNO_EPERM);
    } else {
      assert Run(p, 0, acc, d) == Run(p, 7, acc, d);
      RunShift(IOCTL, after, 0, acc, d);
    }
  }

  lemma Clone3Correct(after: Program, acc: Word, d: Call)
    requires ValidCall(d)
    ensures Run(CLONE3 + after, 0, acc, d)
      == if acc == NR_CLONE3 then Returned(ERRNO_ENOSYS) else Run(after, 0, acc, d)
  {
    assert (CLONE3 + after)[..2] == CLONE3;
    RunShift(CLONE3, after, 0, acc, d);
  }

  lemma CloneCorrect(after: Program, acc: Word, d: Call)
    requires ValidCall(d)
    ensures Run(CLONE + after, 0, acc, d)
      == if acc == NR_CLONE then
           if Low(d.args[0]) & CLONE_NAMESPACES != 0 then Returned(ERRNO_EPERM)
           else Returned(ALLOW)
         else Run(after, 0, acc, d)
  {
    var p := CLONE + after;
    assert p[..5] == CLONE;
    if acc == NR_CLONE {
      var flags := Low(d.args[0]);
      assert Run(p, 0, acc, d) == Run(p, 1, acc, d);
      assert Run(p, 1, acc, d) == Run(p, 2, flags, d);
      assert Run(p, 2, flags, d)
        == Run(p, if flags & CLONE_NAMESPACES != 0 then 4 else 3, flags, d);
      assert Run(p, 3, flags, d) == Returned(ALLOW);
      assert Run(p, 4, flags, d) == Returned(ERRNO_EPERM);
    } else {
      assert Run(p, 0, acc, d) == Run(p, 5, acc, d);
      RunShift(CLONE, after, 0, acc, d);
    }
  }

  lemma SocketCorrect(after: Program, acc: Word, d: Call)
    requires ValidCall(d)
    ensures Run(SOCKET + after, 0, acc, d)
      == if acc in {NR_SOCKET, NR_SOCKETPAIR} then
           if Low(d.args[0]) == AF_UNIX then Returned(ALLOW) else Returned(ERRNO_EPERM)
         else Run(after, 0, acc, d)
  {
    var p := SOCKET + after;
    assert p[..6] == SOCKET;
    assert Run(p, 0, acc, d) == Run(p, if acc == NR_SOCKET then 2 else 1, acc, d);
    assert Run(p, 1, acc, d) == Run(p, if acc == NR_SOCKETPAIR then 2 else 6, acc, d);
    if acc == NR_SOCKET || acc == NR_SOCKETPAIR {
      var family := Low(d.args[0]);
      assert Run(p, 2, acc, d) == Run(p, 3, family, d);
      assert Run(p, 3, family, d) == Run(p, if family == AF_UNIX then 4 else 5, family, d);
      assert Run(p, 4, family, d) == Returned(ALLOW);
      assert Run(p, 5, family, d) == Returned(ERRNO_EPERM);
    } else {
      RunShift(SOCKET, after, 0, acc, d);
    }
  }

  /** The program is the policy, for every call and every list of denied calls. */
  lemma FilterIsPolicy(denied: seq<Word>, d: Call)
    requires ValidCall(d)
    ensures Run(Filter(denied), 0, 0, d) == Returned(Value(Policy(denied, d)))
  {
    var last := [Return(ALLOW)];
    var sockets := SOCKET + last;
    var clones := CLONE + sockets;
    var clone3 := CLONE3 + clones;
    var ioctls := IOCTL + clone3;
    PrologueCorrect(Deny(denied) + ioctls, 0, d);
    DenyCorrect(denied, ioctls, d.nr, d);
    IoctlCorrect(clone3, d.nr, d);
    Clone3Correct(clones, d.nr, d);
    CloneCorrect(sockets, d.nr, d);
    SocketCorrect(last, d.nr, d);
  }

  /** Two arguments differ in their high words only. */
  predicate SameLowWord(x: bv64, y: bv64) {
    x << 32 == y << 32
  }

  /** Of an argument only the low 32 bits decide, as the kernel's own calls read them. */
  lemma FilterReadsLowWords(denied: seq<Word>, d: Call, e: Call)
    requires ValidCall(d) && ValidCall(e)
    requires d.nr == e.nr && d.arch == e.arch
    requires SameLowWord(d.args[0], e.args[0]) && SameLowWord(d.args[1], e.args[1])
    ensures Run(Filter(denied), 0, 0, d) == Run(Filter(denied), 0, 0, e)
  {
    hide *;
    FilterIsPolicy(denied, d);
    FilterIsPolicy(denied, e);
    SameLows(d, e);
    PolicyReadsLowWords(denied, d, e);
  }

  lemma SameLow(x: bv64, y: bv64)
    requires SameLowWord(x, y)
    ensures Low(x) == Low(y)
  {
  }

  lemma SameLows(d: Call, e: Call)
    requires ValidCall(d) && ValidCall(e)
    requires SameLowWord(d.args[0], e.args[0]) && SameLowWord(d.args[1], e.args[1])
    ensures Low(d.args[0]) == Low(e.args[0]) && Low(d.args[1]) == Low(e.args[1])
  {
    hide Low, SameLowWord;
    SameLow(d.args[0], e.args[0]);
    SameLow(d.args[1], e.args[1]);
  }

  lemma PolicyReadsLowWords(denied: seq<Word>, d: Call, e: Call)
    requires ValidCall(d) && ValidCall(e)
    requires d.nr == e.nr && d.arch == e.arch
    requires Low(d.args[0]) == Low(e.args[0]) && Low(d.args[1]) == Low(e.args[1])
    ensures Policy(denied, d) == Policy(denied, e)
  {
    hide Low;
  }

  /**
   Each outcome has exactly its reasons. The three outcomes differ, and clone3 has no flags
   that could be refused, as long as it is not in the list itself.
   */
  lemma FilterOutcomes(denied: seq<Word>, d: Call)
    requires ValidCall(d) && NR_CLONE3 !in denied
    ensures var r := Run(Filter(denied), 0, 0, d);
      && (r == Returned(ERRNO_EPERM) <==> Forbidden(denied, d))
      && (r == Returned(ERRNO_ENOSYS) <==> d.arch == AUDIT_ARCH_X86_64 && d.nr == NR_CLONE3)
      && (r == Returned(ALLOW) <==> !Forbidden(denied, d) && d.nr != NR_CLONE3)
  {
    FilterIsPolicy(denied, d);
    assert NR_CLONE3 & X32_SYSCALL_BIT == 0;
  }

  lemma DeniedList()
    ensures |DENIED| == 41
  {
  }

  lemma Clone3IsNotDenied()
    ensures NR_CLONE3 !in DENIED
  {
  }

  /** The launcher's own list, for which the lemmas above hold. */
  lemma LauncherFilterIsPolicy(d: Call)
    requires ValidCall(d)
    ensures Checked(Filter(DENIED)) && |Filter(DENIED)| == 109
    ensures Run(Filter(DENIED), 0, 0, d) == Returned(Value(Policy(DENIED, d)))
  {
    hide *;
    DeniedList();
    Clone3IsNotDenied();
    FilterChecked(DENIED);
    FilterIsPolicy(DENIED, d);
  }

  /** An argument of a call in its two words. */
  function Argument(high: Word, low: Word): bv64 {
    ((high as bv64) << 32) | (low as bv64)
  }

  lemma HalvesOfArgument(high: Word, low: Word)
    ensures Low(Argument(high, low)) == low && High(Argument(high, low)) == high
  {
  }

  /** The numbers of the denied calls, in their order. */
  lemma DeniedNumbers(nr: Word)
    ensures nr in DENIED <==>
      nr in {101, 103, 155, 161, 163, 165, 166, 167, 168, 169, 172, 173, 175, 176, 179,
             246, 248, 249, 250, 272, 298, 300, 303, 304, 308, 310, 311, 313, 320, 321, 323,
             425, 426, 427, 428, 429, 430, 431, 432, 433, 442}
  {
  }

  /**
   What the launcher's own program decides, in the numbers of x86-64 and the two words of each
   argument: which calls get EPERM, that clone3 gets ENOSYS, and that all others pass.
   */
  lemma LauncherDecides(d: Call, high0: Word, low0: Word, high1: Word, low1: Word)
    requires ValidCall(d) && d.args[0] == Argument(high0, low0) && d.args[1] == Argument(high1, low1)
    ensures var refused :=
        || d.arch != 0xC000_003E
        || d.nr & 0x4000_0000 != 0
        || d.nr in DENIED
        || (d.nr == 16 && (low1 == 0x5423 || low1 == 0x5412 || low1 == 0x541C))
        || (d.nr == 56 && low0 & 0x7E02_0000 != 0)
        || ((d.nr == 41 || d.nr == 53) && low0 != 1);
      Run(Filter(DENIED), 0, 0, d)
      == Returned(if refused then 0x0005_0001 else if d.nr == 435 then 0x0005_0026 else 0x7FFF_0000)
  {
    HalvesOfArgument(high0, low0);
    HalvesOfArgument(high1, low1);
    FilterIsPolicy(DENIED, d);
    hide Run, Filter, Low, High, Argument;
    assert CLONE_NAMESPACES == 0x7E02_0000;
  }

  lemma {:induction false} DenyFits(nrs: seq<Word>, after: nat)
    requires 0 < after
    ensures AllFit(Deny(nrs), after) && |Deny(nrs)| == 2 * |nrs|
  {
    if nrs != [] {
      DenyFits(nrs[1..], after);
      var one := [JumpEqual(nrs[0], 0, 1), Return(ERRNO_EPERM)];
      AllFitAppend(one, Deny(nrs[1..]), after);
    }
  }

  /** The program passes the kernel's check, so it returns from any instruction on. */
  lemma FilterChecked(denied: seq<Word>)
    ensures Checked(Filter(denied)) && |Filter(denied)| == 27 + 2 * |denied|
  {
    var last := [Return(ALLOW)];
    var sockets := SOCKET + last;
    var clones := CLONE + sockets;
    var clone3 := CLONE3 + clones;
    var ioctls := IOCTL + clone3;
    AllFitAppend(SOCKET, last, 0);
    AllFitAppend(CLONE, sockets, 0);
    AllFitAppend(CLONE3, clones, 0);
    AllFitAppend(IOCTL, clone3, 0);
    DenyFits(denied, |ioctls|);
    AllFitAppend(Deny(denied), ioctls, 0);
    AllFitAppend(PROLOGUE, Deny(denied) + ioctls, 0);
  }
}
