/**
 The descriptors that one run of the guest opens and closes in the launcher
 (launcher/invirtio-launch.c). Class Launcher has the launcher's descriptor table, and its
 methods follow the functions of the source. A new descriptor is one that is not in use,
 and only an open descriptor can be closed. Any call can fail, and the launcher then dies,
 which a method tells by returning false.
 */
module Descriptors {

  /** The open descriptors, each once, of a table or of a part of one. */
  datatype Table = Table(open: multiset<nat>) {
    /** What two parts have open. */
    function And(other: Table): Table {
      Table(open + other.open)
    }
  }

  const NONE := Table(multiset{})

  /** The descriptors of a -d device: its ROM, or -1, and its IOMMU group. */
  datatype Device = Device(romFd: int, groupFd: int)

  /** struct guest_fds, with -1 for what is not used. */
  datatype GuestFds = GuestFds(
    container: int,
    initrd: int,
    cpuinfo: int,
    mconsoleGuest: int,
    mconsole: int,
    mconsoleRelay: int,
    brokerGuest: int,
    broker: int)

  /** A descriptor, unless it is not used. */
  function Used(fd: int): Table {
    if fd >= 0 then Table(multiset{fd as nat}) else NONE
  }

  /** What a list has open. */
  function Sum(fds: seq<int>): Table {
    if fds == [] then NONE else Used(fds[0]).And(Sum(fds[1..]))
  }

  lemma {:induction false} SumAppend(s: seq<int>, t: seq<int>)
    ensures Sum(s + t) == Sum(s).And(Sum(t))
  {
    if s == [] {
      assert s + t == t;
    } else {
      assert (s + t)[1..] == s[1..] + t;
      SumAppend(s[1..], t);
    }
  }

  lemma SumPair(a: int, b: int)
    ensures Sum([a, b]) == Used(a).And(Used(b))
  {
    assert [a, b][1..] == [b];
    assert Sum([b][1..]) == NONE;
  }

  lemma {:induction false} SumCounts(s: seq<int>, i: nat)
    requires i < |s| && s[i] >= 0
    ensures s[i] as nat in Sum(s).open
  {
    if i > 0 {
      SumCounts(s[1..], i - 1);
    }
  }

  /** No earlier device has the descriptor of device i's group. */
  predicate IsFirst(devices: seq<Device>, i: nat)
    requires i < |devices|
  {
    forall j | 0 <= j < i :: devices[j].groupFd != devices[i].groupFd
  }

  /** The descriptor of device i's group, if the device is the first that has it. */
  function OwnGroup(devices: seq<Device>, i: nat): int
    requires i < |devices|
  {
    if IsFirst(devices, i) then devices[i].groupFd else -1
  }

  /** The descriptors of the first n devices: the ROM of each, and the group's of its first device. */
  function DeviceList(devices: seq<Device>, n: nat): (r: seq<int>)
    requires n <= |devices|
    ensures |r| == 2 * n
  {
    if n == 0 then []
    else DeviceList(devices, n - 1) + [devices[n - 1].romFd, OwnGroup(devices, n - 1)]
  }

  lemma {:induction false} DeviceListAt(devices: seq<Device>, i: nat, n: nat)
    requires i < n <= |devices|
    ensures DeviceList(devices, n)[2 * i] == devices[i].romFd
    ensures DeviceList(devices, n)[2 * i + 1] == OwnGroup(devices, i)
  {
    if i < n - 1 {
      DeviceListAt(devices, i, n - 1);
    }
  }

  lemma {:induction false} DeviceListPrefix(devices: seq<Device>, device: Device, n: nat)
    requires n <= |devices|
    ensures DeviceList(devices + [device], n) == DeviceList(devices, n)
  {
    if n > 0 {
      DeviceListPrefix(devices, device, n - 1);
      assert IsFirst(devices + [device], n - 1) <==> IsFirst(devices, n - 1) by {
        assert forall j | 0 <= j < n :: (devices + [device])[j] == devices[j];
      }
    }
  }

  /** Every group's descriptor is in the list, by its first device. */
  lemma {:induction false} GroupIsListed(devices: seq<Device>, i: nat, n: nat)
    requires i < n <= |devices| && devices[i].groupFd >= 0
    ensures devices[i].groupFd as nat in Sum(DeviceList(devices, n)).open
    decreases i
  {
    if IsFirst(devices, i) {
      DeviceListAt(devices, i, n);
      SumCounts(DeviceList(devices, n), 2 * i + 1);
    } else {
      var j :| 0 <= j < i && devices[j].groupFd == devices[i].groupFd;
      GroupIsListed(devices, j, n);
    }
  }

  /** A part of a sum can be put last. */
  lemma Take(rest: Table, part: Table, more: Table)
    ensures rest.And(part.And(more)) == rest.And(more).And(part)
  {
  }

  class Launcher {
    /** The group of each -d device, and whether it has a ROM. */
    const groupIds: seq<int>
    const roms: seq<bool>
    const initrd: bool
    const serveMconsole: bool
    const exports: nat
    /** Whether the launcher's console is a terminal. */
    const terminal: bool

    var devices: seq<Device>
    var logFds: seq<int>
    var ptyMaster: int
    var ptySlave: int
    /** The launcher's descriptor table. */
    var table: Table
    /** Whether a call has failed. */
    ghost var failed: bool

    constructor (groupIds: seq<int>, roms: seq<bool>, initrd: bool, serveMconsole: bool,
                 exports: nat, terminal: bool, table: Table)
      requires |roms| == |groupIds|
      ensures this.groupIds == groupIds && this.roms == roms && this.table == table
      ensures this.exports == exports && this.terminal == terminal
      ensures this.initrd == initrd && this.serveMconsole == serveMconsole && !failed
    {
      this.groupIds, this.roms, this.initrd := groupIds, roms, initrd;
      this.serveMconsole, this.exports, this.terminal := serveMconsole, exports, terminal;
      this.table, failed := table, false;
      devices, logFds, ptyMaster, ptySlave := [], [], -1, -1;
    }

    /** open() and its kin: some descriptor that is not in use, or a failure. */
    method Open() returns (fd: int, ok: bool)
      modifies this`table, this`failed
      ensures ok ==> fd >= 0 && fd as nat !in old(table).open && table == old(table).And(Used(fd))
      ensures !ok ==> table == old(table)
      ensures failed == (old(failed) || !ok)
    {
      fd, ok := -1, *;
      if ok {
        fd := Unused(table);
        table := table.And(Used(fd));
      } else {
        failed := true;
      }
    }

    /** close(), of an open descriptor, which leaves the rest of the table. */
    method Close(fd: int, ghost rest: Table)
      requires fd >= 0 && table == rest.And(Used(fd))
      modifies this`table
      ensures table == rest
    {
      table := Table(table.open - multiset{fd as nat});
      assert table.open == rest.open;
    }

    method OpenIf(wanted: bool) returns (fd: int, ok: bool)
      modifies this`table, this`failed
      ensures ok ==> (fd >= 0 <==> wanted) && table == old(table).And(Used(fd))
      ensures !ok ==> failed
    {
      fd, ok := -1, true;
      if wanted {
        fd, ok := Open();
      }
    }

    /** socketpair() and pipe2(), which open both descriptors or none. */
    method PairIf(wanted: bool) returns (first: int, second: int, ok: bool)
      modifies this`table, this`failed
      ensures ok ==> (first >= 0 <==> wanted) && (second >= 0 <==> wanted)
      ensures ok ==> table == old(table).And(Used(first)).And(Used(second))
      ensures !ok ==> failed
    {
      first, second, ok := -1, -1, true;
      if wanted {
        first, ok := Open();
        if ok {
          second, ok := Open();
        }
      }
    }

    method CloseIf(fd: int, ghost rest: Table)
      requires table == rest.And(Used(fd))
      modifies this`table
      ensures table == rest
    {
      if fd >= 0 {
        Close(fd, rest);
      }
    }

    /** The first n devices are open, and devices share a descriptor exactly if they share a group. */
    predicate FirstOpen(n: nat)
      reads this`devices
    {
      AreOpen(devices, n)
    }

    predicate AreOpen(devices: seq<Device>, n: nat) {
      && |devices| == n <= |groupIds| == |roms|
      && (forall i | 0 <= i < n :: devices[i].romFd >= 0 <==> roms[i])
      && (forall i | 0 <= i < n :: devices[i].groupFd >= 0)
      && (forall i, j | 0 <= i < n && 0 <= j < n ::
            devices[i].groupFd == devices[j].groupFd <==> groupIds[i] == groupIds[j])
    }

    function Devices(): Table
      reads this`devices
    {
      Sum(DeviceList(devices, |devices|))
    }

    /** The loop over the devices in open_guest_fds. */
    method OpenDevices() returns (ok: bool)
      requires |roms| == |groupIds|
      modifies this`table, this`failed, this`devices
      ensures ok ==> FirstOpen(|groupIds|) && table == old(table).And(Devices())
      ensures !ok ==> failed
    {
      devices := [];
      for i := 0 to |groupIds|
        invariant FirstOpen(i) && table == old(table).And(Devices())
      {
        ok := OpenDevice(i, old(table));
        if !ok {
          return;
        }
      }
      ok := true;
    }

    /** The body of that loop. */
    method OpenDevice(i: nat, ghost base: Table) returns (ok: bool)
      requires FirstOpen(i) && i < |groupIds| && table == base.And(Devices())
      modifies this`table, this`failed, this`devices
      ensures ok ==> FirstOpen(i + 1) && table == base.And(Devices())
      ensures !ok ==> failed
    {
      hide DeviceList, IsGroupOf, Used, Sum;
      ghost var before := Devices();
      var romFd, groupFd;
      ghost var own;
      romFd, ok := OpenIf(roms[i]);
      if !ok {
        return;
      }
      Take(base, before, Used(romFd));
      groupFd, own, ok := OpenGroup(i, base.And(Used(romFd)));
      if !ok {
        return;
      }
      AddDevice(i, Device(romFd, groupFd), own);
      OneMoreOpen(i, Device(romFd, groupFd));
      SumOfOpens(base, before, Used(romFd), Used(own));
      devices := devices + [Device(romFd, groupFd)];
    }

    predicate IsGroupOf(i: nat, groupFd: int)
      reads this`devices
    {
      && i == |devices| < |groupIds|
      && groupFd >= 0
      && forall j | 0 <= j < i :: devices[j].groupFd == groupFd <==> groupIds[j] == groupIds[i]
    }

    /** The descriptor of device i's group, which is a new one, own, exactly if no earlier device has it. */
    method OpenGroup(i: nat, ghost rest: Table) returns (groupFd: int, ghost own: int, ok: bool)
      requires FirstOpen(i) && i < |groupIds| && table == rest.And(Devices())
      modifies this`table, this`failed
      ensures ok ==> table == old(table).And(Used(own)) && IsGroupOf(i, groupFd)
      ensures ok ==> own == if exists j | 0 <= j < i :: devices[j].groupFd == groupFd then -1 else groupFd
      ensures !ok ==> failed
    {
      ok, own := true, -1;
      groupFd := FindGroup(i);
      if groupFd >= 0 {
        assert table.And(NONE).open == table.open;
        return;
      }
      forall j | 0 <= j < i
        ensures devices[j].groupFd as nat in table.open
      {
        GroupIsListed(devices, j, i);
      }
      groupFd, ok := Open();
      own := groupFd;
    }

    lemma AddDevice(i: nat, device: Device, own: int)
      requires i == |devices|
      requires own
        == if exists j | 0 <= j < i :: devices[j].groupFd == device.groupFd then -1 else device.groupFd
      ensures Sum(DeviceList(devices + [device], i + 1))
        == Devices().And(Used(device.romFd).And(Used(own)))
    {
      DeviceListPrefix(devices, device, i);
      SumAppend(DeviceList(devices, i), [device.romFd, own]);
      SumPair(device.romFd, own);
      assert IsFirst(devices + [device], i)
        == !exists j | 0 <= j < i :: devices[j].groupFd == device.groupFd by {
        assert forall j | 0 <= j < i :: (devices + [device])[j] == devices[j];
      }
    }

    lemma OneMoreOpen(i: nat, device: Device)
      requires FirstOpen(i) && IsGroupOf(i, device.groupFd) && (device.romFd >= 0 <==> roms[i])
      ensures AreOpen(devices + [device], i + 1)
    {
    }

    lemma SumOfOpens(base: Table, devices: Table, romFd: Table, own: Table)
      ensures base.And(romFd).And(devices).And(own) == base.And(devices.And(romFd.And(own)))
    {
    }

    /** The inner loop of open_guest_fds: the descriptor of an earlier device's group. */
    method FindGroup(i: nat) returns (groupFd: int)
      requires FirstOpen(i) && i < |groupIds|
      ensures groupFd < 0 ==> forall j | 0 <= j < i :: groupIds[j] != groupIds[i]
      ensures groupFd >= 0 ==> exists j | 0 <= j < i :: groupIds[j] == groupIds[i] && devices[j].groupFd == groupFd
    {
      groupFd := -1;
      for j := 0 to i
        invariant groupFd < 0 ==> forall k | 0 <= k < j :: groupIds[k] != groupIds[i]
        invariant groupFd >= 0 ==>
          exists k | 0 <= k < j :: groupIds[k] == groupIds[i] && devices[k].groupFd == groupFd
      {
        if groupIds[j] == groupIds[i] {
          groupFd := devices[j].groupFd;
        }
      }
    }

    /** The loop over the devices in close_guest_fds. */
    method CloseDevices(ghost rest: Table)
      requires FirstOpen(|groupIds|) && table == rest.And(Devices())
      modifies this`table
      ensures table == rest
    {
      ghost var list := DeviceList(devices, |groupIds|);
      for i := 0 to |groupIds|
        invariant table == rest.And(Sum(list[2 * i..]))
      {
        DeviceListAt(devices, i, |groupIds|);
        SumTwo(list, 2 * i);
        CloseDevice(i, rest, Sum(list[2 * i + 2..]));
      }
    }

    /** The body of that loop. */
    method CloseDevice(i: nat, ghost rest: Table, ghost later: Table)
      requires FirstOpen(|groupIds|) && i < |groupIds|
      requires table
        == rest.And(Used(devices[i].romFd).And(Used(OwnGroup(devices, i)).And(later)))
      modifies this`table
      ensures table == rest.And(later)
    {
      ghost var own := Used(OwnGroup(devices, i));
      Take(rest, Used(devices[i].romFd), own.And(later));
      CloseIf(devices[i].romFd, rest.And(own.And(later)));
      Take(rest, own, later);
      var j := 0;
      while j < i && devices[j].groupFd != devices[i].groupFd
        invariant j <= i && forall k | 0 <= k < j :: devices[k].groupFd != devices[i].groupFd
      {
        j := j + 1;
      }
      if j == i {
        CloseIf(devices[i].groupFd, rest.And(later));
      } else {
        assert own == NONE;
        assert table.open == rest.And(later).open;
      }
    }

    /** open_log, for each export. */
    method OpenLogs() returns (ok: bool)
      modifies this`table, this`failed, this`logFds
      ensures ok ==> |logFds| == exports && table == old(table).And(Sum(logFds))
      ensures ok ==> forall fd | fd in logFds :: fd >= 0
      ensures !ok ==> failed
    {
      logFds := [];
      for i := 0 to exports
        invariant |logFds| == i && table == old(table).And(Sum(logFds))
        invariant forall fd | fd in logFds :: fd >= 0
      {
        var fd;
        fd, ok := Open();
        if !ok {
          return;
        }
        SumAppend(logFds, [fd]);
        assert Sum([fd][1..]) == NONE;
        logFds := logFds + [fd];
      }
      ok := true;
    }

    /** The closes in destroy_exports. */
    method DestroyExports(ghost rest: Table)
      requires |logFds| == exports && table == rest.And(Sum(logFds))
      requires forall fd | fd in logFds :: fd >= 0
      modifies this`table
      ensures table == rest
    {
      for i := 0 to exports
        invariant table == rest.And(Sum(logFds[i..]))
      {
        assert logFds[i..][1..] == logFds[i + 1..];
        assert logFds[i] in logFds;
        Take(rest, Used(logFds[i]), Sum(logFds[i + 1..]));
        Close(logFds[i], rest.And(Sum(logFds[i + 1..])));
      }
    }

    function GuestFiles(fds: GuestFds): Table {
      Used(fds.initrd).And(Used(fds.cpuinfo).And(Used(fds.mconsoleGuest).And(Used(fds.brokerGuest))))
    }

    /** What the guest gets, which the launcher closes once the guest has started. */
    function GuestSide(fds: GuestFds): Table
      reads this`devices
    {
      Used(fds.container).And(Devices().And(GuestFiles(fds)))
    }

    /** What the launcher keeps for the run. */
    function LauncherSide(fds: GuestFds): Table
      reads this`logFds
    {
      Used(fds.mconsole).And(Used(fds.mconsoleRelay).And(Used(fds.broker).And(Sum(logFds))))
    }

    predicate Complete(fds: GuestFds)
      reads this`devices, this`logFds
    {
      && FirstOpen(|groupIds|)
      && |logFds| == exports
      && (forall fd | fd in logFds :: fd >= 0)
      && fds.cpuinfo >= 0
      && (fds.initrd >= 0 <==> initrd)
      && (fds.mconsoleGuest >= 0 <==> serveMconsole)
      && (fds.brokerGuest >= 0 <==> exports > 0)
      && (fds.container >= 0 <==> |groupIds| > 0)
      && (fds.mconsole >= 0 <==> serveMconsole)
      && (fds.mconsoleRelay >= 0 <==> serveMconsole)
      && (fds.broker >= 0 <==> exports > 0)
    }

    method OpenGuestFds() returns (fds: GuestFds, ok: bool)
      requires |roms| == |groupIds|
      modifies this`table, this`failed, this`devices, this`logFds
      ensures ok ==> Complete(fds)
      ensures ok ==> table == old(table).And(GuestSide(fds).And(LauncherSide(fds)))
      ensures !ok ==> failed
    {
      hide AreOpen, Used, Sum, DeviceList, Table.And;
      fds := GuestFds(-1, -1, -1, -1, -1, -1, -1, -1);
      var container, initramfs, cpuinfo, host, relay, guest, broker, brokerGuest;
      container, ok := OpenIf(|groupIds| > 0);
      if !ok {
        return;
      }
      ok := OpenDevices();
      if !ok {
        return;
      }
      initramfs, ok := OpenIf(initrd);
      if !ok {
        return;
      }
      cpuinfo, ok := Open();
      if !ok {
        return;
      }
      host, ok := OpenIf(serveMconsole);
      if !ok {
        return;
      }
      relay, guest, ok := PairIf(serveMconsole);
      if !ok {
        return;
      }
      ok := OpenLogs();
      if !ok {
        return;
      }
      broker, brokerGuest, ok := PairIf(exports > 0);
      if !ok {
        return;
      }
      fds := GuestFds(container, initramfs, cpuinfo, guest, host, relay, brokerGuest, broker);
      SumOfSides(old(table), Used(container), Devices(), Used(initramfs), Used(cpuinfo), Used(host),
                 Used(relay), Used(guest), Sum(logFds), Used(broker), Used(brokerGuest));
    }

    lemma SumOfSides(base: Table, container: Table, devices: Table, initramfs: Table, cpuinfo: Table,
                     host: Table, relay: Table, guest: Table, logs: Table, broker: Table,
                     brokerGuest: Table)
      ensures base.And(container).And(devices).And(initramfs).And(cpuinfo).And(host).And(relay)
          .And(guest).And(logs).And(broker).And(brokerGuest)
        == base.And(
             container.And(devices.And(initramfs.And(cpuinfo.And(guest.And(brokerGuest)))))
             .And(host.And(relay.And(broker.And(logs)))))
    {
    }

    method CloseGuestFds(fds: GuestFds, ghost rest: Table)
      requires Complete(fds) && table == rest.And(GuestSide(fds))
      modifies this`table
      ensures table == rest
    {
      ghost var sockets := Used(fds.mconsoleGuest).And(Used(fds.brokerGuest));
      Take(rest, Used(fds.container), Devices().And(GuestFiles(fds)));
      CloseIf(fds.container, rest.And(Devices().And(GuestFiles(fds))));
      Take(rest, Devices(), GuestFiles(fds));
      CloseDevices(rest.And(GuestFiles(fds)));
      Take(rest, Used(fds.initrd), Used(fds.cpuinfo).And(sockets));
      CloseIf(fds.initrd, rest.And(Used(fds.cpuinfo).And(sockets)));
      Take(rest, Used(fds.cpuinfo), sockets);
      Close(fds.cpuinfo, rest.And(sockets));
      Take(rest, Used(fds.mconsoleGuest), Used(fds.brokerGuest));
      CloseIf(fds.mconsoleGuest, rest.And(Used(fds.brokerGuest)));
      CloseIf(fds.brokerGuest, rest);
    }

    /** The broker's answers, each of which can open a device, which is closed once it is sent. */
    method ServeRequests(requests: nat)
      modifies this`table, this`failed
      ensures table == old(table)
    {
      for i := 0 to requests
        invariant table == old(table)
      {
        var fd, taken := Open();
        if taken {
          Close(fd, old(table));
        }
      }
    }

    /** supervise, in which the signalfd and the broker use descriptors. */
    method Supervise(requests: nat) returns (ok: bool)
      modifies this`table, this`failed
      ensures ok ==> table == old(table)
      ensures !ok ==> failed
    {
      var sfd;
      sfd, ok := Open();
      if !ok {
        return;
      }
      ServeRequests(requests);
      Close(sfd, old(table));
    }

    method OpenConsole() returns (ok: bool)
      modifies this`table, this`failed, this`ptyMaster, this`ptySlave
      ensures ok ==> (ptyMaster >= 0 <==> terminal) && (ptySlave >= 0 <==> terminal)
      ensures ok ==> table == old(table).And(Used(ptyMaster)).And(Used(ptySlave))
      ensures !ok ==> failed
    {
      ptyMaster, ptySlave, ok := -1, -1, true;
      if !terminal {
        return;
      }
      ptyMaster, ok := Open();
      if !ok {
        return;
      }
      ptySlave, ok := Open();
    }

    /** Closes the guest's end of the pty, if there is one. */
    method StartConsole(ghost rest: Table)
      requires (ptyMaster >= 0 <==> ptySlave >= 0) && table == rest.And(Used(ptySlave))
      modifies this`table, this`ptySlave
      ensures table == rest
    {
      if ptyMaster >= 0 {
        Close(ptySlave, rest);
        ptySlave := -1;
      }
    }

    method StopConsole(ghost rest: Table)
      requires table == rest.And(Used(ptyMaster))
      modifies this`table, this`ptyMaster
      ensures table == rest
    {
      if ptyMaster >= 0 {
        Close(ptyMaster, rest);
        ptyMaster := -1;
      }
    }

    /** The end of run_guest, from the sockets on. */
    method CloseLauncherSide(fds: GuestFds, ghost rest: Table)
      requires Complete(fds) && table == rest.And(LauncherSide(fds))
      modifies this`table
      ensures table == rest
    {
      ghost var logs := Sum(logFds);
      ghost var kept := Used(fds.broker).And(logs);
      if fds.mconsole >= 0 {
        Take(rest, Used(fds.mconsole), Used(fds.mconsoleRelay).And(kept));
        Close(fds.mconsole, rest.And(Used(fds.mconsoleRelay).And(kept)));
        Take(rest, Used(fds.mconsoleRelay), kept);
        Close(fds.mconsoleRelay, rest.And(kept));
      }
      if fds.broker >= 0 {
        Take(rest, Used(fds.broker), logs);
        Close(fds.broker, rest.And(logs));
      }
      DestroyExports(rest);
    }

    /**
     run_guest. A run that returns leaves the table as it was, and since each close is of an
     open descriptor, each descriptor of the run is closed once. It returns unless a call fails.
     */
    method RunGuest(requests: nat) returns (ok: bool)
      requires |roms| == |groupIds|
      modifies this
      ensures ok ==> table == old(table)
      ensures !ok ==> failed
    {
      hide *;
      var fds, alive0, alive1;
      ghost var base := table;
      fds, ok := OpenGuestFds();
      if !ok {
        return;
      }
      ok := OpenConsole();
      if !ok {
        return;
      }
      alive0, alive1, ok := PairIf(true);
      if !ok {
        return;
      }
      ok := RunStarted(fds, alive0, alive1, requests, base);
    }

    /** run_guest from the fork on, in the launcher. */
    method RunStarted(fds: GuestFds, alive0: int, alive1: int, requests: nat, ghost base: Table)
      returns (ok: bool)
      requires Complete(fds) && alive0 >= 0 && alive1 >= 0 && (ptyMaster >= 0 <==> ptySlave >= 0)
      requires table
        == base.And(GuestSide(fds).And(LauncherSide(fds))).And(Used(ptyMaster)).And(Used(ptySlave))
             .And(Used(alive0)).And(Used(alive1))
      modifies this
      ensures ok ==> table == base
      ensures !ok ==> failed
    {
      hide *;
      ghost var launcher, guest := LauncherSide(fds), GuestSide(fds);
      ghost var master, slave := Used(ptyMaster), Used(ptySlave);
      SumOfRun(base, guest, launcher, master, slave, Used(alive0), Used(alive1));
      ghost var kept := base.And(launcher).And(Used(alive1));
      Close(alive0, kept.And(master).And(guest).And(slave));
      StartConsole(kept.And(master).And(guest));
      CloseGuestFds(fds, kept.And(master));
      ok := Supervise(requests);
      if !ok {
        return;
      }
      StopConsole(kept);
      Close(alive1, base.And(launcher));
      CloseLauncherSide(fds, base);
    }

    lemma SumOfRun(base: Table, guest: Table, launcher: Table, master: Table, slave: Table,
                   alive0: Table, alive1: Table)
      ensures base.And(guest.And(launcher)).And(master).And(slave).And(alive0).And(alive1)
        == base.And(launcher).And(alive1).And(master).And(guest).And(slave).And(alive0)
    {
    }

    /** The loop in main, which can start the guest again any number of times. */
    method RunGuests(requests: seq<nat>) returns (ok: bool)
      requires |roms| == |groupIds|
      modifies this
      ensures ok ==> table == old(table)
      ensures !ok ==> failed
    {
      ok := true;
      for i := 0 to |requests|
        invariant ok && table == old(table)
      {
        ok := RunGuest(requests[i]);
        if !ok {
          return;
        }
      }
    }
  }

  lemma SumTwo(list: seq<int>, i: nat)
    requires i + 2 <= |list|
    ensures Sum(list[i..]) == Used(list[i]).And(Used(list[i + 1]).And(Sum(list[i + 2..])))
  {
    assert list[i..][1..] == list[i + 1..];
    assert list[i + 1..][1..] == list[i + 2..];
  }

  /** A descriptor that is not in use. */
  method Unused(table: Table) returns (fd: nat)
    ensures fd !in table.open
  {
    fd := 0;
    var left := set x | x in table.open;
    while left != {}
      invariant forall x | x in table.open && x !in left :: x < fd
      decreases left
    {
      var x :| x in left;
      left := left - {x};
      if x >= fd {
        fd := x + 1;
      }
    }
  }
}
