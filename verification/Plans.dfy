/**
 The plans of enable, disable and uninstall (tools/cmd/invirtio/devices.go, plan.go and
 config.go) over an abstract host. A plan is a list of actions, which can be cut off after any
 of them. The guests' services and everything else on the host go on between the actions.
 */
module Plans {
  import opened Sequences
  import opened Wrappers

  datatype Kind = Net | Wlan

  /** Device, with the fields that the plans look at. */
  datatype Device = Device(address: string, kind: Kind, memory: string)

  type Config = map<string, Device>

  /** A PCI device on the host: its driver or "", its override, and the driver that matches it. */
  datatype Slot = Slot(driver: string, override: string, native: string)

  datatype Host = Host(
    config: Config,
    rules: set<string>,
    loaded: set<string>,
    unitFile: bool,
    user: bool,
    enabled: set<string>,
    running: set<string>,
    attached: set<string>,
    created: set<string>,
    logs: set<string>,
    mounts: set<string>,
    dirs: set<string>,
    slots: map<string, Slot>)

  datatype Action =
    | Record(config: Config)
    | WriteRules(addresses: set<string>)
    | ReloadUdev
    | EnableUnit(name: string)
    | DisableUnit(name: string)
    | LowerTimeout(name: string)
    | DeleteFromBus(name: string)
    | DestroyDevice(name: string)
    | RemoveLog(name: string)
    | Unmount(name: string)
    | RemoveDir(name: string)
    | ClearOverride(address: string)
    | Unbind(address: string)
    | Probe(address: string)
    | DeleteUser
    | RemoveUnit
    | ReloadSystemd
    | RemoveFiles
    | RemoveProgram

  /** The part of the host that a stopped service leaves as it was. */
  datatype Left = Left(attached: bool, created: bool)

  const VFIO := "vfio-pci"

  /** What an action does when it succeeds. */
  function Effect(h: Host, a: Action, left: Left): Host {
    match a
    case Record(config) => h.(config := config)
    case WriteRules(addresses) => h.(rules := addresses)
    case ReloadUdev => h.(loaded := h.rules)
    case EnableUnit(name) => h.(enabled := h.enabled + {name}, running := h.running + {name})
    case DisableUnit(name) => Stop(h, name, left)
    case LowerTimeout(_) => h
    case DeleteFromBus(name) => h.(attached := h.attached - {name})
    case DestroyDevice(name) => h.(created := h.created - {name})
    case RemoveLog(name) => h.(logs := h.logs - {name})
    case Unmount(name) => h.(mounts := h.mounts - {name})
    case RemoveDir(name) => h.(dirs := h.dirs - {name})
    case ClearOverride(address) => h.(slots := At(h.slots, address, Cleared))
    case Unbind(address) => h.(slots := At(h.slots, address, Unbound))
    case Probe(address) => h.(slots := At(h.slots, address, Probed))
    case DeleteUser => h.(user := false)
    case RemoveUnit => h.(unitFile := false)
    case ReloadSystemd => h
    case RemoveFiles => h.(config := map[], logs := {}, dirs := {})
    case RemoveProgram => h
  }

  /** Stops a service, which removes its device from the bus if it can. It is disabled if it has a unit file. */
  function Stop(h: Host, name: string, left: Left): Host {
    var on := name in h.running;
    h.(enabled := if h.unitFile then h.enabled - {name} else h.enabled,
       running := h.running - {name},
       attached := if on && !left.attached then h.attached - {name} else h.attached,
       created := if on && !left.created then h.created - {name} else h.created)
  }

  /** A device that is gone from the PCI bus is left alone. */
  function At(slots: map<string, Slot>, address: string, f: Slot -> Slot): map<string, Slot> {
    if address in slots then slots[address := f(slots[address])] else slots
  }

  function Cleared(s: Slot): Slot {
    s.(override := "")
  }

  function Unbound(s: Slot): Slot {
    if s.driver == VFIO then s.(driver := "") else s
  }

  /** The kernel takes the override before a driver that matches. */
  function Probed(s: Slot): Slot {
    if s.driver == "" then s.(driver := if s.override == "" then s.native else s.override) else s
  }

  /** ValidAddress, such as 0000:06:00.0. */
  predicate IsAddress(s: string) {
    && |s| == 12 && s[4] == ':' && s[7] == ':' && s[10] == '.'
    && IsHex(s[0]) && IsHex(s[1]) && IsHex(s[2]) && IsHex(s[3]) && IsHex(s[5]) && IsHex(s[6])
    && IsHex(s[8]) && IsHex(s[9]) && '0' <= s[11] <= '7'
  }

  predicate IsHex(c: char) {
    '0' <= c <= '9' || 'a' <= c <= 'f'
  }

  predicate IsNameChar(c: char) {
    'a' <= c <= 'z' || '0' <= c <= '9' || c == '-'
  }

  /** checkName */
  predicate IsName(s: string) {
    && 1 <= |s| <= 32 && s[0] != '-' && (forall i | 0 <= i < |s| :: IsNameChar(s[i]))
    && s != "control" && s != "invirtio"
  }

  /** What loadConfig takes. */
  predicate Loads(config: Config) {
    forall name | name in config :: IsName(name) && IsAddress(config[name].address)
  }

  function Addresses(config: Config): (r: set<string>)
    ensures forall name | name in config :: config[name].address in r
  {
    set name | name in config :: config[name].address
  }

  /** No two names have one address. */
  predicate OneToOne(config: Config) {
    forall m, n | m in config && n in config && config[m].address == config[n].address :: m == n
  }

  /** A name and an address that a key finds. */
  predicate Finds(config: Config, key: string, name: string) {
    name in config && (name == key || (key !in config && config[name].address == key))
  }

  /** lookup, which goes over the map in any order. */
  method Lookup(config: Config, key: string) returns (name: Option<string>)
    ensures name.Some? ==> Finds(config, key, name.value)
    ensures name == None ==> forall n :: !Finds(config, key, n)
  {
    if key in config {
      return Some(key);
    }
    var left := config.Keys;
    while left != {}
      invariant left <= config.Keys
      invariant forall n | n in config && n !in left :: config[n].address != key
      decreases |left|
    {
      var n :| n in left;
      if config[n].address == key {
        return Some(n);
      }
      left := left - {n};
    }
    name := None;
  }

  /** A key has one answer, whatever order the map is gone over in. */
  lemma LookupIsUnique(config: Config, key: string, m: string, n: string)
    requires OneToOne(config) && Finds(config, key, m) && Finds(config, key, n)
    ensures m == n
  {
  }

  /** A name is never taken for an address. */
  lemma NameIsNoAddress(s: string)
    requires IsName(s)
    ensures !IsAddress(s)
    ensures |s| <= 32 && s != "control" && s != "invirtio" && s[0] != '-' && ':' !in s && '.' !in s && '/' !in s
  {
    assert |s| > 4 ==> IsNameChar(s[4]);
    assert forall i | 0 <= i < |s| :: IsNameChar(s[i]);
  }

  /** udevActions */
  function UdevActions(config: Config): seq<Action> {
    [WriteRules(Addresses(config)), ReloadUdev]
  }

  /** disableStages */
  function DisableStages(name: string, address: string): seq<Action> {
    [DisableUnit(name), LowerTimeout(name), DeleteFromBus(name), DestroyDevice(name), RemoveLog(name),
     Unmount(name), RemoveDir(name), ClearOverride(address), Unbind(address), Probe(address)]
  }

  /** disablePlan, whose rules come first. */
  function DisablePlan(config: Config, name: string): seq<Action>
    requires name in config
  {
    UdevActions(config - {name}) + DisableStages(name, config[name].address) + [Record(config - {name})]
  }

  /** The stages of each device in turn. */
  function AllStages(config: Config, names: seq<string>): seq<Action>
    requires forall name | name in names :: name in config
  {
    if names == [] then []
    else DisableStages(names[0], config[names[0]].address) + AllStages(config, names[1..])
  }

  /** The plan of cmdUninstall, for the names in some order. */
  function UninstallPlan(config: Config, names: seq<string>, user: bool): seq<Action>
    requires forall name | name in names :: name in config
  {
    UdevActions(map[]) + AllStages(config, names)
    + (if user then [DeleteUser] else [])
    + ([RemoveUnit, ReloadSystemd, ReloadUdev] + [RemoveFiles, RemoveProgram])
  }

  /** The stages of cmdEnable, whose rules come last. The record is new unless the device has one. */
  function EnableStages(config: Config, name: string, isNew: bool): seq<Action> {
    (if isNew then [Record(config)] else []) + [EnableUnit(name)] + UdevActions(config)
  }

  /** What a device is called if no name is given. */
  function DefaultName(kind: Kind, address: string): string
    requires IsAddress(address)
  {
    (match kind case Net => "net-" case Wlan => "wlan-")
    + Dashed(if address[..5] == "0000:" then address[5..] else address)
  }

  function Dashed(s: string): (r: string)
    ensures |r| == |s|
  {
    seq(|s|, i requires 0 <= i < |s| => if s[i] == ':' || s[i] == '.' then '-' else s[i])
  }

  datatype Command =
    | Enable(address: string, name: string, kind: Kind, memory: string)
    | Disable(key: string)
    | Uninstall

  /** The IOMMU groups of the host's devices. */
  type Groups = map<string, string>

  /** Another recorded device is in the address's group. */
  predicate SharesGroup(groups: Groups, config: Config, address: string) {
    exists n | n in config :: config[n].address != address
      && address in groups && config[n].address in groups && groups[config[n].address] == groups[address]
  }

  /** cmdEnable, up to its stages. */
  ghost predicate EnablePlan(groups: Groups, config: Config, e: Command, name: string, after: Config, plan: seq<Action>)
    requires e.Enable? && IsAddress(e.address)
  {
    && !SharesGroup(groups, config, e.address)
    && if exists n :: Finds(config, e.address, n) then
         && Finds(config, e.address, name) && after == config
         && (e.name == "" || e.name == name) && (e.memory == "" || e.memory == config[name].memory)
         && plan == EnableStages(config, name, false)
       else
         && name == (if e.name == "" then DefaultName(e.kind, e.address) else e.name)
         && IsName(name) && name !in config
         && after == config[name := Device(e.address, e.kind, e.memory)]
         && plan == EnableStages(after, name, true)
  }

  /**
   An enable records the device as it was asked for and leaves every other record as it was, so
   one that asks for something else of a recorded device is refused.
   */
  lemma EnableGivesAsked(groups: Groups, config: Config, e: Command, name: string, after: Config, plan: seq<Action>)
    requires e.Enable? && IsAddress(e.address) && Loads(config)
    requires EnablePlan(groups, config, e, name, after, plan)
    ensures name in after && after[name].address == e.address
    ensures (e.name != "" ==> name == e.name) && (e.memory != "" ==> after[name].memory == e.memory)
    ensures forall n | n in config :: n in after && after[n] == config[n]
    ensures forall n | n in after :: n in config || n == name
  {
    hide IsAddress, SharesGroup;
    if name in config {
      NameIsNoAddress(name);
    }
  }

  /** The name that an enable gives a device that is not recorded. */
  function NameFor(e: Command): string
    requires e.Enable? && IsAddress(e.address)
  {
    if e.name == "" then DefaultName(e.kind, e.address) else e.name
  }

  /** An enable of a device that is not recorded has a plan if its group and its valid name are free. */
  lemma EnableIsMade(groups: Groups, config: Config, e: Command)
    requires e.Enable? && IsAddress(e.address) && !SharesGroup(groups, config, e.address)
    requires forall n :: !Finds(config, e.address, n)
    requires IsName(NameFor(e)) && NameFor(e) !in config
    ensures var after := config[NameFor(e) := Device(e.address, e.kind, e.memory)];
      EnablePlan(groups, config, e, NameFor(e), after, EnableStages(after, NameFor(e), true))
  {
  }

  /** An enable of a recorded device has a plan if it asks for what is recorded, or for nothing. */
  lemma EnableIsMadeAgain(groups: Groups, config: Config, e: Command, name: string)
    requires e.Enable? && IsAddress(e.address) && !SharesGroup(groups, config, e.address)
    requires Finds(config, e.address, name)
    requires (e.name == "" || e.name == name) && (e.memory == "" || e.memory == config[name].memory)
    ensures EnablePlan(groups, config, e, name, config, EnableStages(config, name, false))
  {
  }

  /** A plan that a command makes of the configuration, if it does not fail. */
  ghost predicate Makes(groups: Groups, h: Host, c: Command, plan: seq<Action>) {
    Loads(h.config)
    && match c
       case Enable(address, _, _, _) =>
         IsAddress(address) && exists name, after :: EnablePlan(groups, h.config, c, name, after, plan)
       case Disable(key) => exists name :: Finds(h.config, key, name) && plan == DisablePlan(h.config, name)
       case Uninstall =>
         exists names: seq<string> :: IsOrder(h.config, names) && plan == UninstallPlan(h.config, names, h.user)
  }

  predicate IsOrder(config: Config, names: seq<string>) {
    (forall name | name in names :: name in config) && (forall name | name in config :: name in names)
  }

  /** What only the commands change. */
  predicate SameRecords(g: Host, h: Host) {
    g.config == h.config && g.rules == h.rules
  }

  /** The host after an action, before which anything else could happen on it. */
  ghost predicate Acts(h: Host, a: Action, next: Host) {
    exists before: Host, left: Left :: SameRecords(h, before) && next == Effect(before, a, left)
  }

  /** The host after the first k actions of a plan, with whatever happens between them and after. */
  ghost predicate Reaches(h: Host, plan: seq<Action>, k: nat, h': Host)
    requires k <= |plan|
    decreases k
  {
    if k == 0 then SameRecords(h, h')
    else exists next: Host :: Acts(h, plan[0], next) && Reaches(next, plan[1..], k - 1, h')
  }

  /** The records of a configuration and the rules agree. */
  predicate Agree(config: Config, rules: set<string>) {
    Loads(config) && OneToOne(config) && rules <= Addresses(config)
  }

  function NextConfig(config: Config, a: Action): Config {
    match a
    case Record(c) => c
    case RemoveFiles => map[]
    case _ => config
  }

  function NextRules(rules: set<string>, a: Action): set<string> {
    if a.WriteRules? then a.addresses else rules
  }

  lemma ActsOnRecords(h: Host, a: Action, next: Host)
    requires Acts(h, a, next)
    ensures next.config == NextConfig(h.config, a) && next.rules == NextRules(h.rules, a)
  {
  }

  /** The records agree at each cut of a plan. */
  predicate IsSafe(config: Config, rules: set<string>, plan: seq<Action>)
    decreases |plan|
  {
    && Agree(config, rules)
    && (plan == [] || IsSafe(NextConfig(config, plan[0]), NextRules(rules, plan[0]), plan[1..]))
  }

  lemma {:induction false} SafeAtCut(h: Host, plan: seq<Action>, k: nat, h': Host)
    requires k <= |plan| && IsSafe(h.config, h.rules, plan) && Reaches(h, plan, k, h')
    ensures Agree(h'.config, h'.rules)
    decreases k
  {
    if k > 0 {
      hide Agree;
      var next: Host :| Acts(h, plan[0], next) && Reaches(next, plan[1..], k - 1, h');
      ActsOnRecords(h, plan[0], next);
      SafeAtCut(next, plan[1..], k - 1, h');
    }
  }

  predicate LeavesRecords(a: Action) {
    !a.Record? && !a.WriteRules? && !a.RemoveFiles?
  }

  /** Actions on other things in front make no difference. */
  lemma {:induction false} SafeAfter(config: Config, rules: set<string>, plan: seq<Action>, rest: seq<Action>)
    requires Agree(config, rules) && IsSafe(config, rules, rest) && forall a | a in plan :: LeavesRecords(a)
    ensures IsSafe(config, rules, plan + rest)
  {
    if plan == [] {
      assert plan + rest == rest;
    } else {
      hide Agree;
      assert (plan + rest)[1..] == plan[1..] + rest;
      assert plan[0] in plan;
      SafeAfter(config, rules, plan[1..], rest);
    }
  }

  lemma SafeUdev(config: Config, rules: set<string>, rest: seq<Action>, c: Config)
    requires Agree(config, rules) && Addresses(c) <= Addresses(config) && IsSafe(config, Addresses(c), rest)
    ensures IsSafe(config, rules, UdevActions(c) + rest)
  {
    var plan := UdevActions(c) + rest;
    assert plan[1..] == [ReloadUdev] + rest;
    assert plan[1..][1..] == rest;
    assert Agree(config, Addresses(c));
    hide Agree, Addresses;
    assert IsSafe(config, Addresses(c), plan[1..]);
  }

  lemma DisableIsSafe(config: Config, rules: set<string>, name: string)
    requires Agree(config, rules) && name in config
    ensures IsSafe(config, rules, DisablePlan(config, name))
  {
    var c := config - {name};
    var end := [Record(c)];
    assert Agree(c, Addresses(c)) && Agree(config, Addresses(c));
    assert end[1..] == [];
    assert IsSafe(c, Addresses(c), []);
    assert IsSafe(config, Addresses(c), end);
    var stages := DisableStages(name, config[name].address);
    SafeAfter(config, Addresses(c), stages, end);
    SafeUdev(config, rules, stages + end, c);
    assert UdevActions(c) + (stages + end) == DisablePlan(config, name);
  }

  lemma EnableIsSafe(config: Config, rules: set<string>, after: Config, name: string, isNew: bool)
    requires Agree(config, rules) && (if isNew then Agree(after, rules) else after == config)
    ensures IsSafe(config, rules, EnableStages(after, name, isNew))
  {
    assert Agree(after, Addresses(after));
    hide Agree, Addresses, Loads, OneToOne;
    var udev := UdevActions(after);
    var rest := [EnableUnit(name)] + udev;
    assert udev + [] == udev;
    assert IsSafe(after, Addresses(after), []);
    SafeUdev(after, rules, [], after);
    SafeAfter(after, rules, [EnableUnit(name)], udev);
    if isNew {
      assert ([Record(after)] + rest)[1..] == rest;
      assert EnableStages(after, name, isNew) == [Record(after)] + rest;
    } else {
      assert EnableStages(after, name, isNew) == rest;
    }
  }

  lemma {:induction false} StagesLeaveRecords(config: Config, names: seq<string>)
    requires forall name | name in names :: name in config
    ensures forall a | a in AllStages(config, names) :: LeavesRecords(a)
  {
    if names != [] {
      StagesLeaveRecords(config, names[1..]);
    }
  }

  /** The end of an uninstall, which forgets every device once there are no rules. */
  lemma LastIsSafe(config: Config)
    requires Agree(config, {})
    ensures IsSafe(config, {}, [RemoveFiles, RemoveProgram])
  {
    assert Agree(map[], {});
    hide Agree;
    assert IsSafe(map[], {}, []);
    SafeCons(map[], {}, RemoveProgram, []);
    SafeCons(config, {}, RemoveFiles, [RemoveProgram]);
    assert [RemoveProgram] + [] == [RemoveProgram];
    assert [RemoveFiles] + [RemoveProgram] == [RemoveFiles, RemoveProgram];
  }

  lemma SafeCons(config: Config, rules: set<string>, a: Action, rest: seq<Action>)
    requires Agree(config, rules) && IsSafe(NextConfig(config, a), NextRules(rules, a), rest)
    ensures IsSafe(config, rules, [a] + rest)
  {
    hide Agree;
    assert ([a] + rest)[1..] == rest;
  }

  lemma UninstallIsSafe(config: Config, rules: set<string>, names: seq<string>, user: bool)
    requires Agree(config, rules) && forall name | name in names :: name in config
    ensures IsSafe(config, rules, UninstallPlan(config, names, user))
  {
    var last := [RemoveFiles, RemoveProgram];
    var stages, user' := AllStages(config, names), if user then [DeleteUser] else [];
    var middle := stages + user' + [RemoveUnit, ReloadSystemd, ReloadUdev];
    StagesLeaveRecords(config, names);
    assert Addresses(map[]) == {};
    assert UninstallPlan(config, names, user)
      == UdevActions(map[]) + stages + user' + ([RemoveUnit, ReloadSystemd, ReloadUdev] + last);
    LastIsSafe(config);
    hide Agree, Addresses, IsSafe, AllStages, UdevActions, UninstallPlan;
    SafeAfter(config, {}, middle, last);
    SafeUdev(config, rules, middle + last, map[]);
    Split(UdevActions(map[]), stages, user', last);
  }

  lemma Split(udev: seq<Action>, stages: seq<Action>, user: seq<Action>, last: seq<Action>)
    ensures udev + (stages + user + [RemoveUnit, ReloadSystemd, ReloadUdev] + last)
      == udev + stages + user + ([RemoveUnit, ReloadSystemd, ReloadUdev] + last)
  {
  }

  lemma MadeIsSafe(groups: Groups, h: Host, c: Command, plan: seq<Action>)
    requires Agree(h.config, h.rules) && Makes(groups, h, c, plan)
    ensures IsSafe(h.config, h.rules, plan)
  {
    match c {
      case Enable(address, _, _, _) =>
        var name, after :| EnablePlan(groups, h.config, c, name, after, plan);
        var isNew := !exists n :: Finds(h.config, address, n);
        if isNew {
          RecordAgrees(h.config, h.rules, name, Device(address, c.kind, c.memory));
        }
        EnableIsSafe(h.config, h.rules, after, name, isNew);
      case Disable(key) =>
        var name :| Finds(h.config, key, name) && plan == DisablePlan(h.config, name);
        DisableIsSafe(h.config, h.rules, name);
      case Uninstall =>
        var names: seq<string> :| IsOrder(h.config, names) && plan == UninstallPlan(h.config, names, h.user);
        UninstallIsSafe(h.config, h.rules, names, h.user);
    }
  }

  /** A device that is new in name and in address can be recorded. */
  lemma RecordAgrees(config: Config, rules: set<string>, name: string, d: Device)
    requires Agree(config, rules) && IsName(name) && name !in config && IsAddress(d.address)
    requires !exists n :: Finds(config, d.address, n)
    ensures Agree(config[name := d], rules)
  {
    var after := config[name := d];
    assert d.address in config ==> Finds(config, d.address, d.address);
    forall n | n in config
      ensures config[n].address != d.address && config[n].address in Addresses(after)
    {
      assert !Finds(config, d.address, n);
      assert after[n] == config[n];
    }
  }

  /** Events of the host: a command that is cut off after k actions, or anything else. */
  datatype Event = Ran(command: Command, plan: seq<Action>, k: nat) | Elsewhere

  ghost predicate Next(groups: Groups, h: Host, e: Event, h': Host) {
    match e
    case Ran(c, plan, k) => k <= |plan| && Makes(groups, h, c, plan) && Reaches(h, plan, k, h')
    case Elsewhere => SameRecords(h, h')
  }

  ghost predicate History(groups: Groups, h: Host, events: seq<Event>, h': Host)
    decreases |events|
  {
    if events == [] then h == h'
    else exists next: Host :: Next(groups, h, events[0], next) && History(groups, next, events[1..], h')
  }

  /**
   After any commands, each cut off anywhere, every rule is for a recorded device, and names
   and addresses are one-to-one.
   */
  lemma {:induction false} RecordsAgree(groups: Groups, h: Host, events: seq<Event>, h': Host)
    ensures Agree(h.config, h.rules) && History(groups, h, events, h') ==> Agree(h'.config, h'.rules)
    decreases |events|
  {
    if events != [] && Agree(h.config, h.rules) && History(groups, h, events, h') {
      hide Agree, Makes;
      var next: Host :| Next(groups, h, events[0], next) && History(groups, next, events[1..], h');
      if events[0].Ran? {
        MadeIsSafe(groups, h, events[0].command, events[0].plan);
        SafeAtCut(h, events[0].plan, events[0].k, next);
      }
      RecordsAgree(groups, next, events[1..], h');
    }
  }

  // The IOMMU groups of the recorded devices.

  /** No two recorded devices are in one group. */
  ghost predicate AreApart(groups: Groups, config: Config) {
    forall m, n | m in config && n in config && config[m].address != config[n].address ::
      !(config[m].address in groups && config[n].address in groups
        && groups[config[m].address] == groups[config[n].address])
  }

  /** What a plan records, of which each keeps the groups apart. */
  ghost predicate RecordsApart(groups: Groups, plan: seq<Action>) {
    forall a | a in plan && a.Record? :: AreApart(groups, a.config)
  }

  lemma {:induction false} ApartAtCut(groups: Groups, h: Host, plan: seq<Action>, k: nat, h': Host)
    requires k <= |plan| && Reaches(h, plan, k, h') && AreApart(groups, h.config) && RecordsApart(groups, plan)
    ensures AreApart(groups, h'.config)
    decreases k
  {
    if k > 0 {
      hide AreApart;
      var next: Host :| Acts(h, plan[0], next) && Reaches(next, plan[1..], k - 1, h');
      ActsOnRecords(h, plan[0], next);
      NothingIsApart(groups);
      assert plan[0] in plan && forall a | a in plan[1..] :: a in plan;
      ApartAtCut(groups, next, plan[1..], k - 1, h');
    }
  }

  lemma NothingIsApart(groups: Groups)
    ensures AreApart(groups, map[])
  {
  }

  lemma FewerAreApart(groups: Groups, config: Config, name: string)
    requires AreApart(groups, config)
    ensures AreApart(groups, config - {name})
  {
    var c := config - {name};
    forall m, n | m in c && n in c && c[m].address != c[n].address
      ensures c[m] == config[m] && c[n] == config[n]
    {
    }
  }

  lemma MoreAreApart(groups: Groups, config: Config, name: string, d: Device)
    requires AreApart(groups, config) && !SharesGroup(groups, config, d.address) && name !in config
    ensures AreApart(groups, config[name := d])
  {
    assert forall n | n in config :: config[name := d][n] == config[n];
  }

  lemma {:induction false} StagesRecordNothing(config: Config, names: seq<string>)
    requires forall name | name in names :: name in config
    ensures forall a | a in AllStages(config, names) :: !a.Record?
  {
    if names != [] {
      StagesRecordNothing(config, names[1..]);
    }
  }

  lemma MadeKeepsApart(groups: Groups, h: Host, c: Command, plan: seq<Action>)
    requires AreApart(groups, h.config) && Makes(groups, h, c, plan)
    ensures RecordsApart(groups, plan)
  {
    hide AreApart, Loads, EnablePlan, DisablePlan, UninstallPlan, RecordsApart;
    match c {
      case Enable(_, _, _, _) =>
        var name, after :| EnablePlan(groups, h.config, c, name, after, plan);
        EnableKeepsApart(groups, h.config, c, name, after, plan);
      case Disable(key) =>
        var name :| Finds(h.config, key, name) && plan == DisablePlan(h.config, name);
        DisableKeepsApart(groups, h.config, name);
      case Uninstall =>
        var names: seq<string> :| IsOrder(h.config, names) && plan == UninstallPlan(h.config, names, h.user);
        UninstallKeepsApart(groups, h.config, names, h.user);
    }
  }

  lemma EnableKeepsApart(groups: Groups, config: Config, c: Command, name: string, after: Config, plan: seq<Action>)
    requires c.Enable? && IsAddress(c.address) && AreApart(groups, config)
    requires EnablePlan(groups, config, c, name, after, plan)
    ensures RecordsApart(groups, plan)
  {
    hide AreApart, SharesGroup, IsAddress, IsName;
    if !exists n :: Finds(config, c.address, n) {
      MoreAreApart(groups, config, name, Device(c.address, c.kind, c.memory));
    }
  }

  lemma DisableKeepsApart(groups: Groups, config: Config, name: string)
    requires AreApart(groups, config) && name in config
    ensures RecordsApart(groups, DisablePlan(config, name))
  {
    hide AreApart;
    FewerAreApart(groups, config, name);
  }

  lemma UninstallKeepsApart(groups: Groups, config: Config, names: seq<string>, user: bool)
    requires forall name | name in names :: name in config
    ensures RecordsApart(groups, UninstallPlan(config, names, user))
  {
    StagesRecordNothing(config, names);
    hide AllStages;
  }

  /** After any commands, each cut off anywhere, no two recorded devices are in one IOMMU group. */
  lemma {:induction false} GroupsStayApart(groups: Groups, h: Host, events: seq<Event>, h': Host)
    requires AreApart(groups, h.config) && History(groups, h, events, h')
    ensures AreApart(groups, h'.config)
    decreases |events|
  {
    if events != [] {
      hide AreApart, Makes, RecordsApart;
      var next: Host :| Next(groups, h, events[0], next) && History(groups, next, events[1..], h');
      if events[0].Ran? {
        MadeKeepsApart(groups, h, events[0].command, events[0].plan);
        ApartAtCut(groups, h, events[0].plan, events[0].k, next);
      }
      GroupsStayApart(groups, next, events[1..], h');
    }
  }

  lemma {:induction false} RulesStay(h: Host, plan: seq<Action>, k: nat, h': Host)
    requires k <= |plan| && Reaches(h, plan, k, h')
    requires forall a | a in plan[..k] :: !a.WriteRules?
    ensures h'.rules == h.rules
    decreases k
  {
    if k > 0 {
      var next: Host :| Acts(h, plan[0], next) && Reaches(next, plan[1..], k - 1, h');
      ActsOnRecords(h, plan[0], next);
      assert plan[0] in plan[..k];
      assert forall a | a in plan[1..][..k - 1] :: a in plan[..k];
      RulesStay(next, plan[1..], k - 1, h');
    }
  }

  lemma RulesAreWritten(h: Host, plan: seq<Action>, k: nat, h': Host)
    requires 1 <= k <= |plan| && Reaches(h, plan, k, h')
    requires plan[0].WriteRules? && forall a | a in plan[1..] :: !a.WriteRules?
    ensures h'.rules == plan[0].addresses
  {
    var next: Host :| Acts(h, plan[0], next) && Reaches(next, plan[1..], k - 1, h');
    ActsOnRecords(h, plan[0], next);
    hide Acts, Reaches;
    assert forall a | a in plan[1..][..k - 1] :: a in plan[1..];
    RulesStay(next, plan[1..], k - 1, h');
  }

  lemma AddressIsLeft(config: Config, name: string)
    requires OneToOne(config) && name in config
    ensures config[name].address !in Addresses(config - {name})
  {
  }

  lemma RulesComeFirst(config: Config, name: string)
    requires name in config
    ensures var plan := DisablePlan(config, name);
      plan[0] == WriteRules(Addresses(config - {name})) && forall a | a in plan[1..] :: !a.WriteRules?
  {
    var c := config - {name};
    assert DisablePlan(config, name)[1..] == [ReloadUdev] + DisableStages(name, config[name].address) + [Record(c)];
  }

  /**
   Wherever a disable stops once it has begun, the device has no rule, so it gets its host
   driver at the next boot.
   */
  lemma DisableFreesTheDevice(h: Host, name: string, k: nat, h': Host)
    requires name in h.config && 1 <= k <= |DisablePlan(h.config, name)|
    ensures Agree(h.config, h.rules) && Reaches(h, DisablePlan(h.config, name), k, h') ==>
      h.config[name].address !in h'.rules
  {
    if Agree(h.config, h.rules) && Reaches(h, DisablePlan(h.config, name), k, h') {
      AddressIsLeft(h.config, name);
      RulesComeFirst(h.config, name);
      RulesAreWritten(h, DisablePlan(h.config, name), k, h');
    }
  }

  /** Wherever an enable stops, it has not changed the rules before it has started the guest. */
  lemma EnableStartsFirst(h: Host, after: Config, name: string, isNew: bool, k: nat, h': Host)
    requires k <= |EnableStages(after, name, isNew)| && Reaches(h, EnableStages(after, name, isNew), k, h')
    ensures h'.rules != h.rules ==> EnableUnit(name) in EnableStages(after, name, isNew)[..k]
  {
    var plan := EnableStages(after, name, isNew);
    var start := if isNew then 1 else 0;
    assert plan[start] == EnableUnit(name);
    if k <= start {
      RulesStay(h, plan, k, h');
    } else {
      assert plan[..k][start] == EnableUnit(name);
    }
  }

  /** A plan from its start to its end, on a host that does nothing else. */
  ghost predicate Runs(h: Host, plan: seq<Action>, h': Host)
    decreases |plan|
  {
    if plan == [] then h == h'
    else exists left: Left :: Runs(Effect(h, plan[0], left), plan[1..], h')
  }

  lemma {:induction false} RunsAppend(h: Host, a: seq<Action>, b: seq<Action>, h': Host) returns (middle: Host)
    requires Runs(h, a + b, h')
    ensures Runs(h, a, middle) && Runs(middle, b, h')
    decreases |a|
  {
    if a == [] {
      assert a + b == b;
      middle := h;
    } else {
      assert (a + b)[1..] == a[1..] + b;
      var left: Left :| Runs(Effect(h, a[0], left), a[1..] + b, h');
      middle := RunsAppend(Effect(h, a[0], left), a[1..], b, h');
    }
  }

  lemma RunsOne(h: Host, a: Action, h': Host) returns (left: Left)
    requires Runs(h, [a], h')
    ensures h' == Effect(h, a, left)
  {
    assert [a][1..] == [];
    left :| Runs(Effect(h, a, left), [], h');
  }

  lemma RunsThree(h: Host, a: Action, b: Action, c: Action, h': Host) returns (l1: Left, l2: Left, l3: Left)
    requires Runs(h, [a, b, c], h')
    ensures h' == Effect(Effect(Effect(h, a, l1), b, l2), c, l3)
  {
    hide Effect;
    assert [a, b, c][1..] == [b, c] && [b, c][1..] == [c];
    l1 :| Runs(Effect(h, a, l1), [b, c], h');
    l2 :| Runs(Effect(Effect(h, a, l1), b, l2), [c], h');
    l3 := RunsOne(Effect(Effect(h, a, l1), b, l2), c, h');
  }

  function Returned(s: Slot): Slot {
    Probed(Unbound(Cleared(s)))
  }

  /** The host once a device is stopped, cleaned up and returned. */
  function Stopped(h: Host, name: string, address: string): Host {
    h.(enabled := if h.unitFile then h.enabled - {name} else h.enabled,
       running := h.running - {name}, attached := h.attached - {name}, created := h.created - {name},
       logs := h.logs - {name}, mounts := h.mounts - {name}, dirs := h.dirs - {name},
       slots := At(h.slots, address, Returned))
  }

  lemma StagesEnd(h: Host, name: string, address: string, h': Host)
    requires Runs(h, DisableStages(name, address), h')
    ensures h' == Stopped(h, name, address)
  {
    var first := [DisableUnit(name), LowerTimeout(name), DeleteFromBus(name), DestroyDevice(name), RemoveLog(name),
      Unmount(name), RemoveDir(name)];
    var second := [ClearOverride(address), Unbind(address), Probe(address)];
    assert DisableStages(name, address) == first + second;
    var middle := RunsAppend(h, first, second, h');
    CleanupEnd(h, name, middle);
    ReturnEnd(middle, address, h');
  }

  lemma CleanupEnd(h: Host, name: string, h': Host)
    requires Runs(h, [DisableUnit(name), LowerTimeout(name), DeleteFromBus(name), DestroyDevice(name), RemoveLog(name),
      Unmount(name), RemoveDir(name)], h')
    ensures h' == Stopped(h, name, "").(slots := h.slots)
  {
    var stop := [DisableUnit(name), LowerTimeout(name), DeleteFromBus(name), DestroyDevice(name)];
    var files := [RemoveLog(name), Unmount(name), RemoveDir(name)];
    assert [DisableUnit(name), LowerTimeout(name), DeleteFromBus(name), DestroyDevice(name), RemoveLog(name),
      Unmount(name), RemoveDir(name)] == stop + files;
    var middle := RunsAppend(h, stop, files, h');
    StopEnd(h, name, middle);
    FilesEnd(middle, name, h');
  }

  lemma StopEnd(h: Host, name: string, h': Host)
    requires Runs(h, [DisableUnit(name), LowerTimeout(name), DeleteFromBus(name), DestroyDevice(name)], h')
    ensures h' == h.(enabled := if h.unitFile then h.enabled - {name} else h.enabled,
      running := h.running - {name}, attached := h.attached - {name}, created := h.created - {name})
  {
    var a, b, c, d := DisableUnit(name), LowerTimeout(name), DeleteFromBus(name), DestroyDevice(name);
    assert [a, b, c, d][1..] == [b, c, d] && [b, c, d][1..] == [c, d] && [c, d][1..] == [d] && [d][1..] == [];
    var l1: Left :| Runs(Effect(h, a, l1), [b, c, d], h');
    var h1 := Effect(h, a, l1);
    var l2: Left :| Runs(Effect(h1, b, l2), [c, d], h');
    var l3: Left :| Runs(Effect(h1, c, l3), [d], h');
    var l4 := RunsOne(Effect(h1, c, l3), d, h');
    assert h1.attached - {name} == h.attached - {name};
    assert h1.created - {name} == h.created - {name};
  }

  lemma FilesEnd(h: Host, name: string, h': Host)
    requires Runs(h, [RemoveLog(name), Unmount(name), RemoveDir(name)], h')
    ensures h' == h.(logs := h.logs - {name}, mounts := h.mounts - {name}, dirs := h.dirs - {name})
  {
    var l1, l2, l3 := RunsThree(h, RemoveLog(name), Unmount(name), RemoveDir(name), h');
  }

  lemma ReturnEnd(h: Host, address: string, h': Host)
    requires Runs(h, [ClearOverride(address), Unbind(address), Probe(address)], h')
    ensures h' == h.(slots := At(h.slots, address, Returned))
  {
    var l1, l2, l3 := RunsThree(h, ClearOverride(address), Unbind(address), Probe(address), h');
    if address in h.slots {
      var s := h.slots;
      assert s[address := Cleared(s[address])][address := Unbound(Cleared(s[address]))]
          [address := Returned(s[address])] == s[address := Returned(s[address])];
    }
  }

  predicate IsCleanup(a: Action, name: string) {
    a == DisableUnit(name) || a == LowerTimeout(name) || a == DeleteFromBus(name) || a == DestroyDevice(name)
    || a == RemoveLog(name) || a == Unmount(name) || a == RemoveDir(name)
  }

  lemma CleanupIsAbsorbed(h: Host, a: Action, name: string, address: string, left: Left)
    requires IsCleanup(a, name)
    ensures Stopped(Effect(h, a, left), name, address) == Stopped(h, name, address)
  {
    match a {
      case DisableUnit(_) => StopIsAbsorbed(h, name, left);
      case DeleteFromBus(_) => MinusAgain(h.attached, name);
      case DestroyDevice(_) => MinusAgain(h.created, name);
      case RemoveLog(_) => MinusAgain(h.logs, name);
      case Unmount(_) => MinusAgain(h.mounts, name);
      case RemoveDir(_) => MinusAgain(h.dirs, name);
      case _ =>
    }
  }

  lemma StopIsAbsorbed(h: Host, name: string, left: Left)
    ensures var next := Stop(h, name, left); var n := {name};
      && next == h.(enabled := next.enabled, running := next.running, attached := next.attached,
                    created := next.created)
      && (h.unitFile ==> next.enabled - n == h.enabled - n) && (!h.unitFile ==> next.enabled == h.enabled)
      && next.running - n == h.running - n && next.attached - n == h.attached - n && next.created - n == h.created - n
  {
    MinusAgain(h.enabled, name);
    MinusAgain(h.running, name);
    MinusAgain(h.attached, name);
    MinusAgain(h.created, name);
  }

  lemma MinusAgain(s: set<string>, name: string)
    ensures s - {name} - {name} == s - {name}
  {
  }

  lemma ReturnIsAbsorbed(h: Host, name: string, address: string, f: Slot -> Slot)
    requires f == Cleared || f == Unbound
    ensures Stopped(h.(slots := At(h.slots, address, f)), name, address) == Stopped(h, name, address)
  {
    if address in h.slots {
      var s := h.slots[address];
      assert Returned(f(s)) == Returned(s);
      assert h.slots[address := f(s)][address := Returned(s)] == h.slots[address := Returned(s)];
    }
  }

  /** A stage that has begun changes nothing in where its end leads, before it probes. */
  lemma StageIsAbsorbed(h: Host, name: string, address: string, i: nat, left: Left)
    requires i < 9
    ensures var next := Effect(h, DisableStages(name, address)[i], left);
      && Stopped(next, name, address) == Stopped(h, name, address)
      && next.config == h.config && next.rules == h.rules && next.loaded == h.loaded
      && next.unitFile == h.unitFile && next.user == h.user
  {
    if i < 7 {
      CleanupIsAbsorbed(h, DisableStages(name, address)[i], name, address, left);
    } else {
      ReturnIsAbsorbed(h, name, address, if i == 7 then Cleared else Unbound);
    }
    hide Stopped;
  }

  lemma StoppedTwice(h: Host, name: string, address: string)
    ensures Stopped(Stopped(h, name, address), name, address) == Stopped(h, name, address)
  {
    var once := Stopped(h, name, address);
    var n := {name};
    assert once.enabled - n == if h.unitFile then once.enabled else h.enabled - n;
    assert once.running - n == once.running && once.attached - n == once.attached && once.created - n == once.created;
    assert once.logs - n == once.logs && once.mounts - n == once.mounts && once.dirs - n == once.dirs;
    if address in h.slots {
      ReturnedTwice(h.slots[address]);
      var s := Returned(h.slots[address]);
      assert h.slots[address := s][address := s] == h.slots[address := s];
    }
  }

  lemma ReturnedTwice(s: Slot)
    ensures Returned(Returned(s)) == Returned(s)
  {
  }

  /** A cut in the stages of a device leaves a host from which they end as they would have. */
  lemma {:induction false} StagesCut(h: Host, name: string, address: string, k: nat, cut: Host)
    requires k <= 10 && Runs(h, DisableStages(name, address)[..k], cut)
    ensures Stopped(cut, name, address) == Stopped(h, name, address)
    ensures cut.config == h.config && cut.rules == h.rules && cut.loaded == h.loaded
    ensures cut.unitFile == h.unitFile && cut.user == h.user
    decreases k
  {
    var stages := DisableStages(name, address);
    if k == 10 {
      assert stages[..10] == stages;
      StagesEnd(h, name, address, cut);
      StoppedTwice(h, name, address);
    } else if k > 0 {
      assert stages[..k] == stages[..k - 1] + [stages[k - 1]];
      var before := RunsAppend(h, stages[..k - 1], [stages[k - 1]], cut);
      StagesCut(h, name, address, k - 1, before);
      var left := RunsOne(before, stages[k - 1], cut);
      StageIsAbsorbed(before, name, address, k - 1, left);
    }
  }

  /** The host after a whole disable. */
  function Disabled(h: Host, name: string): Host
    requires name in h.config
  {
    var c := h.config - {name};
    Stopped(h, name, h.config[name].address).(config := c, rules := Addresses(c), loaded := Addresses(c))
  }

  lemma UdevEnd(h: Host, config: Config, h': Host)
    requires Runs(h, UdevActions(config), h')
    ensures h' == h.(rules := Addresses(config), loaded := Addresses(config))
  {
    var a, b := WriteRules(Addresses(config)), ReloadUdev;
    assert [a, b][1..] == [b];
    var l1: Left :| Runs(Effect(h, a, l1), [b], h');
    var l2 := RunsOne(Effect(h, a, l1), b, h');
  }

  lemma UdevCut(h: Host, config: Config, k: nat, cut: Host)
    requires k <= 2 && Runs(h, UdevActions(config)[..k], cut)
    ensures cut == h.(rules := cut.rules, loaded := cut.loaded)
  {
    var plan := UdevActions(config);
    if k == 1 {
      assert plan[..1] == [plan[0]];
      var left := RunsOne(h, plan[0], cut);
    } else if k == 2 {
      assert plan[..2] == plan;
      UdevEnd(h, config, cut);
    }
  }

  lemma DisableEnds(h: Host, name: string, h': Host)
    requires name in h.config && Runs(h, DisablePlan(h.config, name), h')
    ensures h' == Disabled(h, name)
  {
    var c, address := h.config - {name}, h.config[name].address;
    var udev, stages := UdevActions(c), DisableStages(name, address);
    var before := RunsAppend(h, udev + stages, [Record(c)], h');
    var middle := RunsAppend(h, udev, stages, before);
    hide Stopped, Runs;
    UdevEnd(h, c, middle);
    StagesEnd(middle, name, address, before);
    var left := RunsOne(before, Record(c), h');
    TwoFields(h, name, address, Addresses(c), Addresses(c));
  }

  lemma TwoFields(h: Host, name: string, address: string, rules: set<string>, loaded: set<string>)
    ensures Stopped(h.(rules := rules, loaded := loaded), name, address)
      == Stopped(h, name, address).(rules := rules, loaded := loaded)
  {
  }

  lemma DisableCut(h: Host, name: string, k: nat, cut: Host)
    requires name in h.config && k < |DisablePlan(h.config, name)| && Runs(h, DisablePlan(h.config, name)[..k], cut)
    ensures cut.config == h.config && Disabled(cut, name) == Disabled(h, name)
  {
    var c, address := h.config - {name}, h.config[name].address;
    var udev, stages := UdevActions(c), DisableStages(name, address);
    var plan := udev + stages + [Record(c)];
    if k <= 2 {
      assert plan[..k] == udev[..k];
      UdevCut(h, c, k, cut);
      TwoFields(h, name, address, cut.rules, cut.loaded);
      hide Stopped;
    } else {
      assert plan[..k] == udev + stages[..k - 2];
      var middle := RunsAppend(h, udev, stages[..k - 2], cut);
      UdevEnd(h, c, middle);
      StagesCut(middle, name, address, k - 2, cut);
      TwoFields(h, name, address, Addresses(c), Addresses(c));
    }
  }

  /**
   An interrupted disable that is run again reaches what it would have reached. If it was cut
   before it forgot the device, the second run has the same plan, and otherwise nothing is left
   to do.
   */
  lemma DisableAgain(h: Host, name: string, k: nat, cut: Host, done: Host)
    requires name in h.config && k <= |DisablePlan(h.config, name)|
    requires Runs(h, DisablePlan(h.config, name)[..k], cut) && Runs(h, DisablePlan(h.config, name), done)
    ensures name in cut.config <==> k < |DisablePlan(h.config, name)|
    ensures if name in cut.config then
        forall h' | Runs(cut, DisablePlan(cut.config, name), h') :: h' == done
      else cut == done
  {
    var plan := DisablePlan(h.config, name);
    DisableEnds(h, name, done);
    if k < |plan| {
      DisableCut(h, name, k, cut);
      forall h' | Runs(cut, DisablePlan(cut.config, name), h')
        ensures h' == done
      {
        DisableEnds(cut, name, h');
      }
    } else {
      assert plan[..k] == plan;
      DisableEnds(h, name, cut);
    }
  }

  /** The host after a whole enable, but for what the service does. */
  function Enabled(h: Host, after: Config, name: string): Host {
    h.(config := after, rules := Addresses(after), loaded := Addresses(after),
       enabled := h.enabled + {name}, running := h.running + {name})
  }

  lemma EnableEnds(h: Host, after: Config, name: string, isNew: bool, h': Host)
    requires (isNew || after == h.config) && Runs(h, EnableStages(after, name, isNew), h')
    ensures h' == Enabled(h, after, name)
  {
    var record := if isNew then [Record(after)] else [];
    var started := RunsAppend(h, record + [EnableUnit(name)], UdevActions(after), h');
    var recorded := RunsAppend(h, record, [EnableUnit(name)], started);
    if isNew {
      var l1 := RunsOne(h, Record(after), recorded);
    }
    var l2 := RunsOne(recorded, EnableUnit(name), started);
    UdevEnd(started, after, h');
  }

  lemma EnableCut(h: Host, after: Config, name: string, isNew: bool, k: nat, cut: Host)
    requires (isNew || after == h.config) && k <= |EnableStages(after, name, isNew)|
    requires Runs(h, EnableStages(after, name, isNew)[..k], cut)
    ensures cut.config == (if isNew && k == 0 then h.config else after)
    ensures Enabled(cut, after, name) == Enabled(h, after, name)
  {
    var start := if isNew then 1 else 0;
    var plan := EnableStages(after, name, isNew);
    var record := if isNew then [Record(after)] else [];
    assert plan == record + ([EnableUnit(name)] + UdevActions(after));
    TwoForUdev();
    hide Addresses, UdevActions, EnableStages, Runs;
    if k == 0 {
      assert plan[..0] == [];
      RunsNone(h, cut);
    } else if k == start {
      assert plan[..1] == [Record(after)];
      var left := RunsOne(h, Record(after), cut);
    } else {
      var some := UdevActions(after)[..k - start - 1];
      assert plan[..k] == record + ([EnableUnit(name)] + some);
      var started := EnableStarts(h, after, name, isNew, some, cut);
      UdevCut(started, after, k - start - 1, cut);
    }
  }

  lemma RunsNone(h: Host, h': Host)
    requires Runs(h, [], h')
    ensures h' == h
  {
  }

  lemma EnableStarts(h: Host, after: Config, name: string, isNew: bool, rest: seq<Action>, h': Host)
    returns (started: Host)
    requires isNew || after == h.config
    requires Runs(h, (if isNew then [Record(after)] else []) + ([EnableUnit(name)] + rest), h')
    ensures Runs(started, rest, h') && started.config == after && started.enabled == h.enabled + {name}
    ensures Enabled(started, after, name) == Enabled(h, after, name)
  {
    var on := {name};
    var recorded := RunsAppend(h, if isNew then [Record(after)] else [], [EnableUnit(name)] + rest, h');
    started := RunsAppend(recorded, [EnableUnit(name)], rest, h');
    if isNew {
      var l1 := RunsOne(h, Record(after), recorded);
    } else {
      RunsNone(h, recorded);
    }
    var l2 := RunsOne(recorded, EnableUnit(name), started);
    hide Runs;
    assert h.enabled + on + on == h.enabled + on && h.running + on + on == h.running + on;
  }

  /**
   An interrupted enable that is run again, with the same arguments, has a plan, which ends where
   the first would have ended.
   */
  lemma EnableAgain(groups: Groups, h: Host, e: Command, name: string, after: Config, plan: seq<Action>,
                    k: nat, cut: Host, done: Host) returns (again: seq<Action>)
    requires e.Enable? && IsAddress(e.address) && Agree(h.config, h.rules)
    requires EnablePlan(groups, h.config, e, name, after, plan)
    requires k <= |plan| && Runs(h, plan[..k], cut) && Runs(h, plan, done)
    ensures EnablePlan(groups, cut.config, e, name, after, again)
    ensures forall h' | Runs(cut, again, h') :: h' == done
  {
    var isNew := !exists n :: Finds(h.config, e.address, n);
    assert plan == EnableStages(after, name, isNew);
    EnableEnds(h, after, name, isNew, done);
    EnableCut(h, after, name, isNew, k, cut);
    again := EnableStages(after, name, isNew && k == 0);
    if isNew && k > 0 {
      FoundAgain(groups, h.config, e, name, after, again);
    }
    hide EnablePlan, Enabled, EnableStages, Agree;
    forall h' | Runs(cut, again, h')
      ensures h' == done
    {
      EnableEnds(cut, after, name, isNew && k == 0, h');
    }
  }

  /** A device that was recorded is found with the name that it got. */
  lemma FoundAgain(groups: Groups, config: Config, e: Command, name: string, after: Config, again: seq<Action>)
    requires e.Enable? && IsAddress(e.address) && Loads(config) && !SharesGroup(groups, config, e.address)
    requires (forall n :: !Finds(config, e.address, n)) && IsName(name)
    requires name == (if e.name == "" then DefaultName(e.kind, e.address) else e.name) && name !in config
    requires after == config[name := Device(e.address, e.kind, e.memory)] && again == EnableStages(after, name, false)
    ensures EnablePlan(groups, after, e, name, after, again)
  {
    assert !SharesGroup(groups, after, e.address);
    NameIsNoAddress(name);
    var key := e.address;
    assert key in config ==> Finds(config, key, key);
    assert Finds(after, e.address, name);
  }

  /** Every recorded device with a rule has a service that starts at boot. */
  predicate RulesAreStarted(h: Host) {
    forall n | n in h.config && h.config[n].address in h.rules :: n in h.enabled
  }

  /**
   An enable writes a rule for every recorded device, so that, once it has, the devices with a
   rule are those whose guests start at boot exactly if all the others' guests do. A device
   whose enable was interrupted is one whose guest does not.
   */
  lemma EnableRulesExactly(h: Host, after: Config, name: string, isNew: bool, k: nat, cut: Host)
    requires name in after && k <= |EnableStages(after, name, isNew)|
    requires Runs(h, EnableStages(after, name, isNew)[..k], cut)
    requires WriteRules(Addresses(after)) in EnableStages(after, name, isNew)[..k]
    requires if isNew then name !in h.config && after == h.config[name := after[name]] else after == h.config
    ensures RulesAreStarted(cut) <==> forall n | n in h.config :: n == name || n in h.enabled
  {
    EnableCutRules(h, after, name, isNew, k, cut);
    forall n | n in h.config
      ensures n in cut.config && cut.config[n].address in cut.rules
    {
      assert n in after;
    }
  }

  lemma EnableCutRules(h: Host, after: Config, name: string, isNew: bool, k: nat, cut: Host)
    requires k <= |EnableStages(after, name, isNew)| && (isNew || after == h.config)
    requires Runs(h, EnableStages(after, name, isNew)[..k], cut)
    requires WriteRules(Addresses(after)) in EnableStages(after, name, isNew)[..k]
    ensures cut.config == after && cut.rules == Addresses(after) && cut.enabled == h.enabled + {name}
  {
    hide *;
    var first := if isNew then 2 else 1;
    RulesComeLast(after, name, isNew, k);
    var some := UdevActions(after)[..k - first];
    var started := EnableStarts(h, after, name, isNew, some, cut);
    UdevRules(started, after, k - first, cut);
  }

  /** The rules are written only after the guest is started. */
  lemma RulesComeLast(after: Config, name: string, isNew: bool, k: nat)
    requires k <= |EnableStages(after, name, isNew)|
    requires WriteRules(Addresses(after)) in EnableStages(after, name, isNew)[..k]
    ensures var first := if isNew then 2 else 1;
      && first < k <= first + 2 && |UdevActions(after)| == 2
      && EnableStages(after, name, isNew)[..k]
        == (if isNew then [Record(after)] else []) + ([EnableUnit(name)] + UdevActions(after)[..k - first])
  {
    hide Addresses;
    var first := if isNew then 2 else 1;
    var before := (if isNew then [Record(after)] else []) + [EnableUnit(name)];
    assert EnableStages(after, name, isNew) == before + UdevActions(after) && |before| == first;
    var plan := before + UdevActions(after);
    assert forall j | 0 <= j < first :: plan[j] == before[j] && !plan[j].WriteRules?;
    var i :| 0 <= i < k && plan[..k][i] == WriteRules(Addresses(after));
    assert plan[i].WriteRules?;
    assert (before + UdevActions(after))[..k] == before + UdevActions(after)[..k - first];
  }

  /** The rules are there once the first of the two actions is done. */
  lemma UdevRules(h: Host, config: Config, k: nat, cut: Host)
    requires 1 <= k <= 2 && Runs(h, UdevActions(config)[..k], cut)
    ensures cut == h.(rules := Addresses(config), loaded := cut.loaded)
  {
    var plan := UdevActions(config);
    if k == 1 {
      assert plan[..1] == [plan[0]];
      var left := RunsOne(h, plan[0], cut);
    } else {
      assert plan[..2] == plan;
      UdevEnd(h, config, cut);
    }
  }

  /** A disable writes a rule for every device that it leaves recorded, with its first action. */
  lemma DisableRulesExactly(h: Host, name: string, k: nat, cut: Host)
    requires Agree(h.config, h.rules) && name in h.config
    requires 1 <= k <= |DisablePlan(h.config, name)| && Runs(h, DisablePlan(h.config, name)[..k], cut)
    ensures RulesAreStarted(cut) <==> forall n | n in h.config && n != name :: n in h.enabled
  {
    DisableCutRules(h, name, k, cut);
    AddressIsLeft(h.config, name);
    OthersAreStarted(h, name, cut);
  }

  lemma OthersAreStarted(h: Host, name: string, cut: Host)
    requires name in h.config && h.config[name].address !in cut.rules
    requires cut.rules == Addresses(h.config - {name})
    requires cut.config == h.config || cut.config == h.config - {name}
    requires forall n | n != name :: n in cut.enabled <==> n in h.enabled
    ensures RulesAreStarted(cut) <==> forall n | n in h.config && n != name :: n in h.enabled
  {
    forall n | n in h.config && n != name
      ensures n in cut.config && cut.config[n].address in cut.rules
    {
      assert n in h.config - {name};
    }
  }

  lemma DisableCutRules(h: Host, name: string, k: nat, cut: Host)
    requires name in h.config && 1 <= k <= |DisablePlan(h.config, name)|
    requires Runs(h, DisablePlan(h.config, name)[..k], cut)
    ensures cut.rules == Addresses(h.config - {name})
    ensures cut.config == h.config || cut.config == h.config - {name}
    ensures forall n | n != name :: n in cut.enabled <==> n in h.enabled
  {
    var c, address := h.config - {name}, h.config[name].address;
    var udev, stages := UdevActions(c), DisableStages(name, address);
    var plan := udev + stages + [Record(c)];
    if k == |plan| {
      assert plan[..k] == plan;
      DisableEnds(h, name, cut);
    } else if k <= 2 {
      assert plan[..k] == udev[..k];
      UdevRules(h, c, k, cut);
    } else {
      assert plan[..k] == udev + stages[..k - 2];
      var middle := RunsAppend(h, udev, stages[..k - 2], cut);
      UdevEnd(h, c, middle);
      StagesCut(middle, name, address, k - 2, cut);
      OthersStay(middle, cut, name, address);
    }
  }

  lemma OthersStay(g: Host, h: Host, name: string, address: string)
    requires Stopped(g, name, address).enabled == Stopped(h, name, address).enabled && g.unitFile == h.unitFile
    ensures forall n | n != name :: n in g.enabled <==> n in h.enabled
  {
    forall n | n != name
      ensures n in g.enabled <==> n in h.enabled
    {
      assert n in g.enabled <==> n in Stopped(g, name, address).enabled;
      assert n in h.enabled <==> n in Stopped(h, name, address).enabled;
    }
  }

  /**
   A device whose enable was interrupted loses its host driver at the next boot, as an enable
   of another device writes its rule.
   */
  lemma InterruptedEnableGetsRule(h: Host, done: Host)
    requires h.config == map["net-a" := Device("0000:06:00.0", Net, "")] && h.rules == {} && h.enabled == {}
    requires Runs(h, EnableStages(h.config["net-b" := Device("0000:07:00.0", Net, "")], "net-b", true), done)
    ensures "0000:06:00.0" in done.rules && "net-a" !in done.enabled
    ensures RulesAreStarted(h) && !RulesAreStarted(done)
  {
    var after := h.config["net-b" := Device("0000:07:00.0", Net, "")];
    EnableEnds(h, after, "net-b", true, done);
    assert after["net-a"].address == "0000:06:00.0";
  }

  /** So does a disable of another device, already when it has written the rules. */
  lemma DisableGivesRule(h: Host, cut: Host)
    requires h.config == map["net-a" := Device("0000:06:00.0", Net, ""), "net-b" := Device("0000:07:00.0", Net, "")]
    requires h.rules == {"0000:07:00.0"} && h.enabled == {"net-b"}
    requires Runs(h, DisablePlan(h.config, "net-b")[..1], cut)
    ensures "0000:06:00.0" in cut.rules && "net-a" !in cut.enabled
    ensures RulesAreStarted(h) && !RulesAreStarted(cut)
  {
    DisableCutRules(h, "net-b", 1, cut);
    assert (h.config - {"net-b"})["net-a"].address == "0000:06:00.0";
    assert h.config["net-a"].address != "0000:07:00.0";
  }

  function AddressesOf(config: Config, names: set<string>): (r: set<string>)
    requires forall name | name in names :: name in config
    ensures names == {} ==> r == {}
  {
    set name | name in names :: config[name].address
  }

  /** The host once some devices are stopped, cleaned up and returned. */
  function AllStopped(h: Host, config: Config, names: set<string>): Host
    requires forall name | name in names :: name in config
  {
    h.(enabled := if h.unitFile then h.enabled - names else h.enabled,
       running := h.running - names, attached := h.attached - names, created := h.created - names,
       logs := h.logs - names, mounts := h.mounts - names, dirs := h.dirs - names,
       slots := AllReturned(h.slots, AddressesOf(config, names)))
  }

  function AllReturned(slots: map<string, Slot>, addresses: set<string>): map<string, Slot> {
    map a | a in slots :: if a in addresses then Returned(slots[a]) else slots[a]
  }

  /** A device that is stopped first changes nothing in what stopping them all does. */
  lemma StoppedIsAbsorbed(h: Host, config: Config, names: set<string>, name: string)
    requires name in names && forall n | n in names :: n in config
    ensures AllStopped(Stopped(h, name, config[name].address), config, names) == AllStopped(h, config, names)
  {
    var next := Stopped(h, name, config[name].address);
    MinusTwice(h.running, name, names);
    MinusTwice(h.enabled, name, names);
    MinusTwice(h.attached, name, names);
    MinusTwice(h.created, name, names);
    MinusTwice(h.logs, name, names);
    MinusTwice(h.mounts, name, names);
    MinusTwice(h.dirs, name, names);
    var addresses := AddressesOf(config, names);
    assert config[name].address in addresses;
    assert AllReturned(next.slots, addresses) == AllReturned(h.slots, addresses) by {
      if config[name].address in h.slots {
        ReturnedTwice(h.slots[config[name].address]);
      }
    }
  }

  lemma MinusTwice(s: set<string>, name: string, names: set<string>)
    requires name in names
    ensures s - {name} - names == s - names
  {
  }

  lemma {:induction false} AllStagesCut(
    h: Host, config: Config, all: set<string>, names: seq<string>, k: nat, cut: Host)
    requires (forall n | n in all :: n in config) && forall n | n in names :: n in all
    requires k <= |AllStages(config, names)| && Runs(h, AllStages(config, names)[..k], cut)
    ensures AllStopped(cut, config, all) == AllStopped(h, config, all)
    ensures cut.config == h.config && cut.unitFile == h.unitFile
    decreases |names|
  {
    hide AllStopped, Stopped;
    if names != [] {
      var name := names[0];
      var address := config[name].address;
      var first, rest := DisableStages(name, address), AllStages(config, names[1..]);
      assert name in all;
      if k <= 10 {
        assert (first + rest)[..k] == first[..k];
        StagesCut(h, name, address, k, cut);
        StoppedIsAbsorbed(h, config, all, name);
        StoppedIsAbsorbed(cut, config, all, name);
      } else {
        assert (first + rest)[..k] == first + rest[..k - 10];
        var middle := RunsAppend(h, first, rest[..k - 10], cut);
        StagesEnd(h, name, address, middle);
        StoppedFlags(h, name, address);
        StoppedIsAbsorbed(h, config, all, name);
        AllStagesCut(middle, config, all, names[1..], k - 10, cut);
      }
    }
  }

  lemma StoppedFlags(h: Host, name: string, address: string)
    ensures var s := Stopped(h, name, address); s.config == h.config && s.unitFile == h.unitFile
  {
  }

  lemma {:induction false} AllStagesEnd(h: Host, config: Config, names: seq<string>, h': Host)
    requires (forall n | n in names :: n in config) && Runs(h, AllStages(config, names), h')
    ensures h' == AllStopped(h, config, set n | n in names)
    decreases |names|
  {
    if names == [] {
      assert (set n | n in names) == {};
      NoneStopped(h, config);
    } else {
      var name := names[0];
      var address := config[name].address;
      var middle := RunsAppend(h, DisableStages(name, address), AllStages(config, names[1..]), h');
      StagesEnd(h, name, address, middle);
      AllStagesEnd(middle, config, names[1..], h');
      assert (set n | n in names) == {name} + set n | n in names[1..];
      OneMoreStopped(h, config, name, set n | n in names[1..]);
    }
  }

  lemma NoneStopped(h: Host, config: Config)
    ensures AllStopped(h, config, {}) == h
  {
    var none: set<string> := {};
    assert h.slots == AllReturned(h.slots, none);
    assert h.enabled - none == h.enabled && h.running - none == h.running && h.attached - none == h.attached;
    assert h.created - none == h.created && h.logs - none == h.logs;
    assert h.mounts - none == h.mounts && h.dirs - none == h.dirs;
  }

  lemma OneMoreStopped(h: Host, config: Config, name: string, names: set<string>)
    requires name in config && forall n | n in names :: n in config
    ensures AllStopped(Stopped(h, name, config[name].address), config, names) == AllStopped(h, config, {name} + names)
  {
    var next := Stopped(h, name, config[name].address);
    var address := config[name].address;
    var some, all := AddressesOf(config, names), AddressesOf(config, {name} + names);
    assert all == {address} + some;
    assert AllReturned(next.slots, some) == AllReturned(h.slots, all) by {
      if address in h.slots {
        ReturnedTwice(h.slots[address]);
      }
    }
    MinusBoth(h.running, name, names);
    MinusBoth(h.enabled, name, names);
    MinusBoth(h.attached, name, names);
    MinusBoth(h.created, name, names);
    MinusBoth(h.logs, name, names);
    MinusBoth(h.mounts, name, names);
    MinusBoth(h.dirs, name, names);
  }

  lemma MinusBoth(s: set<string>, name: string, names: set<string>)
    ensures s - {name} - names == s - ({name} + names)
  {
  }

  /** What the last actions of an uninstall can have done. */
  predicate AreRemoved(d: Host, h: Host) {
    && h == d.(user := h.user, unitFile := h.unitFile, loaded := h.loaded, config := h.config,
               logs := h.logs, dirs := h.dirs)
    && (h.unitFile ==> d.unitFile)
    && (h.config == map[] || (h.config == d.config && h.logs == d.logs && h.dirs == d.dirs))
  }

  predicate IsRemoval(a: Action) {
    a in {DeleteUser, RemoveUnit, ReloadSystemd, ReloadUdev, RemoveFiles, RemoveProgram}
  }

  lemma RemovalStep(d: Host, h: Host, a: Action, left: Left)
    requires AreRemoved(d, h) && IsRemoval(a)
    ensures AreRemoved(d, Effect(h, a, left))
  {
  }

  lemma {:induction false} RemovalCut(d: Host, h: Host, plan: seq<Action>, h': Host)
    requires AreRemoved(d, h) && (forall a | a in plan :: IsRemoval(a)) && Runs(h, plan, h')
    ensures AreRemoved(d, h')
    decreases |plan|
  {
    if plan != [] {
      hide AreRemoved, IsRemoval, Effect;
      var left: Left :| Runs(Effect(h, plan[0], left), plan[1..], h');
      assert plan[0] in plan;
      RemovalStep(d, h, plan[0], left);
      RemovalCut(d, Effect(h, plan[0], left), plan[1..], h');
    }
  }

  /** The host without InvirtIO. */
  function Gone(h: Host): Host {
    AllStopped(h, h.config, h.config.Keys).(rules := {}, loaded := {}, user := false, unitFile := false,
      config := map[], logs := {}, dirs := {})
  }

  /** The last actions. */
  function Removals(user: bool): seq<Action> {
    (if user then [DeleteUser] else []) + ([RemoveUnit, ReloadSystemd, ReloadUdev] + [RemoveFiles, RemoveProgram])
  }

  lemma UninstallIsGrouped(config: Config, names: seq<string>, user: bool)
    requires forall name | name in names :: name in config
    ensures UninstallPlan(config, names, user) == UdevActions(map[]) + (AllStages(config, names) + Removals(user))
  {
    var udev, stages, first := UdevActions(map[]), AllStages(config, names), if user then [DeleteUser] else [];
    var last := [RemoveUnit, ReloadSystemd, ReloadUdev] + [RemoveFiles, RemoveProgram];
    hide UdevActions, AllStages;
    Regroup(udev + stages, first, last);
    Regroup(udev, stages, first + last);
  }

  lemma UnitEnd(h: Host, h': Host)
    requires Runs(h, [RemoveUnit, ReloadSystemd, ReloadUdev], h')
    ensures h' == h.(unitFile := false, loaded := h.rules)
  {
    var l1, l2, l3 := RunsThree(h, RemoveUnit, ReloadSystemd, ReloadUdev, h');
  }

  lemma RemoveEnd(h: Host, h': Host)
    requires Runs(h, [RemoveFiles, RemoveProgram], h')
    ensures h' == h.(config := map[], logs := {}, dirs := {})
  {
    var a, b := RemoveFiles, RemoveProgram;
    assert [a, b][1..] == [b];
    var l1: Left :| Runs(Effect(h, a, l1), [b], h');
    var l2 := RunsOne(Effect(h, a, l1), b, h');
  }

  lemma RemovalsEnd(h: Host, h': Host)
    requires Runs(h, Removals(h.user), h')
    ensures h' == h.(user := false, unitFile := false, loaded := h.rules, config := map[], logs := {}, dirs := {})
  {
    var user := if h.user then [DeleteUser] else [];
    var first, last := [RemoveUnit, ReloadSystemd, ReloadUdev], [RemoveFiles, RemoveProgram];
    var h1 := RunsAppend(h, user, first + last, h');
    if h.user {
      var left := RunsOne(h, DeleteUser, h1);
    }
    hide Runs;
    var h2 := RunsAppend(h1, first, last, h');
    UnitEnd(h1, h2);
    RemoveEnd(h2, h');
  }

  lemma UninstallEnds(h: Host, names: seq<string>, h': Host)
    requires IsOrder(h.config, names) && Runs(h, UninstallPlan(h.config, names, h.user), h')
    ensures h' == Gone(h)
  {
    var udev, stages := UdevActions(map[]), AllStages(h.config, names);
    UninstallIsGrouped(h.config, names, h.user);
    var h1 := RunsAppend(h, udev, stages + Removals(h.user), h');
    var h2 := RunsAppend(h1, stages, Removals(h.user), h');
    UdevEnd(h, map[], h1);
    AllStagesEnd(h1, h.config, names, h2);
    RemovalsEnd(h2, h');
    assert (set n | n in names) == h.config.Keys;
    assert Addresses(map[]) == {};
  }

  /** The fields that the end of an uninstall sets, on top of the others. */
  function Erased(h: Host): Host {
    h.(rules := {}, loaded := {}, user := false, unitFile := false, config := map[], logs := {}, dirs := {})
  }

  lemma RulesMakeNoMatter(h: Host, rules: set<string>, loaded: set<string>)
    ensures Gone(h.(rules := rules, loaded := loaded)) == Gone(h)
  {
  }

  /** Once all devices are stopped and returned, what is removed of the rest makes no matter. */
  lemma GoneAfterRemovals(h: Host, d: Host, cut: Host)
    requires d == AllStopped(h, h.config, h.config.Keys) && AreRemoved(d, cut)
    ensures Gone(cut) == Erased(d)
  {
    if cut.config == map[] {
      assert cut.config.Keys == {};
      NoneStopped(cut, cut.config);
    } else {
      var all := h.config.Keys;
      var addresses := AddressesOf(h.config, all);
      AllReturnedTwice(h.slots, addresses);
      assert d.running - all == d.running && d.attached - all == d.attached && d.created - all == d.created;
      assert d.mounts - all == d.mounts;
      assert cut.unitFile ==> d.enabled - all == d.enabled;
    }
  }

  lemma AllReturnedTwice(slots: map<string, Slot>, addresses: set<string>)
    ensures AllReturned(AllReturned(slots, addresses), addresses) == AllReturned(slots, addresses)
  {
    forall a | a in slots && a in addresses {
      ReturnedTwice(slots[a]);
    }
  }

  lemma RemovalsAreRemovals(user: bool, k: nat)
    requires k <= |Removals(user)|
    ensures forall a | a in Removals(user)[..k] :: IsRemoval(a)
  {
  }

  /** A cut leaves a host from which an uninstall ends as this one would have. */
  lemma UninstallCut(h: Host, names: seq<string>, k: nat, cut: Host)
    requires IsOrder(h.config, names) && k <= |UninstallPlan(h.config, names, h.user)|
    requires Runs(h, UninstallPlan(h.config, names, h.user)[..k], cut)
    ensures Gone(cut) == Gone(h)
  {
    var udev, stages, last := UdevActions(map[]), AllStages(h.config, names), Removals(h.user);
    var plan := udev + (stages + last);
    UninstallIsGrouped(h.config, names, h.user);
    TwoForUdev();
    hide *;
    if k <= 2 {
      assert plan[..k] == udev[..k];
      UdevCut(h, map[], k, cut);
      RulesMakeNoMatter(h, cut.rules, cut.loaded);
    } else {
      assert plan[..k] == udev + (stages + last)[..k - 2];
      var start := RunsAppend(h, udev, (stages + last)[..k - 2], cut);
      UdevEnd(h, map[], start);
      RulesMakeNoMatter(h, start.rules, start.loaded);
      StagesAndRemovalsCut(start, names, k - 2, cut);
    }
  }

  lemma TwoForUdev()
    ensures forall config :: |UdevActions(config)| == 2
  {
  }

  lemma StagesAndRemovalsCut(h: Host, names: seq<string>, k: nat, cut: Host)
    requires IsOrder(h.config, names) && k <= |AllStages(h.config, names) + Removals(h.user)|
    requires Runs(h, (AllStages(h.config, names) + Removals(h.user))[..k], cut)
    ensures Gone(cut) == Gone(h)
  {
    var stages, last := AllStages(h.config, names), Removals(h.user);
    OrderIsAll(h.config, names);
    hide *;
    if k <= |stages| {
      assert (stages + last)[..k] == stages[..k];
      StagesCutIsGone(h, names, k, cut);
    } else {
      var some := last[..k - |stages|];
      assert (stages + last)[..k] == stages + some;
      var d := RunsAppend(h, stages, some, cut);
      AllStagesEnd(h, h.config, names, d);
      RemovalsAreRemovals(h.user, k - |stages|);
      RemovalsCutIsGone(h, d, some, cut);
    }
  }

  lemma OrderIsAll(config: Config, names: seq<string>)
    requires IsOrder(config, names)
    ensures (set n | n in names) == config.Keys
  {
  }

  lemma GoneIsErased(h: Host)
    ensures Gone(h) == Erased(AllStopped(h, h.config, h.config.Keys))
  {
    hide AllStopped;
  }

  lemma StagesCutIsGone(h: Host, names: seq<string>, k: nat, cut: Host)
    requires IsOrder(h.config, names) && k <= |AllStages(h.config, names)|
    requires Runs(h, AllStages(h.config, names)[..k], cut)
    ensures Gone(cut) == Gone(h)
  {
    AllStagesCut(h, h.config, h.config.Keys, names, k, cut);
    hide *;
    GoneIsErased(h);
    GoneIsErased(cut);
  }

  lemma RemovalsCutIsGone(h: Host, d: Host, plan: seq<Action>, cut: Host)
    requires d == AllStopped(h, h.config, h.config.Keys) && Runs(d, plan, cut)
    requires forall a | a in plan :: IsRemoval(a)
    ensures Gone(cut) == Gone(h)
  {
    assert AreRemoved(d, d) by {
      NoneRemoved(d);
    }
    hide *;
    RemovalCut(d, d, plan, cut);
    GoneAfterRemovals(h, d, cut);
    GoneIsErased(h);
  }

  lemma NoneRemoved(d: Host)
    ensures AreRemoved(d, d)
  {
  }

  /** An interrupted uninstall that is run again reaches what it would have reached. */
  lemma UninstallAgain(h: Host, names: seq<string>, k: nat, cut: Host, done: Host, left: seq<string>, again: Host)
    requires IsOrder(h.config, names) && k <= |UninstallPlan(h.config, names, h.user)|
    requires Runs(h, UninstallPlan(h.config, names, h.user)[..k], cut)
    requires Runs(h, UninstallPlan(h.config, names, h.user), done)
    requires IsOrder(cut.config, left) && Runs(cut, UninstallPlan(cut.config, left, cut.user), again)
    ensures again == done
  {
    UninstallCut(h, names, k, cut);
    UninstallEnds(h, names, done);
    UninstallEnds(cut, left, again);
  }

  // What the commands come to, of each part of the host.

  /** A device is back with the driver that matches it, unless another driver than vfio-pci had it. */
  predicate IsBack(before: Slot, after: Slot) {
    && after.override == "" && after.native == before.native
    && after.driver == if before.driver == "" || before.driver == "vfio-pci" then before.native else before.driver
  }

  /** Nothing is left of some devices, and nothing else has changed but the records and the rules. */
  predicate AreWithdrawn(h: Host, done: Host, names: set<string>, addresses: set<string>) {
    && done.running == h.running - names && done.attached == h.attached - names
    && done.created == h.created - names && done.mounts == h.mounts - names
    && done.enabled == (if h.unitFile then h.enabled - names else h.enabled)
    && done.slots.Keys == h.slots.Keys
    && forall a | a in h.slots ::
        if a in addresses then IsBack(h.slots[a], done.slots[a]) else done.slots[a] == h.slots[a]
  }

  lemma SlotIsBack(s: Slot)
    ensures IsBack(s, Returned(s))
  {
  }

  lemma DisableGives(h: Host, name: string, done: Host)
    requires name in h.config && Runs(h, DisablePlan(h.config, name), done)
    ensures AreWithdrawn(h, done, {name}, {h.config[name].address})
    ensures done.logs == h.logs - {name} && done.dirs == h.dirs - {name}
    ensures done.config == h.config - {name} && done.loaded == done.rules
    ensures forall a :: a in done.rules <==> exists n | n in h.config && n != name :: h.config[n].address == a
    ensures done.unitFile == h.unitFile && done.user == h.user
  {
    DisableEnds(h, name, done);
    forall s: Slot {
      SlotIsBack(s);
    }
    hide Runs, Returned, IsBack, DisablePlan;
    forall a
      ensures a in done.rules <==> exists n | n in h.config && n != name :: h.config[n].address == a
    {
      if n :| n in h.config && n != name && h.config[n].address == a {
        assert (h.config - {name})[n].address == a;
      }
    }
  }

  lemma EnableGives(h: Host, after: Config, name: string, isNew: bool, done: Host)
    requires (isNew || after == h.config) && Runs(h, EnableStages(after, name, isNew), done)
    ensures done == h.(config := after, rules := done.rules, loaded := done.rules,
                       enabled := h.enabled + {name}, running := h.running + {name})
    ensures forall a :: a in done.rules <==> exists n | n in after :: after[n].address == a
  {
    EnableEnds(h, after, name, isNew, done);
    hide Runs, EnableStages;
  }

  lemma UninstallGives(h: Host, names: seq<string>, done: Host)
    requires IsOrder(h.config, names) && Runs(h, UninstallPlan(h.config, names, h.user), done)
    ensures AreWithdrawn(h, done, h.config.Keys, set n | n in h.config :: h.config[n].address)
    ensures done.config == map[] && done.logs == done.dirs == done.rules == done.loaded == {}
    ensures !done.unitFile && !done.user
  {
    UninstallEnds(h, names, done);
    forall s: Slot {
      SlotIsBack(s);
    }
    AddressesOfAll(h.config);
    hide Runs, Returned, IsBack, UninstallPlan, AddressesOf;
  }

  lemma AddressesOfAll(config: Config)
    ensures AddressesOf(config, config.Keys) == set n | n in config :: config[n].address
  {
  }

  /** A default name is a valid one, and no two devices of one kind get the same. */
  lemma DefaultNameIsName(kind: Kind, address: string)
    requires IsAddress(address)
    ensures IsName(DefaultName(kind, address))
  {
    var name := DefaultName(kind, address);
    var prefix := match kind case Net => "net-" case Wlan => "wlan-";
    var short := if address[..5] == "0000:" then address[5..] else address;
    forall i | 0 <= i < |short|
      ensures IsNameChar(Dashed(short)[i])
    {
      var j := if |short| == 7 then i + 5 else i;
      assert short[i] == address[j];
    }
    assert name == prefix + Dashed(short);
    assert name[3] == '-' || name[4] == '-';
  }

  /** A default name in full: the type, and the address without a domain of zero, with dashes. */
  lemma DefaultNameExactly(kind: Kind, address: string)
    requires IsAddress(address)
    ensures var name := DefaultName(kind, address);
      var prefix := if kind.Net? then "net-" else "wlan-";
      var short := if address[..5] == "0000:" then address[5..] else address;
      && |name| == |prefix| + |short| && prefix <= name
      && forall i | 0 <= i < |short| ::
          name[|prefix| + i] == if short[i] == ':' || short[i] == '.' then '-' else short[i]
  {
    hide IsAddress;
  }

  lemma DefaultNamesDiffer(kind: Kind, a: string, b: string)
    requires IsAddress(a) && IsAddress(b) && DefaultName(kind, a) == DefaultName(kind, b)
    ensures a == b
  {
    var prefix := match kind case Net => "net-" case Wlan => "wlan-";
    var x := if a[..5] == "0000:" then a[5..] else a;
    var y := if b[..5] == "0000:" then b[5..] else b;
    assert (prefix + Dashed(x))[|prefix|..] == Dashed(x);
    assert (prefix + Dashed(y))[|prefix|..] == Dashed(y);
    forall i | 0 <= i < |x|
      ensures x[i] == y[i]
    {
      var d := if |x| == 7 then 5 else 0;
      assert Dashed(x)[i] == Dashed(y)[i];
      assert x[i] == a[i + d] && y[i] == b[i + d];
    }
    assert a == (if |x| == 7 then "0000:" else "") + x;
    assert b == (if |y| == 7 then "0000:" else "") + y;
  }
}
