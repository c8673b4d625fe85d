/** What holds of every sequence of requests, whatever the platform answers to each. */
module Runs {
  import opened Bytes
  import opened Ipmi
  import opened Narrowing
  import opened AccelOob
  import opened OsRelease
  import opened PcieMap
  import opened Entity
  import Cpld
  import Lanes
  import opened Commands
  import opened BareMetal

  function CoreStep(p: Setup, core: Core, r: Request): Core {
    if AsksForMode(r.cmd) then core else Handle(p, core, r).0
  }

  /** The core after some requests. */
  function CoreAfter(p: Setup, core: Core, reqs: seq<Request>): Core {
    if reqs == [] then core
    else CoreStep(p, CoreAfter(p, core, reqs[..|reqs| - 1]), reqs[|reqs| - 1])
  }

  /** Requests served one after another, and how each ended; nothing follows an undefined execution. */
  ghost predicate Served(p: Setup, core: Core, reqs: seq<Request>, outs: seq<Outcome>) {
    && |outs| == |reqs|
    && (forall j :: 0 <= j < |reqs| - 1 ==> !outs[j].Undefined?)
    && forall j :: 0 <= j < |reqs| ==>
         Serves(p, CoreAfter(p, core, reqs[..j]), reqs[j], CoreAfter(p, core, reqs[..j + 1]), outs[j])
  }

  /** How request j ended, from the core it found. */
  lemma OutcomeOf(p: Setup, core: Core, reqs: seq<Request>, outs: seq<Outcome>, j: nat)
    requires Served(p, core, reqs, outs) && j < |reqs|
    ensures Serves(p, CoreAfter(p, core, reqs[..j]), reqs[j], CoreAfter(p, core, reqs[..j + 1]), outs[j])
  {
  }

  /** Serving one more request makes a longer run: what the dispatcher promises is what runs are made of. */
  lemma RunGrows(p: Setup, core: Core, reqs: seq<Request>, outs: seq<Outcome>, r: Request, core': Core, out: Outcome)
    requires Served(p, core, reqs, outs) && Undefined !in outs
    requires Serves(p, CoreAfter(p, core, reqs), r, core', out)
    ensures Served(p, core, reqs + [r], outs + [out])
    ensures core' == CoreAfter(p, core, reqs + [r])
  {
    var reqs', outs' := reqs + [r], outs + [out];
    assert reqs'[..|reqs|] == reqs && reqs'[..|reqs'|] == reqs';
    forall j | 0 <= j < |reqs'|
      ensures Serves(p, CoreAfter(p, core, reqs'[..j]), reqs'[j], CoreAfter(p, core, reqs'[..j + 1]), outs'[j])
    {
      if j < |reqs| {
        assert reqs'[..j] == reqs[..j] && reqs'[..j + 1] == reqs[..j + 1];
        assert Serves(p, CoreAfter(p, core, reqs[..j]), reqs[j], CoreAfter(p, core, reqs[..j + 1]), outs[j]);
      }
    }
  }

  // ---------------------------------------------------------------------
  // Reply size
  // ---------------------------------------------------------------------

  /** Where a command's reply keeps the octet that counts the rest of it. */
  function LengthOctet(cmd: byte): Option<nat> {
    if cmd == GET_ETH_DEVICE || cmd == PCIE_SLOT_I2C_BUS_MAPPING then Some(1)
    else if cmd == ENTITY_NAME || cmd == MACHINE_NAME || cmd == PCIE_SLOT_BIFURCATION
            || cmd == GET_BM_INSTANCE_PROPERTY || cmd == READ_BIOS_SETTING then Some(0)
    else None
  }

  predicate WellSized(cmd: byte, out: Outcome) {
    out.Success? ==>
      && out.cmd == cmd
      && |out.payload| <= MAX_IPMI_BUFFER
      && (LengthOctet(cmd).Some? ==>
            var at := LengthOctet(cmd).value;
            at < |out.payload| && out.payload[at] == |out.payload| - at - 1)
  }

  lemma PrefixedIsWellSized(cmd: byte, head: seq<byte>, tail: seq<byte>, tooLong: CompletionCode)
    requires LengthOctet(cmd) == Some(|head|)
    ensures WellSized(cmd, LengthPrefixed(cmd, head, tail, tooLong))
  {
  }

  lemma EthIsWellSized(p: Setup, data: seq<byte>, w: World)
    ensures WellSized(GET_ETH_DEVICE, EthDevice(p, data, w))
  {
    if w.channel.Value? {
      PrefixedIsWellSized(GET_ETH_DEVICE, [w.channel.value], if data == [] then p.ncsiInterface else data,
                          RetBytesUnavailable);
    }
  }

  lemma PlainIsWellSized(p: Setup, r: Request)
    ensures WellSized(r.cmd, Plain(p, r))
  {
    var w := r.world;
    EthIsWellSized(p, r.data, w);
    var lanes := Lanes.GetBifurcation(w.bifurcation);
    if r.cmd == PCIE_SLOT_BIFURCATION && lanes.Some? {
      PrefixedIsWellSized(r.cmd, [], lanes.value, InvalidCommand);
    } else if r.cmd == GET_BM_INSTANCE_PROPERTY && w.bmProperty.Value? {
      PrefixedIsWellSized(r.cmd, [], w.bmProperty.value, InvalidCommand);
    }
  }

  lemma DevicesAreWellSized(root: Text, data: seq<byte>, objects: Objects)
    ensures WellSized(ACCEL_OOB_DEVICE_COUNT, DeviceCountSpec(data, objects).0)
    ensures WellSized(ACCEL_OOB_DEVICE_NAME, DeviceNameSpec(root, data, objects).0)
  {
  }

  lemma TransfersAreWellSized(root: Text, data: seq<byte>, reply: BusReply)
    ensures WellSized(ACCEL_OOB_READ, ReadSpec(root, data, reply).0)
    ensures WellSized(ACCEL_OOB_WRITE, WriteSpec(root, data, reply).0)
  {
  }

  lemma EntityIsWellSized(core: Core, data: seq<byte>, w: World)
    ensures WellSized(ENTITY_NAME, EntityNameSpec(core, data, w).1)
  {
    var config := ConfigAfter(core, data, w);
    if |data| >= 2 && EntityType(data[0]).Some? && config.Some? {
      var out := EntityReply(config.value, data);
      assert WellSized(ENTITY_NAME, out);
    }
  }

  lemma MachineIsWellSized(p: Setup, core: Core, w: World)
    ensures WellSized(MACHINE_NAME, MachineNameSpec(p, core, w).1)
  {
  }

  lemma SlotsAreWellSized(p: Setup, core: Core, data: seq<byte>, w: World)
    ensures WellSized(PCIE_SLOT_COUNT, SlotCountSpec(p, core, w).1)
    ensures WellSized(PCIE_SLOT_I2C_BUS_MAPPING, SlotMappingSpec(core.pcieMap, data))
  {
  }

  /** A BIOS setting that leaves no room for its length octet is asked for. */
  predicate ReadsTooMuch(bios: Option<seq<byte>>, r: Request) {
    r.cmd == READ_BIOS_SETTING && r.world.biosReadable && bios.Some? && |bios.value| >= MAX_IPMI_BUFFER
  }

  lemma BiosIsWellSized(core: Core, r: Request)
    ensures r.cmd == READ_BIOS_SETTING ==>
              (WellSized(r.cmd, ReadBiosSpec(core, r.world)) <==> !ReadsTooMuch(core.bios, r))
    ensures WellSized(WRITE_BIOS_SETTING, WriteBiosSpec(core, r.data, r.world).1)
  {
  }

  /** Whatever is asked, and however much of it, only the read of a long BIOS setting breaks the bound. */
  lemma WellSizedExactly(p: Setup, core: Core, r: Request, core': Core, out: Outcome)
    requires Serves(p, core, r, core', out)
    ensures WellSized(r.cmd, out) <==> !ReadsTooMuch(core.bios, r)
  {
    var (data, w) := (r.data, r.world);
    if r.cmd == ACCEL_OOB_DEVICE_COUNT || r.cmd == ACCEL_OOB_DEVICE_NAME {
      DevicesAreWellSized(p.accelRoot, data, w.objects);
    } else if r.cmd == ACCEL_OOB_READ || r.cmd == ACCEL_OOB_WRITE {
      TransfersAreWellSized(p.accelRoot, data, w.bus);
    } else if r.cmd == ENTITY_NAME {
      EntityIsWellSized(core, data, w);
    } else if r.cmd == MACHINE_NAME {
      MachineIsWellSized(p, core, w);
    } else if r.cmd == PCIE_SLOT_COUNT || r.cmd == PCIE_SLOT_I2C_BUS_MAPPING {
      SlotsAreWellSized(p, core, data, w);
    } else if r.cmd == READ_BIOS_SETTING || r.cmd == WRITE_BIOS_SETTING {
      BiosIsWellSized(core, r);
    } else if !AsksForMode(r.cmd) {
      PlainIsWellSized(p, r);
    }
  }

  // ---------------------------------------------------------------------
  // The executions C++ gives no meaning to
  // ---------------------------------------------------------------------

  /** The index of a DeviceName request names a path 44 octets longer than the root. */
  predicate NamesTooClosely(root: Text, data: seq<byte>, objects: Objects) {
    && 4 <= |data| <= MAX_IPMI_BUFFER - 1 - MAX_NAME_SIZE && objects.Paths?
    && var index := FromLE(data[..4]);
       index < |objects.paths| && root <= objects.paths[index] && |objects.paths[index]| - |root| == MAX_NAME_SIZE
  }

  /** The sensor's value does not fit an uint16_t even without its fraction. */
  predicate ReadsOutOfRange(data: seq<byte>, sensor: Answer<Double>) {
    && |data| == 2 && VrSupported(data[1]) && sensor.Value?
    && !(sensor.value.Finite? && -1.0 < sensor.value.value < 65536.0)
  }

  /** The entity's search gets to an instance that fits no int. */
  predicate SearchesOversized(config: Option<Config>, data: seq<byte>) {
    && |data| >= 2 && EntityType(data[0]).Some? && config.Some?
    && MeetsOversized(config.value, EntityType(data[0]).value, data[1])
  }

  /** The version file is scanned and holds, among its first four numbers, one that is none from 0 to 255. */
  ghost predicate VersionTooLarge(data: seq<byte>, file: Cpld.VersionFile) {
    data != [] && file.Contents? && Cpld.WritesTooMuch(Cpld.VersionText(file.bytes))
  }

  /** The slot's list has a number with a fraction that no uint8_t holds, and before it only numbers that fit. */
  predicate LanesTooLarge(data: seq<byte>, listing: Lanes.Listing) {
    data != [] && listing.Listed? && Lanes.MeetsOversized(listing.elements)
  }

  /** The six ways a request's execution has no meaning, given the config that entity names are looked up in. */
  ghost predicate HasNoMeaning(p: Setup, config: Option<Config>, r: Request) {
    if r.cmd == ACCEL_OOB_READ || r.cmd == ACCEL_OOB_WRITE then r.data == []
    else if r.cmd == ACCEL_OOB_DEVICE_NAME then NamesTooClosely(p.accelRoot, r.data, r.world.objects)
    else if r.cmd == ENTITY_NAME then SearchesOversized(config, r.data)
    else if r.cmd == GET_ACCEL_VR_SETTINGS then ReadsOutOfRange(r.data, r.world.vrSetting)
    else if r.cmd == CPLD_VERSION then VersionTooLarge(r.data, r.world.cpld)
    else r.cmd == PCIE_SLOT_BIFURCATION && LanesTooLarge(r.data, r.world.bifurcation)
  }

  lemma AccelUndefined(root: Text, r: Request)
    ensures DeviceCountSpec(r.data, r.world.objects).0 != Undefined
    ensures DeviceNameSpec(root, r.data, r.world.objects).0 == Undefined
            <==> NamesTooClosely(root, r.data, r.world.objects)
    ensures ReadSpec(root, r.data, r.world.bus).0 == Undefined <==> r.data == []
    ensures WriteSpec(root, r.data, r.world.bus).0 == Undefined <==> r.data == []
  {
  }

  lemma EntityUndefined(core: Core, data: seq<byte>, w: World)
    ensures EntityNameSpec(core, data, w).1 == Undefined <==> SearchesOversized(ConfigAfter(core, data, w), data)
  {
    if |data| >= 2 && EntityType(data[0]).Some? && ConfigAfter(core, data, w).Some? {
      MeaninglessExactly(ConfigAfter(core, data, w).value, EntityType(data[0]).value, data[1]);
    }
  }

  /** The commands that keep something or have nothing out of range to read. */
  predicate KeepsMeaning(cmd: byte) {
    || AsksForMode(cmd)
    || cmd == PCIE_SLOT_COUNT || cmd == PCIE_SLOT_I2C_BUS_MAPPING || cmd == MACHINE_NAME
    || cmd == READ_BIOS_SETTING || cmd == WRITE_BIOS_SETTING
  }

  lemma KeptUndefined(p: Setup, core: Core, r: Request, core': Core, out: Outcome)
    requires KeepsMeaning(r.cmd) && Serves(p, core, r, core', out)
    ensures out != Undefined
  {
  }

  lemma CpldUndefined(data: seq<byte>, w: World)
    ensures CpldVersion(data, w) == Undefined <==> VersionTooLarge(data, w.cpld)
  {
    if w.cpld.Contents? {
      Cpld.MeaninglessExactly(Cpld.VersionText(w.cpld.bytes));
      if PcieMap.Token(w.cpld.bytes) == [] {
        Cpld.NothingScanned(w.cpld.bytes);
      }
    }
  }

  lemma LanesUndefined(data: seq<byte>, w: World)
    ensures Bifurcation(data, w) == Undefined <==> LanesTooLarge(data, w.bifurcation)
  {
    if w.bifurcation.Listed? {
      Lanes.OctetsExactly(w.bifurcation.elements);
    }
  }

  lemma PlainUndefined(p: Setup, config: Option<Config>, r: Request)
    requires !KeepsMeaning(r.cmd) && r.cmd != ENTITY_NAME && !(ACCEL_OOB_DEVICE_COUNT <= r.cmd <= ACCEL_OOB_WRITE)
    requires r.cmd != CPLD_VERSION && r.cmd != PCIE_SLOT_BIFURCATION
    ensures Plain(p, r) == Undefined <==> HasNoMeaning(p, config, r)
  {
  }

  lemma WhenUndefined(p: Setup, core: Core, r: Request, core': Core, out: Outcome)
    requires Serves(p, core, r, core', out)
    ensures out == Undefined <==> HasNoMeaning(p, core'.entityConfig, r)
  {
    if KeepsMeaning(r.cmd) {
      KeptUndefined(p, core, r, core', out);
    } else if r.cmd == ENTITY_NAME {
      EntityUndefined(core, r.data, r.world);
    } else if ACCEL_OOB_DEVICE_COUNT <= r.cmd <= ACCEL_OOB_WRITE {
      AccelUndefined(p.accelRoot, r);
    } else if r.cmd == CPLD_VERSION {
      CpldUndefined(r.data, r.world);
    } else if r.cmd == PCIE_SLOT_BIFURCATION {
      LanesUndefined(r.data, r.world);
    } else {
      PlainUndefined(p, core'.entityConfig, r);
    }
  }

  // ---------------------------------------------------------------------
  // Caches and registers agree with the history
  // ---------------------------------------------------------------------

  /** The first thing on offer, unless there already is something. */
  function First<T>(held: Option<T>, offers: seq<Option<T>>): Option<T> {
    if offers == [] then held
    else
      var before := First(held, offers[..|offers| - 1]);
      if before.Some? then before else offers[|offers| - 1]
  }

  /** The last thing on offer, or what there already is. */
  function Last<T>(held: T, offers: seq<Option<T>>): T {
    if offers == [] then held
    else if offers[|offers| - 1].Some? then offers[|offers| - 1].value
    else Last(held, offers[..|offers| - 1])
  }

  /** Offer i is the first to be made. */
  predicate Earliest<T>(offers: seq<Option<T>>, i: nat) {
    i < |offers| && offers[i].Some? && forall j :: 0 <= j < i ==> offers[j].None?
  }

  lemma {:induction false} FirstIsEarliest<T>(offers: seq<Option<T>>, i: nat)
    requires Earliest(offers, i)
    ensures First(None, offers) == offers[i]
    decreases |offers|
  {
    var before := offers[..|offers| - 1];
    if i < |before| {
      FirstIsEarliest(before, i);
    } else {
      FirstOfNothing(before);
    }
  }

  lemma {:induction false} FirstOfNothing<T>(offers: seq<Option<T>>)
    requires forall j :: 0 <= j < |offers| ==> offers[j].None?
    ensures First(None, offers) == None
  {
    if offers != [] {
      FirstOfNothing(offers[..|offers| - 1]);
    }
  }

  lemma {:induction false} LastIsLatest<T>(held: T, offers: seq<Option<T>>, i: nat)
    requires i < |offers| && offers[i].Some? && forall j :: i < j < |offers| ==> offers[j].None?
    ensures Last(held, offers) == offers[i].value
    decreases |offers|
  {
    if i < |offers| - 1 {
      LastIsLatest(held, offers[..|offers| - 1], i);
    }
  }

  lemma {:induction false} LastOfNothing<T>(held: T, offers: seq<Option<T>>)
    requires forall j :: 0 <= j < |offers| ==> offers[j].None?
    ensures Last(held, offers) == held
  {
    if offers != [] {
      LastOfNothing(held, offers[..|offers| - 1]);
    }
  }

  /** A machine-name request that finds the name in the file. */
  function NameOffer(p: Setup, r: Request): Option<Text> {
    if r.cmd != MACHINE_NAME then None
    else match NameOnFile(p.machineKey, r.world.osRelease) case Value(name) => Some(name) case _ => None
  }

  /** An entity request for a supported id that finds a config that parses. */
  function ConfigOffer(r: Request): Option<Config> {
    if r.cmd == ENTITY_NAME && |r.data| >= 2 && EntityType(r.data[0]).Some? then r.world.entityFile else None
  }

  /** A count request whose walk goes through. */
  function MapOffer(p: Setup, r: Request): Option<seq<Slot>> {
    if r.cmd != PCIE_SLOT_COUNT then None
    else match MapOf(p.layout, r.world.sysfs) case Value(slots) => Some(slots) case _ => None
  }

  /** A well-formed BIOS write. */
  function BiosOffer(r: Request): Option<Option<seq<byte>>> {
    if r.cmd == WRITE_BIOS_SETTING && WellFormedWrite(r.data) then Some(Some(r.data[1..])) else None
  }

  /** What a well-formed BIOS write leaves in the file when it opens it, however far it gets. */
  function BiosLeft(r: Request): Option<Option<seq<byte>>> {
    if BiosOffer(r).None? then None
    else match r.world.biosWrite
      case Complete => BiosOffer(r)
      case Unopened => None
      case Stopped(n) => if n < |r.data| - 1 then Some(Some(r.data[1..1 + n])) else BiosOffer(r)
  }

  function NameOffers(p: Setup, reqs: seq<Request>): seq<Option<Text>> {
    seq(|reqs|, i requires 0 <= i < |reqs| => NameOffer(p, reqs[i]))
  }

  function ConfigOffers(reqs: seq<Request>): seq<Option<Config>> {
    seq(|reqs|, i requires 0 <= i < |reqs| => ConfigOffer(reqs[i]))
  }

  function MapOffers(p: Setup, reqs: seq<Request>): seq<Option<seq<Slot>>> {
    seq(|reqs|, i requires 0 <= i < |reqs| => MapOffer(p, reqs[i]))
  }

  function BiosOffers(reqs: seq<Request>): seq<Option<Option<seq<byte>>>> {
    seq(|reqs|, i requires 0 <= i < |reqs| => BiosOffer(reqs[i]))
  }

  function BiosLefts(reqs: seq<Request>): seq<Option<Option<seq<byte>>>> {
    seq(|reqs|, i requires 0 <= i < |reqs| => BiosLeft(reqs[i]))
  }

  lemma StepCaches(p: Setup, core: Core, r: Request)
    ensures CoreStep(p, core, r).machineName ==
            if core.machineName.Some? then core.machineName else NameOffer(p, r)
    ensures CoreStep(p, core, r).entityConfig ==
            if core.entityConfig.Some? then core.entityConfig else ConfigOffer(r)
  {
  }

  lemma StepRegisters(p: Setup, core: Core, r: Request)
    ensures CoreStep(p, core, r).pcieMap ==
            if MapOffer(p, r).Some? then MapOffer(p, r).value else core.pcieMap
    ensures CoreStep(p, core, r).bios == if BiosLeft(r).Some? then BiosLeft(r).value else core.bios
  {
  }

  /** The cached machine name is the first one ever found. */
  lemma {:induction false} MachineNameIsFirstFound(p: Setup, core: Core, reqs: seq<Request>)
    ensures CoreAfter(p, core, reqs).machineName == First(core.machineName, NameOffers(p, reqs))
  {
    if reqs != [] {
      var n := |reqs| - 1;
      MachineNameIsFirstFound(p, core, reqs[..n]);
      StepCaches(p, CoreAfter(p, core, reqs[..n]), reqs[n]);
      assert NameOffers(p, reqs)[..n] == NameOffers(p, reqs[..n]);
    }
  }

  /** The cached config is the first one that parsed, whatever was asked of it. */
  lemma {:induction false} ConfigIsFirstParsed(p: Setup, core: Core, reqs: seq<Request>)
    ensures CoreAfter(p, core, reqs).entityConfig == First(core.entityConfig, ConfigOffers(reqs))
  {
    if reqs != [] {
      var n := |reqs| - 1;
      ConfigIsFirstParsed(p, core, reqs[..n]);
      StepCaches(p, CoreAfter(p, core, reqs[..n]), reqs[n]);
      assert ConfigOffers(reqs)[..n] == ConfigOffers(reqs[..n]);
    }
  }

  /** The slot map is the one the last successful count built. */
  lemma {:induction false} MapIsLastBuilt(p: Setup, core: Core, reqs: seq<Request>)
    ensures CoreAfter(p, core, reqs).pcieMap == Last(core.pcieMap, MapOffers(p, reqs))
  {
    if reqs != [] {
      var n := |reqs| - 1;
      MapIsLastBuilt(p, core, reqs[..n]);
      StepRegisters(p, CoreAfter(p, core, reqs[..n]), reqs[n]);
      assert MapOffers(p, reqs)[..n] == MapOffers(p, reqs[..n]);
    }
  }

  /** The BIOS file holds what the last write that opened it left there. */
  lemma {:induction false} BiosIsLastLeft(p: Setup, core: Core, reqs: seq<Request>)
    ensures CoreAfter(p, core, reqs).bios == Last(core.bios, BiosLefts(reqs))
  {
    if reqs != [] {
      var n := |reqs| - 1;
      BiosIsLastLeft(p, core, reqs[..n]);
      StepRegisters(p, CoreAfter(p, core, reqs[..n]), reqs[n]);
      assert BiosLefts(reqs)[..n] == BiosLefts(reqs[..n]);
    }
  }

  lemma EntityOutcome(p: Setup, core: Core, r: Request, core': Core, out: Outcome)
    requires Serves(p, core, r, core', out)
    requires r.cmd == ENTITY_NAME && |r.data| >= 2 && EntityType(r.data[0]).Some?
    ensures out == if core'.entityConfig.None? then Failure(UnspecifiedError)
                   else EntityReply(core'.entityConfig.value, r.data)
  {
  }

  /**
   A run comes to an undefined execution exactly at a request that meets one of
   six conditions, which look at nothing but the requests: entity names are
   searched for in the first config that any of them found.
   */
  lemma UndefinedInARun(p: Setup, bios: Option<seq<byte>>, reqs: seq<Request>, outs: seq<Outcome>, j: nat)
    requires Served(p, Fresh(bios), reqs, outs) && j < |reqs|
    ensures outs[j] == Undefined <==> HasNoMeaning(p, First(None, ConfigOffers(reqs[..j + 1])), reqs[j])
  {
    OutcomeOf(p, Fresh(bios), reqs, outs, j);
    ConfigIsFirstParsed(p, Fresh(bios), reqs[..j + 1]);
    WhenUndefined(p, CoreAfter(p, Fresh(bios), reqs[..j]), reqs[j], CoreAfter(p, Fresh(bios), reqs[..j + 1]), outs[j]);
  }

  lemma MachineOutcome(p: Setup, core: Core, r: Request, core': Core, out: Outcome)
    requires Serves(p, core, r, core', out) && r.cmd == MACHINE_NAME
    ensures out == if core'.machineName.None? then Caught(FailedScan(p, r)) else MachineReply(core'.machineName.value)
  {
  }

  /**
   Every entity answer is a lookup in the config of the earliest request that
   found one that parsed, this request included; if none has, there is no answer.
   */
  lemma EntityAnswersUseFirstConfig(p: Setup, bios: Option<seq<byte>>, reqs: seq<Request>, outs: seq<Outcome>,
                                    j: nat)
    requires Served(p, Fresh(bios), reqs, outs) && j < |reqs|
    requires reqs[j].cmd == ENTITY_NAME && |reqs[j].data| >= 2 && EntityType(reqs[j].data[0]).Some?
    ensures forall i: nat :: Earliest(ConfigOffers(reqs[..j + 1]), i) ==>
              outs[j] == EntityReply(ConfigOffer(reqs[i]).value, reqs[j].data)
    ensures (forall i :: 0 <= i <= j ==> ConfigOffer(reqs[i]).None?) ==> outs[j] == Failure(UnspecifiedError)
  {
    var offers := ConfigOffers(reqs[..j + 1]);
    OutcomeOf(p, Fresh(bios), reqs, outs, j);
    EntityOutcome(p, CoreAfter(p, Fresh(bios), reqs[..j]), reqs[j], CoreAfter(p, Fresh(bios), reqs[..j + 1]), outs[j]);
    ConfigIsFirstParsed(p, Fresh(bios), reqs[..j + 1]);
    FirstIsNoneExactly(offers);
    forall i: nat | Earliest(offers, i) ensures First(None, offers) == offers[i] == ConfigOffer(reqs[i]) {
      FirstIsEarliest(offers, i);
    }
  }

  /**
   Every machine-name answer is the name the earliest successful scan found;
   until one succeeds it is the failure of this request's own scan.
   */
  lemma MachineAnswersUseFirstName(p: Setup, bios: Option<seq<byte>>, reqs: seq<Request>, outs: seq<Outcome>,
                                   j: nat)
    requires Served(p, Fresh(bios), reqs, outs) && j < |reqs| && reqs[j].cmd == MACHINE_NAME
    ensures forall i: nat :: Earliest(NameOffers(p, reqs[..j + 1]), i) ==>
              outs[j] == MachineReply(NameOffer(p, reqs[i]).value)
    ensures (forall i :: 0 <= i <= j ==> NameOffer(p, reqs[i]).None?) ==>
              outs[j] == Caught(FailedScan(p, reqs[j]))
  {
    var offers := NameOffers(p, reqs[..j + 1]);
    OutcomeOf(p, Fresh(bios), reqs, outs, j);
    MachineOutcome(p, CoreAfter(p, Fresh(bios), reqs[..j]), reqs[j], CoreAfter(p, Fresh(bios), reqs[..j + 1]), outs[j]);
    MachineNameIsFirstFound(p, Fresh(bios), reqs[..j + 1]);
    FirstIsNoneExactly(offers);
    forall i: nat | Earliest(offers, i) ensures First(None, offers) == offers[i] == NameOffer(p, reqs[i]) {
      FirstIsEarliest(offers, i);
    }
  }

  /** What this request's scan comes to when it finds no name. */
  function FailedScan(p: Setup, r: Request): (a: Answer<Text>)
    ensures !a.Value?
  {
    match NameOnFile(p.machineKey, r.world.osRelease) case Raised(cc) => Raised(cc) case _ => Foreign
  }

  /** Whether one more request for the name tries the file again. */
  lemma FailuresLeaveCachesUnset(p: Setup, bios: Option<seq<byte>>, reqs: seq<Request>)
    ensures CoreAfter(p, Fresh(bios), reqs).machineName.None? <==>
            forall i :: 0 <= i < |reqs| ==> NameOffer(p, reqs[i]).None?
    ensures CoreAfter(p, Fresh(bios), reqs).entityConfig.None? <==>
            forall i :: 0 <= i < |reqs| ==> ConfigOffer(reqs[i]).None?
  {
    MachineNameIsFirstFound(p, Fresh(bios), reqs);
    ConfigIsFirstParsed(p, Fresh(bios), reqs);
    FirstIsNoneExactly(NameOffers(p, reqs));
    FirstIsNoneExactly(ConfigOffers(reqs));
    assert forall i :: 0 <= i < |reqs| ==> NameOffers(p, reqs)[i] == NameOffer(p, reqs[i]);
    assert forall i :: 0 <= i < |reqs| ==> ConfigOffers(reqs)[i] == ConfigOffer(reqs[i]);
  }

  lemma {:induction false} FirstIsNoneExactly<T>(offers: seq<Option<T>>)
    ensures First(None, offers).None? <==> forall i :: 0 <= i < |offers| ==> offers[i].None?
  {
    if offers != [] {
      FirstIsNoneExactly(offers[..|offers| - 1]);
    }
  }

  // ---------------------------------------------------------------------
  // PCIe sessions
  // ---------------------------------------------------------------------

  /** Request c counts slots and succeeds; no other count does up to request j. */
  ghost predicate Session(reqs: seq<Request>, outs: seq<Outcome>, c: nat, j: nat) {
    && c < j < |reqs| == |outs|
    && reqs[c].cmd == PCIE_SLOT_COUNT && outs[c].Success?
    && forall k :: c < k < j && reqs[k].cmd == PCIE_SLOT_COUNT ==> !outs[k].Success?
  }

  /** What the walk of the count request found. */
  function Snapshot(p: Setup, r: Request): seq<Slot> {
    match MapOf(p.layout, r.world.sysfs) case Value(slots) => slots case _ => []
  }

  lemma SessionMap(p: Setup, core: Core, reqs: seq<Request>, outs: seq<Outcome>, c: nat, j: nat)
    requires Served(p, core, reqs, outs) && Session(reqs, outs, c, j)
    ensures CoreAfter(p, core, reqs[..j]).pcieMap == Snapshot(p, reqs[c])
    ensures outs[c].payload == [U8(|Snapshot(p, reqs[c])|)]
  {
    MapIsLastBuilt(p, core, reqs[..j]);
    var offers := MapOffers(p, reqs[..j]);
    forall k | c <= k < j ensures offers[k] == MapOffer(p, reqs[k]) && (offers[k].Some? <==> k == c) {
      OutcomeOf(p, core, reqs, outs, k);
    }
    OutcomeOf(p, core, reqs, outs, c);
    LastIsLatest(core.pcieMap, offers, c);
  }

  /**
   Between two successful counts the mapping requests read one snapshot: whatever
   else is asked and however the file system changes, they are answered from it.
   */
  lemma SessionReadsSnapshot(p: Setup, core: Core, reqs: seq<Request>, outs: seq<Outcome>, c: nat, j: nat)
    requires Served(p, core, reqs, outs) && Session(reqs, outs, c, j)
    requires reqs[j].cmd == PCIE_SLOT_I2C_BUS_MAPPING
    ensures outs[j] == SlotMappingSpec(Snapshot(p, reqs[c]), reqs[j].data)
  {
    SessionMap(p, core, reqs, outs, c, j);
    OutcomeOf(p, core, reqs, outs, j);
  }

  /** The slot a mapping reply describes. */
  function Described(payload: seq<byte>): Slot
    requires |payload| >= 2
  {
    Slot(payload[0], payload[2..])
  }

  /** When a mapping request succeeds, what its reply describes, and how it fails otherwise. */
  lemma MappingReply(slots: seq<Slot>, data: seq<byte>)
    ensures var out := SlotMappingSpec(slots, data);
            && (out.Success? <==> data != [] && data[0] < |slots| && |slots[data[0]].name| <= 62)
            && (out.Success? ==>
                  && 2 <= |out.payload| == 2 + out.payload[1]
                  && Described(out.payload) == Slot(slots[data[0]].bus % 256, slots[data[0]].name))
            && (out == Failure(ReqDataLenInvalid) <==> data == [])
            && (out == Failure(InvalidReservationId) <==> data != [] && slots == [])
            && (out == Failure(ParmOutOfRange) <==> data != [] && slots != [] && data[0] >= |slots|)
            && (out == Failure(InvalidCommand) <==>
                  data != [] && data[0] < |slots| && |slots[data[0]].name| > 62)
  {
    var out := SlotMappingSpec(slots, data);
    if out.Success? {
      var slot := slots[data[0]];
      assert out.payload == [U8(slot.bus), U8(|slot.name|)] + slot.name;
    }
  }

  /** The count tells the whole size exactly up to 255 slots. */
  lemma CountIsExactUpTo255(p: Setup, core: Core, reqs: seq<Request>, outs: seq<Outcome>, c: nat, j: nat)
    requires Served(p, core, reqs, outs) && Session(reqs, outs, c, j)
    ensures |outs[c].payload| == 1
    ensures outs[c].payload[0] == |Snapshot(p, reqs[c])| <==> |Snapshot(p, reqs[c])| <= 255
  {
    SessionMap(p, core, reqs, outs, c, j);
  }

  /**
   A client that counts N slots and asks for entries 0 to N - 1 has, when the
   snapshot is of at most 255 slots with names that fit, read all of it in order.
   */
  lemma SessionTransfersSnapshot(p: Setup, core: Core, reqs: seq<Request>, outs: seq<Outcome>, c: nat)
    requires c < |reqs| && Served(p, core, reqs, outs)
    requires var slots := Snapshot(p, reqs[c]);
             && |slots| <= 255 && (forall s :: s in slots ==> |s.name| <= 62)
             && |reqs| == c + 1 + |slots|
             && reqs[c].cmd == PCIE_SLOT_COUNT && outs[c].Success?
             && forall j :: c < j < |reqs| ==>
                  reqs[j].cmd == PCIE_SLOT_I2C_BUS_MAPPING && reqs[j].data == [j - c - 1]
    ensures var slots := Snapshot(p, reqs[c]);
            forall j :: c < j < |reqs| ==>
              && outs[j].Success? && |outs[j].payload| >= 2
              && Described(outs[j].payload) == Slot(slots[j - c - 1].bus % 256, slots[j - c - 1].name)
  {
    var slots := Snapshot(p, reqs[c]);
    forall j | c < j < |reqs|
      ensures outs[j].Success? && |outs[j].payload| >= 2
      ensures Described(outs[j].payload) == Slot(slots[j - c - 1].bus % 256, slots[j - c - 1].name)
    {
      SessionReadsSnapshot(p, core, reqs, outs, c, j);
      MappingReply(slots, reqs[j].data);
      assert slots[j - c - 1] in slots;
    }
  }

  /** Before any count has succeeded there is nothing to index. */
  lemma NoSessionYet(p: Setup, bios: Option<seq<byte>>, reqs: seq<Request>, outs: seq<Outcome>, j: nat)
    requires Served(p, Fresh(bios), reqs, outs) && j < |reqs|
    requires reqs[j].cmd == PCIE_SLOT_I2C_BUS_MAPPING && reqs[j].data != []
    requires forall k :: 0 <= k < j && reqs[k].cmd == PCIE_SLOT_COUNT ==> !outs[k].Success?
    ensures outs[j] == Failure(InvalidReservationId)
  {
    MapIsLastBuilt(p, Fresh(bios), reqs[..j]);
    var offers := MapOffers(p, reqs[..j]);
    forall k | 0 <= k < j ensures offers[k].None? {
      OutcomeOf(p, Fresh(bios), reqs, outs, k);
      assert offers[k] == MapOffer(p, reqs[k]);
    }
    LastOfNothing(Fresh(bios).pcieMap, offers);
    OutcomeOf(p, Fresh(bios), reqs, outs, j);
  }

  // ---------------------------------------------------------------------
  // The BIOS register
  // ---------------------------------------------------------------------

  /**
   Every read that works returns what the last write left, or what the server found
   when it started; if that is empty, or nothing, there is nothing to read. The
   length octet is exact unless the server found more than 255 octets. Without
   write failures what is left is the last well-formed payload.
   */
  lemma BiosReadsLastWrite(p: Setup, core: Core, reqs: seq<Request>, outs: seq<Outcome>, j: nat)
    requires Served(p, core, reqs, outs) && j < |reqs| && reqs[j].cmd == READ_BIOS_SETTING
    ensures var stored := Last(core.bios, BiosLefts(reqs[..j]));
            outs[j] == if !reqs[j].world.biosReadable || stored.None? || stored.value == []
                       then Failure(RetBytesUnavailable)
                       else Success(READ_BIOS_SETTING, [|stored.value| % 256] + stored.value)
    ensures var stored := Last(core.bios, BiosLefts(reqs[..j]));
            stored.Some? && |stored.value| > 255 ==> stored == core.bios
    ensures (forall i :: 0 <= i < j ==> reqs[i].world.biosWrite.Complete?) ==>
              BiosLefts(reqs[..j]) == BiosOffers(reqs[..j])
  {
    BiosIsLastLeft(p, core, reqs[..j]);
    LastLeftIsShort(core.bios, reqs[..j], 255);
    OutcomeOf(p, core, reqs, outs, j);
  }

  /** No write leaves more than a request of that much can carry. */
  lemma {:induction false} LastLeftIsShort(found: Option<seq<byte>>, reqs: seq<Request>, most: nat)
    requires most < 255 ==>
               forall i :: 0 <= i < |reqs| && reqs[i].cmd == WRITE_BIOS_SETTING ==> |reqs[i].data| <= most + 1
    ensures var stored := Last(found, BiosLefts(reqs));
            stored.Some? && |stored.value| > most ==> stored == found
  {
    if reqs != [] {
      var n := |reqs| - 1;
      LastLeftIsShort(found, reqs[..n], most);
      assert BiosLefts(reqs)[..n] == BiosLefts(reqs[..n]);
    }
  }

  /** Over any run a reply breaks the bound exactly when it reads a BIOS setting of 64 octets or more. */
  lemma RepliesFitExactly(p: Setup, core: Core, reqs: seq<Request>, outs: seq<Outcome>, j: nat)
    requires Served(p, core, reqs, outs) && j < |reqs|
    ensures WellSized(reqs[j].cmd, outs[j]) <==> !ReadsTooMuch(Last(core.bios, BiosLefts(reqs[..j])), reqs[j])
  {
    OutcomeOf(p, core, reqs, outs, j);
    BiosIsLastLeft(p, core, reqs[..j]);
    WellSizedExactly(p, CoreAfter(p, core, reqs[..j]), reqs[j], CoreAfter(p, core, reqs[..j + 1]), outs[j]);
  }

  /**
   When the BIOS setting starts out short and no BIOS write has more than 64 octets,
   every success carries its subcommand and at most 64 octets, and every length
   octet counts what follows it, however long the other requests are.
   */
  lemma RepliesFit(p: Setup, core: Core, reqs: seq<Request>, outs: seq<Outcome>, j: nat)
    requires Served(p, core, reqs, outs) && j < |reqs|
    requires core.bios.Some? ==> |core.bios.value| < MAX_IPMI_BUFFER
    requires forall i :: 0 <= i < j && reqs[i].cmd == WRITE_BIOS_SETTING ==> |reqs[i].data| <= MAX_IPMI_BUFFER
    ensures WellSized(reqs[j].cmd, outs[j])
  {
    RepliesFitExactly(p, core, reqs, outs, j);
    LastLeftIsShort(core.bios, reqs[..j], MAX_IPMI_BUFFER - 1);
  }

  /** A write that is accepted is read back whole, so a longer one breaks the bound. */
  lemma AcceptedWriteIsReadBackVerbatim(core: Core, data: seq<byte>, w: World, w': World)
    requires WellFormedWrite(data) && |data| > 1 && w.biosWrite.Complete? && w'.biosReadable
    ensures WriteBiosSpec(core, data, w).1 == Success(WRITE_BIOS_SETTING, [data[0]])
    ensures var read := ReadBiosSpec(WriteBiosSpec(core, data, w).0, w');
            read == Success(READ_BIOS_SETTING, data)
            && (WellSized(READ_BIOS_SETTING, read) <==> |data| <= MAX_IPMI_BUFFER)
  {
    assert [data[0]] + data[1..] == data;
  }

  /** The start of some well-formed payload. */
  predicate StartsAPayload(bios: seq<byte>, reqs: seq<Request>) {
    exists i :: 0 <= i < |reqs| && BiosOffer(reqs[i]).Some? && bios <= BiosOffer(reqs[i]).value.value
  }

  /** Even when writes fail halfway, the file holds what it held at first or the start of some well-formed payload. */
  lemma {:induction false} BiosHoldsAPrefix(p: Setup, core: Core, reqs: seq<Request>)
    ensures var bios := CoreAfter(p, core, reqs).bios;
            bios == core.bios || (bios.Some? && StartsAPayload(bios.value, reqs))
  {
    if reqs != [] {
      var n := |reqs| - 1;
      BiosHoldsAPrefix(p, core, reqs[..n]);
      var before, bios := CoreAfter(p, core, reqs[..n]).bios, CoreAfter(p, core, reqs).bios;
      if bios == before && bios != core.bios {
        var i :| 0 <= i < n && BiosOffer(reqs[..n][i]).Some? && bios.value <= BiosOffer(reqs[..n][i]).value.value;
        assert reqs[i] == reqs[..n][i];
      } else if bios != before {
        assert bios.value <= BiosOffer(reqs[n]).value.value;
      }
    }
  }

  /** Writes that are not well formed are refused and leave the stored octets alone. */
  lemma RejectedWritesChangeNothing(p: Setup, core: Core, r: Request, core': Core, out: Outcome)
    requires r.cmd == WRITE_BIOS_SETTING && Serves(p, core, r, core', out)
    ensures out == Failure(ReqDataLenInvalid) <==> !WellFormedWrite(r.data)
    ensures out == Failure(ReqDataLenInvalid) ==> core' == core
    ensures out.Success? ==> core' == core.(bios := Some(r.data[1..]))
  {
  }

  // ---------------------------------------------------------------------
  // Calls that leave
  // ---------------------------------------------------------------------

  /** The calls one request makes; they depend on nothing that came before. */
  function CallsOf(p: Setup, r: Request): seq<BusCall> {
    if r.cmd == ACCEL_OOB_DEVICE_COUNT then DeviceCountSpec(r.data, r.world.objects).1
    else if r.cmd == ACCEL_OOB_DEVICE_NAME then DeviceNameSpec(p.accelRoot, r.data, r.world.objects).1
    else if r.cmd == ACCEL_OOB_READ then ReadSpec(p.accelRoot, r.data, r.world.bus).1
    else if r.cmd == ACCEL_OOB_WRITE then WriteSpec(p.accelRoot, r.data, r.world.bus).1
    else []
  }

  function AllCalls(p: Setup, reqs: seq<Request>): seq<BusCall> {
    if reqs == [] then [] else AllCalls(p, reqs[..|reqs| - 1]) + CallsOf(p, reqs[|reqs| - 1])
  }

  lemma StepCalls(p: Setup, core: Core, r: Request)
    ensures CoreStep(p, core, r).calls == core.calls + CallsOf(p, r)
  {
    assert core.calls + [] == core.calls;
  }

  /** Over any run exactly the accelerator commands reach the bus, in order. */
  lemma {:induction false} CallsAreThoseOfTheRequests(p: Setup, core: Core, reqs: seq<Request>)
    ensures CoreAfter(p, core, reqs).calls == core.calls + AllCalls(p, reqs)
  {
    if reqs != [] {
      var before, r := reqs[..|reqs| - 1], reqs[|reqs| - 1];
      CallsAreThoseOfTheRequests(p, core, before);
      StepCalls(p, CoreAfter(p, core, before), r);
      Reassociate(core.calls, AllCalls(p, before), CallsOf(p, r));
    } else {
      assert core.calls + [] == core.calls;
    }
  }

  // ---------------------------------------------------------------------
  // Mode answers
  // ---------------------------------------------------------------------

  /** The log has the answer to a mode command at k, and after it what a boot-done request adds. */
  predicate AnsweredIn(b: Build, r: Request, out: Outcome, log: seq<Event>, k: nat) {
    && k < |log| && log[k].Answered? && out == ModeReply(b, r, log[k].mode)
    && (r.cmd == LINUX_BOOT_DONE ==> BootTail(b, log[k].mode, r.world.start) <= log[k + 1..])
  }

  /** Where the log of the flag files has the answers that the mode commands of a run passed on. */
  ghost predicate Logged(b: Build, reqs: seq<Request>, outs: seq<Outcome>, log: seq<Event>, at: seq<nat>) {
    && |at| == |outs| == |reqs|
    && (forall i :: 0 <= i < |at| && AsksForMode(reqs[i].cmd) ==>
          AnsweredIn(b, reqs[i], outs[i], log, at[i]))
    && forall i, j :: 0 <= i < j < |at| && AsksForMode(reqs[i].cmd) && AsksForMode(reqs[j].cmd) ==> at[i] < at[j]
  }

  lemma LoggedGrows(b: Build, reqs: seq<Request>, outs: seq<Outcome>, log: seq<Event>, at: seq<nat>,
                    r: Request, out: Outcome, log': seq<Event>, k: nat)
    requires Logged(b, reqs, outs, log, at) && log <= log'
    requires AsksForMode(r.cmd) ==> |log| <= k && AnsweredIn(b, r, out, log', k)
    ensures Logged(b, reqs + [r], outs + [out], log', at + [k])
  {
    forall i | 0 <= i < |at| && AsksForMode(reqs[i].cmd) ensures AnsweredIn(b, reqs[i], outs[i], log', at[i]) {
      assert log[at[i] + 1..] <= log'[at[i] + 1..];
    }
  }

  /** How far a mode octet of a reply is along the way to bare metal. */
  function OctetRank(octet: byte): nat { if octet == 1 then 2 else if octet == 2 then 1 else 0 }

  /**
   Of two replies of one run, the later never reports a mode that ranks below;
   and once bare metal was reported, every boot-done request is treated as one
   made in that mode.
   */
  lemma LaterRepliesRankNoLower(b: Build, flags: set<Flag>, log: seq<Event>, reqs: seq<Request>, outs: seq<Outcome>,
                                at: seq<nat>, i: nat, j: nat)
    requires BareMetal.Run(b, Start(flags), log) && Logged(b, reqs, outs, log, at) && i < j < |reqs|
    requires reqs[i].cmd == GET_BMC_MODE && AsksForMode(reqs[j].cmd)
    ensures outs[i].Success? && |outs[i].payload| == 1
    ensures reqs[j].cmd == GET_BMC_MODE ==>
              && outs[j].Success? && |outs[j].payload| == 1
              && OctetRank(outs[i].payload[0]) <= OctetRank(outs[j].payload[0])
    ensures reqs[j].cmd == LINUX_BOOT_DONE && outs[i].payload[0] == 1 ==>
              outs[j] == BootReply(b, Bm, reqs[j].world.start)
  {
    ModesNeverGoBack(b, flags, log, at[i], at[j]);
  }

  /** Of any two mode octets reported, the later does not rank below. */
  predicate ReportsNeverGoBack(reqs: seq<Request>, outs: seq<Outcome>)
    requires |outs| == |reqs|
  {
    forall i, j :: 0 <= i < j < |reqs| && reqs[i].cmd == reqs[j].cmd == GET_BMC_MODE ==>
      && outs[i].Success? && |outs[i].payload| == 1
      && outs[j].Success? && |outs[j].payload| == 1
      && OctetRank(outs[i].payload[0]) <= OctetRank(outs[j].payload[0])
  }

  lemma LoggedNeverGoBack(b: Build, flags: set<Flag>, log: seq<Event>, reqs: seq<Request>, outs: seq<Outcome>,
                          at: seq<nat>)
    requires BareMetal.Run(b, Start(flags), log) && Logged(b, reqs, outs, log, at)
    ensures ReportsNeverGoBack(reqs, outs)
  {
    forall i, j | 0 <= i < j < |reqs| && reqs[i].cmd == reqs[j].cmd == GET_BMC_MODE
      ensures outs[i].Success? && |outs[i].payload| == 1
      ensures outs[j].Success? && |outs[j].payload| == 1
      ensures OctetRank(outs[i].payload[0]) <= OctetRank(outs[j].payload[0])
    {
      LaterRepliesRankNoLower(b, flags, log, reqs, outs, at, i, j);
    }
  }

  /**
   A boot-done request after its answer at k: it asks for the target exactly when
   that was bare metal, the build has no allowlist and the call can be built, and
   what it replies tells how that went.
   */
  predicate BootServed(b: Build, start: StartCall, out: Outcome, log: seq<Event>, k: nat)
    requires k < |log| && log[k].Answered?
  {
    if log[k].mode != Bm then
      out == Success(17, []) && (k + 1 < |log| ==> !Concludes(log[k + 1]))
    else
      && k + 1 < |log|
      && (forall ok :: log[k + 1] == Started(ok) <==> !b.allowlist && !start.NotBuilt? && ok == start.Accepted?)
      && (log[k + 1] == Abandoned <==> !b.allowlist && start.NotBuilt?)
      && (log[k + 1] == Refused <==> b.allowlist)
      && (out == Success(17, []) <==> !b.allowlist && start.Accepted?)
      && (out == Failure(UnspecifiedError) <==> b.allowlist || start.Rejected?)
      && (out == Escaped <==> !b.allowlist && start.NotBuilt?)
  }

  lemma LoggedBootIsServed(b: Build, flags: set<Flag>, log: seq<Event>, reqs: seq<Request>, outs: seq<Outcome>,
                           at: seq<nat>, i: nat)
    requires BareMetal.Run(b, Start(flags), log) && Logged(b, reqs, outs, log, at)
    requires i < |reqs| && reqs[i].cmd == LINUX_BOOT_DONE
    ensures at[i] < |log| && log[at[i]].Answered? && BootServed(b, reqs[i].world.start, outs[i], log, at[i])
  {
    var k := at[i];
    assert AnsweredIn(b, reqs[i], outs[i], log, k);
    BootEndsExactly(b, log[k].mode, reqs[i].world.start);
    if log[k].mode != Bm {
      if k + 1 < |log| {
        NothingConcludesIdle(b, Start(flags), log, k);
      }
    } else {
      assert log[k + 1..][0] == BootTail(b, Bm, reqs[i].world.start)[0];
    }
  }

  /** Every boot-done request of a run is served so. */
  ghost predicate BootsServed(b: Build, reqs: seq<Request>, outs: seq<Outcome>, log: seq<Event>, at: seq<nat>)
    requires |at| == |outs| == |reqs|
  {
    forall i :: 0 <= i < |reqs| && reqs[i].cmd == LINUX_BOOT_DONE ==>
      at[i] < |log| && log[at[i]].Answered? && BootServed(b, reqs[i].world.start, outs[i], log, at[i])
  }

  lemma LoggedBootsAreServed(b: Build, flags: set<Flag>, log: seq<Event>, reqs: seq<Request>, outs: seq<Outcome>,
                             at: seq<nat>)
    requires BareMetal.Run(b, Start(flags), log) && Logged(b, reqs, outs, log, at)
    ensures BootsServed(b, reqs, outs, log, at)
  {
    forall i | 0 <= i < |reqs| && reqs[i].cmd == LINUX_BOOT_DONE
      ensures at[i] < |log| && log[at[i]].Answered? && BootServed(b, reqs[i].world.start, outs[i], log, at[i])
    {
      LoggedBootIsServed(b, flags, log, reqs, outs, at, i);
    }
  }

  /** A mode query that nothing disturbed reports 1 with ack or done, 2 with only the signal, and 0 otherwise. */
  lemma UndisturbedReply(b: Build, flags: set<Flag>, log: seq<Event>, reqs: seq<Request>, outs: seq<Outcome>,
                         at: seq<nat>, i: nat, start: nat)
    requires BareMetal.Run(b, Start(flags), log) && Logged(b, reqs, outs, log, at)
    requires i < |reqs| && reqs[i].cmd == GET_BMC_MODE
    requires start < at[i] < |log| && LastCall(log[..at[i] + 1], start) && Undisturbed(log[..at[i] + 1], start)
    ensures var files := After(b, Start(flags), log[..start]).flags;
            outs[i] == Success(16, [if b.bareMetal || Ack in files || Done in files then 1
                                    else if Signal in files then 2 else 0])
  {
    assert AnsweredIn(b, reqs[i], outs[i], log, at[i]);
    var call := log[..at[i] + 1];
    RunPrefix(b, Start(flags), log, at[i] + 1);
    assert call[..start] == log[..start];
    UndisturbedOctet(b, Start(flags), call, start, at[i]);
  }

  // ---------------------------------------------------------------------
  // The commands one by one
  // ---------------------------------------------------------------------

  /** The numbers of the two mode commands. */
  lemma ModeNumbersServe(p: Setup, core: Core, r: Request, core': Core, out: Outcome) returns (m: Mode)
    requires Serves(p, core, r, core', out) && (r.cmd == 16 || r.cmd == 17)
    ensures core' == core
    ensures out == if r.cmd == 16 then Success(16, [ModeByte(m)]) else BootReply(p.build, m, r.world.start)
  {
    m :| out == ModeReply(p.build, r, m) && (p.build.bareMetal ==> m == Bm);
  }

  /** The numbers of the commands that keep something or call the accelerator service. */
  lemma KeepingNumbersServe(p: Setup, core: Core, r: Request, core': Core, out: Outcome)
    requires Serves(p, core, r, core', out)
    ensures r.cmd == 4 ==> (core', out) == SlotCountSpec(p, core, r.world)
    ensures r.cmd == 5 ==> (core', out) == (core, SlotMappingSpec(core.pcieMap, r.data))
    ensures r.cmd == 6 ==> (core', out) == EntityNameSpec(core, r.data, r.world)
    ensures r.cmd == 7 ==> (core', out) == MachineNameSpec(p, core, r.world)
    ensures r.cmd == 11 ==> (core', out) == WithCalls(core, DeviceCountSpec(r.data, r.world.objects))
    ensures r.cmd == 12 ==> (core', out) == WithCalls(core, DeviceNameSpec(p.accelRoot, r.data, r.world.objects))
    ensures r.cmd == 13 ==> (core', out) == WithCalls(core, ReadSpec(p.accelRoot, r.data, r.world.bus))
    ensures r.cmd == 14 ==> (core', out) == WithCalls(core, WriteSpec(p.accelRoot, r.data, r.world.bus))
    ensures r.cmd == 24 ==> (core', out) == (core, ReadBiosSpec(core, r.world))
    ensures r.cmd == 25 ==> (core', out) == WriteBiosSpec(core, r.data, r.world)
  {
  }

  /** The numbers of all others; a number without a command is refused. */
  lemma PlainNumbersServe(p: Setup, core: Core, r: Request, core': Core, out: Outcome)
    requires Serves(p, core, r, core', out) && r.cmd !in {4, 5, 6, 7, 11, 12, 13, 14, 16, 17, 24, 25}
    ensures core' == core
    ensures out == if r.cmd == 0 then CableCheck(r.data, r.world)
                   else if r.cmd == 1 then CpldVersion(r.data, r.world)
                   else if r.cmd == 2 then EthDevice(p, r.data, r.world)
                   else if r.cmd == 3 || r.cmd == 10 then Acted(r.cmd, r.data, 4, r.world)
                   else if r.cmd == 8 then Acted(8, r.data, 0, r.world)
                   else if r.cmd == 9 then FlashSize(r.world)
                   else if r.cmd == 15 then Bifurcation(r.data, r.world)
                   else if r.cmd == 21 then GetVrSettings(r.data, r.world)
                   else if r.cmd == 22 then SetVrSettings(r.data, r.world)
                   else if r.cmd == 23 then BMInstanceProperty(r.data, r.world)
                   else if r.cmd == 30 then CoreCount(r.world)
                   else Failure(InvalidCommand)
  {
  }

  /** A reply that is a text after its length, unless there is no room for it. */
  predicate CarriesText(out: Outcome, cmd: byte, text: Text, tooLong: CompletionCode) {
    if |text| > 63 then out == Failure(tooLong)
    else out.Success? && out.cmd == cmd && |out.payload| == 1 + |text|
         && out.payload[0] == |text| && out.payload[1..] == text
  }

  /** How an entity request ends, by its size, its id, the config and the name found there. */
  lemma EntityEnds(core: Core, data: seq<byte>, w: World)
    ensures var (core', out) := EntityNameSpec(core, data, w);
            if |data| < 2 then core' == core && out == Failure(ReqDataLenInvalid)
            else if EntityType(data[0]).None? then core' == core && out == Failure(InvalidFieldRequest)
            else
              && core' == core.(entityConfig := if core.entityConfig.Some? then core.entityConfig else w.entityFile)
              && (core'.entityConfig.None? ==> out == Failure(UnspecifiedError))
              && (core'.entityConfig.Some? ==>
                    match NameIn(core'.entityConfig.value, EntityType(data[0]).value, data[1])
                    case Ends(Value(name)) =>
                      if name == [] then out == Failure(InvalidFieldRequest)
                      else CarriesText(out, 6, name, InvalidCommand)
                    case Ends(Foreign) => out == Escaped
                    case Ends(Raised(_)) => false
                    case Meaningless => out == Undefined)
  {
  }

  /** How a machine-name request ends, and what it keeps. */
  lemma MachineEnds(p: Setup, core: Core, w: World)
    ensures var (core', out) := MachineNameSpec(p, core, w);
            && (core.machineName.Some? ==>
                  core' == core && CarriesText(out, 7, core.machineName.value, InvalidCommand))
            && (core.machineName.None? ==>
                  match NameOnFile(p.machineKey, w.osRelease)
                  case Value(name) =>
                    core' == core.(machineName := Some(name)) && CarriesText(out, 7, name, InvalidCommand)
                  case Raised(cc) => core' == core && out == Failure(cc)
                  case Foreign => false)
  {
  }

  /** How a slot-count request ends, and what it keeps. */
  lemma CountEnds(p: Setup, core: Core, w: World)
    ensures var (core', out) := SlotCountSpec(p, core, w);
            match MapOf(p.layout, w.sysfs)
            case Value(slots) =>
              core' == core.(pcieMap := slots) && out == Success(4, [|slots| % 256])
            case _ => core' == core && out == Escaped
  {
    WalkFailsExactly(p.layout, w.sysfs);
  }

  /** What a write of the BIOS setting leaves in the file, and how it ends. */
  lemma BiosWriteEnds(core: Core, data: seq<byte>, w: World)
    ensures var (core', out) := WriteBiosSpec(core, data, w);
            && core' == core.(bios := core'.bios)
            && (data == [] || data[0] as int != |data| - 1 ==>
                  core'.bios == core.bios && out == Failure(ReqDataLenInvalid))
            && (data != [] && data[0] as int == |data| - 1 ==>
                  match w.biosWrite
                  case Complete => core'.bios == Some(data[1..]) && out == Success(25, [data[0]])
                  case Unopened => core'.bios == core.bios && out == Failure(RetBytesUnavailable)
                  case Stopped(n) =>
                    && core'.bios.Some? && core'.bios.value <= data[1..]
                    && |core'.bios.value| == (if n < |data| - 1 then n else |data| - 1)
                    && out == Failure(RetBytesUnavailable))
  {
  }

  lemma BiosReadEnds(core: Core, w: World)
    ensures var out := ReadBiosSpec(core, w);
            && (out == Failure(RetBytesUnavailable) <==> !w.biosReadable || core.bios.None? || core.bios.value == [])
            && (out != Failure(RetBytesUnavailable) ==>
                  && out.Success? && out.cmd == 24 && |out.payload| == 1 + |core.bios.value|
                  && out.payload[0] == |core.bios.value| % 256 && out.payload[1..] == core.bios.value)
  {
  }

  /** Cable check: the length octet counts a name that is all there; 1 for any packets received. */
  lemma CableEnds(data: seq<byte>, w: World)
    ensures var (out, sized) := (CableCheck(data, w), data != [] && 0 < data[0] as int <= |data| - 1);
            && (!sized ==> out == Failure(ReqDataLenInvalid))
            && (sized && w.rxPackets.Value? ==> out == Success(0, [if w.rxPackets.value > 0 then 1 else 0]))
            && (sized && w.rxPackets.Raised? ==> out == Failure(w.rxPackets.cc))
            && (sized && w.rxPackets.Foreign? ==> out == Escaped)
  {
  }

  lemma CpldEnds(data: seq<byte>, w: World)
    ensures data == [] ==> CpldVersion(data, w) == Failure(ReqDataLenInvalid)
    ensures data != [] ==>
              match Cpld.GetCpldVersion(w.cpld)
              case Ends(Value(version)) => CpldVersion(data, w) == Success(1, version) && |version| == 4
              case Ends(Raised(cc)) => CpldVersion(data, w) == Failure(cc)
              case Ends(Foreign) => CpldVersion(data, w) == Escaped
              case Meaningless => CpldVersion(data, w) == Undefined
  {
  }

  /** The interface asked for, or the built-in one: its channel, its length and its name. */
  lemma EthEnds(p: Setup, data: seq<byte>, w: World)
    ensures var (out, name) := (EthDevice(p, data, w), if data == [] then p.ncsiInterface else data);
            match w.channel
            case Raised(cc) => out == Thrown(cc)
            case Foreign => out == Escaped
            case Value(channel) =>
              if name == [] then out == Failure(ReqDataLenInvalid)
              else if |name| > 62 then out == Failure(RetBytesUnavailable)
              else out.Success? && out.cmd == 2 && |out.payload| == 2 + |name| && out.payload[0] == channel
                   && out.payload[1] == |name| && out.payload[2..] == name
  {
  }

  lemma ActedEnds(cmd: byte, data: seq<byte>, needed: nat, w: World)
    ensures var out := Acted(cmd, data, needed, w);
            && (|data| < needed ==> out == Failure(ReqDataLenInvalid))
            && (|data| >= needed ==>
                  match w.done
                  case Value(_) => out == Success(cmd, [])
                  case Raised(cc) => out == Failure(cc)
                  case Foreign => out == Escaped)
  {
  }

  lemma TwoOctets(v: nat)
    ensures FromLE(ToLE(v, 2)) == v % 0x1_0000
  {
    FromLEOfToLE(v, 2);
    assert Pow256(2) == 0x1_0000;
  }

  /** Flash size and core count: little-endian in four and in two octets. */
  lemma SizesEnd(w: World)
    ensures match w.flashSize
            case Value(size) =>
              var out := FlashSize(w);
              out.Success? && out.cmd == 9 && |out.payload| == 4 && FromLE(out.payload) == size % 0x1_0000_0000
            case Raised(cc) => FlashSize(w) == Failure(cc)
            case Foreign => FlashSize(w) == Escaped
    ensures var out := CoreCount(w);
            if w.coreCount.None? then out == Failure(UnspecifiedError)
            else out.Success? && out.cmd == 30 && |out.payload| == 2
                 && FromLE(out.payload) == w.coreCount.value % 0x1_0000
  {
    if w.flashSize.Value? {
      FromLEOfToLE(w.flashSize.value, 4);
      Pow256Four();
    }
    if w.coreCount.Some? {
      TwoOctets(w.coreCount.value);
    }
  }

  lemma BifurcationEnds(data: seq<byte>, w: World)
    ensures data == [] ==> Bifurcation(data, w) == Failure(ReqDataLenInvalid)
    ensures data != [] ==>
              match Lanes.GetBifurcation(w.bifurcation)
              case None => Bifurcation(data, w) == Undefined
              case Some(lanes) => CarriesText(Bifurcation(data, w), 15, lanes, InvalidCommand)
  {
  }

  /** Voltage regulator settings: six ids, a sensor value without its fraction, an id that is looked up unchecked. */
  lemma VrEnds(data: seq<byte>, w: World)
    ensures var out := GetVrSettings(data, w);
            && (out == Failure(ReqDataLenInvalid) <== |data| != 2)
            && (|data| == 2 && data[1] >= 6 ==> out == Escaped)
            && (|data| == 2 && data[1] < 6 ==>
                  match w.vrSetting
                  case Raised(cc) => out == Failure(cc)
                  case Foreign => out == Escaped
                  case Value(NotFinite) => out == Undefined
                  case Value(Finite(x)) =>
                    if -1.0 < x < 65536.0 then
                      out.Success? && out.cmd == 21 && |out.payload| == 2 && FromLE(out.payload) == Truncated(x)
                    else out == Undefined)
    ensures var out := SetVrSettings(data, w);
            && (|data| != 4 ==> out == Failure(ReqDataLenInvalid))
            && (|data| == 4 && data[1] >= 6 ==> out == Failure(ParmOutOfRange))
            && (|data| == 4 && data[1] < 6 ==> out == Acted(22, data, 4, w))
  {
    if w.vrSetting.Value? && w.vrSetting.value.Finite? && -1.0 < w.vrSetting.value.value < 65536.0 {
      TwoOctets(Truncated(w.vrSetting.value.value));
    }
  }

  lemma PropertyEnds(data: seq<byte>, w: World)
    ensures var out := BMInstanceProperty(data, w);
            && (data == [] ==> out == Failure(ReqDataLenInvalid))
            && (data != [] ==>
                  match w.bmProperty
                  case Value(text) => CarriesText(out, 23, text, InvalidCommand)
                  case Raised(cc) => out == Thrown(cc)
                  case Foreign => out == Escaped)
  {
  }
}
