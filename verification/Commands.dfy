/**
 The subcommands over the state the server keeps between requests, described as
 functions of that state, the request and what the platform answers meanwhile.
 */
module Commands {
  import opened Bytes
  import opened Ipmi
  import opened Narrowing
  import opened BareMetal
  import opened AccelOob
  import opened OsRelease
  import opened PcieMap
  import opened Entity
  import Cpld
  import Lanes

  /** What is fixed when the program is built. */
  datatype Setup = Setup(build: Build, accelRoot: Text, machineKey: Text, layout: Layout, ncsiInterface: Text)

  /** What outlives a request, apart from the flag files. */
  datatype Core = Core(
    entityConfig: Option<Config>,
    pcieMap: seq<Slot>,
    machineName: Option<Text>,
    bios: Option<seq<byte>>,
    calls: seq<BusCall>)

  /** A server just started finds the BIOS setting that an earlier one left. */
  function Fresh(bios: Option<seq<byte>>): Core { Core(None, [], None, bios, []) }

  /** How writing a file goes: it works, it cannot be opened, or it stops after some octets. */
  datatype FileWrite = Complete | Unopened | Stopped(after: nat)

  /** What the platform answers during one request. */
  datatype World = World(
    sysfs: Sysfs,
    entityFile: Option<Config>,
    osRelease: Option<Stream>,
    objects: Objects,
    bus: BusReply,
    biosReadable: bool,
    biosWrite: FileWrite,
    luck: Luck,
    start: StartCall,
    channel: Answer<byte>,
    rxPackets: Answer<int>,
    cpld: Cpld.VersionFile,
    done: Answer<()>,
    flashSize: Answer<nat>,
    bifurcation: Lanes.Listing,
    vrSetting: Answer<Double>,
    bmProperty: Answer<Text>,
    coreCount: Option<nat>)

  datatype Request = Request(cmd: byte, data: seq<byte>, world: World)

  /** A command that catches IpmiException. */
  function Caught<T>(a: Answer<T>): Outcome
    requires !a.Value?
  {
    match a case Raised(cc) => Failure(cc) case Foreign => Escaped
  }

  /** A reply that ends in a length octet and as many octets, unless it would not fit. */
  function LengthPrefixed(cmd: byte, head: seq<byte>, tail: seq<byte>, tooLong: CompletionCode): Outcome {
    if |head| + 1 + |tail| > MAX_IPMI_BUFFER then Failure(tooLong)
    else Success(cmd, head + [U8(|tail|)] + tail)
  }

  // --- entity names -----------------------------------------------------

  /** The config a request for this id would find parsed afterwards. */
  function ConfigAfter(core: Core, data: seq<byte>, w: World): Option<Config> {
    if core.entityConfig.Some? || |data| < 2 || EntityType(data[0]).None? then core.entityConfig
    else w.entityFile
  }

  function EntityReply(config: Config, data: seq<byte>): Outcome
    requires |data| >= 2 && EntityType(data[0]).Some?
  {
    match NameIn(config, EntityType(data[0]).value, data[1])
    case Meaningless => Undefined
    case Ends(Foreign) => Escaped
    case Ends(Raised(cc)) => Failure(cc)
    case Ends(Value(name)) =>
      if name == [] then Failure(InvalidFieldRequest)
      else LengthPrefixed(ENTITY_NAME, [], name, InvalidCommand)
  }

  function EntityNameSpec(core: Core, data: seq<byte>, w: World): (Core, Outcome) {
    var config := ConfigAfter(core, data, w);
    (core.(entityConfig := config),
     if |data| < 2 then Failure(ReqDataLenInvalid)
     else if EntityType(data[0]).None? then Failure(InvalidFieldRequest)
     else if config.None? then Failure(UnspecifiedError)
     else EntityReply(config.value, data))
  }

  // --- machine name -----------------------------------------------------

  function MachineReply(name: Text): Outcome { LengthPrefixed(MACHINE_NAME, [], name, InvalidCommand) }

  function MachineNameSpec(p: Setup, core: Core, w: World): (Core, Outcome) {
    if core.machineName.Some? then (core, MachineReply(core.machineName.value))
    else match NameOnFile(p.machineKey, w.osRelease)
      case Value(name) => (core.(machineName := Some(name)), MachineReply(name))
      case failed => (core, Caught(failed))
  }

  // --- PCIe slots -------------------------------------------------------

  function SlotCountSpec(p: Setup, core: Core, w: World): (Core, Outcome) {
    match MapOf(p.layout, w.sysfs)
    case Value(slots) => (core.(pcieMap := slots), Success(PCIE_SLOT_COUNT, [U8(|slots|)]))
    case Raised(cc) => (core, Thrown(cc))
    case Foreign => (core, Escaped)
  }

  function SlotMappingSpec(pcieMap: seq<Slot>, data: seq<byte>): Outcome {
    if data == [] then Failure(ReqDataLenInvalid)
    else if pcieMap == [] then Failure(InvalidReservationId)
    else if data[0] >= |pcieMap| then Failure(ParmOutOfRange)
    else
      var slot := pcieMap[data[0]];
      LengthPrefixed(PCIE_SLOT_I2C_BUS_MAPPING, [U8(slot.bus)], slot.name, InvalidCommand)
  }

  // --- BIOS setting -----------------------------------------------------

  function ReadBiosSpec(core: Core, w: World): Outcome {
    if !w.biosReadable || core.bios.None? || core.bios.value == [] then Failure(RetBytesUnavailable)
    else Success(READ_BIOS_SETTING, [U8(|core.bios.value|)] + core.bios.value)
  }

  /** A write is accepted when its length octet counts the octets after it. */
  predicate WellFormedWrite(data: seq<byte>) { data != [] && data[0] == |data| - 1 }

  function WriteBiosSpec(core: Core, data: seq<byte>, w: World): (Core, Outcome) {
    if !WellFormedWrite(data) then (core, Failure(ReqDataLenInvalid))
    else match w.biosWrite
      case Complete => (core.(bios := Some(data[1..])), Success(WRITE_BIOS_SETTING, [data[0]]))
      case Unopened => (core, Failure(RetBytesUnavailable))
      case Stopped(n) =>
        (core.(bios := Some(if n < |data| - 1 then data[1..1 + n] else data[1..])), Failure(RetBytesUnavailable))
  }

  // --- commands that keep nothing ---------------------------------------

  function CableCheck(data: seq<byte>, w: World): Outcome {
    if data == [] || data[0] == 0 || |data| - 1 < data[0] then Failure(ReqDataLenInvalid)
    else match w.rxPackets
      case Value(count) => Success(CABLE_CHECK, [if count > 0 then 1 else 0])
      case _ => Caught(w.rxPackets)
  }

  function CpldVersion(data: seq<byte>, w: World): Outcome {
    if data == [] then Failure(ReqDataLenInvalid)
    else match Cpld.GetCpldVersion(w.cpld)
      case Meaningless => Undefined
      case Ends(Value(version)) => Success(CPLD_VERSION, version)
      case Ends(answer) => Caught(answer)
  }

  function EthDevice(p: Setup, data: seq<byte>, w: World): Outcome {
    match w.channel
    case Raised(cc) => Thrown(cc)
    case Foreign => Escaped
    case Value(channel) =>
      var device := if data == [] then p.ncsiInterface else data;
      if device == [] then Failure(ReqDataLenInvalid)
      else LengthPrefixed(GET_ETH_DEVICE, [channel], device, RetBytesUnavailable)
  }

  /** A command that takes so many octets, does something and replies with nothing. */
  function Acted(cmd: byte, data: seq<byte>, needed: nat, w: World): Outcome {
    if |data| < needed then Failure(ReqDataLenInvalid)
    else if w.done.Value? then Success(cmd, [])
    else Caught(w.done)
  }

  function FlashSize(w: World): Outcome {
    match w.flashSize
    case Value(size) => Success(GET_FLASH_SIZE, ToLE(size, 4))
    case _ => Caught(w.flashSize)
  }

  function Bifurcation(data: seq<byte>, w: World): Outcome {
    if data == [] then Failure(ReqDataLenInvalid)
    else match Lanes.GetBifurcation(w.bifurcation)
      case None => Undefined
      case Some(lanes) => LengthPrefixed(PCIE_SLOT_BIFURCATION, [], lanes, InvalidCommand)
  }

  predicate VrSupported(id: byte) { id < 6 }

  function GetVrSettings(data: seq<byte>, w: World): Outcome {
    if |data| != 2 then Failure(ReqDataLenInvalid)
    else if !VrSupported(data[1]) then Escaped
    else match w.vrSetting
      case Value(reading) =>
        (match Converted(reading, 0, UINT16_MAX)
         case Some(v) => Success(GET_ACCEL_VR_SETTINGS, ToLE(v, 2))
         case None => Undefined)
      case _ => Caught(w.vrSetting)
  }

  function SetVrSettings(data: seq<byte>, w: World): Outcome {
    if |data| != 4 then Failure(ReqDataLenInvalid)
    else if !VrSupported(data[1]) then Failure(ParmOutOfRange)
    else Acted(SET_ACCEL_VR_SETTINGS, data, 4, w)
  }

  function BMInstanceProperty(data: seq<byte>, w: World): Outcome {
    if data == [] then Failure(ReqDataLenInvalid)
    else match w.bmProperty
      case Value(text) => LengthPrefixed(GET_BM_INSTANCE_PROPERTY, [], text, InvalidCommand)
      case Raised(cc) => Thrown(cc)
      case Foreign => Escaped
  }

  function CoreCount(w: World): Outcome {
    match w.coreCount
    case None => Failure(UnspecifiedError)
    case Some(n) => Success(GET_CORE_COUNT, ToLE(n, 2))
  }

  // --- dispatch ---------------------------------------------------------

  /** The commands that go by the flag files instead of the core. */
  predicate AsksForMode(cmd: byte) { cmd == GET_BMC_MODE || cmd == LINUX_BOOT_DONE }

  function WithCalls(core: Core, r: (Outcome, seq<BusCall>)): (Core, Outcome) {
    (core.(calls := core.calls + r.1), r.0)
  }

  /** The commands with nothing to keep, and the numbers that are no command. */
  function Plain(p: Setup, r: Request): Outcome {
    var (data, w) := (r.data, r.world);
    if r.cmd == CABLE_CHECK then CableCheck(data, w)
    else if r.cmd == CPLD_VERSION then CpldVersion(data, w)
    else if r.cmd == GET_ETH_DEVICE then EthDevice(p, data, w)
    else if r.cmd == PSU_HARD_RESET then Acted(r.cmd, data, 4, w)
    else if r.cmd == PSU_HARD_RESET_ON_SHUTDOWN then Acted(r.cmd, data, 0, w)
    else if r.cmd == GET_FLASH_SIZE then FlashSize(w)
    else if r.cmd == HOST_POWER_OFF then Acted(r.cmd, data, 4, w)
    else if r.cmd == PCIE_SLOT_BIFURCATION then Bifurcation(data, w)
    else if r.cmd == GET_ACCEL_VR_SETTINGS then GetVrSettings(data, w)
    else if r.cmd == SET_ACCEL_VR_SETTINGS then SetVrSettings(data, w)
    else if r.cmd == GET_BM_INSTANCE_PROPERTY then BMInstanceProperty(data, w)
    else if r.cmd == GET_CORE_COUNT then CoreCount(w)
    else Failure(InvalidCommand)
  }

  /** What a request other than those does to the core and is answered with. */
  function Handle(p: Setup, core: Core, r: Request): (Core, Outcome)
    requires !AsksForMode(r.cmd)
  {
    var (data, w) := (r.data, r.world);
    if r.cmd == PCIE_SLOT_COUNT then SlotCountSpec(p, core, w)
    else if r.cmd == PCIE_SLOT_I2C_BUS_MAPPING then (core, SlotMappingSpec(core.pcieMap, data))
    else if r.cmd == ENTITY_NAME then EntityNameSpec(core, data, w)
    else if r.cmd == MACHINE_NAME then MachineNameSpec(p, core, w)
    else if r.cmd == ACCEL_OOB_DEVICE_COUNT then WithCalls(core, DeviceCountSpec(data, w.objects))
    else if r.cmd == ACCEL_OOB_DEVICE_NAME then WithCalls(core, DeviceNameSpec(p.accelRoot, data, w.objects))
    else if r.cmd == ACCEL_OOB_READ then WithCalls(core, ReadSpec(p.accelRoot, data, w.bus))
    else if r.cmd == ACCEL_OOB_WRITE then WithCalls(core, WriteSpec(p.accelRoot, data, w.bus))
    else if r.cmd == READ_BIOS_SETTING then (core, ReadBiosSpec(core, w))
    else if r.cmd == WRITE_BIOS_SETTING then WriteBiosSpec(core, data, w)
    else (core, Plain(p, r))
  }

  /** How a boot-done request ends, given what its query answered. */
  function BootReply(b: Build, m: Mode, start: StartCall): Outcome {
    var answer := BootAnswer(b, m, start);
    if answer.Value? then Success(LINUX_BOOT_DONE, []) else Caught(answer)
  }

  function ModeReply(b: Build, r: Request, m: Mode): Outcome {
    if r.cmd == GET_BMC_MODE then Success(GET_BMC_MODE, [ModeByte(m)]) else BootReply(b, m, r.world.start)
  }

  /** The outcomes a mode command can have. */
  predicate ModeAnswer(b: Build, r: Request, out: Outcome) {
    exists m: Mode :: out == ModeReply(b, r, m) && (b.bareMetal ==> m == Bm)
  }

  /** One request, whichever it is. */
  ghost predicate Serves(p: Setup, core: Core, r: Request, core': Core, out: Outcome) {
    if AsksForMode(r.cmd) then core' == core && ModeAnswer(p.build, r, out)
    else (core', out) == Handle(p, core, r)
  }
}
