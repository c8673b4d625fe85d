/** The server: the state it keeps and the methods that change it, one subcommand each. */
module Server {
  import opened Builtins
  import opened Bytes
  import opened Ipmi
  import opened BareMetal
  import opened AccelOob
  import opened OsRelease
  import opened PcieMap
  import opened Entity
  import opened Commands

  class Handler {
    const setup: Setup
    const fs: FlagFiles
    var entityConfigParsed: bool
    var entityConfig: Config
    var pcieI2cMap: seq<Slot>
    var machineName: Option<Text>
    var biosFile: Option<seq<byte>>
    ghost var calls: seq<BusCall>

    ghost function View(): Core
      reads this
    {
      Core(if entityConfigParsed then Some(entityConfig) else None, pcieI2cMap, machineName, biosFile, calls)
    }

    ghost predicate Valid()
      reads this, fs
    {
      fs.Valid() && fs.Now().pc == Idle && fs.build == setup.build && Sized(setup.machineKey)
    }

    constructor (build: Build, fs: FlagFiles, biosFile: Option<seq<byte>>)
      requires fs.Valid() && fs.Now().pc == Idle && fs.build == build
      ensures Valid() && View() == Fresh(biosFile) && this.fs == fs && setup.build == build
      ensures setup.accelRoot == Ascii("/com/google/customAccel/")
      ensures setup.machineKey == Ascii("OPENBMC_TARGET_MACHINE=") && setup.layout == KernelLayout()
      ensures setup.ncsiInterface == Ascii("eth0")
    {
      setup := Setup(build, Builtin(AccelRoot), Builtin(MachineKey),
                     KernelLayout(), Builtin(NcsiInterface));
      this.fs := fs;
      entityConfigParsed, entityConfig := false, Malformed;
      pcieI2cMap := [];
      machineName := None;
      this.biosFile := biosFile;
      calls := [];
    }

    /** Handler::getEntityName: parses the config on first use. */
    method EntityNameOf(id: byte, instance: byte, file: Option<Config>) returns (r: Execution<Text>)
      modifies this
      ensures View() == if EntityType(id).None? then old(View())
                        else old(View()).(entityConfig :=
                          if old(entityConfigParsed) then Some(old(entityConfig)) else file)
      ensures r == if EntityType(id).None? then Ends(Raised(InvalidFieldRequest))
                   else match View().entityConfig
                     case None => Ends(Raised(UnspecifiedError))
                     case Some(config) =>
                       var found := NameIn(config, EntityType(id).value, instance);
                       if found == Ends(Value([])) then Ends(Raised(InvalidFieldRequest)) else found
    {
      var typeName := EntityType(id);
      if typeName.None? {
        return Ends(Raised(InvalidFieldRequest));
      }
      if !entityConfigParsed {
        if file.None? {
          return Ends(Raised(UnspecifiedError));
        }
        entityConfig := file.value;
        entityConfigParsed := true;
      }
      r := ReadNameFromConfig(typeName.value, instance, entityConfig);
      if r == Ends(Value([])) {
        r := Ends(Raised(InvalidFieldRequest));
      }
    }

    method GetEntityName(data: seq<byte>, w: World) returns (out: Outcome)
      modifies this
      ensures (View(), out) == EntityNameSpec(old(View()), data, w)
    {
      if |data| < 2 {
        return Failure(ReqDataLenInvalid);
      }
      var execution := EntityNameOf(data[0], data[1], w.entityFile);
      if execution.Meaningless? {
        return Undefined;
      }
      var answer := execution.answer;
      if !answer.Value? {
        return Caught(answer);
      }
      out := LengthPrefixed(ENTITY_NAME, [], answer.value, InvalidCommand);
    }

    /** getMachineName: asks for the name until it is told one. */
    method GetMachineName(w: World) returns (out: Outcome)
      requires Sized(setup.machineKey) && (w.osRelease.Some? ==> Sized(w.osRelease.value.bytes))
      modifies this
      ensures (View(), out) == MachineNameSpec(setup, old(View()), w)
    {
      if machineName.None? {
        var answer := OsRelease.GetMachineName(setup.machineKey, w.osRelease);
        if !answer.Value? {
          return Caught(answer);
        }
        machineName := Some(answer.value);
      }
      out := LengthPrefixed(MACHINE_NAME, [], machineName.value, InvalidCommand);
    }

    /** pcieSlotCount: the map is only replaced once it has been built. */
    method PcieSlotCount(w: World) returns (out: Outcome)
      modifies this
      ensures (View(), out) == SlotCountSpec(setup, old(View()), w)
    {
      var built := BuildPcieMap(setup.layout, w.sysfs);
      if built.Raised? {
        return Thrown(built.cc);
      }
      if built.Foreign? {
        return Escaped;
      }
      pcieI2cMap := built.value;
      out := Success(PCIE_SLOT_COUNT, [U8(|pcieI2cMap|)]);
    }

    method PcieSlotI2cBusMapping(data: seq<byte>) returns (out: Outcome)
      ensures out == SlotMappingSpec(pcieI2cMap, data)
    {
      if |data| < 1 {
        return Failure(ReqDataLenInvalid);
      }
      var mapSize := |pcieI2cMap|;
      if mapSize == 0 {
        return Failure(InvalidReservationId);
      }
      var entry := data[0];
      if entry >= mapSize {
        return Failure(ParmOutOfRange);
      }
      var slot := pcieI2cMap[entry];
      if 2 + |slot.name| > MAX_IPMI_BUFFER {
        return Failure(InvalidCommand);
      }
      var reply := [U8(slot.bus)];
      reply := reply + [U8(|slot.name|)];
      reply := reply + slot.name;
      out := Success(PCIE_SLOT_I2C_BUS_MAPPING, reply);
    }

    method ReadBiosSetting(w: World) returns (out: Outcome)
      ensures out == ReadBiosSpec(View(), w)
    {
      var settings: seq<byte> := [];
      if w.biosReadable && biosFile.Some? {
        settings := biosFile.value;
      }
      if |settings| == 0 {
        return Failure(RetBytesUnavailable);
      }
      var reply := [U8(|settings|)];
      reply := reply + settings;
      out := Success(READ_BIOS_SETTING, reply);
    }

    /** writeBiosSetting: opening truncates the file, so a failed write still changes it. */
    method WriteBiosSetting(data: seq<byte>, w: World) returns (out: Outcome)
      modifies this
      ensures (View(), out) == WriteBiosSpec(old(View()), data, w)
    {
      var rest := data;
      if rest == [] {
        return Failure(ReqDataLenInvalid);
      }
      var payloadSize := rest[0];
      rest := rest[1..];
      if |rest| != payloadSize {
        return Failure(ReqDataLenInvalid);
      }
      if w.biosWrite.Unopened? {
        return Failure(RetBytesUnavailable);
      }
      biosFile := Some([]);
      if w.biosWrite.Stopped? {
        var written := if w.biosWrite.after < |rest| then w.biosWrite.after else |rest|;
        biosFile := Some(rest[..written]);
        assert rest[..|rest|] == rest && rest[..written] == data[1..1 + written];
        return Failure(RetBytesUnavailable);
      }
      biosFile := Some(rest);
      out := Success(WRITE_BIOS_SETTING, [payloadSize]);
    }

    method GetBmcMode(w: World) returns (out: Outcome, ghost mode: Mode)
      requires Valid()
      modifies fs
      ensures Valid() && View() == old(View())
      ensures out == Success(GET_BMC_MODE, [ModeByte(mode)])
      ensures Queried(old(fs.log), fs.log, GetMode, w.luck, mode)
      ensures setup.build.bareMetal ==> mode == Bm
    {
      var answer := IsBmcInBareMetalMode(fs, w.luck, GetMode);
      mode := answer;
      out := Success(GET_BMC_MODE, [ModeByte(answer)]);
    }

    method BootDoneCommand(w: World) returns (out: Outcome, ghost mode: Mode)
      requires Valid()
      modifies fs
      ensures Valid() && View() == old(View())
      ensures exists queried :: Queried(old(fs.log), queried, BootDone, w.luck, mode)
                                && fs.log == queried + BootTail(setup.build, mode, w.start)
      ensures out == BootReply(setup.build, mode, w.start)
      ensures setup.build.bareMetal ==> mode == Bm
    {
      var answer;
      answer, mode := LinuxBootDone(fs, w.luck, w.start);
      out := if answer.Value? then Success(LINUX_BOOT_DONE, []) else Caught(answer);
    }

    method CallAccel(r: Request) returns (out: Outcome)
      requires r.cmd == ACCEL_OOB_DEVICE_COUNT || r.cmd == ACCEL_OOB_DEVICE_NAME
               || r.cmd == ACCEL_OOB_READ || r.cmd == ACCEL_OOB_WRITE
      modifies this`calls
      ensures (View(), out) == Handle(setup, old(View()), r)
    {
      ghost var made;
      if r.cmd == ACCEL_OOB_DEVICE_COUNT {
        out, made := DeviceCount(r.data, r.world.objects);
      } else if r.cmd == ACCEL_OOB_DEVICE_NAME {
        out, made := DeviceName(setup.accelRoot, r.data, r.world.objects);
      } else if r.cmd == ACCEL_OOB_READ {
        out, made := AccelOob.Read(setup.accelRoot, r.data, r.world.bus);
      } else {
        out, made := AccelOob.Write(setup.accelRoot, r.data, r.world.bus);
      }
      calls := calls + made;
    }

    /** handleSysCommand. */
    method HandleSysCommand(r: Request) returns (out: Outcome)
      requires Valid()
      requires r.world.osRelease.Some? ==> Sized(r.world.osRelease.value.bytes)
      modifies this, fs
      ensures Valid() && Serves(setup, old(View()), r, View(), out)
      ensures old(fs.log) <= fs.log
      ensures !AsksForMode(r.cmd) ==> fs.log == old(fs.log) && fs.flags == old(fs.flags)
      ensures r.cmd == GET_BMC_MODE ==>
              exists mode :: Queried(old(fs.log), fs.log, GetMode, r.world.luck, mode)
                             && out == Success(r.cmd, [ModeByte(mode)])
      ensures r.cmd == LINUX_BOOT_DONE ==>
              exists mode, queried :: Queried(old(fs.log), queried, BootDone, r.world.luck, mode)
                                      && fs.log == queried + BootTail(setup.build, mode, r.world.start)
                                      && out == BootReply(setup.build, mode, r.world.start)
    {
      if r.cmd == GET_BMC_MODE {
        ghost var mode;
        out, mode := GetBmcMode(r.world);
        assert out == ModeReply(setup.build, r, mode);
      } else if r.cmd == LINUX_BOOT_DONE {
        ghost var mode;
        out, mode := BootDoneCommand(r.world);
        assert out == ModeReply(setup.build, r, mode);
      } else if r.cmd == PCIE_SLOT_COUNT {
        out := PcieSlotCount(r.world);
      } else if r.cmd == PCIE_SLOT_I2C_BUS_MAPPING {
        out := PcieSlotI2cBusMapping(r.data);
      } else if r.cmd == ENTITY_NAME {
        out := GetEntityName(r.data, r.world);
      } else if r.cmd == MACHINE_NAME {
        out := GetMachineName(r.world);
      } else if ACCEL_OOB_DEVICE_COUNT <= r.cmd <= ACCEL_OOB_WRITE {
        out := CallAccel(r);
      } else if r.cmd == READ_BIOS_SETTING {
        out := ReadBiosSetting(r.world);
      } else if r.cmd == WRITE_BIOS_SETTING {
        out := WriteBiosSetting(r.data, r.world);
      } else {
        out := Plain(setup, r);
      }
    }
  }
}
