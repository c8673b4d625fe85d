/** The longer strings the program has built in. */
module Builtins {
  import opened Bytes

  datatype Literal = AccelRoot | MachineKey | I2cDevices | PcieSlotFile | DeviceTree | LabelFile | NcsiInterface

  function Builtin(w: Literal): Text {
    match w
    case AccelRoot => Ascii("/com/google/customAccel/")
    case MachineKey => Ascii("OPENBMC_TARGET_MACHINE=")
    case I2cDevices => Ascii("/sys/bus/i2c/devices/")
    case PcieSlotFile => Ascii("/of_node/pcie-slot")
    case DeviceTree => Ascii("/proc/device-tree")
    case LabelFile => Ascii("/label")
    case NcsiInterface => Ascii("eth0")
  }
}
