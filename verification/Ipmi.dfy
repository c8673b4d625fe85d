/** What a command hands back, and the numbers of the subcommands. */
module Ipmi {
  import opened Bytes

  datatype Option<+T> = None | Some(value: T)

  const MAX_IPMI_BUFFER: nat := 64

  /** Generic completion codes, IPMI v2.0 section 5.2. */
  datatype CompletionCode =
    | InvalidCommand        // C1h
    | InvalidReservationId  // C5h
    | ReqDataTruncated      // C6h
    | ReqDataLenInvalid     // C7h
    | ReqDataLenExceeded    // C8h
    | ParmOutOfRange        // C9h
    | RetBytesUnavailable   // CAh
    | InvalidFieldRequest   // CCh
    | UnspecifiedError      // FFh

  /** How a call of a handler member ends. */
  datatype Answer<+T> =
    | Value(value: T)
    | Raised(cc: CompletionCode)  // an IpmiException
    | Foreign                     // any other C++ exception

  /** A call that may not have a defined end at all. */
  datatype Execution<+T> = Ends(answer: Answer<T>) | Meaningless

  /** How a command function ends. */
  datatype Outcome =
    | Success(cmd: byte, payload: seq<byte>)
    | Failure(cc: CompletionCode)
    | Thrown(cc: CompletionCode)  // an IpmiException leaves the command
    | Escaped                     // any other C++ exception leaves the command
    | Undefined                   // C++ gives the execution no meaning

  const CABLE_CHECK: byte := 0
  const CPLD_VERSION: byte := 1
  const GET_ETH_DEVICE: byte := 2
  const PSU_HARD_RESET: byte := 3
  const PCIE_SLOT_COUNT: byte := 4
  const PCIE_SLOT_I2C_BUS_MAPPING: byte := 5
  const ENTITY_NAME: byte := 6
  const MACHINE_NAME: byte := 7
  const PSU_HARD_RESET_ON_SHUTDOWN: byte := 8
  const GET_FLASH_SIZE: byte := 9
  const HOST_POWER_OFF: byte := 10
  const ACCEL_OOB_DEVICE_COUNT: byte := 11
  const ACCEL_OOB_DEVICE_NAME: byte := 12
  const ACCEL_OOB_READ: byte := 13
  const ACCEL_OOB_WRITE: byte := 14
  const PCIE_SLOT_BIFURCATION: byte := 15
  const GET_BMC_MODE: byte := 16
  const LINUX_BOOT_DONE: byte := 17
  const GET_ACCEL_VR_SETTINGS: byte := 21
  const SET_ACCEL_VR_SETTINGS: byte := 22
  const GET_BM_INSTANCE_PROPERTY: byte := 23
  const READ_BIOS_SETTING: byte := 24
  const WRITE_BIOS_SETTING: byte := 25
  const GET_CORE_COUNT: byte := 30
}
