# Verification of the IPMI OEM "sys" command server

The google-ipmi-sys plugin answers one IPMI OEM command whose first octet selects
a subcommand. This project models it as bytes in, bytes out: a `Handler` keeps a
parsed entity config, a PCIe slot map, a cached machine name and a BIOS setting;
four flag files, shared with other processes, spell out the bare-metal mode; the
accelerator service is reached over D-Bus. The Dafny methods follow the C++
functions loop by loop, and each is proved against a function or relation over the
request, the kept state and what the platform answers. The lemmas are about those.

| file | contents |
|---|---|
| `Bytes.dfy`, `Bits.dfy` | octets, byte orders, C strings; shift, mask and or on binary digits |
| `Ipmi.dfy`, `Builtins.dfy` | completion codes, outcomes, subcommand numbers; built-in strings |
| `Narrowing.dfy` | conversions of JSON and sensor numbers, and where they are undefined |
| `AccelCodec.dfy`, `AccelOob.dfy` | accelerator request format, and the commands from request to D-Bus call to reply |
| `BareMetal.dfy` | the mode query and boot-done as a machine of single file operations, and the program |
| `OsRelease.dfy`, `PcieMap.dfy`, `Entity.dfy` | the text scanners and the config lookup |
| `Cpld.dfy`, `Lanes.dfy` | the CPLD version scan and the bifurcation list |
| `Commands.dfy`, `Server.dfy` | every subcommand over the kept state; the `Handler` class and the dispatcher |
| `Runs.dfy`, `Daemon.dfy` | what holds over every sequence of requests; the loop that serves one |

Outside answers (directory listings, file contents, D-Bus replies and failures,
systemd) are parameters, collected in `World`, and are arbitrary for every
request. Other processes create flag files between any two file operations; that
interference is nondeterministic; whether a rename or creation works is part of `World`.

Facts taken as they are in the code:

- A packed cast reads and writes the octets it stands for, also those of a name past the
  44 its struct declares (google_accel_oob.cpp:137-141, google_accel_oob.cpp:170).
- The host is little-endian and `MAX_IPMI_BUFFER` is 64, which makes `MAX_NAME_SIZE` 44.
- An empty C++ struct has size 1, so DeviceCount needs one data octet and a Write
  reply is the request and one zero octet. `README.md:374` calls it a copy.
- DeviceName admits names of 44 octets, for which the terminator is copied past the
  end of the reply; `README.md:280` says 43. Such an execution ends as `Undefined`,
  as does a Read or Write request without any octet.
- A number that does not fit the integer type it is converted to makes an execution
  `Undefined` too: a sensor value outside `uint16_t` (handler.cpp:781), an entity instance
  with a fraction that fits no `int` (handler.cpp:427), a bifurcation element with a
  fraction outside `uint8_t` (bifurcation/bifurcation_static.cpp:76), and a CPLD version
  number that is none from 0 to 255 (handler.cpp:214), where cpld.cpp speaks of truncation.
  `Runs.UndefinedInARun` has the exact condition over all subcommands, and a run never
  goes on past one.
- Library calls behave as the C and C++ standards and the JSON library's documentation
  say: `sscanf` reads decimal numbers with an optional sign, and a JSON list is converted
  element by element.
- `linuxBootDone` puts its D-Bus call together outside the try block (handler.cpp:697-702):
  when that fails, another exception than `IpmiException` leaves the command.
- A Read request too long for the reply gets `ReqDataLenExceeded`
  (google_accel_oob.cpp:217-224); `README.md:334` names another code.
- `accelGetVrSettings` indexes its table before checking the id, so an unsupported
  id ends in a standard exception. Commands that do not catch `IpmiException` end as `Thrown`.
- A failed write of the BIOS setting has already truncated the file.
- A cleaning answer of the mode query is not always the mode of some instant:
  `EarlyDoneIsNotLinearizable` is a run where done is created before the signal flag.
  `CleaningAnswersExactly` says when it is; the other two answers always are.

## Model

| member | source | states |
|---|---|---|
| Bits.AppendByte | handler.cpp:608-611 | shifting 8 up and or-ing a byte in loses no bit while at most 7 bytes are held: it is `data * 256 + b` and fits 64 bits |
| Bits.EmitByte | handler.cpp:640-644 | masking and shifting takes exactly the low byte off a little-endian encoding |
| Bytes.PlaceValues | handler.cpp:607-611 | the place values of the two byte orders |
| Bits.OrBits | handler.cpp:610 | every binary digit of an or is set exactly when it is in one of the operands |
| Bits.AndBits | handler.cpp:642 | every binary digit of an and is set exactly when it is in both |
| Bits.ShiftRightBits | handler.cpp:643 | every binary digit of a right shift is the one as many places up |
| AccelCodec.ReadNameHeader | google_accel_oob.cpp:155-177 | returns 0 exactly when the buffer suffices, with name and payload wholly inside it; otherwise the exact minimum |
| AccelCodec.ReadRoundTrip | google_accel_oob.cpp:183-193 | parsing an encoded Read request gives every field back, whatever octets follow |
| AccelCodec.WriteRoundTrip | google_accel_oob.cpp:239-250 | the same for Write requests |
| AccelCodec.ReadIsCanonical | google_accel_oob.cpp:208-226 | every buffer that parses starts with the encoding of what it parses to |
| AccelCodec.WriteIsCanonical | google_accel_oob.cpp:260-278 | the same for Write requests |
| AccelCodec.ReadEncodingIsPrefixFree | google_accel_oob.cpp:183-193 | no two Read requests share an encoding, and none begins another |
| AccelCodec.WriteEncodingIsPrefixFree | google_accel_oob.cpp:239-250 | the same for Write requests |
| AccelCodec.CutRequestsAreRefused | google_accel_oob.cpp:162-166 | a request cut short at any octet is refused |
| AccelOob.CallRead | handler.cpp:546-614 | succeeds exactly when the service returned between count and 8 bytes, with the positional value of the first count, most significant first; one call with the path up to its first NUL |
| AccelOob.CallWrite | handler.cpp:616-668 | for a count of at most 8 sends the low count bytes of the number, low byte first; for more makes no call |
| AccelOob.CallDeviceName | handler.cpp:509-544 | succeeds exactly when the index is in range of the listed paths and its path is under the root; root and name make up that path |
| AccelOob.CountReply | google_accel_oob.cpp:42-79 | for which sizes and answers of the service a DeviceCount request ends in each of its ways; the four octets of a reply decode to the number of objects modulo 2^32 |
| AccelOob.DeviceName | google_accel_oob.cpp:81-132 | the reply is the request, the length, the name and zeros up to 44 octets; truncated above 44, undefined at 44 |
| AccelOob.NameRefused | google_accel_oob.cpp:87-113 | for which sizes, indices and answers of the service a DeviceName request is refused, and how |
| AccelOob.NameReply | google_accel_oob.cpp:114-131 | for a path under the root, by the length of its rest: the octets of the reply one by one, truncation above 44, and 44 itself undefined |
| AccelOob.Read | google_accel_oob.cpp:181-235 | end to end: the reply is the request, the selected service bytes reversed, and zeros to eight octets, although the program goes through a 64-bit number |
| AccelOob.Write | google_accel_oob.cpp:237-285 | end to end: the octets sent are exactly the request's data octets that its count selects, although the program decodes them and shifts them out again |
| AccelOob.ReadEnds | google_accel_oob.cpp:205-234 | exactly when a Read request ends in each of its ways, by its octets and by what the service answers |
| AccelOob.ReadReply | google_accel_oob.cpp:226-234 | where every octet of a Read reply comes from |
| AccelOob.ReadCall | handler.cpp:546-561 | when a Read request calls the service, and the path, address and count of the call by their places in the request |
| AccelOob.WriteEnds | google_accel_oob.cpp:257-284 | exactly when a Write request ends in each of its ways |
| AccelOob.WriteReply | google_accel_oob.cpp:281-284 | a Write reply is the request and then one zero octet |
| AccelOob.WriteCall | handler.cpp:616-653 | when a Write request calls the service, and the path, address and octets of the call by their places in the request |
| AccelOob.ReadSuccess | google_accel_oob.cpp:205-234 | when a read succeeds, exactly; the reply's last eight octets decode to the value read |
| AccelOob.ReadIgnoresExtraBytes | handler.cpp:607-611 | service bytes past the requested count do not matter |
| AccelOob.SelectedIsEmitted | handler.cpp:638-644 | the mask and shift loop on the decoded number reproduces the request octets |
| AccelOob.NumberToWire | google_accel_oob.cpp:229-232 | storing a most-significant-first number little-endian reverses its bytes and pads with zeros |
| AccelOob.FoldInvertsReversedEmission | handler.cpp:607-644 | folding the reversal of what a write emits gives the value modulo 256 to the count |
| AccelOob.EchoIsAByteSwap | handler.cpp:607-644 | folding the emission itself swaps the bytes, and doing so twice restores the value |
| AccelOob.WriteThenRead | google_accel_oob.cpp:181-285 | a register written by one command and returned most significant first by the service reads back as its low bytes |
| AccelOob.DeviceNameReply | google_accel_oob.cpp:112-131 | the name in a reply, put after the root, is the indexed path |
| AccelOob.NamedDeviceIsReachable | google_accel_oob.cpp:102-278 | a reported name fits both requests, and both reach exactly the object the index stood for |
| AccelOob.NameLengthLimits | google_accel_oob.cpp:102-122 | the exact name lengths that Read (45), Write (44) and DeviceName (43) cope with |
| BareMetal.AnswersAreLinearizable | handler.cpp:83-122 | over all interleavings a query's answer is what the flag files spelled out at some instant of it; a cleaning answer, if others create done and ack only once the signal flag exists |
| BareMetal.CleaningAnswersExactly | handler.cpp:94-116 | a cleaning answer was right at some instant exactly when the signal flag, if created during the query, was created before done and ack |
| BareMetal.EarlyDoneIsNotLinearizable | handler.cpp:94-116 | without the discipline on others, a run whose cleaning answer was right at no instant |
| BareMetal.ModesNeverGoBack | handler.cpp:85-122 | over any run, also with failed renames, no answer ranks below an earlier one |
| BareMetal.CleaningFlagRecordsAnswers | handler.cpp:105-116 | between calls the cleaning flag exists exactly when some query answered cleaning, and it is created at most once |
| BareMetal.RepeatedQueryIsStable | handler.cpp:85-122 | an undisturbed query asked again at once gives the same answer and changes no file |
| BareMetal.UndisturbedAnswer | handler.cpp:78-122 | an undisturbed query answers the mode of the files it started with |
| BareMetal.UndisturbedOctet | handler.cpp:78-122 | it reports 1 with ack or done, 2 with only the signal, 0 otherwise |
| BareMetal.UndisturbedFiles | handler.cpp:78-122 | which of the four files are there after an undisturbed call, each by which were there before |
| BareMetal.FilesAreTheHistory | handler.cpp:94-110 | in every run each file is there exactly when it was at first, appeared or was created or renamed to, and was not renamed since |
| BareMetal.ShutdownIsJustified | handler.cpp:678-714 | the bare-metal target is asked for only by a boot-done call that answered bare metal after seeing ack or done, and never in an allowlist build |
| BareMetal.BareMetalBootEnds | handler.cpp:680-714 | a boot-done call that answered bare metal ends exactly once: refused in an allowlist build, otherwise by that request or by failing to put it together |
| BareMetal.BootEndsExactly | handler.cpp:680-714 | for each build, mode and answer of systemd, the one event that concludes a boot-done call and the one way it ends |
| BareMetal.IsBmcInBareMetalMode | handler.cpp:78-124 | the program's checks are a run of the machine from begin to answer, whatever happens in between, and the answer was right at some instant exactly when `CleaningAnswersExactly` allows |
| BareMetal.LinuxBootDone | handler.cpp:678-715 | the last thing in the log is a start request exactly in bare-metal mode without the allowlist and with a call that can be built, an abandoned one exactly when it cannot, a refusal exactly with the allowlist; and exactly how the call ends |
| BareMetal.FlagFiles.RenameDone | handler.cpp:96-97 | the done flag becomes the ack flag when the file system lets it and stays otherwise; the query answers bare metal either way |
| OsRelease.StripQuotes | handler.cpp:367-372 | in wrapping 64-bit sizes both removals stay in range and leave what stands between the quotes |
| OsRelease.Characters | handler.cpp:366-372 | the newline and the quote |
| OsRelease.StrippedIsTheUnquotedValue | handler.cpp:367-372 | the result is the only text without a quote at either end that the value is made of between two runs of quotes |
| OsRelease.WrappedSuffix | handler.cpp:369-371 | the subtractions that wrap for an empty view come to 0, and otherwise to the quotes at the end |
| OsRelease.GetMachineName | handler.cpp:335-374 | the loop ends with the stripped value of the first terminated line with the key, or the error of how the stream gave out |
| OsRelease.MachineNameExactly | handler.cpp:335-374 | the answer, both directions, in terms of the file: the value between the quotes on the first terminated line with the key, or which error |
| OsRelease.FirstNamedIsFirst | handler.cpp:346-365 | the line used has the key and no earlier one does, both directions |
| OsRelease.LinesAreTheText | handler.cpp:348 | the lines scanned and the rest are the only newline-free texts that, joined, are the file |
| OsRelease.UnterminatedLineIsIgnored | handler.cpp:348-354 | a last line without a newline makes no difference |
| PcieMap.BusNumberInvertsPrinting | util.cpp:102-137 | the leftmost number after "i2c-" inverts decimal printing; it fits exactly up to the largest int |
| PcieMap.SearchExactly | util.cpp:101-107 | the search finds exactly the digits after the leftmost match in a path, as many as there are |
| PcieMap.KernelDeviceNumber | util.cpp:98-137 | so for every device name in the listed directory |
| PcieMap.DecimalPlaces | util.cpp:134-137 | the value of digits, place by place in base ten |
| PcieMap.Characters | util.cpp:102 | the digits, the blanks and the letters before a number |
| PcieMap.PropertyIsFirstWord | util.cpp:59-90 | a property is the only text that is the first word of its file, or is with a NUL after it; a file that cannot be opened has none |
| PcieMap.TokenIsFirstWord | util.cpp:71 | what is extracted is the only word with nothing but blanks before it and a blank, or the end, after it |
| PcieMap.TerminatedPropertyIsRead | util.cpp:73-79 | a one-word property stored with its terminator is read without it |
| PcieMap.BuildPcieMap | util.cpp:92-145 | the loop yields the slots of the devices that count, or the exception of a listing or number that fails |
| PcieMap.EntryExactly | util.cpp:98-142 | a device counts exactly when its path has a number, the slot file beside it says a path, and the label at that path in the device tree says a name; it then contributes that number and name, or spoils the walk |
| PcieMap.KernelSlotIsFound | util.cpp:98-142 | with the files where the kernel keeps them, written out, a listed bus contributes its own number and the label of its slot |
| PcieMap.MapListsDevicesInOrder | util.cpp:98-142 | a walk comes to some slots exactly when they are those of the devices that count, told from their files, in directory order, and all others are passed over |
| PcieMap.WalkFailsExactly | util.cpp:95-142 | a walk fails exactly when the directory cannot be listed or a device that counts has a number above the largest int |
| Entity.ReadNameFromConfig | handler.cpp:418-441 | the search ends at the first reading for the instance, narrowed to eight bits, or at one of an unexpected type |
| Entity.FirstMatchNames | handler.cpp:425-438 | the first reading whose written number is the instance modulo 256 names it; a missing number counts as 0, a fraction is dropped |
| Entity.NoMatchNames | handler.cpp:418-441 | without such a reading there is no name; a reading without a number before it, or a config of another shape, ends in an exception |
| Entity.SupportedIds | handler_impl.hpp:98-111 | exactly which entity ids are supported |
| Entity.ModuleTypes | handler_impl.hpp:98-111 | the lists that seven of them are looked up in |
| Entity.BoardTypes | handler_impl.hpp:98-111 | the lists of the other six |
| Bytes.AsciiOctets | handler_impl.hpp:98-111 | the octets of a built-in text are the codes of its characters |
| Entity.MeaninglessExactly | handler.cpp:425-432 | the search is undefined exactly when it gets to an instance number with a fraction that fits no int before it ends |
| Narrowing.Converted | handler.cpp:781 | a double can be cast exactly when it lies less than one beyond the range of the integer type |
| Narrowing.AsOctet | handler.cpp:427 | the octet of a JSON number is congruent to it modulo 256, after its fraction is dropped; it has none exactly when that fits no int |
| Cpld.ScanIsTheReading | handler.cpp:213-216 | what is scanned is the only way to read a text as up to four dotted numbers, each as long as it can be |
| Cpld.MeaninglessExactly | handler.cpp:213-216 | the scan is undefined exactly when the text, read so, holds a number that is none from 0 to 255 |
| Cpld.VersionRoundTrip | handler.cpp:210-223 | up to four octets printed with dots between them are scanned back, whatever comes after four of them but a digit; missing ones become 0 |
| Cpld.SignedNumerals | handler.cpp:213-216 | a number's sign counts |
| Cpld.Characters | handler.cpp:214 | the signs and the dot |
| Cpld.NoVersion | handler.cpp:183-208 | how a missing, unreadable or blank file ends, and that otherwise its first word up to a NUL is scanned |
| Cpld.NoNumberNoVersion | handler.cpp:213-221 | a text without a number in front is refused, except that an empty one passes for 0.0.0.0 |
| Lanes.OctetsExactly | bifurcation/bifurcation_static.cpp:72-84 | a list is undefined exactly when a fraction outside `uint8_t` comes before anything that stops the conversion, and is made out, element by element, exactly when all its elements convert |
| Lanes.OctetOf | bifurcation/bifurcation_static.cpp:76 | the octet of an element is congruent to it modulo 256, or is its whole part when that fits |
| Lanes.BifurcationExactly | bifurcation/bifurcation_static.cpp:41-86 | a slot's octets are those of its elements when all are numbers that convert; exactly when it has none or no meaning |
| Server.Handler.EntityNameOf | handler.cpp:300-333 | the config is parsed at most once and kept when it parses; what is raised otherwise |
| Server.Handler.GetMachineName | machine_name.cpp:36-65 | only a success is kept; the answer is the kept name |
| Server.Handler.PcieSlotCount | pcie_i2c.cpp:44-54 | the map is replaced only by a walk that goes through |
| Runs.MappingReply | pcie_i2c.cpp:56-110 | when a mapping request succeeds, that its reply decodes to the entry's bus number modulo 256 and its name, and exactly when each failure comes about |
| Server.Handler.WriteBiosSetting | bios_setting.cpp:77-124 | what every kind of write, also a failing one, leaves in the file |
| Server.Handler.HandleSysCommand | ipmi.cpp:52-109 | every request is served as its subcommand describes; only the mode commands touch the flag files, and each is answered as its own mode query was |
| Server.Handler.constructor | handler_impl.hpp:90-97 | a server starts with nothing cached, the BIOS setting it finds, and the paths, key and interface the program has built in |
| Runs.ModeNumbersServe | commands.hpp:22-78 | 16 and 17 are the mode commands |
| Runs.KeepingNumbersServe | commands.hpp:22-78 | the numbers of the commands that keep something or call the accelerator service |
| Runs.PlainNumbersServe | commands.hpp:22-78 | the numbers of all other commands; every other number is refused |
| Runs.EntityEnds | entity_name.cpp:51-89 | exactly how an entity request ends, by its size, id, config and name found; a reply is the name after its length |
| Runs.MachineEnds | machine_name.cpp:36-65 | how a machine-name request ends and what it keeps; a reply is the name after its length |
| Runs.CountEnds | pcie_i2c.cpp:44-54 | how a slot-count request ends and what it keeps |
| Runs.BiosWriteEnds | bios_setting.cpp:77-124 | for every request and kind of write, how it ends and which octets are in the file afterwards |
| Runs.BiosReadEnds | bios_setting.cpp:57-75 | when a read is unavailable, and otherwise the stored octets after their number |
| Runs.CableEnds | cable.cpp:40-96 | which requests are malformed; 1 exactly for packets received |
| Runs.CpldEnds | cpld.cpp:41-79 | how each end of the version scan is passed on |
| Runs.EthEnds | eth.cpp:41-67 | channel, length and name of the interface asked for or the built-in one, or which error |
| Runs.ActedEnds | psu.cpp:34-57 | how the commands that reply with nothing end |
| Runs.SizesEnd | flash_size.cpp:34-52 | flash size and core count as little-endian numbers |
| Runs.BifurcationEnds | pcie_bifurcation.cpp:46-72 | the octets after their number, or too many |
| Runs.VrEnds | google_accel_oob.cpp:287-338 | a sensor value without its fraction in two octets, and what each id and size leads to |
| Runs.PropertyEnds | bm_instance.cpp:44-74 | the text after its length, or too long |
| Runs.LoggedBootsAreServed | handler.cpp:678-715 | over any run every boot-done request asks for the target exactly when its query answered bare metal, the build has no allowlist and the call can be built, and its reply tells how that went |
| Runs.UndisturbedReply | bmc_mode.cpp:31-43 | over any run a mode query that nothing disturbed replies 1 with ack or done, 2 with only the signal, 0 otherwise |
| Runs.RunGrows | ipmi.cpp:52-109 | what the dispatcher promises of one request extends any run by that request |
| Daemon.ServeAll | ipmi.cpp:52-109 | serving requests in a loop makes a run in the sense of all results here, with its mode answers in the log of the flag files; its mode reports never go backwards and its boot-done requests are served as `Runs.LoggedBootsAreServed` says |
| Runs.WellSizedExactly | ipmi.cpp:52-109 | whatever is asked, a success carries its subcommand and at most 64 octets with exact length octets, except exactly when a BIOS setting of 64 octets or more is read |
| Runs.RepliesFitExactly | ipmi.cpp:52-109 | over any run, also with failing writes, a reply breaks that bound exactly when it reads a BIOS setting that the last write or an earlier server left 64 octets or longer |
| Runs.RepliesFit | ipmi.cpp:52-109 | so over any run that starts with a short BIOS setting and in which BIOS writes, and only they, have at most 64 octets, every success is within the bound |
| Runs.AcceptedWriteIsReadBackVerbatim | bios_setting.cpp:57-124 | a read after an accepted write returns that write's request, and is within the bound exactly when the write had at most 64 octets |
| Runs.UndefinedInARun | ipmi.cpp:52-109 | over any run, exactly which requests, over all subcommands, have an execution C++ gives no meaning to, told from the requests and what the platform answers to them |
| Runs.EntityAnswersUseFirstConfig | handler.cpp:300-333 | over any run every entity answer is a lookup in the config of the earliest request that found one that parsed |
| Runs.MachineAnswersUseFirstName | machine_name.cpp:38-64 | over any run every machine-name answer is the name of the earliest scan that found one, or this request's own failure |
| Runs.FailuresLeaveCachesUnset | handler.cpp:313-331 | a cache is unset exactly while no request has offered it anything |
| Runs.MapIsLastBuilt | handler.cpp:443-446 | over any run the slot map is the last one built |
| Runs.SessionReadsSnapshot | pcie_i2c.cpp:44-110 | between two successful counts every mapping request is answered from one snapshot, whatever changes meanwhile |
| Runs.SessionTransfersSnapshot | pcie_i2c.cpp:44-110 | counting and asking for each entry reads the whole snapshot in order, bus numbers modulo 256 |
| Runs.CountIsExactUpTo255 | pcie_i2c.cpp:50-53 | the count octet is the true size exactly up to 255 slots |
| Runs.NoSessionYet | pcie_i2c.cpp:67-72 | before any successful count there is nothing to index |
| Runs.BiosReadsLastWrite | bios_setting.cpp:57-124 | each read that works returns what the last write left, or what the server found at its start, with its length, or is unavailable if that is empty; without write failures what is left is the last well-formed payload |
| Runs.BiosHoldsAPrefix | bios_setting.cpp:102-116 | whatever writes fail, the file holds what it held at first or the start of some well-formed payload |
| Runs.RejectedWritesChangeNothing | bios_setting.cpp:94-100 | a write is rejected exactly when its length octet is wrong, and then nothing changes |
| Runs.CallsAreThoseOfTheRequests | google_accel_oob.cpp:42-285 | over any run the calls to the accelerator service are those of the requests, in order |
| Runs.LaterRepliesRankNoLower | bmc_mode.cpp:31-43 | of two mode octets one run replies with, the later never ranks below; once bare metal was reported, a boot-done request ends as in bare-metal mode |

## Left out

- D-Bus, systemd, ioctl and MTD internals: a call is a value that was sent, and its reply or failure is arbitrary.
- JSON parsing: a config is a table of readings whose members may be missing or of the wrong type, a bifurcation list a sequence of numbers and other things.
- Signs in CPLD versions: a number with a minus sign is below 0; how `strtoul` wraps it where it is close to the full width of an `unsigned long` is not modelled.
- Overlapping mode queries: queries run one at a time.
- Errors of existence checks on flag files: the results are exact.
- Property files that change while the PCIe map is being built: the walk sees one state of them.
- `int` lengths: names of 2 GiB, where `int length` would wrap, are not told apart from other names that are too long.
- Cable check, ethernet, PSU, host power-off, flash size, VR settings, instance properties and core count: their library work is an arbitrary answer; they appear for the bound on replies and for `UndefinedInARun`. VR calls are not logged.
- Files larger than a string view can index: the os-release file is required to have fewer than 2^64 - 1 octets.
- Logging, plugin registration and build files.
