/**
 The accelerator out-of-band commands, from the raw request to the D-Bus call
 and back to the reply. The functions below describe each command by where the
 request's octets end up; the methods take the route the program takes, through
 packed loads, a uint64 and the shift loops, and are proved to agree with them.
 */
module AccelOob {
  import opened Bytes
  import opened Bits
  import opened Ipmi
  import opened AccelCodec

  const MAX_NAME_SIZE: nat := MAX_IPMI_BUFFER - 1 - 8 - 1 - 8 - 1 - 1

  /** Calls that leave for the accelerator service. */
  datatype BusCall =
    | GetManagedObjects
    | BarRead(path: Text, address: uint64, count: byte)
    | BarWrite(path: Text, address: uint64, bytes: seq<byte>)

  /** What GetManagedObjects comes back with. */
  datatype Objects = Unreachable | Paths(paths: seq<Text>)

  /** What comes of a BAR call: it cannot be built, it fails, or it returns. */
  datatype BusReply = Unbuilt | Failed | Returned(bytes: seq<byte>)

  // ---------------------------------------------------------------------
  // The specification, over the octets of the request
  // ---------------------------------------------------------------------

  function DeviceCountSpec(data: seq<byte>, objects: Objects): (Outcome, seq<BusCall>) {
    if |data| < 1 then (Failure(ReqDataLenInvalid), [])
    else if |data| + 4 > MAX_IPMI_BUFFER then (Failure(ReqDataLenExceeded), [])
    else match objects
      case Unreachable => (Thrown(UnspecifiedError), [GetManagedObjects])
      case Paths(paths) => (Success(ACCEL_OOB_DEVICE_COUNT, ToLE(|paths|, 4)), [GetManagedObjects])
  }

  /** The name a path goes by on the wire. */
  function NameOf(root: Text, objects: Objects, index: nat): Answer<Text> {
    match objects
    case Unreachable => Raised(UnspecifiedError)
    case Paths(paths) =>
      if index >= |paths| then Raised(ParmOutOfRange)
      else if !(root <= paths[index]) then Raised(InvalidCommand)
      else Value(paths[index][|root|..])
  }

  function DeviceNameSpec(root: Text, data: seq<byte>, objects: Objects): (Outcome, seq<BusCall>) {
    if |data| < 4 then (Failure(ReqDataLenInvalid), [])
    else if |data| + 1 + MAX_NAME_SIZE > MAX_IPMI_BUFFER then (Failure(ReqDataLenExceeded), [])
    else
      var out := match NameOf(root, objects, FromLE(data[..4]))
        case Raised(cc) => Thrown(cc)
        case Foreign => Escaped
        case Value(name) =>
          if |name| > MAX_NAME_SIZE then Failure(ReqDataTruncated)
          else if |name| == MAX_NAME_SIZE then Undefined
          else Success(ACCEL_OOB_DEVICE_NAME,
                       data + [|name|] + name + Zeros(MAX_NAME_SIZE - |name|));
      (out, [GetManagedObjects])
  }

  function ReadSpec(root: Text, data: seq<byte>, reply: BusReply): (Outcome, seq<BusCall>) {
    if data == [] then (Undefined, [])
    else match ParseRead(data)
      case None => (Failure(ReqDataLenInvalid), [])
      case Some(r) =>
        if |data| + 8 > MAX_IPMI_BUFFER then (Failure(ReqDataLenExceeded), [])
        else
          var calls := [BarRead(CStr(root + r.name), r.address, r.count)];
          match reply
          case Unbuilt => (Escaped, [])
          case Failed => (Thrown(UnspecifiedError), calls)
          case Returned(bytes) =>
            if |bytes| < r.count then (Thrown(UnspecifiedError), calls)
            else if |bytes| > 8 then (Thrown(ReqDataTruncated), calls)
            else (Success(ACCEL_OOB_READ, data + Reverse(bytes[..r.count]) + Zeros(8 - r.count)), calls)
  }

  /** The octets of a write request that its count selects. */
  function Selected(data: seq<byte>): (bytes: seq<byte>)
    requires data != [] && ParseWrite(data).Some? && ParseWrite(data).value.read.count <= 8
  {
    var n := data[0];
    data[n + 11..n + 11 + ParseWrite(data).value.read.count]
  }

  function WriteSpec(root: Text, data: seq<byte>, reply: BusReply): (Outcome, seq<BusCall>) {
    if data == [] then (Undefined, [])
    else match ParseWrite(data)
      case None => (Failure(ReqDataLenInvalid), [])
      case Some(w) =>
        if |data| + 1 > MAX_IPMI_BUFFER then (Failure(ReqDataLenExceeded), [])
        else if w.read.count > 8 then (Thrown(ParmOutOfRange), [])
        else
          var calls := [BarWrite(CStr(root + w.read.name), w.read.address, Selected(data))];
          match reply
          case Unbuilt => (Thrown(UnspecifiedError), [])
          case Failed => (Thrown(UnspecifiedError), calls)
          case Returned(_) => (Success(ACCEL_OOB_WRITE, data + [0]), calls)
  }

  // ---------------------------------------------------------------------
  // The program
  // ---------------------------------------------------------------------

  lemma CopyStep(was: seq<byte>, src: seq<byte>, at: nat, i: nat)
    requires at + |src| <= |was| && i < |src|
    ensures (was[..at] + src[..i] + was[at + i..])[at + i := src[i]] == was[..at] + src[..i + 1] + was[at + i + 1..]
  {
  }

  /** std::copy and memcpy. */
  method CopyInto(src: seq<byte>, dst: array<byte>, at: nat)
    requires at + |src| <= dst.Length
    modifies dst
    ensures dst[..] == old(dst[..at]) + src + old(dst[at + |src|..])
  {
    ghost var was := dst[..];
    for i := 0 to |src|
      invariant dst[..] == was[..at] + src[..i] + was[at + i..]
    {
      CopyStep(was, src, at, i);
      dst[at + i] := src[i];
    }
  }

  /** A zeroed reply buffer that starts with the request and goes on with the filled-in fields. */
  method ReplyAfter(data: seq<byte>, fields: seq<byte>, size: nat) returns (reply: seq<byte>)
    requires |fields| <= size
    ensures reply == data + fields + Zeros(size - |fields|)
  {
    var replyBuf := new byte[|data| + size](_ => 0);
    assert replyBuf[..] == Zeros(|data| + size);
    CopyInto(data, replyBuf, 0);
    assert replyBuf[..] == data + Zeros(size);
    CopyInto(fields, replyBuf, |data|);
    reply := replyBuf[..];
    assert replyBuf[..|data|] == data;
  }

  /** Handler::accelOobRead: the first count bytes the service returned, as one number. */
  method CallRead(root: Text, name: Text, address: uint64, count: byte, reply: BusReply)
    returns (r: Answer<uint64>, calls: seq<BusCall>)
    ensures r.Value? <==> reply.Returned? && count <= |reply.bytes| <= 8
    ensures r.Value? ==> r.value == FromBE(reply.bytes[..count])
    ensures r.Foreign? <==> reply.Unbuilt?
    ensures r.Raised? ==>
        r.cc == if reply.Returned? && |reply.bytes| >= count then ReqDataTruncated else UnspecifiedError
    ensures calls == if reply.Unbuilt? then [] else [BarRead(CStr(root + name), address, count)]
  {
    var objectName := root + name;
    if reply.Unbuilt? {
      return Foreign, [];
    }
    calls := [BarRead(CStr(objectName), address, count)];
    if reply.Failed? {
      return Raised(UnspecifiedError), calls;
    }
    var bytes := reply.bytes;
    if |bytes| < count {
      return Raised(UnspecifiedError), calls;
    }
    if |bytes| > 8 {
      return Raised(ReqDataTruncated), calls;
    }
    var data: uint64 := 0;
    for i := 0 to count
      invariant data == FromBE(bytes[..i])
    {
      FromBEBound(bytes[..i]);
      Pow256Monotone(i, 7);
      AppendByte(data, bytes[i]);
      FromBEAppend(bytes[..i], bytes[i]);
      assert bytes[..i + 1] == bytes[..i] + [bytes[i]];
      data := Or(ShiftLeft(data, 8), bytes[i]);
    }
    r := Value(data);
  }

  lemma Reassociate<T>(a: seq<T>, b: seq<T>, c: seq<T>)
    ensures a + (b + c) == a + b + c
  {
  }

  /** Handler::accelOobWrite: the low count bytes of data, low byte first. */
  method CallWrite(root: Text, name: Text, address: uint64, count: byte, data: uint64, reply: BusReply)
    returns (r: Answer<()>, calls: seq<BusCall>)
    ensures calls == if count > 8 || reply.Unbuilt? then []
                     else [BarWrite(CStr(root + name), address, ToLE(data, count))]
    ensures r == if count > 8 then Raised(ParmOutOfRange)
                 else if reply.Returned? then Value(())
                 else Raised(UnspecifiedError)
  {
    var objectName := root + name;
    if count > 8 {
      return Raised(ParmOutOfRange), [];
    }
    var bytes: seq<byte> := [];
    var rest := data;
    for i := 0 to count
      invariant bytes + ToLE(rest, count - i) == ToLE(data, count)
    {
      EmitByte(rest, count - i);
      var low: byte := And(rest, 0xff);
      var left := ShiftRight(rest, 8);
      Reassociate(bytes, [low], ToLE(left, count - i - 1));
      bytes := bytes + [low];
      rest := left;
    }
    assert bytes == bytes + ToLE(rest, 0);
    if reply.Unbuilt? {
      return Raised(UnspecifiedError), [];
    }
    calls := [BarWrite(CStr(objectName), address, bytes)];
    r := if reply.Failed? then Raised(UnspecifiedError) else Value(());
  }

  /** Handler::accelOobDeviceName. */
  method CallDeviceName(root: Text, index: nat, objects: Objects)
    returns (r: Answer<Text>, calls: seq<BusCall>)
    ensures r.Value? <==> objects.Paths? && index < |objects.paths| && root <= objects.paths[index]
    ensures r.Value? ==> root + r.value == objects.paths[index]
    ensures r.Raised? <==> !r.Value?
    ensures r.Raised? ==>
        r.cc == if objects.Unreachable? then UnspecifiedError
                else if index < |objects.paths| then InvalidCommand else ParmOutOfRange
    ensures calls == [GetManagedObjects]
  {
    calls := [GetManagedObjects];
    if objects.Unreachable? {
      return Raised(UnspecifiedError), calls;
    }
    if index >= |objects.paths| {
      return Raised(ParmOutOfRange), calls;
    }
    var name := objects.paths[index];
    if !(root <= name) {
      return Raised(InvalidCommand), calls;
    }
    r := Value(name[|root|..]);
  }

  method DeviceCount(data: seq<byte>, objects: Objects)
    returns (out: Outcome, calls: seq<BusCall>)
    ensures (out, calls) == DeviceCountSpec(data, objects)
  {
    if |data| < 1 {
      return Failure(ReqDataLenInvalid), [];
    }
    if |data| + 4 > MAX_IPMI_BUFFER {
      return Failure(ReqDataLenExceeded), [];
    }
    calls := [GetManagedObjects];
    if objects.Unreachable? {
      return Thrown(UnspecifiedError), calls;
    }
    var replyBuf := new byte[4](_ => 0);
    CopyInto(ToLE(|objects.paths|, 4), replyBuf, 0);
    out := Success(ACCEL_OOB_DEVICE_COUNT, replyBuf[..]);
    assert replyBuf[..] == ToLE(|objects.paths|, 4);
  }

  method DeviceName(root: Text, data: seq<byte>, objects: Objects)
    returns (out: Outcome, calls: seq<BusCall>)
    ensures (out, calls) == DeviceNameSpec(root, data, objects)
  {
    if |data| < 4 {
      return Failure(ReqDataLenInvalid), [];
    }
    if |data| + 1 + MAX_NAME_SIZE > MAX_IPMI_BUFFER {
      return Failure(ReqDataLenExceeded), [];
    }
    var answer;
    answer, calls := CallDeviceName(root, FromLE(data[..4]), objects);
    assert answer.Value? ==> answer.value == (root + answer.value)[|root|..];
    assert answer == NameOf(root, objects, FromLE(data[..4]));
    if answer.Raised? {
      return Thrown(answer.cc), calls;
    }
    var name := answer.value;
    if |name| > MAX_NAME_SIZE {
      return Failure(ReqDataTruncated), calls;
    }
    if |data| + 1 + |name| + 1 > |data| + 1 + MAX_NAME_SIZE {
      return Undefined, calls;  // the terminator would land past the end of the reply
    }
    var replyBuf := ReplyAfter(data, [U8(|name|)] + name + [0], 1 + MAX_NAME_SIZE);
    out := Success(ACCEL_OOB_DEVICE_NAME, replyBuf);
    assert Zeros(MAX_NAME_SIZE - |name|) == [0] + Zeros(MAX_NAME_SIZE - |name| - 1);
    assert replyBuf == data + [|name|] + name + Zeros(MAX_NAME_SIZE - |name|);
  }

  method Read(root: Text, data: seq<byte>, reply: BusReply)
    returns (out: Outcome, calls: seq<BusCall>)
    ensures (out, calls) == ReadSpec(root, data, reply)
  {
    if data == [] {
      return Undefined, [];  // the name length is read before the size is looked at
    }
    var minimum, name, payload := ReadNameHeader(data, READ_PAYLOAD);
    if minimum != 0 {
      return Failure(ReqDataLenInvalid), [];
    }
    if |data| + 8 > MAX_IPMI_BUFFER {
      return Failure(ReqDataLenExceeded), [];
    }
    UptoEightBytesFit(data[payload + 1..payload + 9]);
    var address := FromLE(data[payload + 1..payload + 9]);
    var count := data[payload + 9];
    assert ParseRead(data) == Some(ReadRequest(name, data[payload], address, count));
    var answer;
    answer, calls := CallRead(root, name, address, count, reply);
    if answer.Raised? {
      return Thrown(answer.cc), calls;
    }
    if answer.Foreign? {
      return Escaped, calls;
    }
    var replyBuf := ReplyAfter(data, ToLE(answer.value, 8), 8);
    out := Success(ACCEL_OOB_READ, replyBuf);
    NumberToWire(reply.bytes[..count]);
    assert replyBuf == data + Reverse(reply.bytes[..count]) + Zeros(8 - count);
  }

  method Write(root: Text, data: seq<byte>, reply: BusReply)
    returns (out: Outcome, calls: seq<BusCall>)
    ensures (out, calls) == WriteSpec(root, data, reply)
  {
    if data == [] {
      return Undefined, [];
    }
    var minimum, name, payload := ReadNameHeader(data, WRITE_PAYLOAD);
    if minimum != 0 {
      return Failure(ReqDataLenInvalid), [];
    }
    if |data| + 1 > MAX_IPMI_BUFFER {
      return Failure(ReqDataLenExceeded), [];
    }
    UptoEightBytesFit(data[payload + 1..payload + 9]);
    UptoEightBytesFit(data[payload + 10..payload + 18]);
    var address := FromLE(data[payload + 1..payload + 9]);
    var count := data[payload + 9];
    var value := FromLE(data[payload + 10..payload + 18]);
    assert ParseWrite(data) == Some(WriteRequest(ReadRequest(name, data[payload], address, count), value));
    var answer;
    answer, calls := CallWrite(root, name, address, count, value, reply);
    if count <= 8 {
      SelectedIsEmitted(data);
    }
    if answer.Raised? {
      return Thrown(answer.cc), calls;
    }
    var replyBuf := ReplyAfter(data, [], 1);
    out := Success(ACCEL_OOB_WRITE, replyBuf);
    assert replyBuf == data + [0];
  }

  // ---------------------------------------------------------------------
  // What follows
  // ---------------------------------------------------------------------

  /** Reading a number off most significant first and storing it little-endian reverses its bytes. */
  lemma NumberToWire(bytes: seq<byte>)
    requires |bytes| <= 8
    ensures ToLE(FromBE(bytes), 8) == Reverse(bytes) + Zeros(8 - |bytes|)
  {
    BigEndianIsReversedLittleEndian(bytes);
    ToLEPads(Reverse(bytes), 8);
  }

  /** The mask and shift loop on the decoded number gives back the octets it was decoded from. */
  lemma SelectedIsEmitted(data: seq<byte>)
    requires data != [] && ParseWrite(data).Some? && ParseWrite(data).value.read.count <= 8
    ensures ToLE(ParseWrite(data).value.data, ParseWrite(data).value.read.count) == Selected(data)
  {
    var n: nat, k: nat := data[0], ParseWrite(data).value.read.count;
    ToLEOfFromLE(data[n + 11..n + 19], k);
    SliceOfSlice(data, n + 11, n + 19, k);
  }

  /** Folding the reversal of what a write emits gives the written bytes' number back. */
  lemma FoldInvertsReversedEmission(v: uint64, k: nat)
    ensures FromBE(Reverse(ToLE(v, k))) == v % Pow256(k)
  {
    BigEndianIsReversedLittleEndian(Reverse(ToLE(v, k)));
    assert Reverse(Reverse(ToLE(v, k))) == ToLE(v, k);
    FromLEOfToLE(v, k);
  }

  /** What a read makes of the bytes a write sent, were they echoed back. */
  function Echoed(v: nat, k: nat): nat { FromBE(ToLE(v, k)) }

  /** An echo swaps the k bytes, so echoing twice restores the number. */
  lemma EchoIsAByteSwap(v: nat, k: nat)
    ensures ToLE(Echoed(v, k), k) == Reverse(ToLE(v, k))
    ensures Echoed(Echoed(v, k), k) == v % Pow256(k)
    ensures v < Pow256(k) ==> Echoed(Echoed(v, k), k) == v
  {
    var bs := ToLE(v, k);
    BigEndianIsReversedLittleEndian(bs);
    ToLEOfFromLE(Reverse(bs), k);
    assert ToLE(Echoed(v, k), k) == Reverse(bs);
    BigEndianIsReversedLittleEndian(Reverse(bs));
    assert Reverse(Reverse(bs)) == bs;
    FromLEOfToLE(v, k);
    if v < Pow256(k) {
      DivisionIsUnique(v, Pow256(k), 0, v);
    }
  }

  /** How a DeviceCount request ends, in terms of its size and of what the service answers. */
  lemma CountReply(data: seq<byte>, objects: Objects)
    ensures var (out, calls) := DeviceCountSpec(data, objects);
            var asked := 1 <= |data| <= 60;
            && (out == Failure(ReqDataLenInvalid) <==> data == [])
            && (out == Failure(ReqDataLenExceeded) <==> |data| > 60)
            && (out == Thrown(UnspecifiedError) <==> asked && objects.Unreachable?)
            && (out.Success? <==> asked && objects.Paths?)
            && (out.Success? ==> out.cmd == 11 && |out.payload| == 4
                                 && FromLE(out.payload) == |objects.paths| % 0x1_0000_0000)
            && calls == if asked then [GetManagedObjects] else []
  {
    if objects.Paths? {
      FromLEOfToLE(|objects.paths|, 4);
      Pow256Four();
    }
  }

  /** The path a DeviceName request asks for, if there is one and it lies under the root. */
  predicate Names(root: Text, data: seq<byte>, objects: Objects, path: Text) {
    && |data| >= 4 && objects.Paths?
    && FromLE(data[..4]) < |objects.paths| && objects.paths[FromLE(data[..4])] == path && root <= path
  }

  /** How a DeviceName request ends when it does not come to a path under the root. */
  lemma NameRefused(root: Text, data: seq<byte>, objects: Objects)
    ensures var (out, calls) := DeviceNameSpec(root, data, objects);
            var asked := 4 <= |data| <= 19;
            && (out == Failure(ReqDataLenInvalid) <==> |data| < 4)
            && (out == Failure(ReqDataLenExceeded) <==> |data| > 19)
            && (out == Thrown(UnspecifiedError) <==> asked && objects.Unreachable?)
            && (out == Thrown(ParmOutOfRange) <==>
                  asked && objects.Paths? && FromLE(data[..4]) >= |objects.paths|)
            && (out == Thrown(InvalidCommand) <==>
                  asked && objects.Paths? && FromLE(data[..4]) < |objects.paths|
                  && !(root <= objects.paths[FromLE(data[..4])]))
            && calls == if asked then [GetManagedObjects] else []
  {
  }

  /** And when it does: by the length of the rest of the path, and with which octets. */
  lemma NameReply(root: Text, data: seq<byte>, objects: Objects, path: Text)
    requires 4 <= |data| <= 19 && Names(root, data, objects, path)
    ensures var (out, n) := (DeviceNameSpec(root, data, objects).0, |path| - |root|);
            && (out == Failure(ReqDataTruncated) <==> n > 44)
            && (out == Undefined <==> n == 44)
            && (out.Success? <==> n < 44)
            && (out.Success? ==>
                  && out.cmd == 12 && |out.payload| == |data| + 45
                  && out.payload[..|data|] == data && out.payload[|data|] == n
                  && root + out.payload[|data| + 1..|data| + 1 + n] == path
                  && forall i :: |data| + 1 + n <= i < |out.payload| ==> out.payload[i] == 0)
  {
    var out, name := DeviceNameSpec(root, data, objects).0, path[|root|..];
    if out.Success? {
      NameFields(data, name, Zeros(44 - |name|));
      assert out.payload == data + [|name|] + name + Zeros(44 - |name|);
    }
  }

  lemma NameFields(data: seq<byte>, name: Text, padding: seq<byte>)
    requires |name| < 256
    ensures var payload := data + [|name|] + name + padding;
            && payload[..|data|] == data && payload[|data|] == |name|
            && payload[|data| + 1..|data| + 1 + |name|] == name
            && payload[|data| + 1 + |name|..] == padding
  {
  }

  /** Bytes the service returns past the requested count never reach the host. */
  lemma ReadIgnoresExtraBytes(root: Text, data: seq<byte>, bytes: seq<byte>, more: seq<byte>)
    requires ReadSpec(root, data, Returned(bytes)).0.Success?
    requires |bytes + more| <= 8
    ensures ReadSpec(root, data, Returned(bytes + more)) == ReadSpec(root, data, Returned(bytes))
  {
    var k := ParseRead(data).value.count;
    assert (bytes + more)[..k] == bytes[..k];
  }

  /** A request that goes to the service: its name and count give its least length, the reply its greatest. */
  predicate Transfers(data: seq<byte>, payloadSize: nat, replySize: nat) {
    data != [] && 1 + data[0] + payloadSize <= |data| <= MAX_IPMI_BUFFER - replySize
  }

  /** How a Read request ends, in terms of the octets of the request and of what the service answers. */
  lemma ReadEnds(root: Text, data: seq<byte>, reply: BusReply)
    ensures var out := ReadSpec(root, data, reply).0;
            && (out == Undefined <==> data == [])
            && (out == Failure(ReqDataLenInvalid) <==> data != [] && |data| < data[0] as int + 11)
            && (out == Failure(ReqDataLenExceeded) <==> data != [] && |data| >= data[0] as int + 11 && |data| > 56)
    ensures Transfers(data, 10, 8) ==>
              var (out, count) := (ReadSpec(root, data, reply).0, data[data[0] as int + 10]);
              && (out == Escaped <==> reply.Unbuilt?)
              && (out == Thrown(UnspecifiedError) <==>
                    reply.Failed? || (reply.Returned? && |reply.bytes| < count))
              && (out == Thrown(ReqDataTruncated) <==>
                    reply.Returned? && |reply.bytes| >= count && |reply.bytes| > 8)
              && (out.Success? <==> reply.Returned? && count <= |reply.bytes| <= 8)
    ensures ReadSpec(root, data, reply).0.Success? ==> Transfers(data, 10, 8)
  {
  }

  /** Where the octets of a Read reply come from, one by one. */
  lemma ReadReply(root: Text, data: seq<byte>, reply: BusReply)
    requires ReadSpec(root, data, reply).0.Success?
    ensures var (out, count) := (ReadSpec(root, data, reply).0, data[data[0] as int + 10]);
            && out.cmd == 13 && |out.payload| == |data| + 8
            && out.payload[..|data|] == data
            && count <= 8
            && forall i :: |data| <= i < |data| + 8 ==>
                 out.payload[i] == if i - |data| < count then reply.bytes[count - 1 - (i - |data|)] else 0
  {
  }

  /** The one call a Read request makes, by the places of its octets. */
  lemma ReadCall(root: Text, data: seq<byte>, reply: BusReply)
    ensures var calls := ReadSpec(root, data, reply).1;
            if Transfers(data, 10, 8) && !reply.Unbuilt? then
              var n: nat := data[0];
              && |calls| == 1 && calls[0].BarRead?
              && calls[0].path == CStr(root + data[1..n + 1])
              && calls[0].address == FromLE(data[n + 2..n + 10])
              && calls[0].count == data[n + 10]
            else calls == []
  {
  }

  /** How a Write request ends, likewise. */
  lemma WriteEnds(root: Text, data: seq<byte>, reply: BusReply)
    ensures var out := WriteSpec(root, data, reply).0;
            && (out == Undefined <==> data == [])
            && (out == Failure(ReqDataLenInvalid) <==> data != [] && |data| < data[0] as int + 19)
            && (out == Failure(ReqDataLenExceeded) <==> data != [] && |data| >= data[0] as int + 19 && |data| > 63)
    ensures Transfers(data, 18, 1) ==>
              var (out, count) := (WriteSpec(root, data, reply).0, data[data[0] as int + 10]);
              && (out == Thrown(ParmOutOfRange) <==> count > 8)
              && (out == Thrown(UnspecifiedError) <==> count <= 8 && !reply.Returned?)
              && (out.Success? <==> count <= 8 && reply.Returned?)
    ensures WriteSpec(root, data, reply).0.Success? ==> Transfers(data, 18, 1)
  {
  }

  /** A Write reply is the request and then one zero octet. */
  lemma WriteReply(root: Text, data: seq<byte>, reply: BusReply)
    requires WriteSpec(root, data, reply).0.Success?
    ensures var out := WriteSpec(root, data, reply).0;
            && out.cmd == 14 && |out.payload| == |data| + 1
            && out.payload[..|data|] == data && out.payload[|data|] == 0
  {
  }

  /** The one call a Write request makes, by the places of its octets. */
  lemma WriteCall(root: Text, data: seq<byte>, reply: BusReply)
    ensures var calls := WriteSpec(root, data, reply).1;
            if Transfers(data, 18, 1) && data[data[0] as int + 10] <= 8 && !reply.Unbuilt? then
              var n: nat := data[0];
              && |calls| == 1 && calls[0].BarWrite?
              && calls[0].path == CStr(root + data[1..n + 1])
              && calls[0].address == FromLE(data[n + 2..n + 10])
              && calls[0].bytes == data[n + 11..n + 11 + data[n + 10]]
            else calls == []
  {
  }

  /** When a read succeeds, and that its last eight octets are the register's number. */
  lemma ReadSuccess(root: Text, data: seq<byte>, reply: BusReply)
    ensures var out := ReadSpec(root, data, reply).0;
            out.Success? <==>
            data != [] && ParseRead(data).Some? && |data| <= MAX_IPMI_BUFFER - 8
            && reply.Returned? && ParseRead(data).value.count <= |reply.bytes| <= 8
    ensures var out := ReadSpec(root, data, reply).0;
            out.Success? ==>
            && |out.payload| == |data| + 8
            && out.payload[..|data|] == data
            && FromLE(out.payload[|data|..]) == FromBE(reply.bytes[..ParseRead(data).value.count])
  {
    var out := ReadSpec(root, data, reply).0;
    if out.Success? {
      var bytes := reply.bytes[..ParseRead(data).value.count];
      NumberToWire(bytes);
      assert out.payload[|data|..] == ToLE(FromBE(bytes), 8);
      UptoEightBytesFit(bytes);
      RoundTrip64(FromBE(bytes));
    }
  }

  /** A written register, read back through a service that returns it most significant first. */
  lemma WriteThenRead(root: Text, w: WriteRequest, token: byte)
    requires w.read.count <= 8
    requires |EncodeWrite(w)| < MAX_IPMI_BUFFER
    requires |EncodeRead(w.read)| + 8 <= MAX_IPMI_BUFFER
    ensures var sent := WriteSpec(root, EncodeWrite(w), Returned([]));
            sent.1 == [BarWrite(CStr(root + w.read.name), w.read.address, ToLE(w.data, w.read.count))]
    ensures var stored := WriteSpec(root, EncodeWrite(w), Returned([])).1[0].bytes;
            var back := ReadSpec(root, EncodeRead(w.read.(token := token)), Returned(Reverse(stored))).0;
            back.Success? && FromLE(back.payload[|back.payload| - 8..]) == w.data % Pow256(w.read.count)
  {
    var k := w.read.count;
    WriteFields(root, w);
    var stored := ToLE(w.data, k);
    var r := w.read.(token := token);
    ReadFields(root, r);
    ReadSuccess(root, EncodeRead(r), Returned(Reverse(stored)));
    assert Reverse(stored)[..k] == Reverse(stored);
    FoldInvertsReversedEmission(w.data, k);
  }

  /** The D-Bus call a well-formed write makes, by field instead of by offset. */
  lemma WriteFields(root: Text, w: WriteRequest)
    requires |EncodeWrite(w)| < MAX_IPMI_BUFFER
    ensures forall reply: BusReply ::
              WriteSpec(root, EncodeWrite(w), reply).1 ==
              if reply.Unbuilt? || w.read.count > 8 then []
              else [BarWrite(CStr(root + w.read.name), w.read.address, ToLE(w.data, w.read.count))]
  {
    assert EncodeWrite(w) + [] == EncodeWrite(w);
    WriteRoundTrip(w, []);
    if w.read.count <= 8 {
      SelectedIsEmitted(EncodeWrite(w));
    }
  }

  lemma ReadFields(root: Text, r: ReadRequest)
    requires |EncodeRead(r)| + 8 <= MAX_IPMI_BUFFER
    ensures ParseRead(EncodeRead(r)) == Some(r)
    ensures forall reply: BusReply ::
              ReadSpec(root, EncodeRead(r), reply).1 ==
              if reply.Unbuilt? then [] else [BarRead(CStr(root + r.name), r.address, r.count)]
  {
    assert EncodeRead(r) + [] == EncodeRead(r);
    ReadRoundTrip(r, []);
  }

  /** The name in a DeviceName reply to a four-octet request. */
  function ReplyName(payload: seq<byte>): Text
    requires |payload| > 4 && |payload| - 5 >= payload[4]
  {
    payload[5..][..payload[4]]
  }

  lemma IndexRoundTrip(index: nat)
    requires index < 0x1_0000_0000
    ensures FromLE(ToLE(index, 4)[..4]) == index
  {
    FromLEOfToLE(index, 4);
    Pow256Four();
    assert ToLE(index, 4)[..4] == ToLE(index, 4);
  }

  /** A DeviceName request for a path under the root is answered with the rest of the path. */
  lemma DeviceNameReply(root: Text, paths: seq<Text>, index: nat)
    requires index < |paths| && index < 0x1_0000_0000
    requires root <= paths[index] && |paths[index]| - |root| < MAX_NAME_SIZE
    ensures var out := DeviceNameSpec(root, ToLE(index, 4), Paths(paths)).0;
            && out.Success? && |out.payload| > 4 && |out.payload| - 5 >= out.payload[4]
            && out.payload[..4] == ToLE(index, 4)
            && root + ReplyName(out.payload) == paths[index]
            && |ReplyName(out.payload)| < MAX_NAME_SIZE
  {
    var request := ToLE(index, 4);
    IndexRoundTrip(index);
    var name := paths[index][|root|..];
    var payload := DeviceNameSpec(root, request, Paths(paths)).0.payload;
    assert payload == request + [|name|] + name + Zeros(MAX_NAME_SIZE - |name|);
    Middle(request + [|name|], name, Zeros(MAX_NAME_SIZE - |name|));
    assert ReplyName(payload) == payload[5..5 + |name|];
  }

  /** Every call made with a name that came off a path goes to that path. */
  lemma NameReaches(root: Text, path: Text, r: ReadRequest, value: uint64)
    requires root + r.name == path && 0 !in path && |r.name| < MAX_NAME_SIZE
    ensures forall reply: BusReply :: !reply.Unbuilt? ==>
              && ReadSpec(root, EncodeRead(r), reply).1 == [BarRead(path, r.address, r.count)]
              && WriteSpec(root, EncodeWrite(WriteRequest(r, value)), reply).1
                 == if r.count > 8 then [] else [BarWrite(path, r.address, ToLE(value, r.count))]
  {
    ReadFields(root, r);
    WriteFields(root, WriteRequest(r, value));
  }

  /**
   A device named by its index can be read and written: the reported name fits
   both requests, and both calls reach exactly the object the index stood for.
   */
  lemma NamedDeviceIsReachable(root: Text, paths: seq<Text>, index: nat, token: byte, address: uint64,
                               count: byte, value: uint64)
    requires index < |paths| && index < 0x1_0000_0000
    requires root <= paths[index] && 0 !in paths[index]
    requires |paths[index]| - |root| < MAX_NAME_SIZE
    ensures var out := DeviceNameSpec(root, ToLE(index, 4), Paths(paths)).0;
            && out.Success? && |out.payload| > 4 && |out.payload| - 5 >= out.payload[4]
            && |ReplyName(out.payload)| < MAX_NAME_SIZE
            && var r := ReadRequest(ReplyName(out.payload), token, address, count);
               forall reply: BusReply :: !reply.Unbuilt? ==>
                 && ReadSpec(root, EncodeRead(r), reply).1 == [BarRead(paths[index], address, count)]
                 && WriteSpec(root, EncodeWrite(WriteRequest(r, value)), reply).1
                    == if count > 8 then [] else [BarWrite(paths[index], address, ToLE(value, count))]
  {
    DeviceNameReply(root, paths, index);
    var name := ReplyName(DeviceNameSpec(root, ToLE(index, 4), Paths(paths)).0.payload);
    NameReaches(root, paths[index], ReadRequest(name, token, address, count), value);
  }

  /**
   The exact name lengths each command copes with. A DeviceName reply is well
   defined up to 43 octets although the program's own check admits 44.
   */
  lemma NameLengthLimits(root: Text, name: ShortText, token: byte, address: uint64, count: byte, value: uint64,
                         data: seq<byte>)
    requires 4 <= |data| && |data| + 1 + MAX_NAME_SIZE <= MAX_IPMI_BUFFER
    ensures var r := ReadRequest(name, token, address, count);
            && (ReadSpec(root, EncodeRead(r), Unbuilt).0 == Failure(ReqDataLenExceeded) <==> |name| > 45)
            && (WriteSpec(root, EncodeWrite(WriteRequest(r, value)), Unbuilt).0 == Failure(ReqDataLenExceeded)
                <==> |name| > 44)
    ensures var named := Paths(seq(FromLE(data[..4]) + 1, _ => root + name));
            var out := DeviceNameSpec(root, data, named).0;
            && (out.Success? <==> |name| <= 43)
            && (out == Undefined <==> |name| == 44)
            && (out == Failure(ReqDataTruncated) <==> |name| > 44)
  {
    var r := ReadRequest(name, token, address, count);
    assert EncodeRead(r)[0] == |name| && EncodeWrite(WriteRequest(r, value))[0] == |name|;
    var index := FromLE(data[..4]);
    var paths := seq(index + 1, _ => root + name);
    assert paths[index] == root + name;
    assert NameOf(root, Paths(paths), index) == Value(name);
  }
}
