/**
 The variable-length request of the accelerator Read and Write commands:
 a name-length octet, the name, then a packed payload.
 */
module AccelCodec {
  import opened Bytes
  import opened Ipmi

  /** token, address(8), num_bytes */
  const READ_PAYLOAD: nat := 10
  /** token, address(8), num_bytes, data(8) */
  const WRITE_PAYLOAD: nat := 18

  type ShortText = t: Text | |t| < 256

  datatype ReadRequest = ReadRequest(name: ShortText, token: byte, address: uint64, count: byte)

  datatype WriteRequest = WriteRequest(read: ReadRequest, data: uint64)

  /** Octets a buffer needs, given its first one. */
  function MinimumSize(first: byte, payloadSize: nat): nat { 1 + payloadSize + first }

  function EncodeRead(r: ReadRequest): (buf: seq<byte>)
    ensures |buf| == MinimumSize(|r.name|, READ_PAYLOAD)
  {
    [|r.name|] + r.name + [r.token] + ToLE(r.address, 8) + [r.count]
  }

  function EncodeWrite(w: WriteRequest): (buf: seq<byte>)
    ensures |buf| == MinimumSize(|w.read.name|, WRITE_PAYLOAD)
  {
    EncodeRead(w.read) + ToLE(w.data, 8)
  }

  /** The fields at the places the packed structs put them. */
  function ParseRead(buf: seq<byte>): Option<ReadRequest>
    requires buf != []
  {
    var n := buf[0];
    if |buf| < MinimumSize(n, READ_PAYLOAD) then None
    else
      UptoEightBytesFit(buf[n + 2..n + 10]);
      Some(ReadRequest(buf[1..n + 1], buf[n + 1], FromLE(buf[n + 2..n + 10]), buf[n + 10]))
  }

  function ParseWrite(buf: seq<byte>): Option<WriteRequest>
    requires buf != []
  {
    var n := buf[0];
    if |buf| < MinimumSize(n, WRITE_PAYLOAD) then None
    else
      UptoEightBytesFit(buf[n + 11..n + 19]);
      Some(WriteRequest(ParseRead(buf).value, FromLE(buf[n + 11..n + 19])))
  }

  /**
   Splits a request into its name and the offset of its payload. A minimum of 0
   means the payload lies wholly inside the buffer; otherwise it is the exact
   length the buffer would have needed.
   */
  method ReadNameHeader(buf: seq<byte>, payloadSize: nat)
    returns (minimum: nat, name: Text, payload: nat)
    requires buf != []
    ensures minimum == 0 <==> |buf| >= 1 + payloadSize + buf[0]
    ensures minimum == 0 ==> name == buf[1..1 + buf[0]]
    ensures minimum == 0 ==> payload == 1 + |name| && payload + payloadSize <= |buf|
    ensures minimum != 0 ==> minimum == 1 + payloadSize + buf[0] > |buf|
  {
    name, payload := [], 0;
    var minDataLen := 1 + payloadSize + buf[0];
    if |buf| < minDataLen {
      return minDataLen, name, payload;
    }
    name := buf[1..1 + buf[0]];
    payload := 1 + |name|;
    return 0, name, payload;
  }

  lemma RoundTrip64(v: uint64)
    ensures FromLE(ToLE(v, 8)) == v
  {
    FromLEOfToLE(v, 8);
    Pow256Eight();
  }

  lemma Middle(before: seq<byte>, field: seq<byte>, after: seq<byte>)
    ensures (before + field + after)[|before|..|before| + |field|] == field
  {
  }

  /** Where an encoding, followed by anything, keeps its fields. */
  lemma ReadLayout(r: ReadRequest, trailing: seq<byte>)
    ensures var buf, n := EncodeRead(r) + trailing, |r.name|;
            && buf[0] == n && buf[1..n + 1] == r.name && buf[n + 1] == r.token
            && buf[n + 2..n + 10] == ToLE(r.address, 8) && buf[n + 10] == r.count
  {
    var buf := EncodeRead(r) + trailing;
    assert buf == [|r.name|] + r.name + ([r.token] + ToLE(r.address, 8) + [r.count] + trailing);
    Middle([|r.name|], r.name, [r.token] + ToLE(r.address, 8) + [r.count] + trailing);
    var head := [|r.name|] + r.name + [r.token];
    assert buf == head + ToLE(r.address, 8) + ([r.count] + trailing);
    Middle(head, ToLE(r.address, 8), [r.count] + trailing);
  }

  lemma WriteLayout(w: WriteRequest, trailing: seq<byte>)
    ensures var buf, n := EncodeWrite(w) + trailing, |w.read.name|;
            && buf == EncodeRead(w.read) + (ToLE(w.data, 8) + trailing)
            && buf[n + 11..n + 19] == ToLE(w.data, 8)
  {
    assert EncodeWrite(w) + trailing == EncodeRead(w.read) + (ToLE(w.data, 8) + trailing);
    Middle(EncodeRead(w.read), ToLE(w.data, 8), trailing);
  }

  /** Parsing an encoding gives the fields back, whatever follows it. */
  lemma ReadRoundTrip(r: ReadRequest, trailing: seq<byte>)
    ensures ParseRead(EncodeRead(r) + trailing) == Some(r)
  {
    ReadLayout(r, trailing);
    RoundTrip64(r.address);
  }

  lemma WriteRoundTrip(w: WriteRequest, trailing: seq<byte>)
    ensures ParseWrite(EncodeWrite(w) + trailing) == Some(w)
  {
    WriteLayout(w, trailing);
    ReadLayout(w.read, ToLE(w.data, 8) + trailing);
    ReadRoundTrip(w.read, ToLE(w.data, 8) + trailing);
    RoundTrip64(w.data);
  }

  /** A buffer up to position d, in pieces. */
  lemma Pieces(buf: seq<byte>, a: nat, b: nat, c: nat, d: nat)
    requires a <= b <= c <= d <= |buf|
    ensures buf[..d] == buf[..a] + buf[a..b] + buf[b..c] + buf[c..d]
  {
  }

  lemma OneMore(buf: seq<byte>, i: nat)
    requires i < |buf|
    ensures buf[..i + 1] == buf[..i] + [buf[i]] && buf[i..i + 1] == [buf[i]]
  {
  }

  lemma TakeAll(s: seq<byte>)
    ensures s[..|s|] == s
  {
  }

  /** The octets a Read request is parsed from, field by field. */
  lemma ReadPieces(buf: seq<byte>, n: nat)
    requires n + 11 <= |buf|
    ensures buf[..n + 11] == [buf[0]] + buf[1..n + 1] + [buf[n + 1]] + buf[n + 2..n + 10] + [buf[n + 10]]
  {
    OneMore(buf, 0);
    OneMore(buf, n + 1);
    OneMore(buf, n + 10);
    Pieces(buf, 1, n + 1, n + 2, n + 10);
    assert buf[..0] == [];
  }

  /** Whatever parses is an encoding of what it parses to, followed by unread octets. */
  lemma ReadIsCanonical(buf: seq<byte>)
    requires buf != [] && ParseRead(buf).Some?
    ensures EncodeRead(ParseRead(buf).value) <= buf
  {
    var n: nat := buf[0];
    assert EncodeRead(ParseRead(buf).value) == buf[..n + 11] by {
      ToLEOfFromLE(buf[n + 2..n + 10], 8);
      TakeAll(buf[n + 2..n + 10]);
      ReadPieces(buf, n);
    }
  }

  lemma WriteIsCanonical(buf: seq<byte>)
    requires buf != [] && ParseWrite(buf).Some?
    ensures EncodeWrite(ParseWrite(buf).value) <= buf
  {
    var n := buf[0];
    ReadIsCanonical(buf);
    ToLEOfFromLE(buf[n + 11..n + 19], 8);
    assert buf[..n + 19] == EncodeWrite(ParseWrite(buf).value);
  }

  /** No two requests share an encoding, nor is one the start of another. */
  lemma ReadEncodingIsPrefixFree(a: ReadRequest, b: ReadRequest, t: seq<byte>, u: seq<byte>)
    requires EncodeRead(a) + t == EncodeRead(b) + u
    ensures a == b && t == u
  {
    ReadRoundTrip(a, t);
    ReadRoundTrip(b, u);
    assert t == (EncodeRead(a) + t)[|EncodeRead(a)|..];
    assert u == (EncodeRead(b) + u)[|EncodeRead(b)|..];
  }

  lemma WriteEncodingIsPrefixFree(a: WriteRequest, b: WriteRequest, t: seq<byte>, u: seq<byte>)
    requires EncodeWrite(a) + t == EncodeWrite(b) + u
    ensures a == b && t == u
  {
    WriteRoundTrip(a, t);
    WriteRoundTrip(b, u);
    assert t == (EncodeWrite(a) + t)[|EncodeWrite(a)|..];
    assert u == (EncodeWrite(b) + u)[|EncodeWrite(b)|..];
  }

  /** A request cut short anywhere is refused. */
  lemma CutRequestsAreRefused(w: WriteRequest, j: nat)
    requires 0 < j
    ensures j < |EncodeRead(w.read)| ==> ParseRead(EncodeRead(w.read)[..j]) == None
    ensures j < |EncodeWrite(w)| ==> ParseWrite(EncodeWrite(w)[..j]) == None
  {
    assert EncodeRead(w.read)[0] == |w.read.name|;
  }
}
