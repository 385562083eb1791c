/**
 The TMP frame and AppV2 message codecs, as functions over octet strings.
 Reading is described by what it makes of the octets still to come: a result and the
 octets left over. `ending` is what the stream does once those run out.
 */
module TmpWire {
  import opened Bytes
  import opened Crc32

  const ASSOCIATE_REQUEST: byte := 1
  const ASSOCIATE_ACCEPT: byte := 2
  const ASSOCIATE_REFUSE: byte := 3
  const HELLO: byte := 4
  const DATA: byte := 5
  const BYE: byte := 6

  const CRC_PLACEHOLDER: nat := 0x5A6B_7C8D
  const MAX_RESPONSE_SIZE: nat := 16 * 1024 * 1024

  datatype Failure =
    | UnexpectedEof
    | TransportLost
    | OversizedFrame
    | ChecksumMismatch
    | TransferError(code: byte)
    | ControlPayload
    | FieldOverflow
    | Refused(reason: byte)
    | TruncatedMessage
    | UnsupportedBusiness
    | AppError(error: nat)
    | OversizedResponse
    | MetadataChanged
    | ChunkTooLong
    | ConflictingChunk
    | ResponseMismatch
    | TimedOut
    | OpcodeRange
    | OversizedRequest
    | NotReady
    | UnknownOpcode
    | WrongClass

  datatype Result<+T> = Ok(value: T) | Err(failure: Failure)

  datatype Parse<+T> = Parse(result: Result<T>, rest: bytes)

  // ----- frames

  datatype Frame = Frame(
    mainVersion: byte, secondaryVersion: byte, control: byte, reason: byte,
    transferFlag: byte, transferError: byte, serial: nat, checksum: nat, payload: bytes)

  function General(f: Frame): (b: bytes)
    ensures |b| == 4
  {
    [f.mainVersion, f.secondaryVersion, f.control, f.reason]
  }

  /** The transfer header carrying `checksum` in its last field. */
  function Transfer(f: Frame, checksum: nat): (b: bytes)
    requires |f.payload| < U16 && f.serial < U32 && checksum < U32
    ensures |b| == 12
  {
    Pack16(|f.payload|) + [f.transferFlag, f.transferError] + Pack32(f.serial) + Pack32(checksum)
  }

  /** What the checksum of a data frame covers. */
  function Covered(f: Frame): bytes
    requires |f.payload| < U16 && f.serial < U32
  {
    General(f) + Transfer(f, CRC_PLACEHOLDER) + f.payload
  }

  /** `_pack_frame`; the random serial is the frame's own, its checksum field is computed. */
  function PackFrame(f: Frame): Result<bytes> {
    if f.control != DATA then
      if f.payload != [] then Err(ControlPayload) else Ok(General(f))
    else if |f.payload| >= U16 || f.serial >= U32 then
      Err(FieldOverflow)
    else
      Ok(General(f) + Transfer(f, Checksum(Covered(f))) + f.payload)
  }

  /** `_read_exact` on the octets `s`. */
  function Take(s: bytes, n: nat, ending: Failure): (p: Parse<bytes>)
  {
    if |s| < n then Parse(Err(ending), []) else Parse(Ok(s[..n]), s[n..])
  }

  /** `_read_frame`. */
  function ParseFrame(s: bytes, ending: Failure): (p: Parse<Frame>)
    ensures p.result.Ok? ==> |s| >= 4 && p.result.value.control == s[2]
  {
    var general := Take(s, 4, ending);
    if general.result.Err? then
      Parse(Err(general.result.failure), general.rest)
    else
      var g := general.result.value;
      if g[2] != DATA then
        Parse(Ok(Frame(g[0], g[1], g[2], g[3], 0, 0, 0, 0, [])), general.rest)
      else
        var transfer := Take(general.rest, 12, ending);
        if transfer.result.Err? then
          Parse(Err(transfer.result.failure), transfer.rest)
        else
          ParsePayload(g, transfer.result.value, transfer.rest, ending)
  }

  /** The rest of `_read_frame`, after both headers of a data frame. */
  function ParsePayload(g: bytes, t: bytes, s: bytes, ending: Failure): (p: Parse<Frame>)
    requires |g| == 4 && |t| == 12
    ensures p.result.Ok? ==> p.result.value.control == g[2]
  {
    var size := Unpack16(t[..2]);
    if size > MAX_RESPONSE_SIZE then
      Parse(Err(OversizedFrame), s)
    else
      var payload := Take(s, size, ending);
      if payload.result.Err? then
        Parse(Err(payload.result.failure), payload.rest)
      else
        Parse(CheckFrame(g, t, payload.result.value), payload.rest)
  }

  function CheckFrame(g: bytes, t: bytes, payload: bytes): (r: Result<Frame>)
    requires |g| == 4 && |t| == 12
    ensures r.Ok? ==> r.value.control == g[2]
  {
    var received := Unpack32(t[8..]);
    var calculated := Checksum(g + (t[..8] + Pack32(CRC_PLACEHOLDER)) + payload);
    if calculated != received then
      Err(ChecksumMismatch)
    else if t[3] != 0 then
      Err(TransferError(t[3]))
    else
      Ok(Frame(g[0], g[1], g[2], g[3], t[2], t[3], Unpack32(t[4..8]), received, payload))
  }

  // ----- messages

  datatype Message = Message(
    opcode: nat, flag: nat, error: nat, transaction: nat,
    checksum: nat, total: nat, offset: nat, chunk: bytes)

  /** Every field fits the AppV2 header and the chunk fits one frame. */
  predicate Fits(m: Message) {
    && m.opcode < U16 && m.flag < 0x100 && m.error < 0x100 && m.transaction < U16
    && m.checksum < U32 && m.total < U32 && m.offset < U32
    && 20 + |m.chunk| < U16
  }

  /** The business header and the AppV2 header. */
  function MessageHeader(m: Message): (b: bytes)
    requires Fits(m)
    ensures |b| == 20
  {
    [1, 2] + Pack16(m.opcode) + [m.flag, m.error] + Pack16(m.transaction)
    + Pack32(m.checksum) + Pack32(m.total) + Pack32(m.offset)
  }

  function DataFrame(payload: bytes, serial: nat): Frame {
    Frame(1, 1, DATA, 0, 0, 0, serial, 0, payload)
  }

  /** `_pack_message` under the serial drawn for it. */
  function PackMessage(m: Message, serial: nat): Result<bytes> {
    if !Fits(m) then Err(FieldOverflow) else PackFrame(DataFrame(MessageHeader(m) + m.chunk, serial))
  }

  /** What `_read_message` reports: a control frame other than a refusal is silent. */
  datatype Inbound = Silent | Got(message: Message)

  function ParseMessage(s: bytes, ending: Failure): Parse<Inbound> {
    var frame := ParseFrame(s, ending);
    match frame.result
    case Err(failure) => Parse(Err(failure), frame.rest)
    case Ok(f) => Parse(Interpret(f), frame.rest)
  }

  function Interpret(f: Frame): Result<Inbound> {
    if f.control != DATA then
      if f.control == ASSOCIATE_REFUSE then Err(Refused(f.reason)) else Ok(Silent)
    else if |f.payload| < 20 then
      Err(TruncatedMessage)
    else if f.payload[..2] != [1, 2] then
      Err(UnsupportedBusiness)
    else
      var p := f.payload;
      Ok(Got(Message(Unpack16(p[2..4]), p[4], p[5], Unpack16(p[6..8]),
                     Unpack32(p[8..12]), Unpack32(p[12..16]), Unpack32(p[16..20]), p[20..])))
  }

  // ----- frames: the codecs are inverse

  /** A frame as it is read back: its checksum field holds what was computed. */
  function Sealed(f: Frame): Frame
    requires f.control == DATA ==> |f.payload| < U16 && f.serial < U32
  {
    if f.control == DATA then f.(checksum := Checksum(Covered(f)))
    else Frame(f.mainVersion, f.secondaryVersion, f.control, f.reason, 0, 0, 0, 0, [])
  }

  lemma TransferFields(f: Frame, checksum: nat)
    requires |f.payload| < U16 && f.serial < U32 && checksum < U32
    ensures var t := Transfer(f, checksum);
            && t[..2] == Pack16(|f.payload|) && t[2] == f.transferFlag && t[3] == f.transferError
            && t[4..8] == Pack32(f.serial) && t[8..] == Pack32(checksum)
            && t[..8] + Pack32(CRC_PLACEHOLDER) == Transfer(f, CRC_PLACEHOLDER)
  {}

  /** How the octets of a data frame fall apart again. */
  lemma ParseDataFrame(g: bytes, t: bytes, body: bytes, rest: bytes, ending: Failure)
    requires |g| == 4 && g[2] == DATA && |t| == 12 && Unpack16(t[..2]) == |body|
    ensures ParseFrame(g + t + body + rest, ending) == Parse(CheckFrame(g, t, body), rest)
  {
    hide Checksum, CheckFrame, Unpack16;
    var s := g + t + body + rest;
    assert s[..4] == g && s[4..] == t + body + rest;
    assert s[4..][..12] == t && s[4..][12..] == body + rest;
    assert (body + rest)[..|body|] == body && (body + rest)[|body|..] == rest;
  }

  lemma CheckSealed(f: Frame)
    requires f.control == DATA && |f.payload| < U16 && f.serial < U32
    ensures CheckFrame(General(f), Transfer(f, Checksum(Covered(f))), f.payload)
         == (if f.transferError != 0 then Err(TransferError(f.transferError)) else Ok(Sealed(f)))
  {
    hide Checksum, Pack32, Unpack32;
    var sum := Checksum(Covered(f));
    TransferFields(f, sum);
    UnpackPack32(f.serial);
    UnpackPack32(sum);
  }

  /** Reading a packed frame followed by anything gives the frame back and leaves exactly the rest. */
  lemma PackThenParse(f: Frame, rest: bytes, ending: Failure)
    requires PackFrame(f).Ok?
    ensures var p := ParseFrame(PackFrame(f).value + rest, ending);
            && p.rest == rest
            && p.result == (if f.control == DATA && f.transferError != 0
                            then Err(TransferError(f.transferError)) else Ok(Sealed(f)))
  {
    hide Checksum, Pack32, Unpack32;
    if f.control == DATA {
      var t := Transfer(f, Checksum(Covered(f)));
      TransferFields(f, Checksum(Covered(f)));
      UnpackPack16(|f.payload|);
      ParseDataFrame(General(f), t, f.payload, rest, ending);
      CheckSealed(f);
    } else {
      var s := PackFrame(f).value + rest;
      assert s[..4] == General(f) && s[4..] == rest;
    }
  }

  lemma AcceptedIsLongEnough(s: bytes, ending: Failure)
    requires ParseFrame(s, ending).result.Ok? && ParseFrame(s, ending).result.value.control == DATA
    ensures |s| >= 16 && s[2] == DATA && |s| >= 16 + Unpack16(s[4..][..12][..2])
  {
    hide Checksum, CheckFrame, Unpack16;
  }

  /** What an accepted data frame was read from. */
  lemma AcceptedDataFrame(s: bytes, ending: Failure) returns (g: bytes, t: bytes, body: bytes, rest: bytes)
    requires ParseFrame(s, ending).result.Ok? && ParseFrame(s, ending).result.value.control == DATA
    ensures |g| == 4 && g[2] == DATA && |t| == 12 && |body| == Unpack16(t[..2])
    ensures s == g + t + body + rest
    ensures ParseFrame(s, ending) == Parse(CheckFrame(g, t, body), rest)
  {
    hide Checksum, CheckFrame, Unpack16;
    AcceptedIsLongEnough(s, ending);
    var size := Unpack16(s[4..][..12][..2]);
    g, t, body, rest := s[..4], s[4..][..12], s[16..16 + size], s[16 + size..];
    assert s == g + t + body + rest;
    ParseDataFrame(g, t, body, rest, ending);
  }

  lemma TransferRebuilt(t: bytes)
    requires |t| == 12
    ensures t == Pack16(Unpack16(t[..2])) + [t[2], t[3]] + Pack32(Unpack32(t[4..8])) + Pack32(Unpack32(t[8..]))
  {
    PackUnpack16(t[..2]);
    PackUnpack32(t[4..8]);
    PackUnpack32(t[8..]);
  }

  lemma CheckedIsSealed(g: bytes, t: bytes, payload: bytes)
    requires |g| == 4 && |t| == 12 && g[2] == DATA && Unpack16(t[..2]) == |payload|
    requires CheckFrame(g, t, payload).Ok?
    ensures var f := CheckFrame(g, t, payload).value;
            && |f.payload| < U16 && f.serial < U32
            && General(f) == g && f.payload == payload && f.transferError == 0
            && f.control == DATA && f.checksum == Checksum(Covered(f)) && Transfer(f, f.checksum) == t
  {
    hide Checksum, Pack32, Unpack32;
    var f := CheckFrame(g, t, payload).value;
    assert General(f) == g;
    assert Transfer(f, f.checksum) == t by {
      TransferRebuilt(t);
    }
    assert Covered(f) == g + (t[..8] + Pack32(CRC_PLACEHOLDER)) + payload by {
      TransferFields(f, f.checksum);
    }
  }

  lemma PackSealed(f: Frame)
    requires f.control == DATA && |f.payload| < U16 && f.serial < U32 && f.checksum == Checksum(Covered(f))
    ensures PackFrame(f) == Ok(General(f) + Transfer(f, f.checksum) + f.payload)
    ensures f == Sealed(f)
  {
    hide Checksum, Pack32, Unpack32;
  }

  /** Packing an accepted frame again, with its serial, gives back the octets it was read from. */
  lemma ParseThenPack(s: bytes, ending: Failure)
    requires ParseFrame(s, ending).result.Ok?
    ensures var p := ParseFrame(s, ending);
            && PackFrame(p.result.value).Ok?
            && s == PackFrame(p.result.value).value + p.rest
            && p.result.value == Sealed(p.result.value)
            && p.result.value.transferError == 0
  {
    hide Checksum, Pack32, Unpack32;
    var f := ParseFrame(s, ending).result.value;
    if f.control == DATA {
      var g, t, body, rest := AcceptedDataFrame(s, ending);
      CheckedIsSealed(g, t, body);
      PackSealed(f);
    } else {
      ControlThenPack(s, ending);
    }
  }

  lemma ControlThenPack(s: bytes, ending: Failure)
    requires ParseFrame(s, ending).result.Ok? && ParseFrame(s, ending).result.value.control != DATA
    ensures var p := ParseFrame(s, ending);
            && s == General(p.result.value) + p.rest
            && p.result.value == Sealed(p.result.value)
            && p.result.value.payload == [] && p.result.value.transferError == 0
  {
    var g := s[..4];
    assert g[2] == s[2] != DATA;
    assert s == g + s[4..];
  }

  /** The limit on the length field is never exceeded, so no octets lead to that failure. */
  lemma NeverOversized(s: bytes, ending: Failure)
    requires ending != OversizedFrame
    ensures ParseFrame(s, ending).result != Err(OversizedFrame)
  {
    hide Checksum, Pack32;
  }

  // ----- sequences of frames

  /** Reads up to `n` frames, stopping at the first failure. */
  function ParseFrames(s: bytes, ending: Failure, n: nat): (Result<seq<Frame>>, bytes) {
    if n == 0 then (Ok([]), s)
    else
      var p := ParseFrame(s, ending);
      match p.result
      case Err(failure) => (Err(failure), p.rest)
      case Ok(f) =>
        var (tail, rest) := ParseFrames(p.rest, ending, n - 1);
        (match tail case Err(failure) => Err(failure) case Ok(fs) => Ok([f] + fs), rest)
  }

  predicate Packable(f: Frame) {
    PackFrame(f).Ok? && f.transferError == 0
  }

  function PackFrames(fs: seq<Frame>): bytes
    requires forall i :: 0 <= i < |fs| ==> Packable(fs[i])
  {
    if fs == [] then [] else
      assert Packable(fs[0]);
      PackFrame(fs[0]).value + PackFrames(fs[1..])
  }

  function SealAll(fs: seq<Frame>): (r: seq<Frame>)
    requires forall i :: 0 <= i < |fs| ==> Packable(fs[i])
  {
    if fs == [] then [] else
      assert Packable(fs[0]);
      [Sealed(fs[0])] + SealAll(fs[1..])
  }

  /** A concatenation of frames decodes to the same frames and leaves what follows them. */
  lemma {:induction false} FramesRoundTrip(fs: seq<Frame>, rest: bytes, ending: Failure)
    requires forall i :: 0 <= i < |fs| ==> Packable(fs[i])
    ensures ParseFrames(PackFrames(fs) + rest, ending, |fs|) == (Ok(SealAll(fs)), rest)
  {
    hide PackFrame, ParseFrame, Sealed;
    if fs == [] {
      assert PackFrames(fs) + rest == rest;
    } else {
      assert Packable(fs[0]);
      var tail := PackFrames(fs[1..]) + rest;
      assert PackFrames(fs) + rest == PackFrame(fs[0]).value + tail;
      PackThenParse(fs[0], tail, ending);
      FramesRoundTrip(fs[1..], rest, ending);
    }
  }

  // ----- messages: the codecs are inverse

  lemma HeaderFields(m: Message)
    requires Fits(m)
    ensures var p := MessageHeader(m) + m.chunk;
            && p[..2] == [1, 2] && p[2..4] == Pack16(m.opcode) && p[4] == m.flag && p[5] == m.error
            && p[6..8] == Pack16(m.transaction) && p[8..12] == Pack32(m.checksum)
            && p[12..16] == Pack32(m.total) && p[16..20] == Pack32(m.offset) && p[20..] == m.chunk
  {}

  /** A packed message is read back as it was, whatever follows it. */
  lemma MessageRoundTrip(m: Message, serial: nat, rest: bytes, ending: Failure)
    requires Fits(m) && serial < U32
    ensures PackMessage(m, serial).Ok?
    ensures ParseMessage(PackMessage(m, serial).value + rest, ending) == Parse(Ok(Got(m)), rest)
  {
    var f := DataFrame(MessageHeader(m) + m.chunk, serial);
    PackThenParse(f, rest, ending);
    HeaderFields(m);
    UnpackPack16(m.opcode);
    UnpackPack16(m.transaction);
    UnpackPack32(m.checksum);
    UnpackPack32(m.total);
    UnpackPack32(m.offset);
  }

  /** The message read from a frame packs to exactly that frame's payload. */
  lemma InterpretThenPack(f: Frame)
    requires f.control == DATA && |f.payload| < U16
    requires Interpret(f).Ok?
    ensures Interpret(f).value.Got?
    ensures var m := Interpret(f).value.message;
            Fits(m) && MessageHeader(m) + m.chunk == f.payload
  {
    var p := f.payload;
    PackUnpack16(p[2..4]);
    PackUnpack16(p[6..8]);
    PackUnpack32(p[8..12]);
    PackUnpack32(p[12..16]);
    PackUnpack32(p[16..20]);
    assert p == p[..2] + p[2..4] + [p[4], p[5]] + p[6..8] + p[8..12] + p[12..16] + p[16..20] + p[20..];
  }

  // ----- corruption

  /** `s` and `t` differ, and only inside the window of `k` octets at `i`. */
  predicate DifferWithin(s: bytes, t: bytes, i: nat, k: nat) {
    |s| == |t| && i + k <= |s| && s != t && s[..i] == t[..i] && s[i + k..] == t[i + k..]
  }

  lemma WindowChecksum(s: bytes, t: bytes, i: nat, k: nat)
    requires DifferWithin(s, t, i, k) && k <= 4
    ensures Checksum(s) != Checksum(t)
  {
    assert s == s[..i] + s[i..i + k] + s[i + k..];
    assert t == s[..i] + t[i..i + k] + s[i + k..];
    BurstDetected(s[..i], s[i..i + k], t[i..i + k], s[i + k..]);
  }

  /** What the reader checksums: the received octets with the placeholder in the checksum field. */
  function Masked(raw: bytes): (b: bytes)
    requires |raw| >= 16
    ensures |b| == |raw|
  {
    raw[..12] + Pack32(CRC_PLACEHOLDER) + raw[16..]
  }

  /** How the reader judges one whole data frame. */
  lemma JudgeFrame(raw: bytes, rest: bytes, ending: Failure)
    requires |raw| >= 16 && raw[2] == DATA && |raw| == 16 + Unpack16(raw[4..6])
    requires Checksum(Masked(raw)) != Unpack32(raw[12..16])
    ensures ParseFrame(raw + rest, ending) == Parse(Err(ChecksumMismatch), rest)
  {
    hide Checksum, Unpack32, Pack32;
    var g, t, body := raw[..4], raw[4..16], raw[16..];
    assert t[..2] == raw[4..6] && t[8..] == raw[12..16];
    assert raw == g + t + body;
    ParseDataFrame(g, t, body, rest, ending);
    assert g + (t[..8] + Pack32(CRC_PLACEHOLDER)) + body == Masked(raw);
  }

  lemma PackedIsMasked(f: Frame)
    requires f.control == DATA && PackFrame(f).Ok?
    ensures var raw := PackFrame(f).value;
            && |raw| == 16 + |f.payload| && raw[2] == DATA
            && Unpack16(raw[4..6]) == |f.payload|
            && Masked(raw) == Covered(f) && Unpack32(raw[12..16]) == Checksum(Covered(f))
  {
    hide Checksum, Unpack32, Pack32;
    var raw := PackFrame(f).value;
    var sum := Checksum(Covered(f));
    var t := Transfer(f, sum);
    TransferFields(f, sum);
    UnpackPack16(|f.payload|);
    UnpackPack32(sum);
    assert raw[4..16] == t;
    assert raw[4..6] == t[..2] && raw[12..16] == t[8..];
    assert raw[..12] == General(f) + t[..8];
    assert Masked(raw) == General(f) + (t[..8] + Pack32(CRC_PLACEHOLDER)) + f.payload;
  }

  /**
   A packed data frame altered anywhere within four consecutive octets is refused, as long
   as the alteration leaves the control, length and checksum fields alone.
   */
  lemma BurstRejected(f: Frame, altered: bytes, i: nat, k: nat, rest: bytes, ending: Failure)
    requires f.control == DATA && PackFrame(f).Ok?
    requires DifferWithin(PackFrame(f).value, altered, i, k) && k <= 4
    requires var raw := PackFrame(f).value;
             altered[2] == raw[2] && altered[4..6] == raw[4..6] && altered[12..16] == raw[12..16]
    ensures ParseFrame(altered + rest, ending) == Parse(Err(ChecksumMismatch), rest)
  {
    hide Checksum, Unpack32, Pack32, PackFrame, ParseFrame, Covered, Unpack16;
    var raw := PackFrame(f).value;
    PackedIsMasked(f);
    assert |raw| >= 16;
    var p, q := Masked(raw), Masked(altered);
    forall j | 0 <= j < |raw| && !(i <= j < i + k)
      ensures p[j] == q[j]
    {
      assert j < i ==> raw[..i][j] == altered[..i][j];
      assert j >= i + k ==> raw[i + k..][j - i - k] == altered[i + k..][j - i - k];
    }
    forall j | 12 <= j < 16
      ensures raw[j] == altered[j]
    {
      assert raw[j] == raw[12..16][j - 12] && altered[j] == altered[12..16][j - 12];
    }
    var d :| 0 <= d < |raw| && raw[d] != altered[d];
    assert p[d] != q[d];
    WindowChecksum(p, q, i, k);
    JudgeFrame(altered, rest, ending);
  }

  /** A change of the checksum field alone is refused as well. */
  lemma ChecksumFieldRejected(f: Frame, field: bytes, rest: bytes, ending: Failure)
    requires f.control == DATA && PackFrame(f).Ok? && |field| == 4
    requires field != PackFrame(f).value[12..16]
    ensures var raw := PackFrame(f).value;
            ParseFrame(raw[..12] + field + raw[16..] + rest, ending) == Parse(Err(ChecksumMismatch), rest)
  {
    hide Checksum, Unpack32, Pack32;
    var raw := PackFrame(f).value;
    var altered := raw[..12] + field + raw[16..];
    PackedIsMasked(f);
    assert altered[4..6] == raw[4..6] && altered[12..16] == field && Masked(altered) == Masked(raw);
    PackUnpack32(field);
    PackUnpack32(raw[12..16]);
    JudgeFrame(altered, rest, ending);
  }
}
