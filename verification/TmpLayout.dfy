/**
 Where everything is on the wire, octet by octet, with numbers written out big-endian; and
 what a reader makes of frames it does not accept as messages.
 */
module TmpLayout {
  import opened Bytes
  import opened Crc32
  import opened TmpWire
  import opened TmpReader
  import opened TmpExchange
  import opened TmpDiscipline
  import opened TmpReassembly
  import opened TmpTalk

  /** The number that octets write, the most significant first. */
  function BigEndian(b: bytes): nat {
    if b == [] then 0 else BigEndian(b[..|b| - 1]) * 256 + b[|b| - 1]
  }

  lemma TwoOctets(b: bytes)
    requires |b| == 2
    ensures BigEndian(b) == Unpack16(b)
  {
    assert b[..1] == [b[0]] && [b[0]][..0] == [];
    assert BigEndian([b[0]]) == b[0];
  }

  lemma FourOctets(b: bytes)
    requires |b| == 4
    ensures BigEndian(b) == Unpack32(b)
  {
    assert b[..3][..2] == b[..2];
    TwoOctets(b[..2]);
    assert BigEndian(b[..3]) == BigEndian(b[..2]) * 256 + b[2];
    assert Unpack16(b[2..]) == b[2] as int * 256 + b[3] as int;
  }

  /** A packed data frame: versions, control and reason; length, flag, error, serial and checksum; payload. */
  lemma FrameLayout(f: Frame)
    requires f.control == 5 && PackFrame(f).Ok?
    ensures var raw := PackFrame(f).value;
            && |raw| == 16 + |f.payload|
            && raw[0] == f.mainVersion && raw[1] == f.secondaryVersion && raw[2] == 5 && raw[3] == f.reason
            && BigEndian(raw[4..6]) == |f.payload| && raw[6] == f.transferFlag && raw[7] == f.transferError
            && BigEndian(raw[8..12]) == f.serial
            && BigEndian(raw[12..16]) == Checksum(raw[..12] + [0x5A, 0x6B, 0x7C, 0x8D] + raw[16..])
            && raw[16..] == f.payload
  {
    hide Checksum, Unpack32, Pack32, PackFrame, Covered, Transfer;
    var raw := PackFrame(f).value;
    PackedIsMasked(f);
    FrameFields(f);
    PlaceholderOctets();
    TwoOctets(raw[4..6]);
    UnpackPack16(|f.payload|);
    FourOctets(raw[8..12]);
    UnpackPack32(f.serial);
    FourOctets(raw[12..16]);
    assert Masked(raw) == raw[..12] + [0x5A, 0x6B, 0x7C, 0x8D] + raw[16..];
  }

  lemma PlaceholderOctets()
    ensures Pack32(CRC_PLACEHOLDER) == [0x5A, 0x6B, 0x7C, 0x8D]
  {}

  lemma FrameFields(f: Frame)
    requires f.control == 5 && PackFrame(f).Ok?
    ensures |f.payload| < U16 && f.serial < U32
    ensures var raw := PackFrame(f).value;
            && |raw| == 16 + |f.payload|
            && raw[..4] == [f.mainVersion, f.secondaryVersion, 5, f.reason]
            && raw[4..6] == Pack16(|f.payload|) && raw[6] == f.transferFlag && raw[7] == f.transferError
            && raw[8..12] == Pack32(f.serial) && raw[16..] == f.payload
  {
    hide Checksum, Unpack32, Pack32, Covered;
  }

  /** A packed control frame is its four octets. */
  lemma ControlLayout(f: Frame)
    requires f.control != 5
    ensures PackFrame(f) == if f.payload != [] then Err(ControlPayload)
                            else Ok([f.mainVersion, f.secondaryVersion, f.control, f.reason])
  {}

  /** A packed message: a data frame of version 1.1 with business header 1, 2 and the AppV2 header. */
  lemma MessageLayout(m: Message, serial: nat)
    requires Fits(m) && serial < U32
    ensures PackMessage(m, serial).Ok?
    ensures var raw := PackMessage(m, serial).value;
            && |raw| == 36 + |m.chunk|
            && raw[0] == 1 && raw[1] == 1 && raw[2] == 5 && raw[3] == 0 && raw[6] == 0 && raw[7] == 0
            && BigEndian(raw[4..6]) == 20 + |m.chunk| && BigEndian(raw[8..12]) == serial
            && raw[16] == 1 && raw[17] == 2
            && BigEndian(raw[18..20]) == m.opcode && raw[20] == m.flag && raw[21] == m.error
            && BigEndian(raw[22..24]) == m.transaction && BigEndian(raw[24..28]) == m.checksum
            && BigEndian(raw[28..32]) == m.total && BigEndian(raw[32..36]) == m.offset && raw[36..] == m.chunk
  {
    hide Checksum, Unpack32, Pack32, PackFrame, Unpack16, Pack16, BigEndian, MessageHeader;
    var body := MessageHeader(m) + m.chunk;
    var f := DataFrame(body, serial);
    PacksData(f);
    FrameLayout(f);
    HeaderFields(m);
    var raw := PackMessage(m, serial).value;
    assert forall i, j :: 0 <= i <= j <= |body| ==> raw[16 + i..16 + j] == body[i..j];
    assert raw[18..20] == body[2..4] && raw[22..24] == body[6..8] && raw[24..28] == body[8..12];
    assert raw[28..32] == body[12..16] && raw[32..36] == body[16..20] && raw[36..] == body[20..];
    assert raw[16] == body[0] == body[..2][0] && raw[17] == body[1] == body[..2][1];
    assert raw[20] == body[4] && raw[21] == body[5];
    NumberFields(m);
  }

  lemma PacksData(f: Frame)
    requires f.control == 5 && |f.payload| < U16 && f.serial < U32
    ensures PackFrame(f).Ok?
  {}

  lemma NumberFields(m: Message)
    requires Fits(m)
    ensures BigEndian(Pack16(m.opcode)) == m.opcode && BigEndian(Pack16(m.transaction)) == m.transaction
    ensures BigEndian(Pack32(m.checksum)) == m.checksum && BigEndian(Pack32(m.total)) == m.total
    ensures BigEndian(Pack32(m.offset)) == m.offset
  {
    hide BigEndian, Pack16, Pack32, Unpack16, Unpack32;
    TwoOctets(Pack16(m.opcode));
    UnpackPack16(m.opcode);
    TwoOctets(Pack16(m.transaction));
    UnpackPack16(m.transaction);
    FourOctets(Pack32(m.checksum));
    UnpackPack32(m.checksum);
    FourOctets(Pack32(m.total));
    UnpackPack32(m.total);
    FourOctets(Pack32(m.offset));
    UnpackPack32(m.offset);
  }

  // ----- what is received otherwise

  /** A control frame in the place of a message: a refusal with its reason, or nothing. */
  lemma ControlReceived(version: byte, secondary: byte, control: byte, reason: byte, rest: bytes, ending: Failure)
    requires control != 5
    ensures ParseMessage([version, secondary, control, reason] + rest, ending)
         == Parse(if control == 3 then Err(Refused(reason)) else Ok(Silent), rest)
  {
    hide Checksum;
    var f := Frame(version, secondary, control, reason, 0, 0, 0, 0, []);
    PackThenParse(f, rest, ending);
  }

  /** A data frame that is no message: an error code, too short a payload, or another business header. */
  lemma DataReceived(f: Frame, rest: bytes, ending: Failure)
    requires f.control == 5 && PackFrame(f).Ok?
    ensures var p := ParseMessage(PackFrame(f).value + rest, ending);
            && p.rest == rest
            && (f.transferError != 0 ==> p.result == Err(TransferError(f.transferError)))
            && (f.transferError == 0 && |f.payload| < 20 ==> p.result == Err(TruncatedMessage))
            && (f.transferError == 0 && |f.payload| >= 20 && (f.payload[0] != 1 || f.payload[1] != 2) ==>
                  p.result == Err(UnsupportedBusiness))
            && (f.transferError == 0 && |f.payload| >= 20 && f.payload[0] == 1 && f.payload[1] == 2 ==>
                  p.result.Ok? && p.result.value.Got?)
  {
    hide Checksum, PackFrame, ParseFrame, Unpack16, Unpack32, Covered;
    PackThenParse(f, rest, ending);
    if |f.payload| >= 20 {
      assert f.payload[..2] == [f.payload[0], f.payload[1]];
    }
  }

  /** While an association is awaited, the first frame that is a refusal or an acceptance decides. */
  lemma {:induction false} FirstAnswerDecides(fs: seq<Frame>, i: nat, rest: bytes, ending: Failure, patience: nat)
    requires i < |fs| && i < patience && forall j :: 0 <= j < |fs| ==> Packable(fs[j])
    requires forall j :: 0 <= j < i ==> fs[j].control != 2 && fs[j].control != 3
    requires fs[i].control == 2 || fs[i].control == 3
    ensures AwaitAccept(PackFrames(fs) + rest, ending, patience)
         == Parse(if fs[i].control == 3 then Err(Refused(fs[i].reason)) else Ok(()), PackFrames(fs[i + 1..]) + rest)
    decreases i
  {
    hide PackFrame, ParseFrame, PackFrames;
    FirstFrame(fs, rest, ending);
    if i > 0 {
      assert fs[1..][i - 1] == fs[i] && fs[1..][i..] == fs[i + 1..];
      assert forall j :: 0 <= j < |fs| - 1 ==> fs[1..][j] == fs[j + 1];
      FirstAnswerDecides(fs[1..], i - 1, rest, ending, patience - 1);
    }
  }

  lemma FirstOctets(fs: seq<Frame>)
    requires fs != [] && forall j :: 0 <= j < |fs| ==> Packable(fs[j])
    ensures PackFrame(fs[0]).Ok? && fs[0].transferError == 0
    ensures PackFrames(fs) == PackFrame(fs[0]).value + PackFrames(fs[1..])
  {
    hide PackFrame;
    assert Packable(fs[0]);
  }

  lemma FirstFrame(fs: seq<Frame>, rest: bytes, ending: Failure)
    requires fs != [] && forall j :: 0 <= j < |fs| ==> Packable(fs[j])
    ensures var p := ParseFrame(PackFrames(fs) + rest, ending);
            && p.rest == PackFrames(fs[1..]) + rest && p.result.Ok?
            && p.result.value.control == fs[0].control && p.result.value.reason == fs[0].reason
  {
    hide PackFrame, ParseFrame, PackFrames, Checksum, Covered, Packable;
    FirstOctets(fs);
    var tail := PackFrames(fs[1..]) + rest;
    assert PackFrames(fs) + rest == PackFrame(fs[0]).value + tail;
    PackThenParse(fs[0], tail, ending);
  }

  /** The control frames of a session and the operations and identifiers of its negotiation. */
  lemma HandshakeText(counter: nat)
    ensures ASK == [[1, 1, 1, 0]] && CONFIRM == [[1, 1, 2, 0], [1, 1, 4, 0]] && ControlFrame(BYE) == [1, 1, 6, 0]
    ensures TokenRequest(counter) == Request(0x0001, counter % 0x1_0000, [])
    ensures ComponentRequest(counter) == Request(0x4001, counter % 0x1_0000, [])
  {}
}
