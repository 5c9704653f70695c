/**
 * The fixed layout of the iSCSI Boot Firmware Table head region: structure IDs, region lengths,
 * the 48-byte header template, the structure-header prefix and the control block.
 */
module Layout {
  import opened Bytes

  /**
   * Structure IDs, numbered from zero in declaration order. ID 0 is reserved and ID 5
   * (extensions) is never written, so neither has a constant here.
   */
  const ControlId: byte := 1
  const InitiatorId: byte := 2
  const NicId: byte := 3
  const TargetId: byte := 4

  /** Every structure carries version 1. */
  const Version: byte := 1

  /** Byte widths of the head regions. */
  const HeaderLen: nat := 48
  const ControlLen: nat := 18
  const InitiatorLen: nat := 74
  const NicLen: nat := 102
  const TargetLen: nat := 54
  const HeadersLen: nat := HeaderLen + ControlLen + InitiatorLen + NicLen + TargetLen + NicLen + TargetLen

  /** The head regions in table order: header, control, Initiator, NIC0, Target0, NIC1, Target1. */
  const Regions: seq<nat> := [HeaderLen, ControlLen, InitiatorLen, NicLen, TargetLen, NicLen, TargetLen]

  /** Where region i starts: the sum of the lengths of the regions before it. */
  function RegionStart(i: nat): nat
    requires i <= |Regions|
  {
    if i == 0 then 0 else RegionStart(i - 1) + Regions[i - 1]
  }

  /** The start of every region, and the end of the last one. */
  lemma RegionStarts()
    ensures RegionStart(0) == 0 && RegionStart(1) == 48 && RegionStart(2) == 66
    ensures RegionStart(3) == 140 && RegionStart(4) == 242 && RegionStart(5) == 296
    ensures RegionStart(6) == 398 && RegionStart(7) == 452
  {
  }

  /** The whole head is 452 bytes, the end of the last region, and fits a uint16. */
  lemma HeadersLenFits()
    ensures HeadersLen == 452
    ensures HeadersLen == RegionStart(|Regions|)
    ensures HeadersLen < Uint16Limit
  {
    RegionStarts();
  }

  /** The pre-filled control block: its length field, login modes and recorded structure offsets. */
  const ControlLength: nat := 80
  const MultiLogin: byte := 0
  const SingleLogin: byte := 1
  const InitiatorOffset: nat := HeaderLen + ControlLen
  const Nic0Offset: nat := HeaderLen + ControlLen + InitiatorLen
  const Target0Offset: nat := HeaderLen + ControlLen + InitiatorLen + NicLen
  const Nic1Offset: nat := HeaderLen + ControlLen + InitiatorLen + NicLen + TargetLen
  const Target1Offset: nat := HeaderLen + ControlLen + InitiatorLen + NicLen + TargetLen + NicLen

  /** The five offsets in the order the control block stores them. */
  const RecordedOffsets: seq<nat> := [InitiatorOffset, Nic0Offset, Target0Offset, Nic1Offset, Target1Offset]

  /**
   * The recorded offsets are the prefix sums of the region lengths, so structure k starts where
   * region k + 2 starts, and the last structure ends exactly where the head ends.
   */
  lemma RecordedOffsetsArePrefixSums()
    ensures |RecordedOffsets| == 5
    ensures forall k :: 0 <= k < 5 ==> RecordedOffsets[k] == RegionStart(k + 2)
    ensures RecordedOffsets == [66, 140, 242, 296, 398]
    ensures Target1Offset + TargetLen == HeadersLen
  {
    RegionStarts();
  }

  /** The static 48-byte header template copied in front of every table. */
  const RawHeader: seq<byte> :=
    Ascii("IBFT") + [0, 8, 0, 0] + Ascii("1") + [0]
    + Ascii("ACPIXX") + Ascii("ACPISUCK") + Ascii("1234567890abcdef01234567")

  /**
   * The template fills the header region exactly and starts with the signature; its length field
   * reads 0x800 whatever the table's real length, its revision is the character '1', and its
   * checksum byte is zero.
   */
  lemma RawHeaderShape()
    ensures |RawHeader| == HeaderLen
    ensures RawHeader[..4] == Ascii("IBFT")
    ensures RawHeader[4..8] == [0, 8, 0, 0]
    ensures RawHeader[8] == 0x31
    ensures RawHeader[9] == 0
  {
  }

  /** The common prefix of the control, Initiator, NIC and Target structures. */
  datatype StructHeader = StructHeader(id: byte, version: byte, length: nat, index: byte, flags: byte)

  /** ID (1) + version (1) + length (2) + index (1) + flags (1). */
  const PrefixLen: nat := 6

  function DecodeHeader(s: seq<byte>): StructHeader
    requires |s| >= PrefixLen
  {
    StructHeader(s[0], s[1], Get16(s, 2), s[4], s[5])
  }

  /** Writes the prefix fields in wire order; decoding the bytes gives the fields back. */
  function EncodeHeader(p: StructHeader): (r: seq<byte>)
    requires p.length < Uint16Limit
    ensures |r| == PrefixLen
    ensures DecodeHeader(r) == p
  {
    [p.id, p.version] + LE16(p.length) + [p.index, p.flags]
  }

  /**
   * The control block: its prefix (ID 1, version 1, length 80, index 0, the login-mode flags),
   * a zero extensions offset, then the five structure offsets.
   */
  function ControlBlock(flags: byte): (r: seq<byte>)
    ensures |r| == ControlLen
    ensures DecodeHeader(r) == StructHeader(ControlId, Version, ControlLength, 0, flags)
    ensures Get16(r, 6) == 0
    ensures forall k :: 0 <= k < 5 ==> Get16(r, 8 + 2 * k) == RegionStart(k + 2)
  {
    var r := EncodeHeader(StructHeader(ControlId, Version, ControlLength, 0, flags))
      + LE16(0) + LE16(InitiatorOffset) + LE16(Nic0Offset) + LE16(Target0Offset)
      + LE16(Nic1Offset) + LE16(Target1Offset);
    assert r[..PrefixLen] == EncodeHeader(StructHeader(ControlId, Version, ControlLength, 0, flags));
    RecordedOffsetsArePrefixSums();
    r
  }
}
