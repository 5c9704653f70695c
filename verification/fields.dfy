/**
 * The description objects the marshaller walks: the typed Initiator, NIC, Target and table
 * records, the closed set of field kinds they are built from, and the head width of each kind.
 */
module Fields {
  import opened Bytes
  import opened Flags
  import opened Layout

  /** The fixed-width scalar wire types; each is written to the head as raw bytes. */
  datatype Wire = IpAddr | U8 | U16 | U64 | Mac | Bdf | SockAddr

  /** Head bytes of each scalar; a socket address is a 16-byte address followed by a 16-bit port. */
  function WireWidth(w: Wire): nat
  {
    match w
    case IpAddr => 16
    case U8 => 1
    case U16 => 2
    case U64 => 8
    case Mac => 6
    case Bdf => 2
    case SockAddr => 16 + 2
  }

  /** A heap string occupies a uint16 length and a uint16 table offset in the head. */
  const HeapRefWidth: nat := 4

  /** Scalar values are kept as the text the caller supplied; heap strings as their bytes. */
  datatype Initiator = Initiator(
    valid: Tri, boot: Tri,
    snsServer: string, slpServer: string, primaryRadiusServer: string, secondaryRadiusServer: string,
    name: seq<byte>)

  datatype Nic = Nic(
    valid: Tri, boot: Tri, global: Tri, index: Tri,
    ipAddress: string, subNet: string, origin: string, gateway: string,
    primaryDns: string, secondaryDns: string, dhcp: string,
    vlan: string, macAddress: string, pciBdf: string,
    hostName: seq<byte>)

  datatype Target = Target(
    valid: Tri, boot: Tri, chap: Tri, rchap: Tri, index: Tri,
    targetIp: string, bootLun: string, chapType: string, association: string,
    targetName: seq<byte>, chapName: seq<byte>, chapSecret: seq<byte>,
    reverseChapName: seq<byte>, reverseChapSecret: seq<byte>)

  /** A whole table: the login-mode flag, one Initiator, two NICs and two Targets. */
  datatype Ibft = Ibft(multi: Tri, initiator: Initiator, nic0: Nic, target0: Target, nic1: Nic, target1: Target)

  /** A nested sub-structure of the table. */
  datatype Struct = InitiatorStruct(initiator: Initiator) | NicStruct(nic: Nic) | TargetStruct(target: Target)

  /** One declared field of a description object, tagged by how the marshaller treats it. */
  datatype Field =
    | Generic                          // the unused embedding; emits nothing
    | Flag(flag: Tri)                  // packed into a flags byte elsewhere; emits nothing itself
    | Scalar(wire: Wire, text: string) // a fixed-width scalar
    | SHeap(data: seq<byte>)           // a heap-backed string
    | Sub(s: Struct)                   // a nested Initiator, NIC or Target

  /** The kind of a field, independent of its value. */
  datatype Kind = GenericKind | FlagKind | WireKind(wire: Wire) | HeapKind | InitiatorKind | NicKind | TargetKind

  function KindOf(f: Field): Kind
  {
    match f
    case Generic => GenericKind
    case Flag(_) => FlagKind
    case Scalar(w, _) => WireKind(w)
    case SHeap(_) => HeapKind
    case Sub(InitiatorStruct(_)) => InitiatorKind
    case Sub(NicStruct(_)) => NicKind
    case Sub(TargetStruct(_)) => TargetKind
  }

  /** Head bytes a field of each kind occupies; a sub-structure occupies its length constant. */
  function Width(k: Kind): nat
  {
    match k
    case GenericKind => 0
    case FlagKind => 0
    case WireKind(w) => WireWidth(w)
    case HeapKind => HeapRefWidth
    case InitiatorKind => InitiatorLen
    case NicKind => NicLen
    case TargetKind => TargetLen
  }

  /**
   * The fields of a sub-structure in declaration order. None is itself a sub-structure, and
   * their kinds are the structure's declared shape whatever the field values.
   */
  function Body(s: Struct): (r: seq<Field>)
    ensures forall f :: f in r ==> !f.Sub?
    ensures Shape(r) == StructShape(s)
  {
    match s
    case InitiatorStruct(i) =>
      [Flag(i.valid), Flag(i.boot),
       Scalar(IpAddr, i.snsServer), Scalar(IpAddr, i.slpServer),
       Scalar(IpAddr, i.primaryRadiusServer), Scalar(IpAddr, i.secondaryRadiusServer),
       SHeap(i.name)]
    case NicStruct(n) =>
      [Flag(n.valid), Flag(n.boot), Flag(n.global), Flag(n.index),
       Scalar(IpAddr, n.ipAddress), Scalar(U8, n.subNet), Scalar(U8, n.origin),
       Scalar(IpAddr, n.gateway), Scalar(IpAddr, n.primaryDns), Scalar(IpAddr, n.secondaryDns),
       Scalar(IpAddr, n.dhcp), Scalar(U16, n.vlan), Scalar(Mac, n.macAddress), Scalar(Bdf, n.pciBdf),
       SHeap(n.hostName)]
    case TargetStruct(t) =>
      [Flag(t.valid), Flag(t.boot), Flag(t.chap), Flag(t.rchap), Flag(t.index),
       Scalar(SockAddr, t.targetIp), Scalar(U64, t.bootLun), Scalar(U8, t.chapType), Scalar(U8, t.association),
       SHeap(t.targetName), SHeap(t.chapName), SHeap(t.chapSecret),
       SHeap(t.reverseChapName), SHeap(t.reverseChapSecret)]
  }

  /**
   * The fields of the table in declaration order: the Generic embedding, the login-mode flag,
   * then the five structures in the order the control block records them.
   */
  function TopFields(t: Ibft): (r: seq<Field>)
    ensures Shape(r) == TopShape
    ensures |r| == 7 && r[0] == Generic && r[1] == Flag(t.multi)
    ensures forall k :: 0 <= k < 5 ==> r[k + 2] == Sub(Structures(t)[k])
  {
    [Generic, Flag(t.multi),
     Sub(InitiatorStruct(t.initiator)), Sub(NicStruct(t.nic0)), Sub(TargetStruct(t.target0)),
     Sub(NicStruct(t.nic1)), Sub(TargetStruct(t.target1))]
  }

  /** The structures of the table in the order the control block records them. */
  function Structures(t: Ibft): seq<Struct>
  {
    [InitiatorStruct(t.initiator), NicStruct(t.nic0), TargetStruct(t.target0),
     NicStruct(t.nic1), TargetStruct(t.target1)]
  }

  /** The kinds of a field list, position by position. */
  function Shape(fs: seq<Field>): (ks: seq<Kind>)
    ensures |ks| == |fs|
    ensures forall i :: 0 <= i < |fs| ==> ks[i] == KindOf(fs[i])
  {
    seq(|fs|, i requires 0 <= i < |fs| => KindOf(fs[i]))
  }

  /** Where field j of a run of kinds starts, relative to the start of the run: the widths before it. */
  function Offset(ks: seq<Kind>, j: nat): nat
    requires j <= |ks|
  {
    if j == 0 then 0 else Offset(ks, j - 1) + Width(ks[j - 1])
  }

  /** Head bytes a run of fields of the given kinds occupies. */
  function Span(ks: seq<Kind>): nat
  {
    Offset(ks, |ks|)
  }

  /** The declared field kinds of each sub-structure. */
  const InitiatorShape: seq<Kind> :=
    [FlagKind, FlagKind, WireKind(IpAddr), WireKind(IpAddr), WireKind(IpAddr), WireKind(IpAddr), HeapKind]
  const NicShape: seq<Kind> :=
    [FlagKind, FlagKind, FlagKind, FlagKind,
     WireKind(IpAddr), WireKind(U8), WireKind(U8), WireKind(IpAddr), WireKind(IpAddr), WireKind(IpAddr),
     WireKind(IpAddr), WireKind(U16), WireKind(Mac), WireKind(Bdf), HeapKind]
  const TargetShape: seq<Kind> :=
    [FlagKind, FlagKind, FlagKind, FlagKind, FlagKind,
     WireKind(SockAddr), WireKind(U64), WireKind(U8), WireKind(U8),
     HeapKind, HeapKind, HeapKind, HeapKind, HeapKind]
  const TopShape: seq<Kind> :=
    [GenericKind, FlagKind, InitiatorKind, NicKind, TargetKind, NicKind, TargetKind]

  function StructShape(s: Struct): seq<Kind>
  {
    match s
    case InitiatorStruct(_) => InitiatorShape
    case NicStruct(_) => NicShape
    case TargetStruct(_) => TargetShape
  }

  /** The structure ID, length constant and raw offset tags of each sub-structure. */
  function StructId(s: Struct): byte
  {
    match s
    case InitiatorStruct(_) => InitiatorId
    case NicStruct(_) => NicId
    case TargetStruct(_) => TargetId
  }

  /** Peeling the first kind off a run peels its width off every later offset. */
  lemma {:induction false} OffsetCons(ks: seq<Kind>, j: nat)
    requires 0 < j <= |ks|
    ensures Offset(ks, j) == Width(ks[0]) + Offset(ks[1..], j - 1)
    decreases j
  {
    if j > 1 {
      OffsetCons(ks, j - 1);
      assert ks[1..][j - 2] == ks[j - 1];
    }
  }

  /** The Initiator prefix and body fill 74 bytes, and each field lands on the offset tag of its raw-structure field. */
  lemma InitiatorLayout()
    ensures PrefixLen + Span(InitiatorShape) == InitiatorLen
    ensures PrefixLen + Offset(InitiatorShape, 2) == 6 // iSNSServer
    ensures PrefixLen + Offset(InitiatorShape, 3) == 22 // SLPServer
    ensures PrefixLen + Offset(InitiatorShape, 4) == 38 // PrimaryRadiusServer
    ensures PrefixLen + Offset(InitiatorShape, 5) == 54 // SecondaryRadiusServer
    ensures PrefixLen + Offset(InitiatorShape, 6) == 70 // InitiatorName: length at 70, offset at 72
  {
    var ks := InitiatorShape;
    assert Offset(ks, 1) == 0;
    assert Offset(ks, 2) == 0;
    assert Offset(ks, 3) == 16;
    assert Offset(ks, 4) == 32;
    assert Offset(ks, 5) == 48;
    assert Offset(ks, 6) == 64;
    assert Offset(ks, 7) == 68;
  }

  /** The NIC prefix and body fill 102 bytes, and each field lands on the offset tag of its raw-structure field. */
  lemma NicLayout()
    ensures PrefixLen + Span(NicShape) == NicLen
    ensures PrefixLen + Offset(NicShape, 4) == 6 // IPAddress
    ensures PrefixLen + Offset(NicShape, 5) == 22 // SubNet
    ensures PrefixLen + Offset(NicShape, 6) == 23 // Origin
    ensures PrefixLen + Offset(NicShape, 7) == 24 // Gateway
    ensures PrefixLen + Offset(NicShape, 8) == 40 // PrimaryDNS
    ensures PrefixLen + Offset(NicShape, 9) == 56 // SecondaryDNS
    ensures PrefixLen + Offset(NicShape, 10) == 72 // DHCP
    ensures PrefixLen + Offset(NicShape, 11) == 88 // VLAN
    ensures PrefixLen + Offset(NicShape, 12) == 90 // MACAddress
    ensures PrefixLen + Offset(NicShape, 13) == 96 // PCIBDF
    ensures PrefixLen + Offset(NicShape, 14) == 98 // HostName: length at 98, offset at 100
  {
    var ks := NicShape;
    assert Offset(ks, 1) == 0;
    assert Offset(ks, 2) == 0;
    assert Offset(ks, 3) == 0;
    assert Offset(ks, 4) == 0;
    assert Offset(ks, 5) == 16;
    assert Offset(ks, 6) == 17;
    assert Offset(ks, 7) == 18;
    assert Offset(ks, 8) == 34;
    assert Offset(ks, 9) == 50;
    assert Offset(ks, 10) == 66;
    assert Offset(ks, 11) == 82;
    assert Offset(ks, 12) == 84;
    assert Offset(ks, 13) == 90;
    assert Offset(ks, 14) == 92;
    assert Offset(ks, 15) == 96;
  }

  /** The Target prefix and body fill 54 bytes, and each field lands on the offset tag of its raw-structure field. */
  lemma TargetLayout()
    ensures PrefixLen + Span(TargetShape) == TargetLen
    ensures PrefixLen + Offset(TargetShape, 5) == 6 // TargetIP: address at 6, port at 22
    ensures PrefixLen + Offset(TargetShape, 6) == 24 // TargetBootLUN
    ensures PrefixLen + Offset(TargetShape, 7) == 32 // CHAPType
    ensures PrefixLen + Offset(TargetShape, 8) == 33 // NICAssociation
    ensures PrefixLen + Offset(TargetShape, 9) == 34 // TargetName: length at 34, offset at 36
    ensures PrefixLen + Offset(TargetShape, 10) == 38 // CHAPName: length at 38, offset at 40
    ensures PrefixLen + Offset(TargetShape, 11) == 42 // CHAPSecret: length at 42, offset at 44
    ensures PrefixLen + Offset(TargetShape, 12) == 46 // ReverseCHAPName: length at 46, offset at 48
    ensures PrefixLen + Offset(TargetShape, 13) == 50 // ReverseCHAPSecret: length at 50, offset at 52
  {
  }

  /** The length constant of each sub-structure. */
  function StructLen(s: Struct): (n: nat)
    ensures n == Width(KindOf(Sub(s)))
  {
    match s
    case InitiatorStruct(_) => InitiatorLen
    case NicStruct(_) => NicLen
    case TargetStruct(_) => TargetLen
  }

  /**
   * A sub-structure's 6-byte prefix plus its typed body fills exactly its length constant
   * (74, 102 or 54 bytes), whatever the values of its fields.
   */
  lemma StructLayout(s: Struct)
    ensures Shape(Body(s)) == StructShape(s)
    ensures PrefixLen + Span(Shape(Body(s))) == StructLen(s)
  {
    StructSpan(s);
  }

  lemma StructSpan(s: Struct)
    ensures PrefixLen + Span(StructShape(s)) == StructLen(s)
  {
    if s.InitiatorStruct? {
      InitiatorLayout();
    } else if s.NicStruct? {
      NicLayout();
    } else {
      TargetLayout();
    }
  }

  /**
   * The table's fields have the top-level shape; after the header and control regions, the
   * structures follow one another so that each starts at the offset the control block records
   * for it, and together they end at the end of the head.
   */
  lemma TopLayout(t: Ibft)
    ensures Shape(TopFields(t)) == TopShape
    ensures forall k :: 0 <= k < 5 ==> TopFields(t)[k + 2] == Sub(Structures(t)[k])
    ensures forall k :: 0 <= k < 5 ==> HeaderLen + ControlLen + Offset(TopShape, k + 2) == RecordedOffsets[k]
    ensures HeaderLen + ControlLen + Span(TopShape) == HeadersLen
  {
    RecordedOffsetsArePrefixSums();
    var ks := TopShape;
    assert Offset(ks, 1) == 0;
    assert Offset(ks, 2) == 0;
    assert Offset(ks, 3) == 74;
    assert Offset(ks, 4) == 176;
    assert Offset(ks, 5) == 230;
    assert Offset(ks, 6) == 332;
    assert Offset(ks, 7) == 386;
  }

  /**
   * The flags each sub-structure packs into its flags byte, in bit order: the first |fs| body
   * fields, in the order they are declared. The field right after them is the NIC's or
   * Target's Index flag, which goes into the prefix's index byte instead; the Initiator has
   * no Index flag, and its next field is not a flag at all.
   */
  function StructFlags(s: Struct): (fs: seq<Tri>)
    ensures |fs| <= 4
    ensures |fs| < |Body(s)|
    ensures forall i :: 0 <= i < |fs| ==> Body(s)[i] == Flag(fs[i])
    ensures s.InitiatorStruct? ==> !Body(s)[|fs|].Flag?
    ensures s.NicStruct? ==> Body(s)[|fs|] == Flag(s.nic.index)
    ensures s.TargetStruct? ==> Body(s)[|fs|] == Flag(s.target.index)
  {
    match s
    case InitiatorStruct(i) => [i.valid, i.boot]
    case NicStruct(n) => [n.valid, n.boot, n.global]
    case TargetStruct(t) => [t.valid, t.boot, t.chap, t.rchap]
  }

  /** The declared one-bit masks of the Initiator, NIC and Target flags bytes. */
  const InitiatorValidMask: nat := 1
  const InitiatorFirmwareBootMask: nat := 2
  const NicValidMask: nat := 1
  const NicBootSelectedMask: nat := 2
  const NicGlobalMask: nat := 4
  const TargetValidMask: nat := 1
  const TargetBootSelectedMask: nat := 2
  const TargetRadiusChapMask: nat := 4
  const TargetRadiusRChapMask: nat := 8

  /** Packing a structure's flags in declaration order sets exactly the declared mask of each true flag. */
  lemma StructFlagMasks(s: Struct)
    requires Pack(StructFlags(s)).Some?
    ensures var f := Pack(StructFlags(s)).value;
      match s
      case InitiatorStruct(i) =>
        && (HasMask(f, InitiatorValidMask) <==> i.valid == True)
        && (HasMask(f, InitiatorFirmwareBootMask) <==> i.boot == True)
        && f as nat < 4
      case NicStruct(n) =>
        && (HasMask(f, NicValidMask) <==> n.valid == True)
        && (HasMask(f, NicBootSelectedMask) <==> n.boot == True)
        && (HasMask(f, NicGlobalMask) <==> n.global == True)
        && f as nat < 8
      case TargetStruct(t) =>
        && (HasMask(f, TargetValidMask) <==> t.valid == True)
        && (HasMask(f, TargetBootSelectedMask) <==> t.boot == True)
        && (HasMask(f, TargetRadiusChapMask) <==> t.chap == True)
        && (HasMask(f, TargetRadiusRChapMask) <==> t.rchap == True)
        && f as nat < 16
  {
    var f := Pack(StructFlags(s)).value;
    PackBits(StructFlags(s));
    BitIsMask(f);
    assert Pow2(2) == 4 && Pow2(3) == 8 && Pow2(4) == 16;
  }
}
