/**
 * Marshalling a whole table: the static header template, the control block carrying the
 * login-mode flag, the traversal of the table's fields, the head-length check and the heap.
 *
 * The scalar lemmas carry `{:induction false}` although none is recursive. They take structure
 * and field indices as `nat` parameters, and the attribute stops Dafny from adding induction
 * hypotheses over those indices, which would only make their proofs costlier.
 */
module TableMarshal {
  import opened Wrappers
  import opened Bytes
  import opened Flags
  import opened Layout
  import opened Fields
  import opened Traversal
  import opened Placement

  /** The head as it stands before the traversal: the header template and the control block. */
  function StartTable(flags: byte): (h: HeapTable)
    ensures |h.head| == HeaderLen + ControlLen && h.heap == []
    ensures h.head[..HeaderLen] == RawHeader && h.head[HeaderLen..] == ControlBlock(flags)
  {
    RawHeaderShape();
    HeapTable(RawHeader + ControlBlock(flags), [])
  }

  /**
   * Marshals a table to bytes: the head (header, control block, structures) followed by the
   * heap. Fails when the login-mode flag is unset, when the traversal fails, or when the head
   * did not come out at its fixed length.
   */
  function Marshal(t: Ibft, parse: Parser): (r: Result<seq<byte>, Error>)
    ensures t.multi == Unset ==> r == Err(BadFlags([t.multi]))
    ensures r.Ok? ==>
      && |r.value| == HeadersLen + |HeapData(TopFields(t))|
      && r.value[..HeaderLen] == RawHeader
      && r.value[HeaderLen..HeaderLen + ControlLen] == ControlBlock(if t.multi == True then SingleLogin else MultiLogin)
      && r.value[HeadersLen..] == HeapData(TopFields(t))
  {
    match Pack([t.multi])
    case None => Err(BadFlags([t.multi]))
    case Some(f) =>
      var start := StartTable(f);
      match Traverse(TopFields(t), start, parse)
      case Err(e) => Err(e)
      case Ok(h) =>
        if |h.head| != HeadersLen then Err(HeadersLenMismatch(|h.head|, HeadersLen))
        else
          LoginFlag(t.multi);
          Assemble(start, h);
          Ok(h.head + h.heap)
  }

  /** A determinate login-mode flag packs to the single-login or the multi-login value. */
  lemma LoginFlag(m: Tri)
    requires m != Unset
    ensures Pack([m]) == Some(if m == True then SingleLogin else MultiLogin)
  {
  }

  /** Joining a full head that extends the start table and its heap keeps the start bytes in front. */
  lemma Assemble(start: HeapTable, h: HeapTable)
    requires |start.head| == HeaderLen + ControlLen && Extends(start, h)
    requires |h.head| == HeadersLen
    ensures (h.head + h.heap)[..HeaderLen] == start.head[..HeaderLen]
    ensures (h.head + h.heap)[HeaderLen..HeaderLen + ControlLen] == start.head[HeaderLen..]
    ensures (h.head + h.heap)[HeadersLen..] == h.heap
  {
    assert (h.head + h.heap)[..|start.head|] == start.head;
  }

  /**
   * With a width-respecting parser the head always comes out at exactly 452 bytes, so the
   * length check never fires and marshalling succeeds exactly when the login-mode flag is set,
   * every field is valid and the heap ends within 16-bit reach of the table start.
   */
  lemma MarshalSucceeds(t: Ibft, parse: Parser)
    requires Respects(parse)
    ensures Marshal(t, parse).Ok? <==>
      t.multi != Unset && Valid(TopFields(t), parse) && HeadersLen + |HeapData(TopFields(t))| < Uint16Limit
    ensures Marshal(t, parse).Err? ==> !Marshal(t, parse).error.HeadersLenMismatch?
  {
    if t.multi != Unset {
      var f := Pack([t.multi]).value;
      TraverseSucceeds(TopFields(t), StartTable(f), parse);
      if Traverse(TopFields(t), StartTable(f), parse).Ok? {
        HeadFills(t, f, parse);
      }
    }
  }

  /** With a width-respecting parser, a successful traversal of the table fills the head exactly. */
  lemma HeadFills(t: Ibft, flags: byte, parse: Parser)
    requires Respects(parse)
    requires Traverse(TopFields(t), StartTable(flags), parse).Ok?
    ensures |Traverse(TopFields(t), StartTable(flags), parse).value.head| == HeadersLen
  {
    TraverseWidth(TopFields(t), StartTable(flags), parse);
    TopLayout(t);
  }

  /** The head a successful marshal produced, before the heap was appended. */
  lemma MarshalHead(t: Ibft, parse: Parser) returns (h: HeapTable)
    requires Marshal(t, parse).Ok?
    ensures Pack([t.multi]).Some?
    ensures Traverse(TopFields(t), StartTable(Pack([t.multi]).value), parse) == Ok(h)
    ensures |h.head| == HeadersLen && Marshal(t, parse).value == h.head + h.heap
  {
    h := Traverse(TopFields(t), StartTable(Pack([t.multi]).value), parse).value;
  }

  /** Control-block slot k, read from the whole table, is the offset recorded for structure k. */
  lemma ControlRecords(out: seq<byte>, flags: byte, k: nat)
    requires |out| >= HeaderLen + ControlLen
    requires out[HeaderLen..HeaderLen + ControlLen] == ControlBlock(flags)
    requires k < 5
    ensures Get16(out, HeaderLen + 8 + 2 * k) == RecordedOffsets[k]
  {
    RecordedOffsetsArePrefixSums();
    var cb := ControlBlock(flags);
    assert out[HeaderLen + 8 + 2 * k] == cb[8 + 2 * k];
    assert out[HeaderLen + 9 + 2 * k] == cb[9 + 2 * k];
  }

  /** The control block of a marshalled table records, in slot k, the offset of structure k. */
  lemma OffsetsRecorded(t: Ibft, parse: Parser, k: nat)
    requires Marshal(t, parse).Ok?
    requires k < 5
    ensures Get16(Marshal(t, parse).value, HeaderLen + 8 + 2 * k) == RecordedOffsets[k]
  {
    ControlRecords(Marshal(t, parse).value, if t.multi == True then SingleLogin else MultiLogin, k);
  }

  /**
   * With a width-respecting parser, each of the five structures of a marshalled table starts at
   * the offset the control block records for it, with the prefix built from its ID, length,
   * index and flags.
   */
  lemma StructuresPlaced(t: Ibft, parse: Parser, k: nat)
    requires Respects(parse)
    requires Marshal(t, parse).Ok?
    requires k < 5
    ensures PrefixOk(Structures(t)[k])
    ensures RecordedOffsets[k] + PrefixLen <= HeadersLen
    ensures Marshal(t, parse).value[RecordedOffsets[k]..RecordedOffsets[k] + PrefixLen] == StructPrefix(Structures(t)[k]).value
  {
    var h := MarshalHead(t, parse);
    TopPlaced(t, StartTable(Pack([t.multi]).value), parse, k, h);
    HeadSlice(h.head, h.heap, RecordedOffsets[k], PrefixLen);
  }

  /** The traversal of the table writes structure k's prefix at its recorded offset. */
  lemma TopPlaced(t: Ibft, start: HeapTable, parse: Parser, k: nat, h: HeapTable)
    requires Respects(parse)
    requires |start.head| == HeaderLen + ControlLen
    requires Traverse(TopFields(t), start, parse) == Ok(h)
    requires k < 5
    ensures PrefixOk(Structures(t)[k])
    ensures RecordedOffsets[k] + PrefixLen <= |h.head|
    ensures h.head[RecordedOffsets[k]..RecordedOffsets[k] + PrefixLen] == StructPrefix(Structures(t)[k]).value
  {
    StructOffset(t, k);
    SubPlaced(TopFields(t), start, parse, k + 2, Structures(t)[k], RecordedOffsets[k], h);
  }

  /** Structure k is field k + 2 of the table, and its layout offset is the one the control block records. */
  lemma StructOffset(t: Ibft, k: nat)
    requires k < 5
    ensures TopFields(t)[k + 2] == Sub(Structures(t)[k])
    ensures HeaderLen + ControlLen + Offset(Shape(TopFields(t)), k + 2) == RecordedOffsets[k]
    ensures RecordedOffsets[k] + PrefixLen <= HeadersLen
  {
    TopLayout(t);
    RecordedOffsetsArePrefixSums();
  }

  /** Appending the heap leaves the head's bytes where they were. */
  lemma HeadSlice(head: seq<byte>, heap: seq<byte>, a: nat, n: nat)
    requires a + n <= |head|
    ensures (head + heap)[a..a + n] == head[a..a + n]
    ensures forall i :: a <= i < a + n ==> (head + heap)[i] == head[i]
  {
  }

  /** The heap's bytes sit right after the head. */
  lemma HeapSlice(head: seq<byte>, heap: seq<byte>, b: nat, n: nat)
    requires b + n <= |heap|
    ensures (head + heap)[|head| + b..|head| + b + n] == heap[b..b + n]
  {
  }

  /** A reference that holds in a full head still holds once the heap is appended behind it. */
  lemma SlotInTable(h: HeapTable, sl: Slot)
    requires Holds(h, sl)
    requires |h.head| == HeadersLen
    ensures sl.at + HeapRefWidth <= HeadersLen
    ensures Get16(h.head + h.heap, sl.at + 2) == HeadersLen + sl.heapAt
    ensures HeapEntry(h.head + h.heap, sl.at) == Some(sl.data)
  {
    HeadSlice(h.head, h.heap, sl.at, HeapRefWidth);
    HeapSlice(h.head, h.heap, sl.heapAt, |sl.data|);
  }

  /** Follows a heap reference: the length at at, the absolute offset at at + 2, and the bytes found there. */
  function HeapEntry(table: seq<byte>, at: nat): (r: Option<seq<byte>>)
    ensures r.Some? <==> at + HeapRefWidth <= |table| && Get16(table, at + 2) + Get16(table, at) <= |table|
    ensures r.Some? ==> |r.value| == Get16(table, at) && r.value == table[Get16(table, at + 2)..Get16(table, at + 2) + Get16(table, at)]
  {
    if at + HeapRefWidth > |table| then None
    else
      var len := Get16(table, at);
      var offset := Get16(table, at + 2);
      if offset + len <= |table| then Some(table[offset..offset + len]) else None
  }

  /**
   * With a width-respecting parser, every heap reference a marshalled table holds lies in the
   * head, points past the head, and leads back to exactly the string that was written.
   */
  lemma HeapReferences(t: Ibft, parse: Parser)
    requires Respects(parse)
    requires Marshal(t, parse).Ok?
    ensures forall sl :: sl in Slots(TopFields(t), HeaderLen + ControlLen, 0) ==>
      && sl.at + HeapRefWidth <= HeadersLen
      && Get16(Marshal(t, parse).value, sl.at + 2) == HeadersLen + sl.heapAt
      && HeapEntry(Marshal(t, parse).value, sl.at) == Some(sl.data)
  {
    var h := MarshalHead(t, parse);
    TraverseSlots(TopFields(t), StartTable(Pack([t.multi]).value), parse);
    forall sl | sl in Slots(TopFields(t), HeaderLen + ControlLen, 0)
      ensures && sl.at + HeapRefWidth <= HeadersLen
              && Get16(Marshal(t, parse).value, sl.at + 2) == HeadersLen + sl.heapAt
              && HeapEntry(Marshal(t, parse).value, sl.at) == Some(sl.data)
    {
      SlotInTable(h, sl);
    }
  }

  /**
   * With a width-respecting parser, every heap string of structure k can be found again in the
   * marshalled table: the length and offset written at its field's position in the structure
   * lead back to exactly its bytes.
   */
  lemma HeapFieldFound(t: Ibft, parse: Parser, k: nat, j: nat)
    requires Respects(parse)
    requires Marshal(t, parse).Ok?
    requires k < 5
    requires j < |Body(Structures(t)[k])| && Body(Structures(t)[k])[j].SHeap?
    ensures RecordedOffsets[k] + PrefixLen + Offset(Shape(Body(Structures(t)[k])), j) + HeapRefWidth <= HeadersLen
    ensures HeapEntry(Marshal(t, parse).value, RecordedOffsets[k] + PrefixLen + Offset(Shape(Body(Structures(t)[k])), j))
         == Some(Body(Structures(t)[k])[j].data)
  {
    var sl := StructSlot(t, k, j);
    HeapReferences(t, parse);
  }

  /** The reference heap field j of structure k writes is one of the table's references. */
  lemma StructSlot(t: Ibft, k: nat, j: nat) returns (sl: Slot)
    requires k < 5
    requires j < |Body(Structures(t)[k])| && Body(Structures(t)[k])[j].SHeap?
    ensures sl in Slots(TopFields(t), HeaderLen + ControlLen, 0)
    ensures sl.at == RecordedOffsets[k] + PrefixLen + Offset(Shape(Body(Structures(t)[k])), j)
    ensures sl.data == Body(Structures(t)[k])[j].data
  {
    StructOffset(t, k);
    sl := NestedSlot(TopFields(t), HeaderLen + ControlLen, k + 2, Structures(t)[k], j, RecordedOffsets[k]);
  }

  /** Bytes in a full head read back the same once the heap is appended behind it. */
  lemma {:induction false} PlacedInTable(h: HeapTable, parse: Parser, sc: ScalarSlot)
    requires Placed(h, parse, sc)
    requires |h.head| == HeadersLen
    ensures sc.at + WireWidth(sc.wire) <= HeadersLen
    ensures ScalarEntry(h.head + h.heap, sc.at, sc.wire) == parse(sc.wire, sc.text)
  {
    assert (h.head + h.heap)[sc.at..sc.at + WireWidth(sc.wire)] == h.head[sc.at..sc.at + WireWidth(sc.wire)];
  }

  /**
   * With a width-respecting parser, every scalar a marshalled table holds lies in the head and
   * reads back as exactly the bytes its text parses to.
   */
  lemma {:induction false} ScalarReferences(t: Ibft, parse: Parser)
    requires Respects(parse)
    requires Marshal(t, parse).Ok?
    ensures forall sc :: sc in Scalars(TopFields(t), HeaderLen + ControlLen) ==>
      && sc.at + WireWidth(sc.wire) <= HeadersLen
      && ScalarEntry(Marshal(t, parse).value, sc.at, sc.wire) == parse(sc.wire, sc.text)
  {
    var h := MarshalHead(t, parse);
    TraverseScalars(TopFields(t), StartTable(Pack([t.multi]).value), parse);
    forall sc | sc in Scalars(TopFields(t), HeaderLen + ControlLen)
      ensures && sc.at + WireWidth(sc.wire) <= HeadersLen
              && ScalarEntry(Marshal(t, parse).value, sc.at, sc.wire) == parse(sc.wire, sc.text)
    {
      PlacedInTable(h, parse, sc);
    }
  }

  /**
   * With a width-respecting parser, every scalar field of structure k of a marshalled table
   * sits at the structure's recorded offset plus its prefix plus the field's offset in the
   * body, inside the head: reading it back gives exactly the bytes its text parses to.
   */
  lemma {:induction false} ScalarFieldFound(t: Ibft, parse: Parser, k: nat, j: nat)
    requires Respects(parse)
    requires Marshal(t, parse).Ok?
    requires k < 5
    requires j < |Body(Structures(t)[k])| && Body(Structures(t)[k])[j].Scalar?
    ensures RecordedOffsets[k] + PrefixLen + Offset(Shape(Body(Structures(t)[k])), j) + WireWidth(Body(Structures(t)[k])[j].wire) <= HeadersLen
    ensures ScalarEntry(Marshal(t, parse).value, RecordedOffsets[k] + PrefixLen + Offset(Shape(Body(Structures(t)[k])), j), Body(Structures(t)[k])[j].wire)
         == parse(Body(Structures(t)[k])[j].wire, Body(Structures(t)[k])[j].text)
  {
    var sc := StructScalarSlot(t, k, j);
    ScalarReference(t, parse, sc);
  }

  /** ScalarReferences, for one scalar of the table. */
  lemma {:induction false} ScalarReference(t: Ibft, parse: Parser, sc: ScalarSlot)
    requires Respects(parse)
    requires Marshal(t, parse).Ok?
    requires sc in Scalars(TopFields(t), HeaderLen + ControlLen)
    ensures sc.at + WireWidth(sc.wire) <= HeadersLen
    ensures ScalarEntry(Marshal(t, parse).value, sc.at, sc.wire) == parse(sc.wire, sc.text)
  {
    ScalarReferences(t, parse);
  }

  /** The scalar field j of structure k writes is one of the table's scalars. */
  lemma {:induction false} StructScalarSlot(t: Ibft, k: nat, j: nat) returns (sc: ScalarSlot)
    requires k < 5
    requires j < |Body(Structures(t)[k])| && Body(Structures(t)[k])[j].Scalar?
    ensures sc in Scalars(TopFields(t), HeaderLen + ControlLen)
    ensures sc.at == RecordedOffsets[k] + PrefixLen + Offset(Shape(Body(Structures(t)[k])), j)
    ensures sc.wire == Body(Structures(t)[k])[j].wire && sc.text == Body(Structures(t)[k])[j].text
  {
    StructOffset(t, k);
    sc := NestedScalarSlot(TopFields(t), HeaderLen + ControlLen, k + 2, Structures(t)[k], j, RecordedOffsets[k]);
  }

  /**
   * The Initiator's iSNS, SLP, primary and secondary RADIUS servers are the 16-byte addresses
   * at table bytes 72, 88, 104 and 120 (offset tags 6, 22, 38 and 54).
   */
  lemma {:induction false} InitiatorScalarsFound(t: Ibft, parse: Parser)
    requires Respects(parse)
    requires Marshal(t, parse).Ok?
    ensures ScalarEntry(Marshal(t, parse).value, 72, IpAddr) == parse(IpAddr, t.initiator.snsServer)
    ensures ScalarEntry(Marshal(t, parse).value, 88, IpAddr) == parse(IpAddr, t.initiator.slpServer)
    ensures ScalarEntry(Marshal(t, parse).value, 104, IpAddr) == parse(IpAddr, t.initiator.primaryRadiusServer)
    ensures ScalarEntry(Marshal(t, parse).value, 120, IpAddr) == parse(IpAddr, t.initiator.secondaryRadiusServer)
  {
    InitiatorSlots(t);
    ScalarReference(t, parse, ScalarSlot(72, IpAddr, t.initiator.snsServer));
    ScalarReference(t, parse, ScalarSlot(88, IpAddr, t.initiator.slpServer));
    ScalarReference(t, parse, ScalarSlot(104, IpAddr, t.initiator.primaryRadiusServer));
    ScalarReference(t, parse, ScalarSlot(120, IpAddr, t.initiator.secondaryRadiusServer));
  }

  /** The Initiator's four server addresses are among the table's scalars, at bytes 72, 88, 104 and 120. */
  lemma {:induction false} InitiatorSlots(t: Ibft)
    ensures ScalarSlot(72, IpAddr, t.initiator.snsServer) in Scalars(TopFields(t), HeaderLen + ControlLen)
    ensures ScalarSlot(88, IpAddr, t.initiator.slpServer) in Scalars(TopFields(t), HeaderLen + ControlLen)
    ensures ScalarSlot(104, IpAddr, t.initiator.primaryRadiusServer) in Scalars(TopFields(t), HeaderLen + ControlLen)
    ensures ScalarSlot(120, IpAddr, t.initiator.secondaryRadiusServer) in Scalars(TopFields(t), HeaderLen + ControlLen)
  {
    StructOffset(t, 0);
    RecordedOffsetsArePrefixSums();
    InitiatorSlotsIn(TopFields(t), HeaderLen + ControlLen, 2, t.initiator, RecordedOffsets[0]);
  }

  /** An Initiator at field i, laid out at a, has its four server addresses at a + 6, a + 22, a + 38 and a + 54. */
  lemma {:induction false} InitiatorSlotsIn(fs: seq<Field>, at: nat, i: nat, ini: Initiator, a: nat)
    requires i < |fs| && fs[i] == Sub(InitiatorStruct(ini))
    requires a == at + Offset(Shape(fs), i)
    ensures ScalarSlot(a + 6, IpAddr, ini.snsServer) in Scalars(fs, at)
    ensures ScalarSlot(a + 22, IpAddr, ini.slpServer) in Scalars(fs, at)
    ensures ScalarSlot(a + 38, IpAddr, ini.primaryRadiusServer) in Scalars(fs, at)
    ensures ScalarSlot(a + 54, IpAddr, ini.secondaryRadiusServer) in Scalars(fs, at)
  {
    var s := InitiatorStruct(ini);
    InitiatorTags(s);
    NestedScalarAt(fs, at, i, s, 2, a, 6, IpAddr, ini.snsServer);
    NestedScalarAt(fs, at, i, s, 3, a, 22, IpAddr, ini.slpServer);
    NestedScalarAt(fs, at, i, s, 4, a, 38, IpAddr, ini.primaryRadiusServer);
    NestedScalarAt(fs, at, i, s, 5, a, 54, IpAddr, ini.secondaryRadiusServer);
  }

  /** Each NIC's address, subnet prefix, origin and gateway sit at tags 6, 22, 23 and 24 of its structure. */
  lemma {:induction false} NicAddressFound(t: Ibft, parse: Parser, k: nat)
    requires Respects(parse)
    requires Marshal(t, parse).Ok?
    requires k == 1 || k == 3
    ensures ScalarEntry(Marshal(t, parse).value, RecordedOffsets[k] + 6, IpAddr) == parse(IpAddr, Structures(t)[k].nic.ipAddress)
    ensures ScalarEntry(Marshal(t, parse).value, RecordedOffsets[k] + 22, U8) == parse(U8, Structures(t)[k].nic.subNet)
    ensures ScalarEntry(Marshal(t, parse).value, RecordedOffsets[k] + 23, U8) == parse(U8, Structures(t)[k].nic.origin)
    ensures ScalarEntry(Marshal(t, parse).value, RecordedOffsets[k] + 24, IpAddr) == parse(IpAddr, Structures(t)[k].nic.gateway)
  {
    var n := Structures(t)[k].nic;
    var at := RecordedOffsets[k];
    NicSlots(t, k);
    ScalarReference(t, parse, ScalarSlot(at + 6, IpAddr, n.ipAddress));
    ScalarReference(t, parse, ScalarSlot(at + 22, U8, n.subNet));
    ScalarReference(t, parse, ScalarSlot(at + 23, U8, n.origin));
    ScalarReference(t, parse, ScalarSlot(at + 24, IpAddr, n.gateway));
  }

  /** Each NIC's primary and secondary DNS and DHCP servers sit at tags 40, 56 and 72 of its structure. */
  lemma {:induction false} NicServersFound(t: Ibft, parse: Parser, k: nat)
    requires Respects(parse)
    requires Marshal(t, parse).Ok?
    requires k == 1 || k == 3
    ensures ScalarEntry(Marshal(t, parse).value, RecordedOffsets[k] + 40, IpAddr) == parse(IpAddr, Structures(t)[k].nic.primaryDns)
    ensures ScalarEntry(Marshal(t, parse).value, RecordedOffsets[k] + 56, IpAddr) == parse(IpAddr, Structures(t)[k].nic.secondaryDns)
    ensures ScalarEntry(Marshal(t, parse).value, RecordedOffsets[k] + 72, IpAddr) == parse(IpAddr, Structures(t)[k].nic.dhcp)
  {
    var n := Structures(t)[k].nic;
    var at := RecordedOffsets[k];
    NicSlots(t, k);
    ScalarReference(t, parse, ScalarSlot(at + 40, IpAddr, n.primaryDns));
    ScalarReference(t, parse, ScalarSlot(at + 56, IpAddr, n.secondaryDns));
    ScalarReference(t, parse, ScalarSlot(at + 72, IpAddr, n.dhcp));
  }

  /** Each NIC's VLAN, MAC address and PCI bus/device/function sit at tags 88, 90 and 96 of its structure. */
  lemma {:induction false} NicLinkFound(t: Ibft, parse: Parser, k: nat)
    requires Respects(parse)
    requires Marshal(t, parse).Ok?
    requires k == 1 || k == 3
    ensures ScalarEntry(Marshal(t, parse).value, RecordedOffsets[k] + 88, U16) == parse(U16, Structures(t)[k].nic.vlan)
    ensures ScalarEntry(Marshal(t, parse).value, RecordedOffsets[k] + 90, Mac) == parse(Mac, Structures(t)[k].nic.macAddress)
    ensures ScalarEntry(Marshal(t, parse).value, RecordedOffsets[k] + 96, Bdf) == parse(Bdf, Structures(t)[k].nic.pciBdf)
  {
    var n := Structures(t)[k].nic;
    var at := RecordedOffsets[k];
    NicSlots(t, k);
    ScalarReference(t, parse, ScalarSlot(at + 88, U16, n.vlan));
    ScalarReference(t, parse, ScalarSlot(at + 90, Mac, n.macAddress));
    ScalarReference(t, parse, ScalarSlot(at + 96, Bdf, n.pciBdf));
  }

  /** A NIC's ten scalars are among the table's scalars, at tags 6 to 96 of its structure. */
  lemma {:induction false} NicSlots(t: Ibft, k: nat)
    requires k == 1 || k == 3
    ensures NicSlotsAt(Scalars(TopFields(t), HeaderLen + ControlLen), Structures(t)[k].nic, RecordedOffsets[k])
  {
    StructOffset(t, k);
    NicSlotsIn(TopFields(t), HeaderLen + ControlLen, k + 2, Structures(t)[k].nic, RecordedOffsets[k]);
  }

  /** The ten scalars of NIC n, laid out at a, are all in the list. */
  predicate NicSlotsAt(all: seq<ScalarSlot>, n: Nic, a: nat)
  {
    && ScalarSlot(a + 6, IpAddr, n.ipAddress) in all
    && ScalarSlot(a + 22, U8, n.subNet) in all
    && ScalarSlot(a + 23, U8, n.origin) in all
    && ScalarSlot(a + 24, IpAddr, n.gateway) in all
    && ScalarSlot(a + 40, IpAddr, n.primaryDns) in all
    && ScalarSlot(a + 56, IpAddr, n.secondaryDns) in all
    && ScalarSlot(a + 72, IpAddr, n.dhcp) in all
    && ScalarSlot(a + 88, U16, n.vlan) in all
    && ScalarSlot(a + 90, Mac, n.macAddress) in all
    && ScalarSlot(a + 96, Bdf, n.pciBdf) in all
  }

  /** A NIC at field i, laid out at a, has its ten scalars at a plus their offset tags. */
  lemma {:induction false} NicSlotsIn(fs: seq<Field>, at: nat, i: nat, n: Nic, a: nat)
    requires i < |fs| && fs[i] == Sub(NicStruct(n))
    requires a == at + Offset(Shape(fs), i)
    ensures NicSlotsAt(Scalars(fs, at), n, a)
  {
    var s := NicStruct(n);
    NicTags(s);
    NestedScalarAt(fs, at, i, s, 4, a, 6, IpAddr, n.ipAddress);
    NestedScalarAt(fs, at, i, s, 5, a, 22, U8, n.subNet);
    NestedScalarAt(fs, at, i, s, 6, a, 23, U8, n.origin);
    NestedScalarAt(fs, at, i, s, 7, a, 24, IpAddr, n.gateway);
    NestedScalarAt(fs, at, i, s, 8, a, 40, IpAddr, n.primaryDns);
    NestedScalarAt(fs, at, i, s, 9, a, 56, IpAddr, n.secondaryDns);
    NestedScalarAt(fs, at, i, s, 10, a, 72, IpAddr, n.dhcp);
    NestedScalarAt(fs, at, i, s, 11, a, 88, U16, n.vlan);
    NestedScalarAt(fs, at, i, s, 12, a, 90, Mac, n.macAddress);
    NestedScalarAt(fs, at, i, s, 13, a, 96, Bdf, n.pciBdf);
  }

  /**
   * Each Target's socket address (address at tag 6, port at 22), boot LUN, CHAP type and NIC
   * association sit at tags 6, 24, 32 and 33 of its structure.
   */
  lemma {:induction false} TargetScalarsFound(t: Ibft, parse: Parser, k: nat)
    requires Respects(parse)
    requires Marshal(t, parse).Ok?
    requires k == 2 || k == 4
    ensures ScalarEntry(Marshal(t, parse).value, RecordedOffsets[k] + 6, SockAddr) == parse(SockAddr, Structures(t)[k].target.targetIp)
    ensures ScalarEntry(Marshal(t, parse).value, RecordedOffsets[k] + 24, U64) == parse(U64, Structures(t)[k].target.bootLun)
    ensures ScalarEntry(Marshal(t, parse).value, RecordedOffsets[k] + 32, U8) == parse(U8, Structures(t)[k].target.chapType)
    ensures ScalarEntry(Marshal(t, parse).value, RecordedOffsets[k] + 33, U8) == parse(U8, Structures(t)[k].target.association)
  {
    var g := Structures(t)[k].target;
    var at := RecordedOffsets[k];
    TargetSlots(t, k);
    ScalarReference(t, parse, ScalarSlot(at + 6, SockAddr, g.targetIp));
    ScalarReference(t, parse, ScalarSlot(at + 24, U64, g.bootLun));
    ScalarReference(t, parse, ScalarSlot(at + 32, U8, g.chapType));
    ScalarReference(t, parse, ScalarSlot(at + 33, U8, g.association));
  }

  /** A Target's four scalars are among the table's scalars, at tags 6, 24, 32 and 33 of its structure. */
  lemma {:induction false} TargetSlots(t: Ibft, k: nat)
    requires k == 2 || k == 4
    ensures TargetSlotsAt(Scalars(TopFields(t), HeaderLen + ControlLen), Structures(t)[k].target, RecordedOffsets[k])
  {
    StructOffset(t, k);
    TargetSlotsIn(TopFields(t), HeaderLen + ControlLen, k + 2, Structures(t)[k].target, RecordedOffsets[k]);
  }

  /** The four scalars of Target g, laid out at a, are all in the list. */
  predicate TargetSlotsAt(all: seq<ScalarSlot>, g: Target, a: nat)
  {
    && ScalarSlot(a + 6, SockAddr, g.targetIp) in all
    && ScalarSlot(a + 24, U64, g.bootLun) in all
    && ScalarSlot(a + 32, U8, g.chapType) in all
    && ScalarSlot(a + 33, U8, g.association) in all
  }

  /** A Target at field i, laid out at a, has its four scalars at a plus their offset tags. */
  lemma {:induction false} TargetSlotsIn(fs: seq<Field>, at: nat, i: nat, g: Target, a: nat)
    requires i < |fs| && fs[i] == Sub(TargetStruct(g))
    requires a == at + Offset(Shape(fs), i)
    ensures TargetSlotsAt(Scalars(fs, at), g, a)
  {
    var s := TargetStruct(g);
    TargetScalarTags(s);
    NestedScalarAt(fs, at, i, s, 5, a, 6, SockAddr, g.targetIp);
    NestedScalarAt(fs, at, i, s, 6, a, 24, U64, g.bootLun);
    NestedScalarAt(fs, at, i, s, 7, a, 32, U8, g.chapType);
    NestedScalarAt(fs, at, i, s, 8, a, 33, U8, g.association);
  }

  /** An Initiator's four server addresses are its third to sixth fields, at tags 6, 22, 38 and 54. */
  lemma InitiatorTags(s: Struct)
    requires s.InitiatorStruct?
    ensures |Body(s)| == 7
    ensures Body(s)[2] == Scalar(IpAddr, s.initiator.snsServer) && PrefixLen + Offset(Shape(Body(s)), 2) == 6
    ensures Body(s)[3] == Scalar(IpAddr, s.initiator.slpServer) && PrefixLen + Offset(Shape(Body(s)), 3) == 22
    ensures Body(s)[4] == Scalar(IpAddr, s.initiator.primaryRadiusServer) && PrefixLen + Offset(Shape(Body(s)), 4) == 38
    ensures Body(s)[5] == Scalar(IpAddr, s.initiator.secondaryRadiusServer) && PrefixLen + Offset(Shape(Body(s)), 5) == 54
  {
    InitiatorLayout();
  }

  /** A NIC's ten scalars are its fifth to fourteenth fields, at tags 6 to 96. */
  lemma NicTags(s: Struct)
    requires s.NicStruct?
    ensures |Body(s)| == 15
    ensures Body(s)[4] == Scalar(IpAddr, s.nic.ipAddress) && PrefixLen + Offset(Shape(Body(s)), 4) == 6
    ensures Body(s)[5] == Scalar(U8, s.nic.subNet) && PrefixLen + Offset(Shape(Body(s)), 5) == 22
    ensures Body(s)[6] == Scalar(U8, s.nic.origin) && PrefixLen + Offset(Shape(Body(s)), 6) == 23
    ensures Body(s)[7] == Scalar(IpAddr, s.nic.gateway) && PrefixLen + Offset(Shape(Body(s)), 7) == 24
    ensures Body(s)[8] == Scalar(IpAddr, s.nic.primaryDns) && PrefixLen + Offset(Shape(Body(s)), 8) == 40
    ensures Body(s)[9] == Scalar(IpAddr, s.nic.secondaryDns) && PrefixLen + Offset(Shape(Body(s)), 9) == 56
    ensures Body(s)[10] == Scalar(IpAddr, s.nic.dhcp) && PrefixLen + Offset(Shape(Body(s)), 10) == 72
    ensures Body(s)[11] == Scalar(U16, s.nic.vlan) && PrefixLen + Offset(Shape(Body(s)), 11) == 88
    ensures Body(s)[12] == Scalar(Mac, s.nic.macAddress) && PrefixLen + Offset(Shape(Body(s)), 12) == 90
    ensures Body(s)[13] == Scalar(Bdf, s.nic.pciBdf) && PrefixLen + Offset(Shape(Body(s)), 13) == 96
  {
    NicLayout();
  }

  /** A Target's four scalars are its sixth to ninth fields, at tags 6, 24, 32 and 33. */
  lemma TargetScalarTags(s: Struct)
    requires s.TargetStruct?
    ensures |Body(s)| == 14
    ensures Body(s)[5] == Scalar(SockAddr, s.target.targetIp) && PrefixLen + Offset(Shape(Body(s)), 5) == 6
    ensures Body(s)[6] == Scalar(U64, s.target.bootLun) && PrefixLen + Offset(Shape(Body(s)), 6) == 24
    ensures Body(s)[7] == Scalar(U8, s.target.chapType) && PrefixLen + Offset(Shape(Body(s)), 7) == 32
    ensures Body(s)[8] == Scalar(U8, s.target.association) && PrefixLen + Offset(Shape(Body(s)), 8) == 33
  {
    TargetLayout();
  }

  /** The Initiator's name is found through the length and offset at bytes 136..139 (offset tags 70 and 72). */
  lemma InitiatorNameFound(t: Ibft, parse: Parser)
    requires Respects(parse)
    requires Marshal(t, parse).Ok?
    ensures HeapEntry(Marshal(t, parse).value, 136) == Some(t.initiator.name)
  {
    HeapFieldFound(t, parse, 0, 6);
    StructLayout(InitiatorStruct(t.initiator));
    InitiatorLayout();
    RecordedOffsetsArePrefixSums();
  }

  /** Each NIC's host name is found through the length and offset at tag 98 of its structure. */
  lemma NicHostNameFound(t: Ibft, parse: Parser, k: nat)
    requires Respects(parse)
    requires Marshal(t, parse).Ok?
    requires k == 1 || k == 3
    ensures HeapEntry(Marshal(t, parse).value, RecordedOffsets[k] + 98) == Some(Structures(t)[k].nic.hostName)
  {
    var s := Structures(t)[k];
    NicTag(s);
    HeapFieldFound(t, parse, k, 14);
  }

  /** A NIC's host name is its fifteenth field, whose reference sits at tag 98. */
  lemma NicTag(s: Struct)
    requires s.NicStruct?
    ensures |Body(s)| == 15 && Body(s)[14] == SHeap(s.nic.hostName)
    ensures PrefixLen + Offset(Shape(Body(s)), 14) == 98
  {
    StructLayout(s);
    NicLayout();
  }

  /**
   * Each Target's name, CHAP name, CHAP secret, reverse CHAP name and reverse CHAP secret are
   * found through the length and offset at tags 34, 38, 42, 46 and 50 of its structure.
   */
  lemma TargetHeapFound(t: Ibft, parse: Parser, k: nat)
    requires Respects(parse)
    requires Marshal(t, parse).Ok?
    requires k == 2 || k == 4
    ensures HeapEntry(Marshal(t, parse).value, RecordedOffsets[k] + 34) == Some(Structures(t)[k].target.targetName)
    ensures HeapEntry(Marshal(t, parse).value, RecordedOffsets[k] + 38) == Some(Structures(t)[k].target.chapName)
    ensures HeapEntry(Marshal(t, parse).value, RecordedOffsets[k] + 42) == Some(Structures(t)[k].target.chapSecret)
    ensures HeapEntry(Marshal(t, parse).value, RecordedOffsets[k] + 46) == Some(Structures(t)[k].target.reverseChapName)
    ensures HeapEntry(Marshal(t, parse).value, RecordedOffsets[k] + 50) == Some(Structures(t)[k].target.reverseChapSecret)
  {
    TargetTags(Structures(t)[k]);
    HeapTagFound(t, parse, k, 9, 34);
    HeapTagFound(t, parse, k, 10, 38);
    HeapTagFound(t, parse, k, 11, 42);
    HeapTagFound(t, parse, k, 12, 46);
    HeapTagFound(t, parse, k, 13, 50);
  }

  /** HeapFieldFound, for a heap field whose offset tag within its structure is already known. */
  lemma HeapTagFound(t: Ibft, parse: Parser, k: nat, j: nat, tag: nat)
    requires Respects(parse)
    requires Marshal(t, parse).Ok?
    requires k < 5
    requires j < |Body(Structures(t)[k])| && Body(Structures(t)[k])[j].SHeap?
    requires PrefixLen + Offset(Shape(Body(Structures(t)[k])), j) == tag
    ensures HeapEntry(Marshal(t, parse).value, RecordedOffsets[k] + tag) == Some(Body(Structures(t)[k])[j].data)
  {
    var out := Marshal(t, parse).value;
    var at := RecordedOffsets[k] + PrefixLen + Offset(Shape(Body(Structures(t)[k])), j);
    assert at == RecordedOffsets[k] + tag;
    assert HeapEntry(out, at) == Some(Body(Structures(t)[k])[j].data) by {
      HeapFieldFound(t, parse, k, j);
    }
  }

  /** A Target's heap strings are its last five fields, whose references sit at tags 34, 38, 42, 46 and 50. */
  lemma TargetTags(s: Struct)
    requires s.TargetStruct?
    ensures |Body(s)| == 14
    ensures Body(s)[9] == SHeap(s.target.targetName) && PrefixLen + Offset(Shape(Body(s)), 9) == 34
    ensures Body(s)[10] == SHeap(s.target.chapName) && PrefixLen + Offset(Shape(Body(s)), 10) == 38
    ensures Body(s)[11] == SHeap(s.target.chapSecret) && PrefixLen + Offset(Shape(Body(s)), 11) == 42
    ensures Body(s)[12] == SHeap(s.target.reverseChapName) && PrefixLen + Offset(Shape(Body(s)), 12) == 46
    ensures Body(s)[13] == SHeap(s.target.reverseChapSecret) && PrefixLen + Offset(Shape(Body(s)), 13) == 50
  {
    TargetOffsets(Shape(Body(s))) by {
      StructLayout(s);
    }
  }

  /** The offsets of the five heap references in any field list shaped like a Target body. */
  lemma TargetOffsets(ks: seq<Kind>)
    requires ks == TargetShape
    ensures PrefixLen + Offset(ks, 9) == 34
    ensures PrefixLen + Offset(ks, 10) == 38
    ensures PrefixLen + Offset(ks, 11) == 42
    ensures PrefixLen + Offset(ks, 12) == 46
    ensures PrefixLen + Offset(ks, 13) == 50
  {
    TargetLayout();
  }
}
