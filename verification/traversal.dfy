/**
 * The field-dispatch traversal: it walks a description object's fields in declaration order,
 * emits a structure-header prefix before each nested Initiator, NIC or Target and recurses into
 * its body, and hands every other field to the scalar or heap encoder.
 */
module Traversal {
  import opened Wrappers
  import opened Bytes
  import opened Flags
  import opened Layout
  import opened Fields

  /** Why marshalling stopped. */
  datatype Error =
    | BadFlags(flags: seq<Tri>)             // a flag handed to the packer was unset
    | BadIndex(index: Tri)                  // a NIC or Target index flag was unset
    | BadWire(wire: Wire, text: string)     // a scalar's text does not parse
    | HeapOverflow(length: nat, offset: nat) // a heap string does not fit 16-bit table offsets
    | HeadersLenMismatch(got: nat, want: nat) // the head came out at the wrong length

  /** The two growing buffers: the fixed-position head and the trailing heap. */
  datatype HeapTable = HeapTable(head: seq<byte>, heap: seq<byte>)

  /** Parses a scalar's text into its wire bytes, or rejects it. */
  type Parser = (Wire, string) -> Option<seq<byte>>

  /** Every text the parser accepts yields exactly the width of its wire type. */
  ghost predicate Respects(parse: Parser)
  {
    forall w, text :: parse(w, text).Some? ==> |parse(w, text).value| == WireWidth(w)
  }

  /** h' was reached from h by appending only: nothing already written changed. */
  predicate Extends(h: HeapTable, h': HeapTable)
  {
    h.head <= h'.head && h.heap <= h'.heap
  }

  /**
   * The index flags a sub-structure packs into its index byte: none for the Initiator, and for
   * a NIC or Target the flag field declared right after the packed flags. Together with those,
   * they are all of the structure's flag fields.
   */
  function IndexFlags(s: Struct): (fs: seq<Tri>)
    ensures |fs| <= 1
    ensures fs == [] <==> s.InitiatorStruct?
    ensures |StructFlags(s)| + |fs| < |Body(s)|
    ensures forall i :: 0 <= i < |fs| ==> Body(s)[|StructFlags(s)| + i] == Flag(fs[i])
    ensures forall i :: |StructFlags(s)| + |fs| <= i < |Body(s)| ==> !Body(s)[i].Flag?
  {
    match s
    case InitiatorStruct(_) => []
    case NicStruct(n) => [n.index]
    case TargetStruct(t) => [t.index]
  }

  /** The sub-structure's flags and index are all determinate, so its prefix can be written. */
  predicate PrefixOk(s: Struct)
  {
    AllSet(StructFlags(s)) && AllSet(IndexFlags(s))
  }

  /**
   * The 6-byte structure-header prefix of a sub-structure: its ID, version 1, its length
   * constant, its index (always 0 for the Initiator, the packed index flag otherwise) and its
   * packed flags. Packing the flags is tried before packing the index.
   */
  function StructPrefix(s: Struct): (r: Result<seq<byte>, Error>)
    ensures r.Ok? <==> PrefixOk(s)
    ensures !AllSet(StructFlags(s)) ==> r == Err(BadFlags(StructFlags(s)))
    ensures AllSet(StructFlags(s)) && !AllSet(IndexFlags(s)) ==> r == Err(BadIndex(IndexFlags(s)[0]))
    ensures r.Ok? ==> |r.value| == PrefixLen
  {
    match Pack(StructFlags(s))
    case None => Err(BadFlags(StructFlags(s)))
    case Some(f) =>
      match s
      case InitiatorStruct(_) =>
        Ok(EncodeHeader(StructHeader(InitiatorId, Version, InitiatorLen, 0, f)))
      case NicStruct(n) =>
        (match Pack([n.index])
         case None => Err(BadIndex(n.index))
         case Some(x) => Ok(EncodeHeader(StructHeader(NicId, Version, NicLen, x, f))))
      case TargetStruct(t) =>
        (match Pack([t.index])
         case None => Err(BadIndex(t.index))
         case Some(x) => Ok(EncodeHeader(StructHeader(TargetId, Version, TargetLen, x, f))))
  }

  /**
   * Decoding a sub-structure's prefix gives back its ID, version 1 and length constant, an index
   * of 1 exactly when its index flag is true, and a flags byte whose bit i is set exactly when
   * its i-th flag is true.
   */
  lemma PrefixFields(s: Struct)
    requires PrefixOk(s)
    ensures var p := DecodeHeader(StructPrefix(s).value);
      && p.id == StructId(s)
      && p.version == Version
      && p.length == StructLen(s)
      && (p.index == 1 <==> IndexFlags(s) == [True])
      && (p.index == 0 <==> IndexFlags(s) != [True])
      && (forall i :: 0 <= i < |StructFlags(s)| ==> (Bit(p.flags, i) <==> StructFlags(s)[i] == True))
      && (forall i :: i >= |StructFlags(s)| ==> !Bit(p.flags, i))
  {
    PackBits(StructFlags(s));
    PackBits(IndexFlags(s));
  }

  /**
   * The encoder for a field that is neither the Generic embedding nor a sub-structure. A flag
   * writes nothing. A scalar writes the bytes its text parses to. A heap string is appended to
   * the heap and its length and absolute table offset are written to the head; it is refused
   * when its end would lie beyond what a 16-bit offset can address.
   */
  function Emit(f: Field, h: HeapTable, parse: Parser): (r: Result<HeapTable, Error>)
    requires !f.Sub? && !f.Generic?
    ensures r.Ok? ==> Extends(h, r.value)
    ensures f.Flag? ==> r == Ok(h)
    ensures f.Scalar? ==> (r.Ok? <==> parse(f.wire, f.text).Some?)
    ensures f.Scalar? && r.Ok? ==> r.value == HeapTable(h.head + parse(f.wire, f.text).value, h.heap)
    ensures f.SHeap? ==> (r.Ok? <==> HeadersLen + |h.heap| + |f.data| < Uint16Limit)
    ensures f.SHeap? && r.Ok? ==>
      && |r.value.head| == |h.head| + HeapRefWidth
      && Get16(r.value.head, |h.head|) == |f.data|
      && Get16(r.value.head, |h.head| + 2) == HeadersLen + |h.heap|
      && r.value.heap == h.heap + f.data
  {
    match f
    case Flag(_) => Ok(h)
    case Scalar(w, text) =>
      (match parse(w, text)
       case None => Err(BadWire(w, text))
       case Some(b) => Ok(HeapTable(h.head + b, h.heap)))
    case SHeap(d) =>
      var offset := HeadersLen + |h.heap|;
      if offset + |d| >= Uint16Limit then Err(HeapOverflow(|d|, offset))
      else
        var head := h.head + LE16(|d|) + LE16(offset);
        assert head[|h.head|..|h.head| + 2] == LE16(|d|);
        assert head[|h.head| + 2..|h.head| + 4] == LE16(offset);
        Ok(HeapTable(head, h.heap + d))
  }

  /** 1 when some field is a sub-structure; the traversal recurses at most one level down. */
  ghost function Rank(fs: seq<Field>): nat
  {
    if exists f :: f in fs && f.Sub? then 1 else 0
  }

  lemma RankFacts(fs: seq<Field>)
    requires |fs| > 0
    ensures Rank(fs[1..]) <= Rank(fs)
    ensures Rank([fs[0]]) <= Rank(fs)
  {
    if exists f :: f in fs[1..] && f.Sub? {
      var f :| f in fs[1..] && f.Sub?;
      assert f in fs;
    }
    if fs[0].Sub? {
      assert fs[0] in fs;
    }
  }

  lemma RankSub(s: Struct)
    ensures Rank([Sub(s)]) == 1
    ensures Rank(Body(s)) == 0
  {
    assert Sub(s) in [Sub(s)];
  }

  /** The bytes one field appends to the heap. */
  function FieldHeap(f: Field): seq<byte>
    decreases Rank([f]), 0
  {
    match f
    case SHeap(d) => d
    case Sub(s) => RankSub(s); HeapData(Body(s))
    case _ => []
  }

  /** The bytes the traversal appends to the heap: every heap string, in traversal order. */
  function HeapData(fs: seq<Field>): seq<byte>
    decreases Rank(fs), |fs|
  {
    if |fs| == 0 then []
    else RankFacts(fs); FieldHeap(fs[0]) + HeapData(fs[1..])
  }

  /** The field can be encoded: a scalar's text parses; a sub-structure's flags, index and fields are valid. */
  predicate FieldValid(f: Field, parse: Parser)
    decreases Rank([f]), 0
  {
    match f
    case Scalar(w, text) => parse(w, text).Some?
    case Sub(s) => RankSub(s); PrefixOk(s) && Valid(Body(s), parse)
    case _ => true
  }

  /** Every field can be encoded. */
  predicate Valid(fs: seq<Field>, parse: Parser)
    decreases Rank(fs), |fs|
  {
    |fs| == 0 || (RankFacts(fs); FieldValid(fs[0], parse) && Valid(fs[1..], parse))
  }

  /**
   * Encodes one field. The Generic embedding emits nothing; a nested Initiator, NIC or Target
   * gets its prefix and then its own fields; anything else goes to the scalar or heap encoder.
   */
  function Step(f: Field, h: HeapTable, parse: Parser): (r: Result<HeapTable, Error>)
    ensures r.Ok? ==> Extends(h, r.value)
    ensures r.Ok? ==> r.value.heap == h.heap + FieldHeap(f)
    ensures r.Err? ==> !r.error.HeadersLenMismatch?
    ensures f.Generic? || f.Flag? ==> r == Ok(h)
    decreases Rank([f]), 0
  {
    match f
    case Generic => Ok(h)
    case Sub(s) =>
      RankSub(s);
      (match StructPrefix(s)
       case Err(e) => Err(e)
       case Ok(p) => Traverse(Body(s), HeapTable(h.head + p, h.heap), parse))
    case _ => Emit(f, h, parse)
  }

  /** Encodes the fields in declaration order; the first failure stops the walk. */
  function Traverse(fs: seq<Field>, h: HeapTable, parse: Parser): (r: Result<HeapTable, Error>)
    ensures r.Ok? ==> Extends(h, r.value)
    ensures r.Ok? ==> r.value.heap == h.heap + HeapData(fs)
    ensures r.Err? ==> !r.error.HeadersLenMismatch?
    decreases Rank(fs), |fs|
  {
    if |fs| == 0 then Ok(h)
    else
      RankFacts(fs);
      match Step(fs[0], h, parse)
      case Err(e) => Err(e)
      case Ok(h1) =>
        var r := Traverse(fs[1..], h1, parse);
        if r.Ok? then
          ExtendsChain(h, h1, r.value, FieldHeap(fs[0]), HeapData(fs[1..]));
          r
        else r
  }

  /** Two appending steps make one, and their heap additions concatenate. */
  lemma ExtendsChain(h: HeapTable, h1: HeapTable, h2: HeapTable, a: seq<byte>, b: seq<byte>)
    requires Extends(h, h1) && h1.heap == h.heap + a
    requires Extends(h1, h2) && h2.heap == h1.heap + b
    ensures Extends(h, h2) && h2.heap == h.heap + (a + b)
  {
  }
}
