/**
 * What the traversal guarantees about where things land: when it succeeds, the head grows by
 * exactly the declared widths, every nested structure's prefix sits at its layout offset, every
 * scalar's parsed bytes sit at its layout offset, and every heap string can be found again
 * through the length and offset written for it.
 *
 * Some lemmas here carry `{:induction false}` although they are not recursive. They take
 * head positions as `nat` parameters, and the attribute stops Dafny from adding induction
 * hypotheses over those positions, which would only make their proofs costlier.
 */
module Placement {
  import opened Wrappers
  import opened Bytes
  import opened Flags
  import opened Layout
  import opened Fields
  import opened Traversal

  /** Peeling the first field off a field list peels its width off every span and offset. */
  lemma ShapeCons(fs: seq<Field>, j: nat)
    requires 0 < j <= |fs|
    ensures Span(Shape(fs)) == Width(KindOf(fs[0])) + Span(Shape(fs[1..]))
    ensures Offset(Shape(fs), j) == Width(KindOf(fs[0])) + Offset(Shape(fs[1..]), j - 1)
  {
    assert Shape(fs)[1..] == Shape(fs[1..]);
    OffsetCons(Shape(fs), j);
    OffsetCons(Shape(fs), |fs|);
  }

  /** A successful traversal is a successful first step followed by a successful traversal of the rest. */
  lemma TraverseCons(fs: seq<Field>, h: HeapTable, parse: Parser)
    requires |fs| > 0
    requires Traverse(fs, h, parse).Ok?
    ensures Step(fs[0], h, parse).Ok?
    ensures Traverse(fs[1..], Step(fs[0], h, parse).value, parse) == Traverse(fs, h, parse)
  {
  }

  /** A successful sub-structure step is its prefix followed by a successful traversal of its body. */
  lemma StepSub(s: Struct, h: HeapTable, parse: Parser)
    requires Step(Sub(s), h, parse).Ok?
    ensures StructPrefix(s).Ok?
    ensures Traverse(Body(s), HeapTable(h.head + StructPrefix(s).value, h.heap), parse) == Step(Sub(s), h, parse)
  {
  }

  /**
   * Starting from a heap whose next offset is addressable, one field encodes exactly when it is
   * valid and its heap bytes still end within 16-bit reach.
   */
  lemma {:induction false} StepSucceeds(f: Field, h: HeapTable, parse: Parser)
    requires HeadersLen + |h.heap| < Uint16Limit
    ensures Step(f, h, parse).Ok? <==> FieldValid(f, parse) && HeadersLen + |h.heap| + |FieldHeap(f)| < Uint16Limit
    decreases Rank([f]), 0
  {
    match f
    case Sub(s) =>
      RankSub(s);
      if PrefixOk(s) {
        TraverseSucceeds(Body(s), HeapTable(h.head + StructPrefix(s).value, h.heap), parse);
      }
    case _ =>
  }

  /**
   * The traversal succeeds exactly when every field is valid and the whole heap it appends
   * still ends within 16-bit reach of the table start.
   */
  lemma {:induction false} TraverseSucceeds(fs: seq<Field>, h: HeapTable, parse: Parser)
    requires HeadersLen + |h.heap| < Uint16Limit
    ensures Traverse(fs, h, parse).Ok? <==> Valid(fs, parse) && HeadersLen + |h.heap| + |HeapData(fs)| < Uint16Limit
    decreases Rank(fs), |fs|
  {
    if |fs| > 0 {
      RankFacts(fs);
      StepSucceeds(fs[0], h, parse);
      var st := Step(fs[0], h, parse);
      if st.Ok? {
        TraverseSucceeds(fs[1..], st.value, parse);
      }
    }
  }

  /** With a width-respecting parser, one field grows the head by its kind's width. */
  lemma {:induction false} StepWidth(f: Field, h: HeapTable, parse: Parser)
    requires Respects(parse)
    requires Step(f, h, parse).Ok?
    ensures |Step(f, h, parse).value.head| == |h.head| + Width(KindOf(f))
    decreases Rank([f]), 0
  {
    match f
    case Sub(s) =>
      RankSub(s);
      TraverseWidth(Body(s), HeapTable(h.head + StructPrefix(s).value, h.heap), parse);
      StructLayout(s);
    case _ =>
  }

  /** With a width-respecting parser, the traversal grows the head by the span of the field kinds. */
  lemma {:induction false} TraverseWidth(fs: seq<Field>, h: HeapTable, parse: Parser)
    requires Respects(parse)
    requires Traverse(fs, h, parse).Ok?
    ensures |Traverse(fs, h, parse).value.head| == |h.head| + Span(Shape(fs))
    decreases Rank(fs), |fs|
  {
    if |fs| > 0 {
      RankFacts(fs);
      StepWidth(fs[0], h, parse);
      TraverseWidth(fs[1..], Step(fs[0], h, parse).value, parse);
      ShapeCons(fs, 1);
    }
  }

  /** A successful traversal splits at any field into a successful traversal of the fields before it and one of the rest. */
  lemma TraverseSplit(fs: seq<Field>, h: HeapTable, parse: Parser, j: nat)
    requires Traverse(fs, h, parse).Ok?
    requires j <= |fs|
    ensures Traverse(fs[..j], h, parse).Ok?
    ensures Traverse(fs[j..], Traverse(fs[..j], h, parse).value, parse) == Traverse(fs, h, parse)
  {
    assert fs[..j] + fs[j..] == fs;
    TraverseAppend(fs[..j], fs[j..], h, parse);
  }

  /** The span of the first j fields is the offset of field j. */
  lemma ShapePrefix(fs: seq<Field>, j: nat)
    requires j <= |fs|
    ensures Span(Shape(fs[..j])) == Offset(Shape(fs), j)
  {
    assert Shape(fs[..j]) == Shape(fs)[..j];
    OffsetPrefix(Shape(fs), j, j);
  }

  /** Offsets up to j do not depend on the kinds from j on. */
  lemma {:induction false} OffsetPrefix(ks: seq<Kind>, j: nat, i: nat)
    requires i <= j <= |ks|
    ensures Offset(ks[..j], i) == Offset(ks, i)
    decreases i
  {
    if i > 0 {
      OffsetPrefix(ks, j, i - 1);
    }
  }

  /** A leading sub-structure's prefix is written right where the traversal starts. */
  lemma SubPlacedFirst(fs: seq<Field>, h: HeapTable, parse: Parser, s: Struct, out: HeapTable, a: nat)
    requires Traverse(fs, h, parse) == Ok(out)
    requires |fs| > 0 && fs[0] == Sub(s)
    requires a == |h.head|
    ensures PrefixOk(s)
    ensures a + PrefixLen <= |out.head|
    ensures out.head[a..a + PrefixLen] == StructPrefix(s).value
  {
    TraverseCons(fs, h, parse);
    StepSub(s, h, parse);
    PrefixKept(h.head, StructPrefix(s).value, Step(Sub(s), h, parse).value.head, out.head);
  }

  /**
   * With a width-respecting parser, a successful traversal with result out writes the prefix of
   * the sub-structure s at field j at head position a, the offset field j's position in the
   * list gives it.
   */
  lemma SubPlaced(fs: seq<Field>, h: HeapTable, parse: Parser, j: nat, s: Struct, a: nat, out: HeapTable)
    requires Respects(parse)
    requires Traverse(fs, h, parse) == Ok(out)
    requires j < |fs| && fs[j] == Sub(s)
    requires a == |h.head| + Offset(Shape(fs), j)
    ensures PrefixOk(s)
    ensures a + PrefixLen <= |out.head|
    ensures out.head[a..a + PrefixLen] == StructPrefix(s).value
  {
    var h1 := SplitAt(fs, h, parse, j, out);
    assert fs[j..][0] == Sub(s);
    SubPlacedFirst(fs[j..], h1, parse, s, out, a);
  }

  /** The table a successful traversal has built by the time it reaches field j. */
  lemma SplitAt(fs: seq<Field>, h: HeapTable, parse: Parser, j: nat, out: HeapTable) returns (h1: HeapTable)
    requires Respects(parse)
    requires Traverse(fs, h, parse) == Ok(out)
    requires j <= |fs|
    ensures Traverse(fs[..j], h, parse) == Ok(h1)
    ensures Traverse(fs[j..], h1, parse) == Ok(out)
    ensures |h1.head| == |h.head| + Offset(Shape(fs), j)
  {
    TraverseSplit(fs, h, parse, j);
    h1 := Traverse(fs[..j], h, parse).value;
    TraverseWidth(fs[..j], h, parse);
    ShapePrefix(fs, j);
  }

  /**
   * With a width-respecting parser, a successful traversal with result out writes the parsed
   * bytes of the scalar at field j at head position a, the offset field j's position in the
   * list gives it.
   */
  lemma {:induction false} ScalarPlaced(fs: seq<Field>, h: HeapTable, parse: Parser, j: nat, w: Wire, x: string, a: nat, out: HeapTable)
    requires Respects(parse)
    requires Traverse(fs, h, parse) == Ok(out)
    requires j < |fs| && fs[j] == Scalar(w, x)
    requires a == |h.head| + Offset(Shape(fs), j)
    ensures parse(w, x).Some?
    ensures a + WireWidth(w) <= |out.head|
    ensures out.head[a..a + WireWidth(w)] == parse(w, x).value
  {
    TraverseScalars(fs, h, parse);
    ScalarPlacedIn(fs, |h.head|, parse, j, w, x, a, out);
  }

  /** ScalarPlaced, for any table in which every scalar of the field list is placed. */
  lemma {:induction false} ScalarPlacedIn(fs: seq<Field>, at: nat, parse: Parser, j: nat, w: Wire, x: string, a: nat, out: HeapTable)
    requires AllPlaced(out, parse, Scalars(fs, at))
    requires j < |fs| && fs[j] == Scalar(w, x)
    requires a == at + Offset(Shape(fs), j)
    ensures parse(w, x).Some?
    ensures a + WireWidth(w) <= |out.head|
    ensures out.head[a..a + WireWidth(w)] == parse(w, x).value
  {
    ScalarSlotAt(fs, at, j, w, x, a);
    PlacedBytes(out, parse, Scalars(fs, at), a, w, x);
  }

  /**
   * With a width-respecting parser, the scalar at field j of the sub-structure at field i is
   * written at the structure's position plus its prefix plus the field's offset in the body.
   */
  lemma {:induction false} NestedScalar(fs: seq<Field>, h: HeapTable, parse: Parser, i: nat, s: Struct, j: nat, w: Wire, x: string, a: nat, out: HeapTable)
    requires Respects(parse)
    requires Traverse(fs, h, parse) == Ok(out)
    requires i < |fs| && fs[i] == Sub(s)
    requires j < |Body(s)| && Body(s)[j] == Scalar(w, x)
    requires a == |h.head| + Offset(Shape(fs), i) + PrefixLen + Offset(Shape(Body(s)), j)
    ensures parse(w, x).Some?
    ensures a + WireWidth(w) <= |out.head|
    ensures out.head[a..a + WireWidth(w)] == parse(w, x).value
  {
    TraverseScalars(fs, h, parse);
    NestedPlaced(fs, |h.head|, parse, i, s, j, w, x, a, out);
  }

  /** NestedScalar, for any table in which every scalar of the field list is placed. */
  lemma {:induction false} NestedPlaced(fs: seq<Field>, at: nat, parse: Parser, i: nat, s: Struct, j: nat, w: Wire, x: string, a: nat, out: HeapTable)
    requires AllPlaced(out, parse, Scalars(fs, at))
    requires i < |fs| && fs[i] == Sub(s)
    requires j < |Body(s)| && Body(s)[j] == Scalar(w, x)
    requires a == at + Offset(Shape(fs), i) + PrefixLen + Offset(Shape(Body(s)), j)
    ensures parse(w, x).Some?
    ensures a + WireWidth(w) <= |out.head|
    ensures out.head[a..a + WireWidth(w)] == parse(w, x).value
  {
    NestedScalarIn(fs, at, i, s, j, w, x, a);
    PlacedBytes(out, parse, Scalars(fs, at), a, w, x);
  }

  /** The scalar field j of the sub-structure at position i is one of the list's scalars, at its nested offset. */
  lemma {:induction false} NestedScalarIn(fs: seq<Field>, at: nat, i: nat, s: Struct, j: nat, w: Wire, x: string, a: nat)
    requires i < |fs| && fs[i] == Sub(s)
    requires j < |Body(s)| && Body(s)[j] == Scalar(w, x)
    requires a == at + Offset(Shape(fs), i) + PrefixLen + Offset(Shape(Body(s)), j)
    ensures ScalarSlot(a, w, x) in Scalars(fs, at)
  {
    var b := at + Offset(Shape(fs), i);
    SubScalarsAt(fs, at, i, s, b);
    ScalarSlotAt(Body(s), b + PrefixLen, j, w, x, a);
    InWithin(ScalarSlot(a, w, x), Scalars(Body(s), b + PrefixLen), Scalars(fs, at));
  }

  /** The bytes of a scalar in a list of placed scalars, read straight off the head. */
  lemma PlacedBytes(h: HeapTable, parse: Parser, scs: seq<ScalarSlot>, a: nat, w: Wire, x: string)
    requires AllPlaced(h, parse, scs) && ScalarSlot(a, w, x) in scs
    ensures parse(w, x).Some?
    ensures a + WireWidth(w) <= |h.head|
    ensures h.head[a..a + WireWidth(w)] == parse(w, x).value
  {
    assert Placed(h, parse, ScalarSlot(a, w, x));
  }

  /** Bytes written right after a prefix survive any later appending. */
  lemma PrefixKept(a: seq<byte>, p: seq<byte>, b: seq<byte>, c: seq<byte>)
    requires a + p <= b && b <= c
    ensures |a| + |p| <= |c| && c[|a|..|a| + |p|] == p
  {
    assert c[..|a| + |p|] == a + p;
    assert c[|a|..|a| + |p|] == (a + p)[|a|..];
  }

  /** A heap string's reference: where its length and offset sit in the head, where its bytes start in the heap, and the bytes. */
  datatype Slot = Slot(at: nat, heapAt: nat, data: seq<byte>)

  /** The heap references one field writes when it starts at head position at with used heap bytes before it. */
  function FieldSlots(f: Field, at: nat, used: nat): seq<Slot>
    decreases Rank([f]), 0
  {
    match f
    case SHeap(d) => [Slot(at, used, d)]
    case Sub(s) => RankSub(s); Slots(Body(s), at + PrefixLen, used)
    case _ => []
  }

  /** The heap references a field list writes, in order, computed from the layout alone. */
  function Slots(fs: seq<Field>, at: nat, used: nat): seq<Slot>
    decreases Rank(fs), |fs|
  {
    if |fs| == 0 then []
    else
      RankFacts(fs);
      FieldSlots(fs[0], at, used) + Slots(fs[1..], at + Width(KindOf(fs[0])), used + |FieldHeap(fs[0])|)
  }

  /** The head records the slot's length and absolute offset, and the heap holds its bytes there. */
  predicate Holds(h: HeapTable, sl: Slot)
  {
    && sl.at + HeapRefWidth <= |h.head|
    && Get16(h.head, sl.at) == |sl.data|
    && Get16(h.head, sl.at + 2) == HeadersLen + sl.heapAt
    && sl.heapAt + |sl.data| <= |h.heap|
    && h.heap[sl.heapAt..sl.heapAt + |sl.data|] == sl.data
  }

  /** Appending to both buffers keeps every recorded reference intact. */
  lemma HoldsExtends(h: HeapTable, h': HeapTable, sl: Slot)
    requires Holds(h, sl)
    requires Extends(h, h')
    ensures Holds(h', sl)
  {
    assert h'.head[sl.at] == h.head[sl.at] && h'.head[sl.at + 1] == h.head[sl.at + 1];
    assert h'.head[sl.at + 2] == h.head[sl.at + 2] && h'.head[sl.at + 3] == h.head[sl.at + 3];
    assert h'.heap[sl.heapAt..sl.heapAt + |sl.data|] == h.heap[sl.heapAt..sl.heapAt + |sl.data|];
  }

  /** Every reference in the list holds in h. */
  predicate AllHold(h: HeapTable, sls: seq<Slot>)
  {
    forall sl :: sl in sls ==> Holds(h, sl)
  }

  lemma AllHoldAppend(h: HeapTable, a: seq<Slot>, b: seq<Slot>)
    requires AllHold(h, a) && AllHold(h, b)
    ensures AllHold(h, a + b)
  {
  }

  lemma AllHoldExtends(h: HeapTable, h': HeapTable, sls: seq<Slot>)
    requires AllHold(h, sls) && Extends(h, h')
    ensures AllHold(h', sls)
  {
    forall sl | sl in sls
      ensures Holds(h', sl)
    {
      HoldsExtends(h, h', sl);
    }
  }

  /** With a width-respecting parser, every reference one field writes holds in its result. */
  lemma {:induction false} StepSlots(f: Field, h: HeapTable, parse: Parser)
    requires Respects(parse)
    requires Step(f, h, parse).Ok?
    ensures AllHold(Step(f, h, parse).value, FieldSlots(f, |h.head|, |h.heap|))
    decreases Rank([f]), 0
  {
    match f
    case SHeap(d) =>
      var out := Step(f, h, parse).value;
      assert out.heap[|h.heap|..|h.heap| + |d|] == d;
      assert Holds(out, Slot(|h.head|, |h.heap|, d));
    case Sub(s) =>
      RankSub(s);
      TraverseSlots(Body(s), HeapTable(h.head + StructPrefix(s).value, h.heap), parse);
    case _ =>
  }

  /** The references of a field list are those of its first field followed by those of the rest. */
  lemma SlotsCons(fs: seq<Field>, at: nat, used: nat, at1: nat, used1: nat)
    requires |fs| > 0
    requires at1 == at + Width(KindOf(fs[0])) && used1 == used + |FieldHeap(fs[0])|
    ensures Slots(fs, at, used) == FieldSlots(fs[0], at, used) + Slots(fs[1..], at1, used1)
  {
  }

  /** The heap bytes of a non-empty field list are its first field's followed by the rest's. */
  lemma HeapDataCons(fs: seq<Field>, f: Field, rest: seq<Field>)
    requires fs == [f] + rest
    ensures HeapData(fs) == FieldHeap(f) + HeapData(rest)
  {
    RankFacts(fs);
    assert fs[1..] == rest;
  }

  /** With a width-respecting parser, every reference a successful traversal writes holds in its result. */
  lemma {:induction false} TraverseSlots(fs: seq<Field>, h: HeapTable, parse: Parser)
    requires Respects(parse)
    requires Traverse(fs, h, parse).Ok?
    ensures AllHold(Traverse(fs, h, parse).value, Slots(fs, |h.head|, |h.heap|))
    decreases Rank(fs), |fs|
  {
    if |fs| > 0 {
      RankFacts(fs);
      TraverseCons(fs, h, parse);
      var h1 := Step(fs[0], h, parse).value;
      var out := Traverse(fs, h, parse).value;
      var first := FieldSlots(fs[0], |h.head|, |h.heap|);
      var rest := Slots(fs[1..], |h1.head|, |h1.heap|);
      assert |h1.head| == |h.head| + Width(KindOf(fs[0])) by {
        StepWidth(fs[0], h, parse);
      }
      assert |h1.heap| == |h.heap| + |FieldHeap(fs[0])|;
      SlotsCons(fs, |h.head|, |h.heap|, |h1.head|, |h1.heap|);
      assert AllHold(h1, first) by {
        StepSlots(fs[0], h, parse);
      }
      assert AllHold(out, rest) && Extends(h1, out) by {
        TraverseSlots(fs[1..], h1, parse);
      }
      AllHoldJoin(h1, out, first, rest);
    }
  }

  /** References that held before an appending step, and those written after it, all hold at its end. */
  lemma AllHoldJoin(h1: HeapTable, out: HeapTable, first: seq<Slot>, rest: seq<Slot>)
    requires AllHold(h1, first) && Extends(h1, out) && AllHold(out, rest)
    ensures AllHold(out, first + rest)
  {
    AllHoldExtends(h1, out, first);
    AllHoldAppend(out, first, rest);
  }

  /**
   * Fields are encoded strictly in declaration order: encoding two field lists one after the
   * other is encoding their concatenation, and a failure in the first stops before the second.
   */
  lemma {:induction false} TraverseAppend(fs1: seq<Field>, fs2: seq<Field>, h: HeapTable, parse: Parser)
    ensures Traverse(fs1 + fs2, h, parse) ==
      match Traverse(fs1, h, parse)
      case Err(e) => Err(e)
      case Ok(h1) => Traverse(fs2, h1, parse)
    decreases |fs1|
  {
    if |fs1| > 0 {
      assert (fs1 + fs2)[0] == fs1[0];
      assert (fs1 + fs2)[1..] == fs1[1..] + fs2;
      var st := Step(fs1[0], h, parse);
      if st.Ok? {
        TraverseAppend(fs1[1..], fs2, st.value, parse);
      }
    } else {
      assert fs1 + fs2 == fs2;
    }
  }

  /** Every reference in a is also in b. */
  predicate Within<T(==)>(a: seq<T>, b: seq<T>)
  {
    forall sl :: sl in a ==> sl in b
  }

  /** References at the head of a list are found in the whole list. */
  lemma WithinHead<T>(first: seq<T>, rest: seq<T>)
    ensures Within(first, first + rest)
  {
  }

  /** References found in the tail of a list are found in the whole list. */
  lemma WithinTail<T>(a: seq<T>, first: seq<T>, rest: seq<T>)
    requires Within(a, rest)
    ensures Within(a, first + rest)
  {
  }

  /** The first j fields are the first field followed by the first j - 1 of the rest. */
  lemma TakeCons(fs: seq<Field>, j: nat)
    requires 0 < j <= |fs|
    ensures fs[..j] == [fs[0]] + fs[1..][..j - 1]
  {
  }

  /**
   * The references field j writes are among those of the whole list, computed at field j's
   * layout offset a and after the heap bytes u of the fields before it.
   */
  lemma {:induction false} FieldSlotsIn(fs: seq<Field>, at: nat, used: nat, j: nat, f: Field, a: nat, u: nat)
    requires j < |fs| && fs[j] == f
    requires a == at + Offset(Shape(fs), j) && u == used + |HeapData(fs[..j])|
    ensures Within(FieldSlots(f, a, u), Slots(fs, at, used))
    decreases j
  {
    var at1 := at + Width(KindOf(fs[0]));
    var used1 := used + |FieldHeap(fs[0])|;
    SlotsCons(fs, at, used, at1, used1);
    if j == 0 {
      assert fs[..0] == [];
      WithinHead(FieldSlots(f, a, u), Slots(fs[1..], at1, used1));
    } else {
      assert a == at1 + Offset(Shape(fs[1..]), j - 1) by {
        ShapeCons(fs, j);
      }
      assert u == used1 + |HeapData(fs[1..][..j - 1])| by {
        TakeCons(fs, j);
        HeapDataCons(fs[..j], fs[0], fs[1..][..j - 1]);
      }
      FieldSlotsIn(fs[1..], at1, used1, j - 1, f, a, u);
      WithinTail(FieldSlots(f, a, u), FieldSlots(fs[0], at, used), Slots(fs[1..], at1, used1));
    }
  }

  /** A reference in a is in every list a is within. */
  lemma InWithin<T>(sl: T, a: seq<T>, b: seq<T>)
    requires sl in a && Within(a, b)
    ensures sl in b
  {
  }

  /** The references of sub-structure field j are its body's, laid out right after its prefix. */
  lemma SubSlotsAt(fs: seq<Field>, at: nat, used: nat, j: nat, s: Struct, a: nat, u: nat)
    requires j < |fs| && fs[j] == Sub(s)
    requires a == at + Offset(Shape(fs), j) && u == used + |HeapData(fs[..j])|
    ensures Within(Slots(Body(s), a + PrefixLen, u), Slots(fs, at, used))
  {
    FieldSlotsIn(fs, at, used, j, Sub(s), a, u);
    assert FieldSlots(Sub(s), a, u) == Slots(Body(s), a + PrefixLen, u);
  }

  /** The reference heap field j writes is one of the list's references. */
  lemma HeapSlotIn(fs: seq<Field>, at: nat, used: nat, j: nat) returns (sl: Slot)
    requires j < |fs| && fs[j].SHeap?
    ensures sl in Slots(fs, at, used)
    ensures sl == Slot(at + Offset(Shape(fs), j), used + |HeapData(fs[..j])|, fs[j].data)
  {
    sl := Slot(at + Offset(Shape(fs), j), used + |HeapData(fs[..j])|, fs[j].data);
    FieldSlotsIn(fs, at, used, j, fs[j], sl.at, sl.heapAt);
    assert FieldSlots(fs[j], sl.at, sl.heapAt) == [sl];
  }

  /**
   * The reference heap field j of the sub-structure at position i writes is one of the list's
   * references, at the structure's position plus its prefix plus the field's offset in the body.
   */
  lemma NestedSlot(fs: seq<Field>, at: nat, i: nat, s: Struct, j: nat, a: nat) returns (sl: Slot)
    requires i < |fs| && fs[i] == Sub(s)
    requires j < |Body(s)| && Body(s)[j].SHeap?
    requires a == at + Offset(Shape(fs), i)
    ensures sl in Slots(fs, at, 0)
    ensures sl.at == a + PrefixLen + Offset(Shape(Body(s)), j)
    ensures sl.data == Body(s)[j].data
  {
    var u := |HeapData(fs[..i])|;
    SubSlotsAt(fs, at, 0, i, s, a, u);
    sl := HeapSlotIn(Body(s), a + PrefixLen, u, j);
    InWithin(sl, Slots(Body(s), a + PrefixLen, u), Slots(fs, at, 0));
  }

  /** A scalar's reference: where its bytes sit in the head, its wire type and its text. */
  datatype ScalarSlot = ScalarSlot(at: nat, wire: Wire, text: string)

  /** The scalars one field writes when it starts at head position at. */
  function FieldScalars(f: Field, at: nat): seq<ScalarSlot>
    decreases Rank([f]), 0
  {
    match f
    case Scalar(w, x) => [ScalarSlot(at, w, x)]
    case Sub(s) => RankSub(s); Scalars(Body(s), at + PrefixLen)
    case _ => []
  }

  /** The scalars a field list writes, in order, computed from the layout alone. */
  function Scalars(fs: seq<Field>, at: nat): seq<ScalarSlot>
    decreases Rank(fs), |fs|
  {
    if |fs| == 0 then []
    else
      RankFacts(fs);
      FieldScalars(fs[0], at) + Scalars(fs[1..], at + Width(KindOf(fs[0])))
  }

  /** Reads the bytes a scalar of wire type w occupies at position at. */
  function ScalarEntry(table: seq<byte>, at: nat, w: Wire): (r: Option<seq<byte>>)
    ensures r.Some? <==> at + WireWidth(w) <= |table|
    ensures r.Some? ==> |r.value| == WireWidth(w) && r.value == table[at..at + WireWidth(w)]
  {
    if at + WireWidth(w) <= |table| then Some(table[at..at + WireWidth(w)]) else None
  }

  /** The head holds, at the scalar's position, exactly the bytes its text parses to. */
  predicate Placed(h: HeapTable, parse: Parser, sc: ScalarSlot)
  {
    && parse(sc.wire, sc.text).Some?
    && ScalarEntry(h.head, sc.at, sc.wire) == parse(sc.wire, sc.text)
  }

  /** Appending to the buffers keeps every placed scalar intact. */
  lemma PlacedExtends(h: HeapTable, h': HeapTable, parse: Parser, sc: ScalarSlot)
    requires Placed(h, parse, sc)
    requires Extends(h, h')
    ensures Placed(h', parse, sc)
  {
    assert h'.head[sc.at..sc.at + WireWidth(sc.wire)] == h.head[sc.at..sc.at + WireWidth(sc.wire)];
  }

  /** Every scalar in the list is placed in h. */
  predicate AllPlaced(h: HeapTable, parse: Parser, scs: seq<ScalarSlot>)
  {
    forall sc :: sc in scs ==> Placed(h, parse, sc)
  }

  /** Scalars that were placed before an appending step, and those written after it, are all placed at its end. */
  lemma AllPlacedJoin(h1: HeapTable, out: HeapTable, parse: Parser, first: seq<ScalarSlot>, rest: seq<ScalarSlot>)
    requires AllPlaced(h1, parse, first) && Extends(h1, out) && AllPlaced(out, parse, rest)
    ensures AllPlaced(out, parse, first + rest)
  {
    forall sc | sc in first
      ensures Placed(out, parse, sc)
    {
      PlacedExtends(h1, out, parse, sc);
    }
  }

  /** The scalars of a field list are those of its first field followed by those of the rest. */
  lemma ScalarsCons(fs: seq<Field>, at: nat, at1: nat)
    requires |fs| > 0
    requires at1 == at + Width(KindOf(fs[0]))
    ensures Scalars(fs, at) == FieldScalars(fs[0], at) + Scalars(fs[1..], at1)
  {
  }

  /** Bytes appended to a head read back from the position where they start. */
  lemma AppendedEntry(head: seq<byte>, v: seq<byte>, w: Wire)
    requires |v| == WireWidth(w)
    ensures ScalarEntry(head + v, |head|, w) == Some(v)
  {
    assert (head + v)[|head|..|head| + |v|] == v;
  }

  /** Every scalar one field writes is placed in its result. */
  lemma {:induction false} StepScalars(f: Field, h: HeapTable, parse: Parser)
    requires Respects(parse)
    requires Step(f, h, parse).Ok?
    ensures AllPlaced(Step(f, h, parse).value, parse, FieldScalars(f, |h.head|))
    decreases Rank([f]), 0
  {
    match f
    case Scalar(w, x) =>
      AppendedEntry(h.head, parse(w, x).value, w);
    case Sub(s) =>
      RankSub(s);
      TraverseScalars(Body(s), HeapTable(h.head + StructPrefix(s).value, h.heap), parse);
    case _ =>
  }

  /** With a width-respecting parser, every scalar a successful traversal writes is placed in its result. */
  lemma {:induction false} TraverseScalars(fs: seq<Field>, h: HeapTable, parse: Parser)
    requires Respects(parse)
    requires Traverse(fs, h, parse).Ok?
    ensures AllPlaced(Traverse(fs, h, parse).value, parse, Scalars(fs, |h.head|))
    decreases Rank(fs), |fs|
  {
    if |fs| > 0 {
      RankFacts(fs);
      TraverseCons(fs, h, parse);
      var h1 := Step(fs[0], h, parse).value;
      var out := Traverse(fs, h, parse).value;
      var first := FieldScalars(fs[0], |h.head|);
      var rest := Scalars(fs[1..], |h1.head|);
      assert |h1.head| == |h.head| + Width(KindOf(fs[0])) by {
        StepWidth(fs[0], h, parse);
      }
      ScalarsCons(fs, |h.head|, |h1.head|);
      assert AllPlaced(h1, parse, first) by {
        StepScalars(fs[0], h, parse);
      }
      assert AllPlaced(out, parse, rest) && Extends(h1, out) by {
        TraverseScalars(fs[1..], h1, parse);
      }
      AllPlacedJoin(h1, out, parse, first, rest);
    }
  }

  /** The scalars field j writes are among those of the whole list, computed at field j's layout offset a. */
  lemma {:induction false} FieldScalarsIn(fs: seq<Field>, at: nat, j: nat, f: Field, a: nat)
    requires j < |fs| && fs[j] == f
    requires a == at + Offset(Shape(fs), j)
    ensures Within(FieldScalars(f, a), Scalars(fs, at))
    decreases j
  {
    var at1 := at + Width(KindOf(fs[0]));
    ScalarsCons(fs, at, at1);
    if j == 0 {
      WithinHead(FieldScalars(f, a), Scalars(fs[1..], at1));
    } else {
      assert a == at1 + Offset(Shape(fs[1..]), j - 1) by {
        ShapeCons(fs, j);
      }
      FieldScalarsIn(fs[1..], at1, j - 1, f, a);
      WithinTail(FieldScalars(f, a), FieldScalars(fs[0], at), Scalars(fs[1..], at1));
    }
  }

  /** The scalars of sub-structure field i are its body's, laid out right after its prefix. */
  lemma {:induction false} SubScalarsAt(fs: seq<Field>, at: nat, i: nat, s: Struct, a: nat)
    requires i < |fs| && fs[i] == Sub(s)
    requires a == at + Offset(Shape(fs), i)
    ensures Within(Scalars(Body(s), a + PrefixLen), Scalars(fs, at))
  {
    FieldScalarsIn(fs, at, i, Sub(s), a);
    assert FieldScalars(Sub(s), a) == Scalars(Body(s), a + PrefixLen);
  }

  /** The scalar field j writes is one of the list's scalars. */
  lemma {:induction false} ScalarSlotIn(fs: seq<Field>, at: nat, j: nat) returns (sc: ScalarSlot)
    requires j < |fs| && fs[j].Scalar?
    ensures sc in Scalars(fs, at)
    ensures sc == ScalarSlot(at + Offset(Shape(fs), j), fs[j].wire, fs[j].text)
  {
    sc := ScalarSlot(at + Offset(Shape(fs), j), fs[j].wire, fs[j].text);
    FieldScalarsIn(fs, at, j, fs[j], sc.at);
    assert FieldScalars(fs[j], sc.at) == [sc];
  }

  /**
   * The scalar field j of the sub-structure at position i writes is one of the list's scalars,
   * at the structure's position plus its prefix plus the field's offset in the body.
   */
  lemma {:induction false} NestedScalarSlot(fs: seq<Field>, at: nat, i: nat, s: Struct, j: nat, a: nat) returns (sc: ScalarSlot)
    requires i < |fs| && fs[i] == Sub(s)
    requires j < |Body(s)| && Body(s)[j].Scalar?
    requires a == at + Offset(Shape(fs), i)
    ensures sc in Scalars(fs, at)
    ensures sc == ScalarSlot(a + PrefixLen + Offset(Shape(Body(s)), j), Body(s)[j].wire, Body(s)[j].text)
  {
    SubScalarsAt(fs, at, i, s, a);
    sc := ScalarSlotIn(Body(s), a + PrefixLen, j);
    InWithin(sc, Scalars(Body(s), a + PrefixLen), Scalars(fs, at));
  }

  /** NestedScalarIn, with the position split into the structure's start and the field's offset tag within it. */
  lemma {:induction false} NestedScalarAt(fs: seq<Field>, at: nat, i: nat, s: Struct, j: nat, a: nat, tag: nat, w: Wire, x: string)
    requires i < |fs| && fs[i] == Sub(s)
    requires j < |Body(s)| && Body(s)[j] == Scalar(w, x)
    requires a == at + Offset(Shape(fs), i) && PrefixLen + Offset(Shape(Body(s)), j) == tag
    ensures ScalarSlot(a + tag, w, x) in Scalars(fs, at)
  {
    NestedScalarIn(fs, at, i, s, j, w, x, a + tag);
  }

  /** ScalarSlotIn, for a scalar whose wire type and text are known. */
  lemma {:induction false} ScalarSlotAt(fs: seq<Field>, at: nat, j: nat, w: Wire, x: string, a: nat)
    requires j < |fs| && fs[j] == Scalar(w, x)
    requires a == at + Offset(Shape(fs), j)
    ensures ScalarSlot(a, w, x) in Scalars(fs, at)
  {
    var sc := ScalarSlotIn(fs, at, j);
  }
}
