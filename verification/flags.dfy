/** Tri-state flags and the ordered bit-packer that turns a list of them into one flags byte. */
module Flags {
  import opened Wrappers
  import opened Bytes

  /** A flag the caller may leave unset; packing refuses an unset flag instead of reading it as false. */
  datatype Tri = Unset | False | True

  function Pow2(n: nat): (p: nat)
    ensures p >= 1
  {
    if n == 0 then 1 else 2 * Pow2(n - 1)
  }

  lemma {:induction false} Pow2Monotone(a: nat, b: nat)
    requires a <= b
    ensures Pow2(a) <= Pow2(b)
    decreases b
  {
    if a < b {
      Pow2Monotone(a, b - 1);
    }
  }

  /** Bit i (bit 0 the least significant) of v is set. */
  predicate Bit(v: byte, i: nat)
  {
    if i == 0 then v % 2 == 1 else Bit(v / 2, i - 1)
  }

  /** The bit selected by a one-bit mask such as 1, 2, 4 or 8 is set in v. */
  predicate HasMask(v: byte, mask: nat)
    requires mask > 0
  {
    (v as nat / mask) % 2 == 1
  }

  /** Every flag of the list is determinate. */
  predicate AllSet(fs: seq<Tri>)
  {
    forall i :: 0 <= i < |fs| ==> fs[i] != Unset
  }

  /**
   * Packs the flags into a byte, the first flag in bit 0, the second in bit 1 and so on.
   * Packing fails exactly when some flag is unset; it never defaults an unset flag to false.
   */
  function Pack(fs: seq<Tri>): (r: Option<byte>)
    requires |fs| <= 8
    ensures r.Some? <==> AllSet(fs)
    ensures r.Some? ==> r.value as nat < Pow2(|fs|)
    decreases |fs|
  {
    if fs == [] then Some(0)
    else
      match Pack(fs[1..])
      case None => None
      case Some(rest) =>
        if fs[0] == Unset then None
        else
          Pow2Monotone(|fs|, 8);
          Some(((if fs[0] == True then 1 else 0) + 2 * rest as int) as byte)
  }

  /** No bit at or above position n is set in a value below 2^n. */
  lemma {:induction false} HighBitsClear(v: byte, n: nat, i: nat)
    requires v as nat < Pow2(n)
    requires i >= n
    ensures !Bit(v, i)
    decreases i
  {
    if i == 0 {
      assert v == 0;
    } else if n == 0 {
      assert v / 2 == 0;
      HighBitsClear(v / 2, 0, i - 1);
    } else {
      HighBitsClear(v / 2, n - 1, i - 1);
    }
  }

  /** Bit i of a packed byte is set exactly when flag i is true; bits past the last flag are clear. */
  lemma {:induction false} PackBits(fs: seq<Tri>)
    requires |fs| <= 8
    requires Pack(fs).Some?
    ensures forall i :: 0 <= i < |fs| ==> (Bit(Pack(fs).value, i) <==> fs[i] == True)
    ensures forall i :: i >= |fs| ==> !Bit(Pack(fs).value, i)
    decreases |fs|
  {
    var v := Pack(fs).value;
    forall i | i >= |fs|
      ensures !Bit(v, i)
    {
      HighBitsClear(v, |fs|, i);
    }
    if fs != [] {
      var rest := Pack(fs[1..]).value;
      assert v / 2 == rest;
      PackBits(fs[1..]);
      forall i | 0 <= i < |fs|
        ensures Bit(v, i) <==> fs[i] == True
      {
        if i > 0 {
          assert fs[1..][i - 1] == fs[i];
        }
      }
    }
  }

  /** For the low four bits, bit i is the bit the mask 2^i selects. */
  lemma BitIsMask(v: byte)
    ensures Bit(v, 0) <==> HasMask(v, 1)
    ensures Bit(v, 1) <==> HasMask(v, 2)
    ensures Bit(v, 2) <==> HasMask(v, 4)
    ensures Bit(v, 3) <==> HasMask(v, 8)
  {
    assert v / 2 / 2 == v / 4;
    assert v / 2 / 2 / 2 == v / 8;
  }

  /** Packing [true, false, true] gives 0b101. */
  lemma PackExample()
    ensures Pack([True, False, True]) == Some(5)
    ensures Pack([True, Unset]) == None
  {
  }
}
