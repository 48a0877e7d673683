/**
 * Signatures: the fixed-width component bitset carried by every entity and
 * required by every system (std::bitset<MAX_COMPONENTS> in the source).
 *
 * A signature is a `bv32`; bit positions are naturals below MAX_COMPONENTS.
 * `Bits` is the abstraction used in every contract: the set of positions
 * that are set.
 */
module Signatures {

  /** Width of a signature: the most component types that can be registered. */
  const MAX_COMPONENTS: nat := 32

  type Signature = bv32

  /** A bit position inside a signature. */
  type BitPosition = p: nat | p < MAX_COMPONENTS

  /** The all-zero signature (a default-constructed or `reset()` bitset). */
  const Empty: Signature := 0

  /** Bit `i` of `s`, on a bit-vector position (all bit reasoning happens here). */
  predicate Bit(s: Signature, i: bv5) {
    (s >> i) & 1 == 1
  }

  /** Bit `p` of `s` (`s.test(p)`). */
  predicate Has(s: Signature, p: BitPosition) {
    Bit(s, p as bv5)
  }

  /** The set of positions whose bit is set. */
  function Bits(s: Signature): (r: set<nat>)
    ensures forall p :: p in r ==> p < MAX_COMPONENTS
  {
    set p: nat | p < MAX_COMPONENTS && Has(s, p)
  }

  /** `s.set(p, true)` */
  function SetBit(s: Signature, p: BitPosition): (r: Signature)
    ensures Bits(r) == Bits(s) + {p}
  {
    var r := Raise(s, p as bv5);
    forall q: BitPosition ensures Has(r, q) <==> Has(s, q) || q == p {
      RaiseAt(s, p as bv5, q as bv5);
      PositionInjective(p, q);
    }
    r
  }

  /** `s.set(p, false)` */
  function ClearBit(s: Signature, p: BitPosition): (r: Signature)
    ensures Bits(r) == Bits(s) - {p}
  {
    var r := Lower(s, p as bv5);
    forall q: BitPosition ensures Has(r, q) <==> Has(s, q) && q != p {
      LowerAt(s, p as bv5, q as bv5);
      PositionInjective(p, q);
    }
    r
  }

  /** The signature with exactly bit `p` set (`Signature s; s.set(p);`). */
  function Single(p: BitPosition): (r: Signature)
    ensures Bits(r) == {p}
  {
    BitsEmpty();
    SetBit(Empty, p)
  }

  /**
   * The membership test a system applies: every bit required by `required`
   * is also set in `s`, written as the source writes it.
   */
  predicate Matches(s: Signature, required: Signature) {
    (s & required) == required
  }

  /** Raise bit `i` of `s`. */
  function Raise(s: Signature, i: bv5): Signature {
    s | (1 << i)
  }

  /** Lower bit `i` of `s`. */
  function Lower(s: Signature, i: bv5): Signature {
    s & !(1 << i)
  }

  lemma RaiseAt(s: Signature, i: bv5, j: bv5)
    ensures Bit(Raise(s, i), j) <==> Bit(s, j) || i == j
  {}

  lemma LowerAt(s: Signature, i: bv5, j: bv5)
    ensures Bit(Lower(s, i), j) <==> Bit(s, j) && i != j
  {}

  lemma AndBitAt(a: Signature, b: Signature, j: bv5)
    ensures Bit(a & b, j) <==> Bit(a, j) && Bit(b, j)
  {}

  lemma PositionRoundTrip(p: BitPosition)
    ensures (p as bv5) as int == p
  {}

  lemma PositionInjective(p: BitPosition, q: BitPosition)
    ensures (p as bv5 == q as bv5) <==> p == q
  {
    PositionRoundTrip(p);
    PositionRoundTrip(q);
  }

  lemma BitPositionRoundTrip(i: bv5)
    ensures (i as int) < MAX_COMPONENTS && ((i as int) as bv5) == i
  {}

  lemma XorAt(a: Signature, b: Signature, i: bv5)
    ensures Bit(a ^ b, i) <==> Bit(a, i) != Bit(b, i)
  {}

  lemma ShiftStep(d: Signature, k: bv6)
    requires k < 32
    requires d >> (k + 1) == 0
    requires !Bit(d, k as bv5)
    ensures d >> k == 0
  {}

  /** A signature with no bit set has no bit set at or above any position. */
  lemma {:induction false} NoBitsAbove(d: Signature, k: bv6)
    requires k <= 32
    requires forall i: bv5 :: !Bit(d, i)
    ensures d >> k == 0
    decreases 32 - k as int
  {
    if k < 32 {
      NoBitsAbove(d, k + 1);
      ShiftStep(d, k);
    }
  }

  /** A signature is determined by its set of bits. */
  lemma BitsInjective(a: Signature, b: Signature)
    requires Bits(a) == Bits(b)
    ensures a == b
  {
    var d := a ^ b;
    forall i: bv5 ensures !Bit(d, i) {
      SameBitsAt(a, b, i);
      XorAt(a, b, i);
    }
    NoBitsAbove(d, 0);
    XorZero(a, b);
  }

  lemma XorZero(a: Signature, b: Signature)
    requires (a ^ b) >> 0 == 0
    ensures a == b
  {
  }

  lemma SameBitsAt(a: Signature, b: Signature, i: bv5)
    requires Bits(a) == Bits(b)
    ensures Bit(a, i) == Bit(b, i)
  {
    BitPositionRoundTrip(i);
    var p: BitPosition := i as int;
    assert p in Bits(a) <==> p in Bits(b);
  }

  lemma BitsEmpty()
    ensures Bits(Empty) == {}
  {
    forall p: BitPosition ensures !Has(Empty, p) {
      AndBitAt(0, 0, p as bv5);
    }
  }

  /** The bits of `a & b` are the common bits of `a` and `b`. */
  lemma BitsAnd(a: Signature, b: Signature)
    ensures Bits(a & b) == Bits(a) * Bits(b)
  {
    forall p: BitPosition ensures Has(a & b, p) <==> Has(a, p) && Has(b, p) {
      AndBitAt(a, b, p as bv5);
    }
  }

  /**
   * The system test `(s & required) == required` holds exactly when the
   * required positions are a subset of the positions set in `s`.
   */
  lemma MatchesIffSubset(s: Signature, required: Signature)
    ensures Matches(s, required) <==> Bits(required) <= Bits(s)
  {
    BitsAnd(s, required);
    if Bits(required) <= Bits(s) {
      assert Bits(s & required) == Bits(required);
      BitsInjective(s & required, required);
    }
  }

  /** An all-zero requirement matches every signature. */
  lemma EmptyMatchesEverything(s: Signature)
    ensures Matches(s, Empty)
  {
    BitsEmpty();
    MatchesIffSubset(s, Empty);
  }

  /** A cleared signature matches only the all-zero requirement. */
  lemma EmptyMatchesOnlyEmpty(required: Signature)
    ensures Matches(Empty, required) <==> required == Empty
  {
    BitsEmpty();
    MatchesIffSubset(Empty, required);
    if Bits(required) == {} {
      BitsInjective(required, Empty);
    }
  }
}
