/**
  The RISC-V architectural feature record that tells RISC-V gdbarch instances
  apart and keys the cache of default target descriptions: three register
  widths in bytes, an equality that looks at two of them, and a hash that
  packs the low five bits of the same two.
 */
module RiscvFeatures {
  import opened BitOps

  /** The feature record. `xlen` is the x-register width, `flen` the
      f-register width and `clen` the capability-register width, all in
      bytes. Nothing is checked on construction: see `Valid`. */
  datatype Features = Features(xlen: int, flen: int, clen: int)

  /** The widths each field may hold; 0 in `flen` or `clen` means that the
      register bank is absent. */
  const XLens: set<int> := {4, 8, 16}
  const FLens: set<int> := {0, 4, 8, 16}
  const CLens: set<int> := {0, 8, 16}

  /** A record whose every field holds one of its documented values. */
  predicate Valid(f: Features) {
    f.xlen in XLens && f.flen in FLens && f.clen in CLens
  }

  /** xlen 0 marks a record whose fields were never filled in. */
  predicate Uninitialised(f: Features) {
    f.xlen == 0
  }

  /** The record has f-registers. */
  predicate HasFRegisters(f: Features) {
    f.flen != 0
  }

  /** The record has capability registers. */
  predicate HasCapabilityRegisters(f: Features) {
    f.clen != 0
  }

  /** A default-constructed record: every field starts at 0, so it is spotted
      as uninitialised and is not valid until xlen is set. */
  function Default(): (r: Features)
    ensures Uninitialised(r) && !Valid(r)
    ensures !HasFRegisters(r) && !HasCapabilityRegisters(r)
  {
    Features(0, 0, 0)
  }

  /** operator==: the records agree on everything except, possibly, clen. */
  function Eq(a: Features, b: Features): (r: bool)
    ensures r <==> a.(clen := b.clen) == b
  {
    a.xlen == b.xlen && a.flen == b.flen
  }

  /** operator!=: the records differ in xlen or flen; clen alone never makes
      them unequal. */
  function Neq(a: Features, b: Features): (r: bool)
    ensures r <==> a.(clen := b.clen) != b
  {
    !Eq(a, b)
  }

  /** hash(): the low five bits of xlen above the low five bits of flen, in a
      ten-bit value. The fields are C++ ints, so the masks see their
      two's-complement bits; the result is read as the non-negative size_t it
      converts to. */
  function Hash(f: Features): (r: nat)
    ensures r < 1024
    ensures r / 32 == f.xlen % 32
    ensures r % 32 == f.flen % 32
  {
    var x5 := And(Bits32(f.xlen), 0x1f);
    var f5 := And(Bits32(f.flen), 0x1f);
    PackFive(f.xlen, f.flen);
    DivModUnique(32 * x5 + f5, 32, x5, f5);
    Or(ShiftLeft(x5, 5), ShiftLeft(f5, 0))
  }

  /** The hash written as plain arithmetic: the two masked widths as the
      digits of a base-32 number. */
  lemma HashIsPacking(f: Features)
    ensures Hash(f) == (f.xlen % 32) * 32 + f.flen % 32
  {
  }

  /** operator== is an equivalence relation. */
  lemma EqIsEquivalence(a: Features, b: Features, c: Features)
    ensures Eq(a, a)
    ensures Eq(a, b) <==> Eq(b, a)
    ensures Eq(a, b) && Eq(b, c) ==> Eq(a, c)
  {
  }

  /** operator!= is exactly the negation of operator==. */
  lemma NeqIsNotEq(a: Features, b: Features)
    ensures Neq(a, b) <==> !Eq(a, b)
  {
  }

  /** Equal records hash alike, as an unordered_map key must. */
  lemma HashAgreesWithEq(a: Features, b: Features)
    requires Eq(a, b)
    ensures Hash(a) == Hash(b)
  {
  }

  /** clen takes no part in either equality or the hash: replacing it
      changes neither. */
  lemma ClenIgnored(f: Features, c: int)
    ensures Eq(f, f.(clen := c)) && Eq(f.(clen := c), f)
    ensures Hash(f.(clen := c)) == Hash(f)
  {
  }

  /** Two valid records that differ only in their capability registers (one
      has none, one has 16-byte ones) are the same key. */
  lemma CapabilityVariantsCollide()
    ensures exists a: Features, b: Features ::
      Valid(a) && Valid(b) && !HasCapabilityRegisters(a) && HasCapabilityRegisters(b)
      && Eq(a, b) && Hash(a) == Hash(b)
  {
    var a := Features(8, 0, 0);
    var b := Features(8, 0, 16);
    assert Valid(a) && Valid(b) && Eq(a, b) && Hash(a) == Hash(b);
  }

  /** On valid records the hash tells apart exactly what equality tells
      apart: equal hashes mean equal records and unequal records get
      unequal hashes. */
  lemma HashExactOnValid(a: Features, b: Features)
    requires Valid(a) && Valid(b)
    ensures Hash(a) == Hash(b) <==> Eq(a, b)
  {
    var ha, hb := Hash(a), Hash(b);
    assert a.xlen == ha / 32 && a.flen == ha % 32 by { FitsInFiveBits(a); }
    assert b.xlen == hb / 32 && b.flen == hb % 32 by { FitsInFiveBits(b); }
    if !Eq(a, b) {
      assert ha != hb;
    }
  }

  /** The five-bit masks tell widths apart only when they differ modulo 32:
      moving xlen or flen by a multiple of 32 (for instance an xlen of 36, or
      of -28, whose two's-complement low bits are those of 4) keeps the hash
      while the records become unequal. The documented widths all differ
      modulo 32, so a moved valid record is never valid. */
  lemma {:induction false} HashCollidesOutsideValid(f: Features, i: int, j: int)
    requires i != 0 || j != 0
    ensures Hash(Features(f.xlen + 32 * i, f.flen + 32 * j, f.clen)) == Hash(f)
    ensures !Eq(Features(f.xlen + 32 * i, f.flen + 32 * j, f.clen), f)
    ensures Valid(f) ==> !Valid(Features(f.xlen + 32 * i, f.flen + 32 * j, f.clen))
  {
    var g := Features(f.xlen + 32 * i, f.flen + 32 * j, f.clen);
    DivModUnique(g.xlen, 32, f.xlen / 32 + i, f.xlen % 32);
    DivModUnique(g.flen, 32, f.flen / 32 + j, f.flen % 32);
    if Valid(f) && Valid(g) {
      FitsInFiveBits(f);
      FitsInFiveBits(g);
      assert false;
    }
    var hf, hg := Hash(f), Hash(g);
    assert hf == 32 * (hf / 32) + hf % 32;
    assert hg == 32 * (hg / 32) + hg % 32;
  }

  /** Every documented width is below 32, so the five-bit masks keep it whole. */
  lemma FitsInFiveBits(f: Features)
    requires Valid(f)
    ensures f.xlen % 32 == f.xlen && f.flen % 32 == f.flen
  {
  }

  /** A valid record is never the uninitialised marker. */
  lemma ValidIsInitialised(f: Features)
    requires Valid(f)
    ensures !Uninitialised(f) && f.xlen > 0
  {
  }

  /** The widths are constrained independently: any valid xlen goes with any
      valid flen and any valid clen, and either optional bank may be dropped. */
  lemma ValidityIsIndependent(a: Features, b: Features, c: Features)
    requires Valid(a) && Valid(b) && Valid(c)
    ensures Valid(Features(a.xlen, b.flen, c.clen))
    ensures Valid(a.(flen := 0)) && !HasFRegisters(a.(flen := 0))
    ensures Valid(a.(clen := 0)) && !HasCapabilityRegisters(a.(clen := 0))
  {
  }
}
