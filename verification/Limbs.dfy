/** Wide integers in 64-bit limbs: the split on the way in and the join on the way out. */
module Limbs {
  import opened Bits
  import opened Results

  const MASK: int := 0xffff_ffff_ffff_ffff
  const WORD: int := 0x1_0000_0000_0000_0000
  const WORD2: int := 0x1_0000_0000_0000_0000_0000_0000_0000_0000
  const WORD3: int := 0x1_0000_0000_0000_0000_0000_0000_0000_0000_0000_0000_0000_0000
  const HALF_WORD: int := 0x8000_0000_0000_0000

  datatype Thrown = NegativeUnsigned | NotConvertible | NotAnArray | NotAMap | NotBytes | NotAnAddress

  datatype Parts128 = Parts128(hi: int, lo: int)
  datatype Parts256 = Parts256(hiHi: int, hiLo: int, loHi: int, loLo: int)

  function Split128(val: int): Parts128 {
    Parts128(Shr(val, 64), And(val, MASK))
  }

  function Split256(val: int): Parts256 {
    Parts256(Shr(val, 192), And(Shr(val, 128), MASK), And(Shr(val, 64), MASK), And(val, MASK))
  }

  function ToU128(val: int): Result<Parts128, Thrown> {
    if val < 0 then Err(NegativeUnsigned) else Ok(Split128(val))
  }

  function ToU256(val: int): Result<Parts256, Thrown> {
    if val < 0 then Err(NegativeUnsigned) else Ok(Split256(val))
  }

  function Join128(p: Parts128): int {
    Or(Shl(p.hi, 64), p.lo)
  }

  function Join256(p: Parts256): int {
    Or(Or(Or(Shl(p.hiHi, 192), Shl(p.hiLo, 128)), Shl(p.loHi, 64)), p.loLo)
  }

  // ---------------------------------------------------------------- slots and ranges

  predicate FitsUnsigned(limb: int) {
    0 <= limb < WORD
  }

  predicate FitsSigned(limb: int) {
    -HALF_WORD <= limb < HALF_WORD
  }

  predicate FitsU128(p: Parts128) {
    FitsUnsigned(p.hi) && FitsUnsigned(p.lo)
  }

  predicate FitsI128(p: Parts128) {
    FitsSigned(p.hi) && FitsUnsigned(p.lo)
  }

  predicate LowLimbsFit(p: Parts256) {
    FitsUnsigned(p.hiLo) && FitsUnsigned(p.loHi) && FitsUnsigned(p.loLo)
  }

  predicate FitsU256(p: Parts256) {
    FitsUnsigned(p.hiHi) && LowLimbsFit(p)
  }

  predicate FitsI256(p: Parts256) {
    FitsSigned(p.hiHi) && LowLimbsFit(p)
  }

  predicate InU128(val: int) {
    0 <= val < WORD2
  }

  predicate InI128(val: int) {
    -HALF_WORD * WORD <= val < HALF_WORD * WORD
  }

  predicate InU256(val: int) {
    0 <= val < WORD * WORD3
  }

  predicate InI256(val: int) {
    -HALF_WORD * WORD3 <= val < HALF_WORD * WORD3
  }

  lemma Shift4(n: nat)
    ensures Pow2(n + 4) == 16 * Pow2(n)
  {
    assert Pow2(n + 4) == 2 * Pow2(n + 3) && Pow2(n + 3) == 2 * Pow2(n + 2);
    assert Pow2(n + 2) == 2 * Pow2(n + 1) && Pow2(n + 1) == 2 * Pow2(n);
  }

  lemma Shift16(n: nat)
    ensures Pow2(n + 16) == 0x1_0000 * Pow2(n)
  {
    Shift4(n);
    Shift4(n + 4);
    Shift4(n + 8);
    Shift4(n + 12);
  }

  lemma Shift64(n: nat)
    ensures Pow2(n + 64) == WORD * Pow2(n)
  {
    Shift16(n);
    Shift16(n + 16);
    Shift16(n + 32);
    Shift16(n + 48);
  }

  lemma Words()
    ensures Pow2(64) == WORD && Pow2(128) == WORD2 && Pow2(192) == WORD3
  {
    Shift64(0);
    Shift64(64);
    Shift64(128);
  }

  // ---------------------------------------------------------------- the split is invertible

  lemma SplitLimbs(val: int)
    ensures Split128(val) == Parts128(val / WORD, val % WORD)
    ensures Split256(val)
         == Parts256(val / WORD / WORD / WORD, val / WORD / WORD % WORD, val / WORD % WORD, val % WORD)
  {
    Words();
    MaskIsRemainder(val, 64);
    MaskIsRemainder(Shr(val, 64), 64);
    MaskIsRemainder(Shr(val, 128), 64);
    assert val / WORD2 == val / WORD / WORD && val / WORD3 == val / WORD / WORD / WORD;
  }

  lemma OrUnderWord(high: int, low: nat)
    requires low < WORD
    ensures Or(Shl(high, 64), low) == high * WORD + low
  {
    Words();
    OrOfDisjoint(high, low, 64);
  }

  lemma OrUnderTwoWords(high: int, low: nat, both: int)
    requires low < WORD && both == high * WORD + low
    ensures Or(Shl(high, 128), Shl(low, 64)) == Shl(both, 64)
  {
    Words();
    OrOfDisjoint(high, low * WORD, 128);
  }

  lemma OrUnderThreeWords(high: int, low: nat, both: int)
    requires low < WORD && both == high * WORD + low
    ensures Or(Shl(high, 192), Shl(low, 128)) == Shl(both, 128)
  {
    Words();
    OrOfDisjoint(high, low * WORD2, 192);
  }

  lemma Join128Adds(p: Parts128)
    requires FitsUnsigned(p.lo)
    ensures Join128(p) == p.hi * WORD + p.lo
  {
    OrUnderWord(p.hi, p.lo);
  }

  lemma Join256Adds(p: Parts256, upper: int, middle: int)
    requires LowLimbsFit(p) && upper == p.hiHi * WORD + p.hiLo && middle == upper * WORD + p.loHi
    ensures Join256(p) == middle * WORD + p.loLo
  {
    OrUnderThreeWords(p.hiHi, p.hiLo, upper);
    OrUnderTwoWords(upper, p.loHi, middle);
    OrUnderWord(middle, p.loLo);
  }

  /** Joining the limbs of any integer, negative ones included, gives it back. */
  lemma JoinInvertsSplit(val: int)
    ensures Join128(Split128(val)) == val && Join256(Split256(val)) == val
  {
    SplitLimbs(val);
    Join128Adds(Split128(val));
    Join256Adds(Split256(val), val / WORD / WORD, val / WORD);
  }

  /** The limbs fit their slots exactly when the integer is in the type's range. */
  lemma LimbsFitExactly(val: int)
    ensures FitsU128(Split128(val)) <==> InU128(val)
    ensures FitsI128(Split128(val)) <==> InI128(val)
    ensures FitsU256(Split256(val)) <==> InU256(val)
    ensures FitsI256(Split256(val)) <==> InI256(val)
  {
    SplitLimbs(val);
  }

  /** Limbs that fit are the split of their own join: no two sets of limbs denote one integer. */
  lemma SplitInvertsJoin128(p: Parts128)
    requires FitsUnsigned(p.lo)
    ensures Split128(Join128(p)) == p
  {
    Join128Adds(p);
    SplitLimbs(Join128(p));
    LastLimb(Join128(p), p.hi, p.lo);
  }

  lemma SplitInvertsJoin256(p: Parts256)
    requires LowLimbsFit(p)
    ensures Split256(Join256(p)) == p
  {
    var upper := p.hiHi * WORD + p.hiLo;
    var middle := upper * WORD + p.loHi;
    var val := Join256(p);
    Join256Adds(p, upper, middle);
    SplitLimbs(val);
    LastLimb(val, middle, p.loLo);
    LastLimb(middle, upper, p.loHi);
    LastLimb(upper, p.hiHi, p.hiLo);
  }

  lemma LastLimb(val: int, rest: int, limb: int)
    requires FitsUnsigned(limb) && val == rest * WORD + limb
    ensures val / WORD == rest && val % WORD == limb
  {
  }
}
