/**
  The `GaloisField` helpers of the engine: multiplication in GF(2^128) in the
  bit-reflected convention of NIST SP 800-38D, zero padding to the block
  size, and GHASH over the padded additional data, the padded ciphertext and
  the length block.

  `Multiply` follows the source's 128-round loop (`V`, `Z` and `Mask` are the
  loop variables `v`, `z` and `k` after a number of rounds). Read as blocks
  of the standard through `BlockBits.ToBits`, it is proved to compute
  `GF128.Product`, Algorithm 1 of section 6.3 of NIST SP 800-38D over bit
  strings, with its arguments in the order `multiply(x, y)` = y • x.
 */
module GaloisField {
  import opened U128
  import opened BlockBits
  import GF128

  const BlockSize: nat := 16

  /** `one`, i.e. `UInt128(b: 1)`. */
  const One: UInt128 := 1

  /** `r`, i.e. `UInt128(a: 0xE100000000000000, b: 0)`: the reduction constant R. */
  const R: UInt128 := 0xE100_0000_0000_0000_0000_0000_0000_0000

  /** The starting mask `UInt128(a: 1 << 63, b: 0)`, which is also the field's unit. */
  const Top: UInt128 := 0x8000_0000_0000_0000_0000_0000_0000_0000

  const Zero: UInt128 := 0

  // ---------------------------------------------------------------------------
  // multiply, as the source's loop

  /** The update of `v` in one round: shift right, folding in R when a one falls off. */
  function NextV(v: UInt128): UInt128 {
    if NotEqual(And(v, One), One) then RightShift(v) else Xor(RightShift(v), R)
  }

  /** `k` before round `i`. */
  function Mask(i: nat): UInt128 {
    if i == 0 then Top else RightShift(Mask(i - 1))
  }

  /** `v` before round `i`. */
  function V(x: UInt128, i: nat): UInt128 {
    if i == 0 then x else NextV(V(x, i - 1))
  }

  /** `z` before round `i`: round `i - 1` adds `v` when `y` has the bit of `k` set. */
  function Z(x: UInt128, y: UInt128, i: nat): UInt128 {
    if i == 0 then Zero
    else
      var k := Mask(i - 1);
      if Equal(And(y, k), k) then Xor(Z(x, y, i - 1), V(x, i - 1)) else Z(x, y, i - 1)
  }

  /** `multiply(x, y)`: the value of `z` after the 128 rounds. */
  function Multiply(x: UInt128, y: UInt128): UInt128 {
    Z(x, y, 128)
  }

  /** The source's loop, statement by statement; it computes the product `y • x` of Algorithm 1. */
  method MultiplyLoop(x: UInt128, y: UInt128) returns (z: UInt128)
    ensures z == Multiply(x, y)
    ensures ToBits(z) == GF128.Product(ToBits(y), ToBits(x))
  {
    z := FromLow(0);
    var v := x;
    var k := Pack(1 << 63, 0);
    var i := 0;
    while i < 128
      invariant i <= 128
      invariant z == Z(x, y, i) && v == V(x, i) && k == Mask(i)
    {
      if Equal(And(y, k), k) {
        z := Xor(z, v);
      }
      if NotEqual(And(v, One), One) {
        v := RightShift(v);
      } else {
        v := Xor(RightShift(v), R);
      }
      k := RightShift(k);
      i := i + 1;
    }
    MultiplyIsProduct(x, y);
  }

  // ---------------------------------------------------------------------------
  // Padding and GHASH

  function Zeros(n: nat): (s: seq<byte>)
    ensures |s| == n && forall i :: 0 <= i < n ==> s[i] == 0
  {
    seq(n, i => 0)
  }

  /**
    `padToBlockSize`: appends `16 - |x| % 16` zero bytes, so an input whose
    length is already a multiple of 16 (the empty input included) gains a
    whole block of zeros.
   */
  function PadToBlockSize(x: seq<byte>): (r: seq<byte>)
    ensures |r| == |x| + BlockSize - |x| % BlockSize
    ensures |r| % BlockSize == 0 && |x| < |r| <= |x| + BlockSize
    ensures r[..|x|] == x
    ensures forall i :: |x| <= i < |r| ==> r[i] == 0
  {
    x + Zeros(BlockSize - |x| % BlockSize)
  }

  /**
    The hash loop: `x := multiply(x ^ block, h)` for each whole 16-byte block
    of `p` in turn. The source runs it on padded inputs only, which are whole
    blocks, at least one.
   */
  function Absorb(h: UInt128, x: UInt128, p: seq<byte>): UInt128
    decreases |p|
  {
    if |p| < BlockSize then x
    else Absorb(h, Multiply(Xor(x, FromBytes(p, 0)), h), p[BlockSize..])
  }

  /** The largest value of the source's `Int`: `8 * count` must not exceed it. */
  const MaxInt: nat := 0x7FFF_FFFF_FFFF_FFFF

  /** The length block: the bit lengths of `a` and `c` as the high and low halves. */
  function LengthBlock(a: seq<byte>, c: seq<byte>): UInt128
    requires |a| * 8 <= MaxInt && |c| * 8 <= MaxInt
  {
    Pack((|a| * 8) as bv64, (|c| * 8) as bv64)
  }

  /**
    `hash(h, a, c)`. The byte counts times eight are computed with Swift's
    trapping `Int` multiplication, hence the bounds.
   */
  function Hash(h: UInt128, a: seq<byte>, c: seq<byte>): UInt128
    requires |a| * 8 <= MaxInt && |c| * 8 <= MaxInt
  {
    var x := Absorb(h, Zero, PadToBlockSize(a));
    var x := Absorb(h, x, PadToBlockSize(c));
    Multiply(Xor(x, LengthBlock(a, c)), h)
  }

  /** The padding of the standard: zeros up to the next multiple of 16, none when aligned. */
  function StandardPad(x: seq<byte>): (r: seq<byte>)
    ensures |r| % BlockSize == 0 && |x| <= |r| < |x| + BlockSize
    ensures r[..|x|] == x
    ensures forall i :: |x| <= i < |r| ==> r[i] == 0
    ensures |x| % BlockSize == 0 ==> r == x
  {
    x + Zeros((BlockSize - |x| % BlockSize) % BlockSize)
  }

  /** GHASH_H(A || 0^v || C || 0^u || [len(A)]_64 || [len(C)]_64), section 6.4 and 7.1 of NIST SP 800-38D. */
  function StandardHash(h: UInt128, a: seq<byte>, c: seq<byte>): UInt128
    requires |a| * 8 <= MaxInt && |c| * 8 <= MaxInt
  {
    var x := Absorb(h, Zero, StandardPad(a));
    var x := Absorb(h, x, StandardPad(c));
    Multiply(Xor(x, LengthBlock(a, c)), h)
  }

  /** One more multiplication by `h` when `x` had a whole number of blocks. */
  function ExtraBlock(h: UInt128, x: seq<byte>, acc: UInt128): UInt128 {
    if |x| % BlockSize == 0 then Multiply(acc, h) else acc
  }

  // ---------------------------------------------------------------------------
  // The constants as blocks of the standard

  lemma TopBlock()
    ensures ToBits(Top) == GF128.Unit(0)
  {
    assert GetData(Top)[0] == 0x80 && forall m :: 0 < m < 16 ==> GetData(Top)[m] == 0;
    SparseBits(GetData(Top), 0);
  }

  lemma OneBlock()
    ensures ToBits(One) == GF128.Unit(127)
  {
    assert GetData(One)[15] == 1 && forall m :: 0 <= m < 15 ==> GetData(One)[m] == 0;
    SparseBits(GetData(One), 15);
  }

  lemma RBlock()
    ensures ToBits(R) == GF128.R()
  {
    assert GetData(R)[0] == 0xE1 && forall m :: 0 < m < 16 ==> GetData(R)[m] == 0;
    SparseBits(GetData(R), 0);
  }

  lemma ZeroBlock()
    ensures ToBits(Zero) == GF128.Zero()
  {
    SparseBits(GetData(Zero), 0);
  }

  // ---------------------------------------------------------------------------
  // multiply computes Algorithm 1

  /** One round's update of `v` is the step V_i -> V_{i+1} of Algorithm 1. */
  lemma NextVBlock(v: UInt128)
    ensures ToBits(NextV(v)) == GF128.Reduce(ToBits(v))
  {
    OneBlock();
    TestBit(v, One, 127);
    ToBitsRightShift(v);
    if ToBits(v)[127] {
      ToBitsXor(RightShift(v), R);
      RBlock();
    }
  }

  lemma {:induction false} VBlock(x: UInt128, i: nat)
    ensures ToBits(V(x, i)) == GF128.V(ToBits(x), i)
  {
    if i > 0 {
      VBlock(x, i - 1);
      VStep(x, GF128.V(ToBits(x), i - 1), i);
    }
  }

  lemma VStep(x: UInt128, gv: seq<bool>, i: nat)
    requires GF128.IsBlock(gv) && i > 0 && ToBits(V(x, i - 1)) == gv
    ensures ToBits(V(x, i)) == GF128.Reduce(gv)
  {
    NextVBlock(V(x, i - 1));
  }

  /** Before round `i`, the mask `k` selects bit `i` of the block. */
  lemma {:induction false} MaskBlock(i: nat)
    requires i < 128
    ensures ToBits(Mask(i)) == GF128.Unit(i)
  {
    if i == 0 {
      TopBlock();
    } else {
      MaskBlock(i - 1);
      ToBitsRightShift(Mask(i - 1));
      GF128.ShrUnit(i - 1);
    }
  }

  lemma {:induction false} ZBlock(x: UInt128, y: UInt128, i: nat)
    requires i <= 128
    ensures ToBits(Z(x, y, i)) == GF128.Z(ToBits(y), ToBits(x), i)
  {
    if i == 0 {
      ZeroBlock();
    } else {
      ZBlock(x, y, i - 1);
      MaskBlock(i - 1);
      TestBit(y, Mask(i - 1), i - 1);
      if ToBits(y)[i - 1] {
        VBlock(x, i - 1);
        ToBitsXor(Z(x, y, i - 1), V(x, i - 1));
      }
    }
  }

  /** `multiply(x, y)` is the product y • x of Algorithm 1. */
  lemma MultiplyIsProduct(x: UInt128, y: UInt128)
    ensures ToBits(Multiply(x, y)) == GF128.Product(ToBits(y), ToBits(x))
  {
    ZBlock(x, y, 128);
  }

  // ---------------------------------------------------------------------------
  // Zero, unit and linearity of multiply

  lemma MultiplyZeroLeft(y: UInt128)
    ensures Multiply(Zero, y) == Zero
  {
    MultiplyIsProduct(Zero, y);
    ZeroBlock();
    GF128.ProductZeroRight(ToBits(y));
    ToBitsInjective(Multiply(Zero, y), Zero);
  }

  lemma MultiplyZeroRight(x: UInt128)
    ensures Multiply(x, Zero) == Zero
  {
    MultiplyIsProduct(x, Zero);
    ZeroBlock();
    GF128.ProductZeroLeft(ToBits(x));
    ToBitsInjective(Multiply(x, Zero), Zero);
  }

  /** `multiply(0x80…0, y) == y`: the starting mask is the unit of the field. */
  lemma MultiplyUnitLeft(y: UInt128)
    ensures Multiply(Top, y) == y
  {
    MultiplyIsProduct(Top, y);
    TopBlock();
    GF128.ProductUnitRight(ToBits(y));
    ToBitsInjective(Multiply(Top, y), y);
  }

  lemma MultiplyUnitRight(x: UInt128)
    ensures Multiply(x, Top) == x
  {
    MultiplyIsProduct(x, Top);
    TopBlock();
    GF128.ProductUnitLeft(ToBits(x));
    ToBitsInjective(Multiply(x, Top), x);
  }

  lemma MultiplyLinearLeft(a: UInt128, b: UInt128, c: UInt128)
    ensures Multiply(Xor(a, b), c) == Xor(Multiply(a, c), Multiply(b, c))
  {
    MultiplyIsProduct(Xor(a, b), c);
    MultiplyIsProduct(a, c);
    MultiplyIsProduct(b, c);
    ToBitsXor(a, b);
    ToBitsXor(Multiply(a, c), Multiply(b, c));
    GF128.ProductAddRight(ToBits(c), ToBits(a), ToBits(b));
    ToBitsInjective(Multiply(Xor(a, b), c), Xor(Multiply(a, c), Multiply(b, c)));
  }

  lemma MultiplyLinearRight(a: UInt128, b: UInt128, c: UInt128)
    ensures Multiply(a, Xor(b, c)) == Xor(Multiply(a, b), Multiply(a, c))
  {
    MultiplyIsProduct(a, Xor(b, c));
    MultiplyIsProduct(a, b);
    MultiplyIsProduct(a, c);
    ToBitsXor(b, c);
    ToBitsXor(Multiply(a, b), Multiply(a, c));
    GF128.ProductAddLeft(ToBits(b), ToBits(c), ToBits(a));
    ToBitsInjective(Multiply(a, Xor(b, c)), Xor(Multiply(a, b), Multiply(a, c)));
  }

  // ---------------------------------------------------------------------------
  // GHASH

  /**
    `hash` as the source runs it: a loop over each padded input, then the
    length block. It computes the standard's GHASH except for one extra
    multiplication by `h` after each block-aligned input.
   */
  method HashLoop(h: UInt128, a: seq<byte>, c: seq<byte>) returns (x: UInt128)
    requires |a| * 8 <= MaxInt && |c| * 8 <= MaxInt
    ensures x == Hash(h, a, c)
    ensures x ==
      var xa := ExtraBlock(h, a, Absorb(h, Zero, StandardPad(a)));
      var xc := ExtraBlock(h, c, Absorb(h, xa, StandardPad(c)));
      Multiply(Xor(xc, LengthBlock(a, c)), h)
    ensures |a| % BlockSize != 0 && |c| % BlockSize != 0 ==> x == StandardHash(h, a, c)
    ensures h == Zero ==> x == Zero
  {
    var ap := PadToBlockSize(a);
    var cp := PadToBlockSize(c);
    x := FromLow(0);
    x := AbsorbLoop(h, x, ap);
    x := AbsorbLoop(h, x, cp);
    var len := Pack((|a| * 8) as bv64, (|c| * 8) as bv64);
    x := Multiply(Xor(x, len), h);
    HashAgainstStandard(h, a, c);
    HashZeroKey(a, c);
  }

  /**
    One of the source's block loops, `for _ in 0...m - 1`: the closed range
    needs `m >= 1`, which padding always provides.
   */
  method AbsorbLoop(h: UInt128, x0: UInt128, p: seq<byte>) returns (x: UInt128)
    requires |p| % BlockSize == 0 && |p| > 0
    ensures x == Absorb(h, x0, p)
  {
    var m := |p| / BlockSize;
    var pos := 0;
    x := x0;
    for i := 0 to m
      invariant pos == i * BlockSize && pos <= |p|
      invariant Absorb(h, x, p[pos..]) == Absorb(h, x0, p)
    {
      AbsorbFirst(h, x, p, pos);
      x := Multiply(Xor(x, FromBytes(p, pos)), h);
      pos := pos + BlockSize;
    }
    assert p[pos..] == [];
  }

  /** The block at `pos` is the first one absorbed from `p[pos..]`. */
  lemma AbsorbFirst(h: UInt128, x: UInt128, p: seq<byte>, pos: nat)
    requires pos + BlockSize <= |p|
    ensures Absorb(h, x, p[pos..]) == Absorb(h, Multiply(Xor(x, FromBytes(p, pos)), h), p[pos + BlockSize..])
  {
    var q := p[pos..];
    assert q[BlockSize..] == p[pos + BlockSize..];
    assert q[0..8] == p[pos..pos + 8] && q[8..16] == p[pos + 8..pos + 16];
  }

  /** The first block of `p + q` is the first block of `p`, when `p` has one. */
  lemma AppendFirst(p: seq<byte>, q: seq<byte>)
    requires |p| >= BlockSize
    ensures FromBytes(p + q, 0) == FromBytes(p, 0) && (p + q)[BlockSize..] == p[BlockSize..] + q
  {
    var pq := p + q;
    assert pq[0..8] == p[0..8] && pq[8..16] == p[8..16];
  }

  /** A non-empty whole number of blocks has a first block and whole blocks after it. */
  lemma BlockStep(n: nat)
    requires n % BlockSize == 0 && n > 0
    ensures n >= BlockSize && (n - BlockSize) % BlockSize == 0
  {
  }

  /** Absorbing whole blocks and then more is absorbing one after the other. */
  lemma {:induction false} AbsorbAppend(h: UInt128, x: UInt128, p: seq<byte>, q: seq<byte>)
    requires |p| % BlockSize == 0
    ensures Absorb(h, x, p + q) == Absorb(h, Absorb(h, x, p), q)
    decreases |p|
  {
    if |p| == 0 {
      assert p + q == q;
    } else {
      BlockStep(|p|);
      AppendFirst(p, q);
      AbsorbAppend(h, Multiply(Xor(x, FromBytes(p, 0)), h), p[BlockSize..], q);
    }
  }

  lemma ZeroData()
    ensures GetData(Zero) == Zeros(BlockSize)
  {
  }

  /** A block of zero bytes leaves the accumulator to be multiplied by `h` alone. */
  lemma AbsorbZeroBlock(h: UInt128, x: UInt128)
    ensures Absorb(h, x, Zeros(BlockSize)) == Multiply(x, h)
  {
    ZeroData();
    FromBytesGetData(Zero);
    XorValue(x, Zero);
    assert Zeros(BlockSize)[BlockSize..] == [];
  }

  /** With `h = 0` every tag's hash is 0. */
  lemma HashZeroKey(a: seq<byte>, c: seq<byte>)
    requires |a| * 8 <= MaxInt && |c| * 8 <= MaxInt
    ensures Hash(Zero, a, c) == Zero
  {
    var x := Absorb(Zero, Absorb(Zero, Zero, PadToBlockSize(a)), PadToBlockSize(c));
    MultiplyZeroRight(Xor(x, LengthBlock(a, c)));
  }

  /** With no additional data and no ciphertext the hash is 0, whatever `h`. */
  lemma HashEmpty(h: UInt128)
    ensures Hash(h, [], []) == Zero
  {
    assert PadToBlockSize([]) == Zeros(BlockSize);
    AbsorbZeroBlock(h, Zero);
    MultiplyZeroLeft(h);
    assert LengthBlock([], []) == Zero;
    XorValue(Zero, Zero);
  }

  /** The source's padding against the standard's: a whole extra zero block when aligned. */
  lemma PadAgainstStandard(x: seq<byte>)
    ensures |x| % BlockSize == 0 ==> PadToBlockSize(x) == StandardPad(x) + Zeros(BlockSize)
    ensures |x| % BlockSize != 0 ==> PadToBlockSize(x) == StandardPad(x)
  {
  }

  /** Absorbing the source's padding is absorbing the standard's, then one more multiplication when aligned. */
  lemma AbsorbPadded(h: UInt128, acc: UInt128, x: seq<byte>)
    ensures Absorb(h, acc, PadToBlockSize(x)) == ExtraBlock(h, x, Absorb(h, acc, StandardPad(x)))
  {
    PadAgainstStandard(x);
    if |x| % BlockSize == 0 {
      AbsorbAppend(h, acc, StandardPad(x), Zeros(BlockSize));
      AbsorbZeroBlock(h, Absorb(h, acc, StandardPad(x)));
    }
  }

  /**
    `hash` is the standard's GHASH except that each block-aligned input costs
    one extra multiplication of the accumulator by `h`.
   */
  lemma HashAgainstStandard(h: UInt128, a: seq<byte>, c: seq<byte>)
    requires |a| * 8 <= MaxInt && |c| * 8 <= MaxInt
    ensures Hash(h, a, c) ==
      var xa := ExtraBlock(h, a, Absorb(h, Zero, StandardPad(a)));
      var xc := ExtraBlock(h, c, Absorb(h, xa, StandardPad(c)));
      Multiply(Xor(xc, LengthBlock(a, c)), h)
    ensures |a| % BlockSize != 0 && |c| % BlockSize != 0 ==> Hash(h, a, c) == StandardHash(h, a, c)
  {
    AbsorbPadded(h, Zero, a);
    AbsorbPadded(h, ExtraBlock(h, a, Absorb(h, Zero, StandardPad(a))), c);
  }

  /** The extra block is harmless while the accumulator is still zero, as it is for empty additional data. */
  lemma HashNoAad(h: UInt128, c: seq<byte>)
    requires |c| * 8 <= MaxInt && |c| % BlockSize != 0
    ensures Hash(h, [], c) == StandardHash(h, [], c)
  {
    HashAgainstStandard(h, [], c);
    MultiplyZeroLeft(h);
  }

  /** Multiplying by the mask after one round, 0x40…0, is one round's update of `v`. */
  lemma MultiplyByMaskOne(v: UInt128)
    ensures Multiply(v, Mask(1)) == NextV(v)
  {
    MultiplyIsProduct(v, Mask(1));
    MaskBlock(1);
    GF128.ProductUnitOne(ToBits(v));
    NextVBlock(v);
    ToBitsInjective(Multiply(v, Mask(1)), NextV(v));
  }

  /** A round on a `v` whose last bit is 0 is a plain shift. */
  lemma NextVEven(v: UInt128)
    requires v & 1 == 0
    ensures NextV(v) == v >> 1
  {
    AndValue(v, One);
    RightShiftValue(v);
  }

  lemma AbsorbSingle(h: UInt128, x: UInt128, c: seq<byte>)
    requires |c| == BlockSize
    ensures Absorb(h, x, c) == Multiply(Xor(x, FromBytes(c, 0)), h)
  {
    assert c[BlockSize..] == [];
  }

  lemma LengthOneBlock(c: seq<byte>)
    requires |c| == BlockSize
    ensures LengthBlock([], c) == 0x80
  {
  }

  /** No additional data and one block of ciphertext: the standard's GHASH multiplies by `h` twice. */
  lemma StandardOneBlock(h: UInt128, c: seq<byte>)
    requires |c| == BlockSize
    ensures StandardHash(h, [], c) == Multiply(Xor(Absorb(h, Zero, c), LengthBlock([], c)), h)
  {
    assert StandardPad([]) == [] && StandardPad(c) == c;
  }

  /** ... and the source's hash three times. */
  lemma HashOneBlock(h: UInt128, c: seq<byte>)
    requires |c| == BlockSize
    ensures Hash(h, [], c) == Multiply(Xor(Multiply(Absorb(h, Zero, c), h), LengthBlock([], c)), h)
  {
    AbsorbPadded(h, Zero, []);
    AbsorbPadded(h, Zero, c);
    assert StandardPad([]) == [] && StandardPad(c) == c;
    MultiplyZeroLeft(h);
  }

  /**
    The extra block is not harmless in general: with h = 0x40…0, no additional
    data and the one-block ciphertext 0x80…0, the source's hash and the
    standard's GHASH differ.
   */
  lemma HashDiffers()
    ensures Hash(Mask(1), [], GetData(Top)) == 0x1000_0000_0000_0000_0000_0000_0000_0040
    ensures StandardHash(Mask(1), [], GetData(Top)) == 0x2000_0000_0000_0000_0000_0000_0000_0040
  {
    var h, c := Mask(1), GetData(Top);
    StandardOneBlock(h, c);
    HashOneBlock(h, c);
    LengthOneBlock(c);
    FirstAbsorbed(h);
    Shifted(h, 0x80);
    Shifted(h >> 1, 0x80);
  }

  /** Absorbing the block 0x80…0 into 0 under h = 0x40…0 gives h. */
  lemma FirstAbsorbed(h: UInt128)
    requires h == Mask(1)
    ensures Absorb(h, Zero, GetData(Top)) == 0x4000_0000_0000_0000_0000_0000_0000_0000
  {
    AbsorbSingle(h, Zero, GetData(Top));
    FromBytesGetData(Top);
    XorValue(Zero, Top);
    MultiplyUnitLeft(h);
    RightShiftValue(Top);
  }

  /** Multiplying `a ^ b` by 0x40…0, when neither has its last bit set. */
  lemma Shifted(a: UInt128, b: UInt128)
    requires a & 1 == 0 && b & 1 == 0
    ensures Multiply(Xor(a, b), Mask(1)) == (a ^ b) >> 1
    ensures Multiply(a, Mask(1)) == a >> 1
  {
    XorValue(a, b);
    MultiplyByMaskOne(a ^ b);
    NextVEven(a ^ b);
    MultiplyByMaskOne(a);
    NextVEven(a);
  }
}
