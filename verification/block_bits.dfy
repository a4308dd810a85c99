/**
  The bit string a 128-bit value stands for. NIST SP 800-38D numbers the
  bits of a block from the left: bit 0 is the most significant bit of the
  first byte. Here the bytes are the sixteen that `getData` writes, so the
  link between the engine's values and the blocks of the standard goes
  through the source's own serialisation.

  The lemmas below say what the engine's operators `^`, `&` and
  `rightShift` do to that bit string, and that a value is determined by it.
 */
module BlockBits {
  import opened U128
  import GF128

  /** The byte whose only set bit is bit `r`, bit 0 being the most significant. */
  function Bit(r: nat): byte
    requires r < 8
  {
    if r == 0 then 0x80 else if r == 1 then 0x40 else if r == 2 then 0x20 else if r == 3 then 0x10
    else if r == 4 then 0x08 else if r == 5 then 0x04 else if r == 6 then 0x02 else 0x01
  }

  /** Bit `r` of a byte, bit 0 being the most significant. */
  predicate ByteBit(b: byte, r: nat)
    requires r < 8
  {
    b & Bit(r) != 0
  }

  /** A byte string as a bit string, each byte most significant bit first. */
  function BytesToBits(s: seq<byte>): (r: seq<bool>)
    ensures |r| == 8 * |s|
  {
    seq(8 * |s|, j requires 0 <= j < 8 * |s| => ByteBit(s[j / 8], j % 8))
  }

  /** The block of the standard that a value stands for. */
  function ToBits(x: UInt128): (r: seq<bool>)
    ensures GF128.IsBlock(r)
  {
    BytesToBits(GetData(x))
  }

  // `XorByte` and `AndByte` name the byte operators so that the sequence
  // comprehensions below and the lemmas about them mention a function
  // rather than an operator: the lemmas then reason about one byte at a
  // time, away from the sequences.

  /** The exclusive or of two bytes. */
  function XorByte(p: byte, q: byte): byte {
    p ^ q
  }

  /** The and of two bytes. */
  function AndByte(p: byte, q: byte): byte {
    p & q
  }

  /** Bytewise exclusive or. */
  function XorBytes(s: seq<byte>, t: seq<byte>): (r: seq<byte>)
    requires |s| == |t|
    ensures |r| == |s|
  {
    seq(|s|, m requires 0 <= m < |s| => XorByte(s[m], t[m]))
  }

  /** Bytewise and. */
  function AndBytes(s: seq<byte>, t: seq<byte>): (r: seq<byte>)
    requires |s| == |t|
    ensures |r| == |s|
  {
    seq(|s|, m requires 0 <= m < |s| => AndByte(s[m], t[m]))
  }

  /** A byte shifted right by one place, taking the last bit of the byte before it. */
  function ShrByte(b: byte, prev: byte): byte {
    (b >> 1) | ((prev & 1) << 7)
  }

  /** A byte string shifted right by one bit, the first byte taking the last bit of `prev`. */
  function ShrBytesFrom(s: seq<byte>, prev: byte): (r: seq<byte>)
    ensures |r| == |s|
  {
    seq(|s|, m requires 0 <= m < |s| => ShrByte(s[m], if m == 0 then prev else s[m - 1]))
  }

  /** A byte string shifted right by one bit; the first byte takes in a zero. */
  function ShrBytes(s: seq<byte>): (r: seq<byte>)
    ensures |r| == |s|
  {
    ShrBytesFrom(s, 0)
  }

  // ---------------------------------------------------------------------------
  // Bits of a byte

  /** A byte with exactly one bit set. */
  predicate SingleBit(k: byte) {
    k == 0x80 || k == 0x40 || k == 0x20 || k == 0x10 || k == 0x08 || k == 0x04 || k == 0x02 || k == 0x01
  }

  lemma BitIsSingle(r: nat)
    requires r < 8
    ensures SingleBit(Bit(r))
  {
  }

  // Several lemmas below take a bit position `r` together with `r1` standing
  // for `r - 1` (and a byte index `m` with `m1` for `m - 1`), tied by a
  // requires. Passing the predecessor in keeps the subtraction out of the
  // bit-vector part of each proof, which is otherwise much costlier.

  /** The mask of bit `r` is the mask of bit `r - 1` moved one place right. */
  lemma BitNext(r: nat, r1: nat)
    requires 0 < r < 8 && r1 + 1 == r
    ensures SingleBit(Bit(r1)) && Bit(r1) != 0x01 && Bit(r) == Bit(r1) >> 1
  {
  }

  lemma MaskXor(p: byte, q: byte, k: byte)
    requires SingleBit(k)
    ensures (XorByte(p, q) & k != 0) == ((p & k != 0) != (q & k != 0))
  {
  }

  lemma MaskAnd(p: byte, q: byte, k: byte)
    requires SingleBit(k)
    ensures (AndByte(p, q) & k != 0) == ((p & k != 0) && (q & k != 0))
  {
  }

  lemma MaskCarry(b: byte, prev: byte, k: byte)
    requires SingleBit(k) && k != 0x01
    ensures (ShrByte(b, prev) & (k >> 1) != 0) == (b & k != 0)
  {
  }

  lemma ByteXorBit(p: byte, q: byte, r: nat)
    requires r < 8
    ensures ByteBit(XorByte(p, q), r) == (ByteBit(p, r) != ByteBit(q, r))
  {
    BitIsSingle(r);
    MaskXor(p, q, Bit(r));
  }

  lemma ByteAndBit(p: byte, q: byte, r: nat)
    requires r < 8
    ensures ByteBit(AndByte(p, q), r) == (ByteBit(p, r) && ByteBit(q, r))
  {
    BitIsSingle(r);
    MaskAnd(p, q, Bit(r));
  }

  /** Bit `r` of a carried byte is bit `r - 1` of the byte itself, for `r > 0`. */
  lemma CarryBitInner(b: byte, prev: byte, r: nat, r1: nat)
    requires 0 < r < 8 && r1 + 1 == r
    ensures ByteBit(ShrByte(b, prev), r) == ByteBit(b, r1)
  {
    BitNext(r, r1);
    MaskCarry(b, prev, Bit(r1));
  }

  /** Bit 0 of a carried byte is the last bit of the byte before. */
  lemma CarryBitFirst(b: byte, prev: byte)
    ensures ByteBit(ShrByte(b, prev), 0) == ByteBit(prev, 7)
  {
  }

  /** A byte is determined by its eight bits. */
  lemma ByteBitsInjective(p: byte, q: byte)
    requires forall r :: 0 <= r < 8 ==> ByteBit(p, r) == ByteBit(q, r)
    ensures p == q
  {
    assert ByteBit(p, 0) == ByteBit(q, 0) && ByteBit(p, 1) == ByteBit(q, 1);
    assert ByteBit(p, 2) == ByteBit(q, 2) && ByteBit(p, 3) == ByteBit(q, 3);
    assert ByteBit(p, 4) == ByteBit(q, 4) && ByteBit(p, 5) == ByteBit(q, 5);
    assert ByteBit(p, 6) == ByteBit(q, 6) && ByteBit(p, 7) == ByteBit(q, 7);
  }

  // ---------------------------------------------------------------------------
  // Bits of a byte string

  /** Bit `r` of byte `m` is bit `8 * m + r` of the string. */
  lemma BitOf(s: seq<byte>, m: nat, r: nat)
    requires m < |s| && r < 8
    ensures 8 * m + r < 8 * |s| && BytesToBits(s)[8 * m + r] == ByteBit(s[m], r)
  {
    assert (8 * m + r) / 8 == m && (8 * m + r) % 8 == r;
  }

  /** The bits of a block whose bytes are all zero but one. */
  lemma SparseBits(s: seq<byte>, m0: nat)
    requires |s| == 16 && m0 < 16
    requires forall m :: 0 <= m < 16 && m != m0 ==> s[m] == 0
    ensures forall j :: 0 <= j < 128 ==> BytesToBits(s)[j] == (j / 8 == m0 && ByteBit(s[m0], j % 8))
  {
  }

  /** A byte string is determined by its bits. */
  lemma BytesToBitsInjective(s: seq<byte>, t: seq<byte>)
    requires |s| == |t| && BytesToBits(s) == BytesToBits(t)
    ensures s == t
  {
    forall m | 0 <= m < |s|
      ensures s[m] == t[m]
    {
      forall r | 0 <= r < 8
        ensures ByteBit(s[m], r) == ByteBit(t[m], r)
      {
        var j := 8 * m + r;
        assert j / 8 == m && j % 8 == r;
        assert BytesToBits(s)[j] == BytesToBits(t)[j];
      }
      ByteBitsInjective(s[m], t[m]);
    }
  }

  lemma BytesXor(s: seq<byte>, t: seq<byte>)
    requires |s| == 16 && |t| == 16
    ensures BytesToBits(XorBytes(s, t)) == GF128.Add(BytesToBits(s), BytesToBits(t))
  {
    forall j | 0 <= j < 128
      ensures BytesToBits(XorBytes(s, t))[j] == GF128.Add(BytesToBits(s), BytesToBits(t))[j]
    {
      ByteXorBit(s[j / 8], t[j / 8], j % 8);
    }
  }

  lemma BytesAnd(s: seq<byte>, t: seq<byte>, j: nat)
    requires |s| == |t| && j < 8 * |s|
    ensures BytesToBits(AndBytes(s, t))[j] == (BytesToBits(s)[j] && BytesToBits(t)[j])
  {
    ByteAndBit(s[j / 8], t[j / 8], j % 8);
  }

  lemma ShrBytesInner(s: seq<byte>, m: nat, r: nat, r1: nat)
    requires |s| == 16 && m < 16 && 0 < r < 8 && r1 + 1 == r
    ensures BytesToBits(ShrBytes(s))[8 * m + r] == BytesToBits(s)[8 * m + r1]
  {
    var prev: byte := if m == 0 then 0 else s[m - 1];
    assert ShrBytes(s)[m] == ShrByte(s[m], prev);
    BitOf(ShrBytes(s), m, r);
    CarryBitInner(s[m], prev, r, r1);
    BitOf(s, m, r1);
  }

  lemma ShrBytesEdge(s: seq<byte>, m: nat, m1: nat)
    requires |s| == 16 && 0 < m < 16 && m1 + 1 == m
    ensures BytesToBits(ShrBytes(s))[8 * m] == BytesToBits(s)[8 * m1 + 7]
  {
    ShrBytesAt(s, m, m1);
    EdgeBits(ShrBytes(s), s, m, m1);
  }

  lemma EdgeBits(sh: seq<byte>, s: seq<byte>, m: nat, m1: nat)
    requires |s| == 16 && |sh| == 16 && 0 < m < 16 && m1 + 1 == m
    requires sh[m] == ShrByte(s[m], s[m1])
    ensures BytesToBits(sh)[8 * m] == BytesToBits(s)[8 * m1 + 7]
  {
    BitOf(sh, m, 0);
    BitOf(s, m1, 7);
    CarryBitFirst(s[m], s[m1]);
  }

  /** Past the first byte, each shifted byte takes the last bit of the byte before it. */
  lemma ShrBytesAt(s: seq<byte>, m: nat, m1: nat)
    requires 0 < m < |s| && m1 + 1 == m
    ensures ShrBytes(s)[m] == ShrByte(s[m], s[m1])
  {
  }

  lemma ShrBytesFirst(s: seq<byte>)
    requires |s| == 16
    ensures !BytesToBits(ShrBytes(s))[0]
  {
    assert ShrBytes(s)[0] == ShrByte(s[0], 0);
    BitOf(ShrBytes(s), 0, 0);
    CarryBitFirst(s[0], 0);
    assert !ByteBit(0, 7);
  }

  /** Bit `j` of the shifted string, inside a byte. */
  lemma ShrBitInner(s: seq<byte>, j: nat, m: nat, r: nat, r1: nat)
    requires |s| == 16 && j == 8 * m + r && m < 16 && 0 < r < 8 && r1 + 1 == r
    ensures BytesToBits(ShrBytes(s))[j] == BytesToBits(s)[j - 1]
  {
    ShrBytesInner(s, m, r, r1);
  }

  /** Bit `j` of the shifted string, at the start of a byte after the first. */
  lemma ShrBitEdge(s: seq<byte>, j: nat, m: nat, m1: nat)
    requires |s| == 16 && j == 8 * m && 0 < m < 16 && m1 + 1 == m
    ensures BytesToBits(ShrBytes(s))[j] == BytesToBits(s)[j - 1]
  {
    ShrBytesEdge(s, m, m1);
  }

  lemma ShrBit(s: seq<byte>, j: nat)
    requires |s| == 16 && j < 128
    ensures BytesToBits(ShrBytes(s))[j] == (j > 0 && BytesToBits(s)[j - 1])
  {
    var m, r := j / 8, j % 8;
    if r > 0 {
      ShrBitInner(s, j, m, r, r - 1);
    } else if m > 0 {
      ShrBitEdge(s, j, m, m - 1);
    } else {
      ShrBytesFirst(s);
    }
  }

  lemma BytesShr(s: seq<byte>)
    requires |s| == 16
    ensures BytesToBits(ShrBytes(s)) == GF128.Shr(BytesToBits(s))
  {
    var a, b := BytesToBits(ShrBytes(s)), GF128.Shr(BytesToBits(s));
    forall j | 0 <= j < 128
      ensures a[j] == b[j]
    {
      ShrBit(s, j);
    }
  }

  // ---------------------------------------------------------------------------
  // Bytes of a 64-bit word

  lemma WordXorBytes(p: bv64, q: bv64)
    ensures WordBytes(p ^ q) ==
      [XorByte(WordBytes(p)[0], WordBytes(q)[0]), XorByte(WordBytes(p)[1], WordBytes(q)[1]),
       XorByte(WordBytes(p)[2], WordBytes(q)[2]), XorByte(WordBytes(p)[3], WordBytes(q)[3]),
       XorByte(WordBytes(p)[4], WordBytes(q)[4]), XorByte(WordBytes(p)[5], WordBytes(q)[5]),
       XorByte(WordBytes(p)[6], WordBytes(q)[6]), XorByte(WordBytes(p)[7], WordBytes(q)[7])]
  {
  }

  lemma WordAndBytes(p: bv64, q: bv64)
    ensures WordBytes(p & q) ==
      [AndByte(WordBytes(p)[0], WordBytes(q)[0]), AndByte(WordBytes(p)[1], WordBytes(q)[1]),
       AndByte(WordBytes(p)[2], WordBytes(q)[2]), AndByte(WordBytes(p)[3], WordBytes(q)[3]),
       AndByte(WordBytes(p)[4], WordBytes(q)[4]), AndByte(WordBytes(p)[5], WordBytes(q)[5]),
       AndByte(WordBytes(p)[6], WordBytes(q)[6]), AndByte(WordBytes(p)[7], WordBytes(q)[7])]
  {
  }

  /** A word shifted right by one place, with `c` (0 or 1) added into its top bit, as `rightShift` does. */
  lemma WordShrBytes(w: bv64, c: bv64)
    requires c <= 1
    ensures WordBytes((w >> 1) + (c << 63)) ==
      [ShrByte(WordBytes(w)[0], c as byte), ShrByte(WordBytes(w)[1], WordBytes(w)[0]),
       ShrByte(WordBytes(w)[2], WordBytes(w)[1]), ShrByte(WordBytes(w)[3], WordBytes(w)[2]),
       ShrByte(WordBytes(w)[4], WordBytes(w)[3]), ShrByte(WordBytes(w)[5], WordBytes(w)[4]),
       ShrByte(WordBytes(w)[6], WordBytes(w)[5]), ShrByte(WordBytes(w)[7], WordBytes(w)[6])]
  {
  }

  /** A carry only reads the last bit of the byte before, and a word's last byte ends in the word's last bit. */
  lemma LastByteCarry(b: byte, w: bv64)
    ensures w & 1 <= 1
    ensures ShrByte(b, (w & 1) as byte) == ShrByte(b, WordBytes(w)[7])
  {
  }

  lemma XorDisplay(s: seq<byte>, t: seq<byte>, x: seq<byte>)
    requires |s| == 8 && |t| == 8
    requires x == [XorByte(s[0], t[0]), XorByte(s[1], t[1]), XorByte(s[2], t[2]), XorByte(s[3], t[3]),
                   XorByte(s[4], t[4]), XorByte(s[5], t[5]), XorByte(s[6], t[6]), XorByte(s[7], t[7])]
    ensures x == XorBytes(s, t)
  {
  }

  lemma AndDisplay(s: seq<byte>, t: seq<byte>, x: seq<byte>)
    requires |s| == 8 && |t| == 8
    requires x == [AndByte(s[0], t[0]), AndByte(s[1], t[1]), AndByte(s[2], t[2]), AndByte(s[3], t[3]),
                   AndByte(s[4], t[4]), AndByte(s[5], t[5]), AndByte(s[6], t[6]), AndByte(s[7], t[7])]
    ensures x == AndBytes(s, t)
  {
  }

  lemma ShrDisplay(s: seq<byte>, prev: byte, x: seq<byte>)
    requires |s| == 8
    requires x == [ShrByte(s[0], prev), ShrByte(s[1], s[0]), ShrByte(s[2], s[1]), ShrByte(s[3], s[2]),
                   ShrByte(s[4], s[3]), ShrByte(s[5], s[4]), ShrByte(s[6], s[5]), ShrByte(s[7], s[6])]
    ensures x == ShrBytesFrom(s, prev)
  {
  }

  lemma WordXor(p: bv64, q: bv64)
    ensures WordBytes(p ^ q) == XorBytes(WordBytes(p), WordBytes(q))
  {
    WordXorBytes(p, q);
    XorDisplay(WordBytes(p), WordBytes(q), WordBytes(p ^ q));
  }

  lemma WordAnd(p: bv64, q: bv64)
    ensures WordBytes(p & q) == AndBytes(WordBytes(p), WordBytes(q))
  {
    WordAndBytes(p, q);
    AndDisplay(WordBytes(p), WordBytes(q), WordBytes(p & q));
  }

  lemma WordShr(w: bv64, prev: byte, c: bv64)
    requires c <= 1 && ShrByte(WordBytes(w)[0], c as byte) == ShrByte(WordBytes(w)[0], prev)
    ensures WordBytes((w >> 1) + (c << 63)) == ShrBytesFrom(WordBytes(w), prev)
  {
    WordShrBytes(w, c);
    ShrDisplay(WordBytes(w), prev, WordBytes((w >> 1) + (c << 63)));
  }

  /**
    The high half of `rightShift`: a zero comes in at the top. It is written
    `(w >> 1) + (0 << 63)`, the shape of the low half with a zero carry, so
    that both halves use `WordShr`.
   */
  lemma WordShrTop(w: bv64)
    ensures WordBytes((w >> 1) + (0 << 63)) == ShrBytesFrom(WordBytes(w), 0)
  {
    WordShr(w, 0, 0);
  }

  /** The low half of `rightShift`: the high half's last bit comes in at the top. */
  lemma WordShrCarry(w: bv64, hi: bv64)
    ensures WordBytes((w >> 1) + ((hi & 1) << 63)) == ShrBytesFrom(WordBytes(w), WordBytes(hi)[7])
  {
    LastByteCarry(WordBytes(w)[0], hi);
    WordShrLastBit(w, hi);
  }

  lemma WordShrLastBit(w: bv64, hi: bv64)
    requires hi & 1 <= 1 && ShrByte(WordBytes(w)[0], (hi & 1) as byte) == ShrByte(WordBytes(w)[0], WordBytes(hi)[7])
    ensures WordBytes((w >> 1) + ((hi & 1) << 63)) == ShrBytesFrom(WordBytes(w), WordBytes(hi)[7])
  {
    WordShr(w, WordBytes(hi)[7], hi & 1);
  }

  // ---------------------------------------------------------------------------
  // Bytewise operators on concatenations

  lemma XorBytesAppend(s1: seq<byte>, s2: seq<byte>, t1: seq<byte>, t2: seq<byte>)
    requires |s1| == |t1| && |s2| == |t2|
    ensures XorBytes(s1 + s2, t1 + t2) == XorBytes(s1, t1) + XorBytes(s2, t2)
  {
    assert XorBytes(s1 + s2, t1 + t2) == XorBytes(s1, t1) + XorBytes(s2, t2);
  }

  lemma AndBytesAppend(s1: seq<byte>, s2: seq<byte>, t1: seq<byte>, t2: seq<byte>)
    requires |s1| == |t1| && |s2| == |t2|
    ensures AndBytes(s1 + s2, t1 + t2) == AndBytes(s1, t1) + AndBytes(s2, t2)
  {
    assert AndBytes(s1 + s2, t1 + t2) == AndBytes(s1, t1) + AndBytes(s2, t2);
  }

  /** Shifting two words' bytes together: the second word takes the first word's last bit. */
  lemma ShrBytesAppend(s: seq<byte>, t: seq<byte>, prev: byte)
    requires |s| == 8 && |t| == 8
    ensures ShrBytesFrom(s + t, prev) == ShrBytesFrom(s, prev) + ShrBytesFrom(t, s[7])
  {
    var st := s + t;
    var l, r := ShrBytesFrom(st, prev), ShrBytesFrom(s, prev) + ShrBytesFrom(t, s[7]);
    forall m | 0 <= m < 16
      ensures l[m] == r[m]
    {
      if m == 0 {
      } else if m < 8 {
        assert st[m - 1] == s[m - 1];
      } else if m == 8 {
        assert st[m - 1] == s[7];
      } else {
        assert st[m - 1] == t[m - 9];
      }
    }
  }

  // ---------------------------------------------------------------------------
  // The bytes of the engine's operators, from what they do to the halves

  lemma HalvesXor(a: UInt128, b: UInt128, x: UInt128)
    requires High(x) == High(a) ^ High(b) && Low(x) == Low(a) ^ Low(b)
    ensures GetData(x) == XorBytes(GetData(a), GetData(b))
  {
    WordXor(High(a), High(b));
    WordXor(Low(a), Low(b));
    XorBytesAppend(WordBytes(High(a)), WordBytes(Low(a)), WordBytes(High(b)), WordBytes(Low(b)));
  }

  lemma HalvesAnd(a: UInt128, b: UInt128, x: UInt128)
    requires High(x) == High(a) & High(b) && Low(x) == Low(a) & Low(b)
    ensures GetData(x) == AndBytes(GetData(a), GetData(b))
  {
    WordAnd(High(a), High(b));
    WordAnd(Low(a), Low(b));
    AndBytesAppend(WordBytes(High(a)), WordBytes(Low(a)), WordBytes(High(b)), WordBytes(Low(b)));
  }

  lemma WordsShr(hi: bv64, lo: bv64)
    ensures WordBytes((hi >> 1) + (0 << 63)) + WordBytes((lo >> 1) + ((hi & 1) << 63))
         == ShrBytes(WordBytes(hi) + WordBytes(lo))
  {
    WordShrTop(hi);
    WordShrCarry(lo, hi);
    ShrBytesAppend(WordBytes(hi), WordBytes(lo), 0);
  }

  lemma HalvesShr(n: UInt128, x: UInt128)
    requires High(x) == (High(n) >> 1) + (0 << 63) && Low(x) == (Low(n) >> 1) + ((High(n) & 1) << 63)
    ensures GetData(x) == ShrBytes(GetData(n))
  {
    WordsShr(High(n), Low(n));
  }

  lemma XorHalves(a: UInt128, b: UInt128)
    ensures High(Xor(a, b)) == High(a) ^ High(b) && Low(Xor(a, b)) == Low(a) ^ Low(b)
  {
  }

  lemma AndHalves(a: UInt128, b: UInt128)
    ensures High(And(a, b)) == High(a) & High(b) && Low(And(a, b)) == Low(a) & Low(b)
  {
  }

  lemma RightShiftHalves(n: UInt128)
    ensures High(RightShift(n)) == (High(n) >> 1) + (0 << 63)
    ensures Low(RightShift(n)) == (Low(n) >> 1) + ((High(n) & 1) << 63)
  {
  }

  // ---------------------------------------------------------------------------
  // The engine's operators on blocks

  /** Two values with the same bits are equal. */
  lemma ToBitsInjective(a: UInt128, b: UInt128)
    requires ToBits(a) == ToBits(b)
    ensures a == b
  {
    BytesToBitsInjective(GetData(a), GetData(b));
    FromBytesGetData(a);
    FromBytesGetData(b);
  }

  /** `^` is the addition of blocks. */
  lemma ToBitsXor(a: UInt128, b: UInt128)
    ensures ToBits(Xor(a, b)) == GF128.Add(ToBits(a), ToBits(b))
  {
    XorHalves(a, b);
    HalvesXor(a, b, Xor(a, b));
    BytesXor(GetData(a), GetData(b));
  }

  /** `&` keeps exactly the bits set in both. */
  lemma ToBitsAnd(a: UInt128, b: UInt128, j: nat)
    requires j < 128
    ensures ToBits(And(a, b))[j] == (ToBits(a)[j] && ToBits(b)[j])
  {
    AndHalves(a, b);
    HalvesAnd(a, b, And(a, b));
    BytesAnd(GetData(a), GetData(b), j);
  }

  /** `rightShift` is the shift X >> 1 of the block. */
  lemma ToBitsRightShift(n: UInt128)
    ensures ToBits(RightShift(n)) == GF128.Shr(ToBits(n))
  {
    RightShiftHalves(n);
    HalvesShr(n, RightShift(n));
    BytesShr(GetData(n));
  }

  /**
    When `k` has the single bit `i`, the source's test `y & k == k` asks
    whether bit `i` of `y` is set.
   */
  lemma TestBit(y: UInt128, k: UInt128, i: nat)
    requires i < 128 && ToBits(k) == GF128.Unit(i)
    ensures Equal(And(y, k), k) <==> ToBits(y)[i]
  {
    ToBitsAnd(y, k, i);
    if ToBits(y)[i] {
      forall j | 0 <= j < 128
        ensures ToBits(And(y, k))[j] == ToBits(k)[j]
      {
        ToBitsAnd(y, k, j);
      }
      ToBitsInjective(And(y, k), k);
    }
  }
}
