/**
  The 128-bit unsigned value used by the GCM engine for counters, hash
  accumulators and tags. The source stores it as two 64-bit halves, `a`
  (most significant) and `b` (least significant); here it is the 128-bit
  word itself, with `High` and `Low` reading the two halves and `Pack`
  building a value from them, so every operation is written over the halves
  exactly as the source does and its contract says what it does to the word.
 */
module U128 {

  type byte = bv8

  const MaxWord: bv64 := 0xFFFF_FFFF_FFFF_FFFF

  /** A value of the source's `UInt128` struct. */
  type UInt128 = bv128

  /** The field `a`: bits 127..64. */
  function High(x: UInt128): bv64 {
    (x >> 64) as bv64
  }

  /** The field `b`: bits 63..0. */
  function Low(x: UInt128): bv64 {
    (x & 0xFFFF_FFFF_FFFF_FFFF) as bv64
  }

  /** The memberwise initialiser `UInt128(a:b:)`. */
  function Pack(a: bv64, b: bv64): (r: UInt128)
    ensures High(r) == a && Low(r) == b
  {
    ((a as bv128) << 64) | (b as bv128)
  }

  /** The initialiser `UInt128(b:)`: the high half is zero. */
  function FromLow(b: bv64): (r: UInt128)
    ensures r == b as bv128
  {
    Pack(0, b)
  }

  /** A value is determined by its two halves. */
  lemma PackHalves(x: UInt128)
    ensures Pack(High(x), Low(x)) == x
  {
  }

  // ---------------------------------------------------------------------------
  // Big-endian (de)serialisation

  /** The least significant byte of a word. */
  function LowByte(w: bv64): byte {
    (w & 0xFF) as byte
  }

  /** The least significant byte of a 128-bit word. */
  function LowByte128(v: bv128): byte {
    (v & 0xFF) as byte
  }

  /** The sixteen bytes of a 128-bit word, most significant first. */
  function BigEndian(v: bv128): (s: seq<byte>)
    ensures |s| == 16
  {
    [LowByte128(v >> 120), LowByte128(v >> 112), LowByte128(v >> 104), LowByte128(v >> 96),
     LowByte128(v >> 88), LowByte128(v >> 80), LowByte128(v >> 72), LowByte128(v >> 64),
     LowByte128(v >> 56), LowByte128(v >> 48), LowByte128(v >> 40), LowByte128(v >> 32),
     LowByte128(v >> 24), LowByte128(v >> 16), LowByte128(v >> 8), LowByte128(v)]
  }

  /** The eight bytes of a word, most significant first. */
  function WordBytes(w: bv64): (s: seq<byte>)
    ensures |s| == 8
  {
    [LowByte(w >> 56), LowByte(w >> 48), LowByte(w >> 40), LowByte(w >> 32),
     LowByte(w >> 24), LowByte(w >> 16), LowByte(w >> 8), LowByte(w)]
  }

  /** The word whose big-endian bytes are `s`. */
  function WordOf(s: seq<byte>): (w: bv64)
    requires |s| == 8
    ensures WordBytes(w) == s
  {
    var w := ((s[0] as bv64) << 56) | ((s[1] as bv64) << 48) | ((s[2] as bv64) << 40) | ((s[3] as bv64) << 32)
      | ((s[4] as bv64) << 24) | ((s[5] as bv64) << 16) | ((s[6] as bv64) << 8) | (s[7] as bv64);
    WordBytesOf(s[0], s[1], s[2], s[3], s[4], s[5], s[6], s[7]);
    assert s == [s[0], s[1], s[2], s[3], s[4], s[5], s[6], s[7]];
    w
  }

  /** `getData`: the high half's bytes, then the low half's, each most significant first. */
  function GetData(x: UInt128): (r: seq<byte>)
    ensures |r| == 16
  {
    WordBytes(High(x)) + WordBytes(Low(x))
  }

  /** `init(raw:offset:)`: reads the halves from the sixteen bytes at `offset`. */
  function FromBytes(raw: seq<byte>, offset: nat): (r: UInt128)
    requires offset + 16 <= |raw|
    ensures GetData(r) == raw[offset..offset + 16]
  {
    var ar := raw[offset..offset + 8];
    var br := raw[offset + 8..offset + 16];
    var r := Pack(WordOf(ar), WordOf(br));
    assert raw[offset..offset + 16] == ar + br;
    r
  }

  // ---------------------------------------------------------------------------
  // Operators, written over the halves as in the source

  /** The `^` operator. */
  function Xor(n1: UInt128, n2: UInt128): UInt128 {
    Pack(High(n1) ^ High(n2), Low(n1) ^ Low(n2))
  }

  /** The `&` operator. */
  function And(n1: UInt128, n2: UInt128): UInt128 {
    Pack(High(n1) & High(n2), Low(n1) & Low(n2))
  }

  /**
    `rightShift`: the low half takes the high half's least significant bit
    into its top position. The source adds that bit to the shifted low half
    (shifts bind tighter than `+` in Swift).
   */
  function RightShift(n: UInt128): UInt128 {
    Pack(High(n) >> 1, (Low(n) >> 1) + ((High(n) & 1) << 63))
  }

  /**
    `increment`: adds one to the low half and carries into the high half when
    the low half wraps to zero. The source's `b + 1` traps on overflow, so the
    low half must not be all ones, and the carry branch is never taken.
   */
  function Increment(x: UInt128): UInt128
    requires Low(x) != MaxWord
  {
    var bn := Low(x) + 1;
    var an := if bn == 0 then High(x) + 1 else High(x);
    Pack(an, bn)
  }

  /** The `==` operator. */
  function Equal(lhs: UInt128, rhs: UInt128): (r: bool)
    ensures r <==> lhs == rhs
  {
    High(lhs) == High(rhs) && Low(lhs) == Low(rhs)
  }

  /** The `!=` operator. */
  function NotEqual(lhs: UInt128, rhs: UInt128): (r: bool)
    ensures r <==> lhs != rhs
  {
    !Equal(lhs, rhs)
  }

  // ---------------------------------------------------------------------------
  // What the operators do to the 128-bit word

  /** `^` is XOR of the 128-bit words. */
  lemma XorValue(n1: UInt128, n2: UInt128)
    ensures Xor(n1, n2) == n1 ^ n2
  {
  }

  /** `&` is AND of the 128-bit words. */
  lemma AndValue(n1: UInt128, n2: UInt128)
    ensures And(n1, n2) == n1 & n2
  {
  }

  /**
    `rightShift` is a logical shift of the 128-bit word by one place: the
    shifted low half has a clear top bit, so the source's `+` never carries.
   */
  lemma RightShiftValue(n: UInt128)
    ensures RightShift(n) == n >> 1
    ensures High(RightShift(n)) >> 63 == 0
    ensures Low(RightShift(n)) >> 63 == High(n) & 1
  {
  }

  /** `increment` adds one to the 128-bit word without wrapping round, and keeps the high half. */
  lemma IncrementValue(x: UInt128)
    requires Low(x) != MaxWord
    ensures Increment(x) == x + 1
    ensures Increment(x) != 0
    ensures High(Increment(x)) == High(x) && Low(Increment(x)) == Low(x) + 1
  {
  }

  // ---------------------------------------------------------------------------
  // The number a word stands for

  /**
    The number the last `k` bytes of `w` stand for, most significant first.
    Defined byte by byte, so that reasoning about it stays within single
    bytes.
   */
  function Value(w: bv64, k: nat): nat
    decreases k
  {
    if k == 0 then 0 else Value(w >> 8, k - 1) * 256 + LowByte(w) as int
  }

  /** The unsigned number a 64-bit half stands for. */
  function WordValue(w: bv64): nat {
    Value(w, 8)
  }

  /** The last `k` bytes of `w` are all 0xFF. */
  predicate AllOnes(w: bv64, k: nat)
    decreases k
  {
    k == 0 || (LowByte(w) == 0xFF && AllOnes(w >> 8, k - 1))
  }

  /** `increment` adds one to the number the low half stands for, and keeps the high half. */
  lemma IncrementCount(x: UInt128)
    requires Low(x) != MaxWord
    ensures High(Increment(x)) == High(x)
    ensures WordValue(Low(Increment(x))) == WordValue(Low(x)) + 1
  {
    IncrementValue(x);
    WordSucc(Low(x), Low(Increment(x)));
  }

  lemma WordSucc(w: bv64, w1: bv64)
    requires w != MaxWord && w1 == w + 1
    ensures WordValue(w1) == WordValue(w) + 1
  {
    if AllOnes(w, 8) {
      OnesAreMax(w);
    }
    ValueSucc(w, 8);
  }

  /** The all-ones word stands for 2^64 - 1, the largest value of a half. */
  lemma MaxWordValue()
    ensures WordValue(MaxWord) == 0xFFFF_FFFF_FFFF_FFFF
  {
    assert AllOnes(MaxWord >> 56, 0);
  }

  /** No half stands for more than the all-ones word. */
  lemma WordValueBound(w: bv64)
    ensures WordValue(w) <= WordValue(MaxWord)
  {
    ValueBound(w, MaxWord, 8);
  }

  lemma {:induction false} ValueBound(w: bv64, v: bv64, k: nat)
    requires AllOnes(v, k)
    ensures Value(w, k) <= Value(v, k)
    decreases k
  {
    if k > 0 {
      ValueBound(w >> 8, v >> 8, k - 1);
    }
  }

  lemma OnesAreMax(w: bv64)
    requires AllOnes(w, 8)
    ensures w == MaxWord
  {
  }

  lemma ByteSucc(b: byte)
    requires b != 0xFF
    ensures (b + 1) as int == b as int + 1
  {
  }

  lemma NoCarry(w: bv64)
    requires LowByte(w) != 0xFF
    ensures (w + 1) >> 8 == w >> 8 && LowByte(w + 1) == LowByte(w) + 1
  {
  }

  lemma Carry(w: bv64)
    requires LowByte(w) == 0xFF && w != MaxWord
    ensures (w + 1) >> 8 == (w >> 8) + 1 && LowByte(w + 1) == 0
  {
  }

  lemma ShiftNotMax(w: bv64)
    ensures w >> 8 != MaxWord
  {
  }

  /** Adding one to a word adds one to the number its last `k` bytes stand for, unless they are all 0xFF. */
  lemma {:induction false} ValueSucc(w: bv64, k: nat)
    requires 1 <= k <= 8 && !AllOnes(w, k) && w != MaxWord
    ensures Value(w + 1, k) == Value(w, k) + 1
    decreases k
  {
    if LowByte(w) != 0xFF {
      ValueNoCarry(w, k);
    } else {
      ShiftNotMax(w);
      ValueSucc(w >> 8, k - 1);
      ValueCarry(w, k);
    }
  }

  lemma ValueNoCarry(w: bv64, k: nat)
    requires k >= 1 && LowByte(w) != 0xFF
    ensures Value(w + 1, k) == Value(w, k) + 1
  {
    NoCarry(w);
    ByteSucc(LowByte(w));
  }

  lemma ValueCarry(w: bv64, k: nat)
    requires k >= 2 && LowByte(w) == 0xFF && w != MaxWord
    requires Value((w >> 8) + 1, k - 1) == Value(w >> 8, k - 1) + 1
    ensures Value(w + 1, k) == Value(w, k) + 1
  {
    Carry(w);
  }

  // ---------------------------------------------------------------------------
  // Proofs about the byte view

  lemma WordBytesOf(b0: byte, b1: byte, b2: byte, b3: byte, b4: byte, b5: byte, b6: byte, b7: byte)
    ensures WordBytes(((b0 as bv64) << 56) | ((b1 as bv64) << 48) | ((b2 as bv64) << 40) | ((b3 as bv64) << 32)
      | ((b4 as bv64) << 24) | ((b5 as bv64) << 16) | ((b6 as bv64) << 8) | (b7 as bv64))
      == [b0, b1, b2, b3, b4, b5, b6, b7]
  {
  }

  /** A word is determined by its bytes. */
  lemma WordBytesInjective(v: bv64, w: bv64)
    requires WordBytes(v) == WordBytes(w)
    ensures v == w
  {
    var s := WordBytes(v);
    assert s[0] == LowByte(v >> 56) == LowByte(w >> 56);
    assert s[7] == LowByte(v) == LowByte(w);
    assert s[1] == LowByte(v >> 48) == LowByte(w >> 48);
    assert s[2] == LowByte(v >> 40) == LowByte(w >> 40);
    assert s[3] == LowByte(v >> 32) == LowByte(w >> 32);
    assert s[4] == LowByte(v >> 24) == LowByte(w >> 24);
    assert s[5] == LowByte(v >> 16) == LowByte(w >> 16);
    assert s[6] == LowByte(v >> 8) == LowByte(w >> 8);
  }

  /** The high half's bytes are the top eight bytes of the 128-bit word. */
  lemma HighBytes(x: UInt128)
    ensures WordBytes(High(x)) == BigEndian(x)[..8]
  {
  }

  /** The low half's bytes are the bottom eight bytes of the 128-bit word. */
  lemma LowBytes(x: UInt128)
    ensures WordBytes(Low(x)) == BigEndian(x)[8..]
  {
  }

  /** `getData` writes the 128-bit word most significant byte first. */
  lemma GetDataBigEndian(x: UInt128)
    ensures GetData(x) == BigEndian(x)
  {
    var s := BigEndian(x);
    HighBytes(x);
    LowBytes(x);
    assert s == s[..8] + s[8..];
  }

  /** Reading back what `getData` wrote gives the same value. */
  lemma FromBytesGetData(x: UInt128)
    ensures FromBytes(GetData(x), 0) == x
  {
    var y := FromBytes(GetData(x), 0);
    assert GetData(y) == GetData(x);
    assert WordBytes(High(y)) == GetData(y)[..8] && WordBytes(High(x)) == GetData(x)[..8];
    assert WordBytes(Low(y)) == GetData(y)[8..] && WordBytes(Low(x)) == GetData(x)[8..];
    WordBytesInjective(High(y), High(x));
    WordBytesInjective(Low(y), Low(x));
    PackHalves(x);
    PackHalves(y);
  }

  /** `init(raw:offset:)` reads the sixteen bytes as a big-endian 128-bit number. */
  lemma FromBytesBigEndian(raw: seq<byte>, offset: nat)
    requires offset + 16 <= |raw|
    ensures BigEndian(FromBytes(raw, offset)) == raw[offset..offset + 16]
  {
    GetDataBigEndian(FromBytes(raw, offset));
  }

  /** Serialising a value read from sixteen bytes gives those bytes back. */
  lemma GetDataFromBytes(s: seq<byte>)
    requires |s| == 16
    ensures GetData(FromBytes(s, 0)) == s
  {
    assert s[0..16] == s;
  }
}
