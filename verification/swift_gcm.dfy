/**
  The `SwiftGCM` engine: AES-GCM authenticated encryption for one message
  under a key and a 96-bit nonce (NIST SP 800-38D, sections 7.1 and 7.2).

  The engine is a value: `Encrypt` and `Decrypt` return the engine as it is
  after the call together with the result, so "the counter moved" and "the
  engine is now used" are statements about that returned engine. The AES
  block call is a parameter `E`, any deterministic function from a key and a
  16-byte block to a 16-byte block.
 */
module SwiftGCM {
  import opened U128
  import opened BlockBits
  import opened GaloisField

  const KeySize128: nat := 16
  const KeySize192: nat := 24
  const KeySize256: nat := 32
  const RequiredNonceSize: nat := 12

  /** A 16-byte block, the unit the block cipher works on. */
  type Block = s: seq<byte> | |s| == 16 witness [0, 0, 0, 0, 0, 0, 0, 0, 0, 0, 0, 0, 0, 0, 0, 0]

  /** The block cipher under a key: the source's `encryptBlock`. */
  type Cipher = (seq<byte>, Block) -> Block

  /** The errors the engine throws; `commonCryptoError` and `invalidDataSize` are not modelled. */
  datatype GcmError = InvalidKeySize | InvalidNonceSize | InstanceAlreadyUsed | AuthTagValidation

  datatype Result<T> = Success(value: T) | Failure(error: GcmError)

  /** Swift's `Data?` for the additional authenticated data. */
  datatype Option<T> = None | Some(value: T)

  /** The stored properties `key`, `counter` and `used`. */
  datatype Engine = Engine(key: seq<byte>, counter: UInt128, used: bool)

  /** The engine after a call, and what the call returned or threw. */
  datatype Outcome<T> = Outcome(engine: Engine, result: Result<T>)

  // ---------------------------------------------------------------------------
  // Counter

  /** `emptyCounter`, the 32-bit block counter 1 that follows the nonce. */
  function EmptyCounter(): (r: seq<byte>)
    ensures |r| == 4
  {
    [0, 0, 0, 1]
  }

  /** `makeCounter`: J0 = nonce || 0^31 || 1, read as a 128-bit value. */
  function MakeCounter(nonce: seq<byte>): (r: UInt128)
    requires |nonce| == RequiredNonceSize
    ensures GetData(r) == nonce + EmptyCounter()
  {
    FromBytes(nonce + EmptyCounter(), 0)
  }

  /**
    `n` more calls of `increment` are possible from `c` without the low
    half's trapping `+` overflowing.
   */
  predicate Room(c: UInt128, n: nat)
    decreases n
  {
    n == 0 || (Low(c) != MaxWord && Room(Increment(c), n - 1))
  }

  /** The counter after `n` calls of `increment`. */
  function Advance(c: UInt128, n: nat): UInt128
    requires Room(c, n)
    decreases n
  {
    if n == 0 then c else Advance(Increment(c), n - 1)
  }

  /** The keystream of `n` blocks: the encryptions of the `n` counters after `c`. */
  function Keystream(E: Cipher, key: seq<byte>, c: UInt128, n: nat): (r: seq<byte>)
    requires Room(c, n)
    ensures |r| == n * BlockSize
    decreases n
  {
    if n == 0 then []
    else
      var c1 := Increment(c);
      E(key, GetData(c1)) + Keystream(E, key, c1, n - 1)
  }

  // ---------------------------------------------------------------------------
  // Byte helpers

  /** `xorData`: byte `i` of `d1` XOR byte `i` of `d2`, for every byte of `d1`. */
  function XorData(d1: seq<byte>, d2: seq<byte>): (r: seq<byte>)
    requires |d1| <= |d2|
    ensures |r| == |d1|
  {
    seq(|d1|, i requires 0 <= i < |d1| => XorByte(d1[i], d2[i]))
  }

  /** The OR of the XORs of the first `n` byte pairs: `tsCompare`'s accumulator. */
  function Difference(d1: seq<byte>, d2: seq<byte>, n: nat): byte
    requires n <= |d1| && n <= |d2|
  {
    if n == 0 then 0 else Difference(d1, d2, n - 1) | XorByte(d1[n - 1], d2[n - 1])
  }

  /** `tsCompare`: equal lengths, and no byte pair differs. */
  function TsCompare(d1: seq<byte>, d2: seq<byte>): (r: bool)
    ensures r <==> d1 == d2
  {
    if |d1| != |d2| then false
    else
      DifferenceZero(d1, d2, |d1|);
      Difference(d1, d2, |d1|) == 0
  }

  /** The accumulator stays zero exactly while the bytes agree. */
  lemma {:induction false} DifferenceZero(d1: seq<byte>, d2: seq<byte>, n: nat)
    requires n <= |d1| && n <= |d2|
    ensures Difference(d1, d2, n) == 0 <==> d1[..n] == d2[..n]
  {
    if n > 0 {
      DifferenceZero(d1, d2, n - 1);
      var p, q := Difference(d1, d2, n - 1), XorByte(d1[n - 1], d2[n - 1]);
      OrZero(p, q);
      XorByteZero(d1[n - 1], d2[n - 1]);
      assert d1[..n] == d1[..n - 1] + [d1[n - 1]] && d2[..n] == d2[..n - 1] + [d2[n - 1]];
      SnocEqual(d1[..n - 1], d2[..n - 1], d1[n - 1], d2[n - 1]);
    }
  }

  lemma SnocEqual(a: seq<byte>, b: seq<byte>, x: byte, y: byte)
    requires |a| == |b|
    ensures a + [x] == b + [y] <==> a == b && x == y
  {
    if a + [x] == b + [y] {
      assert a == (a + [x])[..|a|] && b == (b + [y])[..|b|];
      assert x == (a + [x])[|a|] && y == (b + [y])[|b|];
    }
  }

  lemma OrZero(p: byte, q: byte)
    ensures p | q == 0 <==> p == 0 && q == 0
  {
  }

  lemma XorByteZero(p: byte, q: byte)
    ensures XorByte(p, q) == 0 <==> p == q
  {
  }

  /** `tsCompare` as the source's loop: the OR-accumulation, then a test for zero. */
  method TsCompareLoop(d1: seq<byte>, d2: seq<byte>) returns (r: bool)
    ensures r <==> d1 == d2
  {
    if |d1| != |d2| {
      return false;
    }
    var result: byte := 0;
    for i := 0 to |d1|
      invariant result == Difference(d1, d2, i)
    {
      result := result | XorByte(d1[i], d2[i]);
    }
    DifferenceZero(d1, d2, |d1|);
    assert d1[..|d1|] == d1 && d2[..|d2|] == d2;
    return result == 0;
  }

  // ---------------------------------------------------------------------------
  // The engine

  /** The additional data, an absent one being empty. */
  function AuthData(auth: Option<seq<byte>>): seq<byte> {
    if auth.Some? then auth.value else []
  }

  /** The number of blocks of the padded input, which is also the number of keystream blocks used. */
  function Blocks(x: seq<byte>): nat {
    |PadToBlockSize(x)| / BlockSize
  }

  /**
    The tag for `ct` under the engine's key and initial counter: hash_H(aad, ct)
    XOR E(K, J0), where `hash` is the source's and differs from the standard's
    GHASH as `HashAgainstStandard` states.
   */
  function Tag(E: Cipher, key: seq<byte>, j0: UInt128, aad: seq<byte>, ct: seq<byte>): (t: seq<byte>)
    requires |aad| * 8 <= MaxInt && |ct| * 8 <= MaxInt
    ensures |t| == BlockSize
  {
    var h := FromBytes(E(key, Zeros(BlockSize)), 0);
    var eky0 := FromBytes(E(key, GetData(j0)), 0);
    GetData(Xor(Hash(h, aad, ct), eky0))
  }

  /** Counter mode over the padded input from the counter after `c`, cut back to the input's length. */
  function Ctr(E: Cipher, key: seq<byte>, c: UInt128, x: seq<byte>): (r: seq<byte>)
    requires Room(c, Blocks(x))
    ensures |r| == |x|
  {
    var padded := PadToBlockSize(x);
    XorData(padded, Keystream(E, key, c, Blocks(x)))[..|x|]
  }

  /** `init(key:nonce:)`. */
  function Init(key: seq<byte>, nonce: seq<byte>): (r: Result<Engine>)
    ensures r.Success? <==> (|key| == KeySize128 || |key| == KeySize192 || |key| == KeySize256) && |nonce| == RequiredNonceSize
    ensures !(|key| == KeySize128 || |key| == KeySize192 || |key| == KeySize256) ==> r == Failure(InvalidKeySize)
    ensures (|key| == KeySize128 || |key| == KeySize192 || |key| == KeySize256) && |nonce| != RequiredNonceSize ==> r == Failure(InvalidNonceSize)
    ensures r.Success? ==> r.value.key == key && !r.value.used && GetData(r.value.counter) == nonce + EmptyCounter()
  {
    if |key| != KeySize128 && |key| != KeySize192 && |key| != KeySize256 then Failure(InvalidKeySize)
    else if |nonce| != RequiredNonceSize then Failure(InvalidNonceSize)
    else Success(Engine(key, MakeCounter(nonce), false))
  }

  /**
    `encrypt(auth:plaintext:)`: the ciphertext followed by the 16-byte tag.
    The counter runs through one increment per padded block.
   */
  function Encrypt(E: Cipher, g: Engine, auth: Option<seq<byte>>, plaintext: seq<byte>): (r: Outcome<seq<byte>>)
    requires !g.used ==> |AuthData(auth)| * 8 <= MaxInt && |plaintext| * 8 <= MaxInt && Room(g.counter, Blocks(plaintext))
    ensures r.result.Success? <==> !g.used
    ensures r.result.Failure? ==> r == Outcome(g, Failure(InstanceAlreadyUsed))
    ensures r.result.Success? ==> |r.result.value| == |plaintext| + BlockSize && r.engine.used
  {
    if g.used then Outcome(g, Failure(InstanceAlreadyUsed))
    else
      var ct := Ctr(E, g.key, g.counter, plaintext);
      var t := Tag(E, g.key, g.counter, AuthData(auth), ct);
      Outcome(Engine(g.key, Advance(g.counter, Blocks(plaintext)), true), Success(ct + t))
  }

  /** The ciphertext part of `decrypt`'s input: all but the last 16 bytes. */
  function Body(ciphertext: seq<byte>): (ct: seq<byte>)
    requires |ciphertext| >= BlockSize
    ensures |ct| == |ciphertext| - BlockSize && ct + ciphertext[|ct|..] == ciphertext
  {
    ciphertext[..|ciphertext| - BlockSize]
  }

  /** The tag a ciphertext-and-tag input carries must match before `decrypt` runs the keystream. */
  predicate TagMatches(E: Cipher, g: Engine, auth: Option<seq<byte>>, ciphertext: seq<byte>)
    requires |ciphertext| >= BlockSize && |AuthData(auth)| * 8 <= MaxInt && (|ciphertext| - BlockSize) * 8 <= MaxInt
  {
    var ct := Body(ciphertext);
    TsCompare(Tag(E, g.key, g.counter, AuthData(auth), ct), ciphertext[|ct|..])
  }

  /**
    `decrypt(auth:ciphertext:)`. The tag is checked first; on a mismatch
    nothing is decrypted and the engine is left as it was.
   */
  function Decrypt(E: Cipher, g: Engine, auth: Option<seq<byte>>, ciphertext: seq<byte>): (r: Outcome<seq<byte>>)
    requires !g.used ==> |ciphertext| >= BlockSize && |AuthData(auth)| * 8 <= MaxInt && (|ciphertext| - BlockSize) * 8 <= MaxInt
    requires !g.used && TagMatches(E, g, auth, ciphertext) ==> Room(g.counter, Blocks(Body(ciphertext)))
    ensures r.result.Success? <==> !g.used && TagMatches(E, g, auth, ciphertext)
    ensures g.used ==> r == Outcome(g, Failure(InstanceAlreadyUsed))
    ensures !g.used && !TagMatches(E, g, auth, ciphertext) ==> r == Outcome(g, Failure(AuthTagValidation))
    ensures r.result.Success? ==> |r.result.value| == |ciphertext| - BlockSize && r.engine.used
  {
    if g.used then Outcome(g, Failure(InstanceAlreadyUsed))
    else
      var ct := Body(ciphertext);
      if !TagMatches(E, g, auth, ciphertext) then Outcome(g, Failure(AuthTagValidation))
      else
        var pt := Ctr(E, g.key, g.counter, ct);
        Outcome(Engine(g.key, Advance(g.counter, Blocks(ct)), true), Success(pt))
  }

  // ---------------------------------------------------------------------------
  // Counter facts

  lemma {:induction false} RoomFewer(c: UInt128, n: nat, m: nat)
    requires Room(c, n) && m <= n
    ensures Room(c, m)
    decreases m
  {
    if m > 0 {
      RoomFewer(Increment(c), n - 1, m - 1);
    }
  }

  /** After `n` increments the high half is unchanged and the low half stands for `n` more. */
  lemma {:induction false} AdvanceCount(c: UInt128, n: nat)
    requires Room(c, n)
    ensures High(Advance(c, n)) == High(c)
    ensures WordValue(Low(Advance(c, n))) == WordValue(Low(c)) + n
    decreases n
  {
    if n > 0 {
      IncrementCount(c);
      AdvanceCount(Increment(c), n - 1);
    }
  }

  /** `n` increments are possible exactly when the low half has room to count `n` further. */
  lemma {:induction false} RoomCount(c: UInt128, n: nat)
    ensures Room(c, n) <==> WordValue(Low(c)) + n <= WordValue(MaxWord)
    decreases n
  {
    if n == 0 {
      WordValueBound(Low(c));
    } else if Low(c) != MaxWord {
      IncrementCount(c);
      RoomCount(Increment(c), n - 1);
    }
  }

  /** The counter after `n + 1` increments is one increment past the counter after `n`. */
  lemma {:induction false} AdvanceLast(c: UInt128, n: nat)
    requires Room(c, n + 1)
    ensures Room(c, n) && Low(Advance(c, n)) != MaxWord && Advance(c, n + 1) == Increment(Advance(c, n))
    decreases n
  {
    RoomFewer(c, n + 1, n);
    if n > 0 {
      AdvanceLast(Increment(c), n - 1);
    }
  }

  /** Byte `j` of the keystream is byte `j % 16` of the encryption of counter `j / 16 + 1`. */
  lemma {:induction false} KeystreamByte(E: Cipher, key: seq<byte>, c: UInt128, n: nat, j: nat)
    requires Room(c, n) && j < n * BlockSize
    ensures j / BlockSize + 1 <= n && Room(c, j / BlockSize + 1)
    ensures Keystream(E, key, c, n)[j] == E(key, GetData(Advance(c, j / BlockSize + 1)))[j % BlockSize]
    decreases n
  {
    RoomFewer(c, n, j / BlockSize + 1);
    if j >= BlockSize {
      var k := j - BlockSize;
      assert k / BlockSize + 1 == j / BlockSize && k % BlockSize == j % BlockSize;
      KeystreamByte(E, key, Increment(c), n - 1, k);
    }
  }

  /** One more block of keystream comes from one more increment. */
  lemma {:induction false} KeystreamLast(E: Cipher, key: seq<byte>, c: UInt128, n: nat)
    requires Room(c, n + 1)
    ensures Room(c, n) && Room(c, n + 1)
    ensures Keystream(E, key, c, n + 1) == Keystream(E, key, c, n) + E(key, GetData(Advance(c, n + 1)))
    decreases n
  {
    RoomFewer(c, n + 1, n);
    if n > 0 {
      var c1 := Increment(c);
      KeystreamLast(E, key, c1, n - 1);
    }
  }

  /** inc_32 of section 6.2 of NIST SP 800-38D: the low 32 bits count modulo 2^32, the rest stays. */
  function Inc32(x: UInt128): UInt128 {
    Pack(High(x), (Low(x) & 0xFFFF_FFFF_0000_0000) | (((Low(x) & 0xFFFF_FFFF) + 1) & 0xFFFF_FFFF))
  }

  /**
    `increment` steps the whole low half rather than its last 32 bits, and
    agrees with inc_32 until those 32 bits are all ones.
   */
  lemma IncrementInc32(x: UInt128)
    requires Low(x) & 0xFFFF_FFFF != 0xFFFF_FFFF
    ensures Low(x) != MaxWord && Increment(x) == Inc32(x)
  {
  }

  /** A fresh counter's 32-bit block counter is 1. */
  lemma CounterStartsAtOne(nonce: seq<byte>)
    requires |nonce| == RequiredNonceSize
    ensures Low(MakeCounter(nonce)) & 0xFFFF_FFFF == 1
  {
    var c := MakeCounter(nonce);
    assert WordBytes(Low(c)) == GetData(c)[8..];
    assert GetData(c)[12..] == EmptyCounter();
  }

  // ---------------------------------------------------------------------------
  // xorData

  /** XORing twice with the same keystream gives the data back. */
  lemma XorDataTwice(d: seq<byte>, k: seq<byte>)
    requires |d| <= |k|
    ensures XorData(XorData(d, k), k) == d
  {
    forall i | 0 <= i < |d|
      ensures XorData(XorData(d, k), k)[i] == d[i]
    {
      XorByteTwice(d[i], k[i]);
    }
  }

  lemma XorByteTwice(p: byte, q: byte)
    ensures XorByte(XorByte(p, q), q) == p
  {
  }

  lemma XorDataAppend(d1: seq<byte>, d2: seq<byte>, k1: seq<byte>, k2: seq<byte>)
    requires |d1| == |k1| && |d2| <= |k2|
    ensures XorData(d1 + d2, k1 + k2) == XorData(d1, k1) + XorData(d2, k2)
  {
    assert XorData(d1 + d2, k1 + k2) == XorData(d1, k1) + XorData(d2, k2);
  }

  // ---------------------------------------------------------------------------
  // The source's counter-mode loop

  /**
    The loop shared by `encrypt` and `decrypt`: for each padded block, step
    the counter, encrypt it and XOR it into the block; then cut the output
    back to the input's length.
   */
  method CtrLoop(E: Cipher, key: seq<byte>, c0: UInt128, x: seq<byte>) returns (out: seq<byte>, counter: UInt128)
    requires Room(c0, Blocks(x))
    ensures out == Ctr(E, key, c0, x)
    ensures counter == Advance(c0, Blocks(x))
  {
    var padded := PadToBlockSize(x);
    var blockCount := |padded| / BlockSize;
    out := [];
    counter := c0;
    for i := 0 to blockCount
      invariant Room(c0, i) && counter == Advance(c0, i)
      invariant out == XorData(padded[..i * BlockSize], Keystream(E, key, c0, i))
    {
      RoomFewer(c0, blockCount, i + 1);
      KeystreamLast(E, key, c0, i);
      AdvanceLast(c0, i);
      counter := Increment(counter);
      var ekyi := E(key, GetData(counter));
      var block := padded[i * BlockSize..i * BlockSize + BlockSize];
      assert padded[..(i + 1) * BlockSize] == padded[..i * BlockSize] + block;
      XorDataAppend(padded[..i * BlockSize], block, Keystream(E, key, c0, i), ekyi);
      out := out + XorData(block, ekyi);
    }
    assert padded[..blockCount * BlockSize] == padded;
    out := out[..|x|];
  }

  // ---------------------------------------------------------------------------
  // What encrypt and decrypt compute

  /**
    Byte `j` of the ciphertext is byte `j` of the plaintext XOR byte `j % 16`
    of E(K, J0 + 1 + j / 16), the counter `j / 16 + 1` increments after J0.
   */
  lemma CtrByte(E: Cipher, key: seq<byte>, c: UInt128, x: seq<byte>, j: nat)
    requires Room(c, Blocks(x)) && j < |x|
    ensures Room(c, j / BlockSize + 1)
    ensures Ctr(E, key, c, x)[j] == XorByte(x[j], E(key, GetData(Advance(c, j / BlockSize + 1)))[j % BlockSize])
  {
    KeystreamByte(E, key, c, Blocks(x), j);
  }

  /** `d` keeps the high half of `c` and its low half counts `n` further. */
  predicate Counted(c: UInt128, d: UInt128, n: nat) {
    High(d) == High(c) && WordValue(Low(d)) == WordValue(Low(c)) + n
  }

  /** Byte `j` of the keystream from `c`: byte `j % 16` of the encryption of the counter `j / 16 + 1` counts past `c`. */
  function MaskByte(E: Cipher, key: seq<byte>, c: UInt128, j: nat): byte
    requires Room(c, j / BlockSize + 1)
  {
    E(key, GetData(Advance(c, j / BlockSize + 1)))[j % BlockSize]
  }

  /**
    `ct` is `x` in counter mode from `c`: byte `j` is byte `j` of `x` XOR
    the mask byte `j`, taken from the counter `j / 16 + 1` counts past `c`.
   */
  predicate CounterMode(E: Cipher, key: seq<byte>, c: UInt128, x: seq<byte>, ct: seq<byte>) {
    && |ct| == |x|
    && forall j :: 0 <= j < |x| ==>
      && Room(c, j / BlockSize + 1)
      && Counted(c, Advance(c, j / BlockSize + 1), j / BlockSize + 1)
      && ct[j] == XorByte(x[j], MaskByte(E, key, c, j))
  }

  /** The counter-mode output is counter mode byte by byte, with the counters counting up from `c + 1`. */
  lemma CtrCounts(E: Cipher, key: seq<byte>, c: UInt128, x: seq<byte>)
    requires Room(c, Blocks(x))
    ensures CounterMode(E, key, c, x, Ctr(E, key, c, x))
  {
    var ct := Ctr(E, key, c, x);
    forall j | 0 <= j < |x|
      ensures Room(c, j / BlockSize + 1)
      ensures Counted(c, Advance(c, j / BlockSize + 1), j / BlockSize + 1)
      ensures ct[j] == XorByte(x[j], MaskByte(E, key, c, j))
    {
      CtrByte(E, key, c, x, j);
      AdvanceCount(c, j / BlockSize + 1);
    }
  }

  /**
    Encryption output: the plaintext in counter mode from J0, so block `i`
    (from 0) is masked with E(K, J0 + i + 1), then the 16-byte tag over that
    ciphertext. The engine's counter ends one count per padded block past J0.
   */
  lemma EncryptLayout(E: Cipher, g: Engine, auth: Option<seq<byte>>, p: seq<byte>, g1: Engine, out: seq<byte>)
    requires |AuthData(auth)| * 8 <= MaxInt && |p| * 8 <= MaxInt
    requires !g.used && Room(g.counter, Blocks(p))
    requires Encrypt(E, g, auth, p) == Outcome(g1, Success(out))
    ensures |out| == |p| + BlockSize
    ensures CounterMode(E, g.key, g.counter, p, out[..|p|])
    ensures out[|p|..] == Tag(E, g.key, g.counter, AuthData(auth), out[..|p|])
    ensures g1.key == g.key && g1.used && Counted(g.counter, g1.counter, Blocks(p))
  {
    CtrCounts(E, g.key, g.counter, p);
    AdvanceCount(g.counter, Blocks(p));
  }

  /** Counter mode undoes itself from the same counter. */
  lemma CtrTwice(E: Cipher, key: seq<byte>, c: UInt128, x: seq<byte>)
    requires Room(c, Blocks(x))
    ensures Blocks(Ctr(E, key, c, x)) == Blocks(x)
    ensures Ctr(E, key, c, Ctr(E, key, c, x)) == x
  {
    var y := Ctr(E, key, c, x);
    forall j | 0 <= j < |x|
      ensures Ctr(E, key, c, y)[j] == x[j]
    {
      CtrByte(E, key, c, x, j);
      CtrByte(E, key, c, y, j);
      XorByteTwice(x[j], E(key, GetData(Advance(c, j / BlockSize + 1)))[j % BlockSize]);
    }
  }

  /** Decrypting, on a fresh engine with the same key and nonce, what was encrypted gives the plaintext. */
  lemma DecryptEncrypt(E: Cipher, g: Engine, auth: Option<seq<byte>>, p: seq<byte>, out: seq<byte>)
    requires |AuthData(auth)| * 8 <= MaxInt && |p| * 8 <= MaxInt
    requires !g.used && Room(g.counter, Blocks(p))
    requires Encrypt(E, g, auth, p).result == Success(out)
    ensures |out| == |p| + BlockSize && out[..|p|] == Ctr(E, g.key, g.counter, p)
    ensures TagMatches(E, g, auth, out) && Room(g.counter, Blocks(Body(out)))
    ensures Decrypt(E, g, auth, out) == Outcome(Encrypt(E, g, auth, p).engine, Success(p))
  {
    CtrTwice(E, g.key, g.counter, p);
  }

  /**
    Decryption output, for any input whose tag matches: the body in counter
    mode from J0, so block `i` (from 0) is masked with E(K, J0 + i + 1). The
    engine keeps its key, becomes used, and its counter ends one count per
    padded block of the body past J0.
   */
  lemma DecryptLayout(E: Cipher, g: Engine, auth: Option<seq<byte>>, c: seq<byte>)
    requires |c| >= BlockSize && |AuthData(auth)| * 8 <= MaxInt && (|c| - BlockSize) * 8 <= MaxInt
    requires !g.used && TagMatches(E, g, auth, c) && Room(g.counter, Blocks(Body(c)))
    ensures var r := Decrypt(E, g, auth, c);
      && r.result.Success?
      && CounterMode(E, g.key, g.counter, Body(c), r.result.value)
      && r.engine.key == g.key && r.engine.used
      && Counted(g.counter, r.engine.counter, Blocks(Body(c)))
  {
    var ct := Body(c);
    DecryptSuccess(E, g, auth, c);
    CtrCounts(E, g.key, g.counter, ct);
    AdvanceCount(g.counter, Blocks(ct));
  }

  /** A matching tag lets `decrypt` run counter mode over the body and advance the counter. */
  lemma DecryptSuccess(E: Cipher, g: Engine, auth: Option<seq<byte>>, c: seq<byte>)
    requires |c| >= BlockSize && |AuthData(auth)| * 8 <= MaxInt && (|c| - BlockSize) * 8 <= MaxInt
    requires !g.used && TagMatches(E, g, auth, c) && Room(g.counter, Blocks(Body(c)))
    ensures Decrypt(E, g, auth, c)
      == Outcome(Engine(g.key, Advance(g.counter, Blocks(Body(c))), true), Success(Ctr(E, g.key, g.counter, Body(c))))
  {
  }

  /** A ciphertext whose last 16 bytes are not the tag is refused, and the engine does not change. */
  lemma WrongTagRefused(E: Cipher, g: Engine, auth: Option<seq<byte>>, ct: seq<byte>, t: seq<byte>)
    requires |t| == BlockSize && |AuthData(auth)| * 8 <= MaxInt && |ct| * 8 <= MaxInt
    requires !g.used && t != Tag(E, g.key, g.counter, AuthData(auth), ct)
    ensures !TagMatches(E, g, auth, ct + t)
    ensures Decrypt(E, g, auth, ct + t) == Outcome(g, Failure(AuthTagValidation))
  {
    assert Body(ct + t) == ct && (ct + t)[|ct|..] == t;
  }

  /** Once an encryption has succeeded, the engine refuses every further call, whatever its input. */
  lemma UsedOnce(E: Cipher, g: Engine, auth: Option<seq<byte>>, p: seq<byte>,
                 auth2: Option<seq<byte>>, p2: seq<byte>, c2: seq<byte>)
    requires |AuthData(auth)| * 8 <= MaxInt && |p| * 8 <= MaxInt
    requires !g.used && Room(g.counter, Blocks(p))
    ensures var g1 := Encrypt(E, g, auth, p).engine;
      && Encrypt(E, g1, auth2, p2) == Outcome(g1, Failure(InstanceAlreadyUsed))
      && Decrypt(E, g1, auth2, c2) == Outcome(g1, Failure(InstanceAlreadyUsed))
  {
  }

  /** Once a decryption has succeeded, the engine refuses every further call too, whatever its input. */
  lemma DecryptUsedOnce(E: Cipher, g: Engine, auth: Option<seq<byte>>, c: seq<byte>,
                        auth2: Option<seq<byte>>, p2: seq<byte>, c2: seq<byte>)
    requires |c| >= BlockSize && |AuthData(auth)| * 8 <= MaxInt && (|c| - BlockSize) * 8 <= MaxInt
    requires !g.used && TagMatches(E, g, auth, c) && Room(g.counter, Blocks(Body(c)))
    ensures var g1 := Decrypt(E, g, auth, c).engine;
      && Encrypt(E, g1, auth2, p2) == Outcome(g1, Failure(InstanceAlreadyUsed))
      && Decrypt(E, g1, auth2, c2) == Outcome(g1, Failure(InstanceAlreadyUsed))
  {
  }
}
