# SwiftGCM in Dafny

A model of the core of SwiftGCM, a single-file Swift implementation of
AES-GCM authenticated encryption (NIST SP 800-38D). The model has three
layers, each proved against an independent definition.

- **`UInt128`** (`u128.dfy`, module `U128`): a 128-bit value kept as two
  64-bit halves `a` (high) and `b` (low). It is modelled as a `bv128`, and
  the halves are `High` and `Low`. Its operations are:
  - `init(raw:offset:)` (big-endian load) and `getData` (big-endian store);
  - `increment`, `^`, `&`, `rightShift`, `==` and `!=`.

  Each half-wise operation is proved to be the matching whole-value
  operation. The byte conversions are proved to be mutual inverses.
- **`GaloisField`** (`galois_field.dfy`): `multiply`, `hash` (the source's variant of GHASH) and
  `padToBlockSize`.
  - `multiply` is written as the source's 128-round loop.
  - `BlockBits.ToBits` reads a value through its `getData` bytes, most
    significant bit first, as a block of the standard.
  - Read that way, `multiply(x, y)` is proved to be the product `y • x` of
    Algorithm 1 in section 6.3 of NIST SP 800-38D. That algorithm is
    defined over bit strings in `gf128.dfy` (module `GF128`).
  - `hash` is compared with the standard's GHASH (sections 6.4 and 7.1).
- **`SwiftGCM`** (`swift_gcm.dfy`): the engine.
  - `init(key:nonce:)` checks the key and nonce sizes.
  - `makeCounter` builds J0.
  - Counter mode runs over the padded input.
  - The tag is `hash(H, A, C) ^ E(K, J0)`, with the source's `hash`, which is
    not the standard's GHASH on block-aligned input (`HashAgainstStandard`).
  - An absent `auth` is empty data, as `auth != nil ? auth! : Data()`
    has it; `AuthData` models this.
  - Decryption checks the tag first.
  - `used` enforces one call per engine.

The engine is a value: `Encrypt` and `Decrypt` return the engine after
the call together with the result or the error thrown. The AES call
`encryptBlock` (CommonCrypto's `CCCrypt`) is a function parameter `E`
from a key and a 16-byte block to a 16-byte block.

Points where the model follows the code:

- **Padding.** `padToBlockSize` appends `16 - n % 16` zero bytes, so a
  block-aligned input (the empty one included) gains a whole zero block.
  - `hash` absorbs these padded inputs directly. For each block-aligned
    input, `hash` therefore does one extra multiplication by H that the
    standard's GHASH does not.
  - `HashAgainstStandard` states exactly what `hash` computes relative to
    the standard.
  - `HashDiffers` exhibits inputs for which the two hashes differ.
  - The model keeps the source's `hash`.
- **The `used` flag.**
  - The flag is set only when `encrypt` or `decrypt` succeeds. The
    errors `instanceAlreadyUsed` and `authTagValidation` leave the engine
    as it was.
  - The source declares `used` with `let` and then assigns it; the model
    treats it as the intended mutable field.
- **Overflow traps.** Swift's `+` and `*` trap on overflow.
  - `increment`'s `b + 1` traps when the low half is all ones. `Increment`
    therefore requires otherwise.
  - The counter-mode callers require `Room`: enough increments are
    possible. `RoomCount` shows that this is exactly the condition that
    the low half's value, plus the number of blocks, stays within 2^64 - 1.
  - `hash`'s `count * 8` must fit in `Int`.

## Model

| member | source | states |
|---|---|---|
| U128.Pack | SwiftGCM.swift:263-266 | `init(a:b:)` stores its arguments as the high and low halves |
| U128.FromLow | SwiftGCM.swift:267-270 | `init(b:)` is the 64-bit value widened to 128 bits |
| U128.PackHalves | SwiftGCM.swift:245-246 | rebuilding a value from its high and low halves gives the value back |
| U128.FromBytes | SwiftGCM.swift:249-262 | loading the 16 bytes at `offset` and storing the result with `getData` gives those same 16 bytes back |
| U128.GetData | SwiftGCM.swift:273-285 | `getData` always yields exactly 16 bytes |
| U128.GetDataBigEndian | SwiftGCM.swift:273-285 | the 16 bytes are the 128-bit value's big-endian encoding, most significant byte first |
| U128.FromBytesBigEndian | SwiftGCM.swift:249-262 | the big-endian encoding of the loaded value is the 16 bytes it was loaded from |
| U128.FromBytesGetData | SwiftGCM.swift:249-285 | storing a value and loading it back gives the same value |
| U128.GetDataFromBytes | SwiftGCM.swift:249-285 | loading 16 bytes and storing them gives the same bytes |
| U128.XorValue | SwiftGCM.swift:295-300 | XOR of the two halves separately is XOR of the whole 128-bit values |
| U128.AndValue | SwiftGCM.swift:302-307 | AND of the two halves separately is AND of the whole 128-bit values |
| U128.RightShiftValue | SwiftGCM.swift:309-313 | the half-wise shift with the carried bit is a 128-bit shift right by one: the top bit becomes 0, and the low half's top bit is the high half's last bit |
| U128.Xor | SwiftGCM.swift:295-300 | `^`, written half by half as the source does; no contract of its own, `XorValue` states that it is the 128-bit XOR and `BlockBits.ToBitsXor` that it is field addition |
| U128.And | SwiftGCM.swift:302-307 | `&`, written half by half; no contract of its own, `AndValue` and `BlockBits.ToBitsAnd` state its meaning |
| U128.RightShift | SwiftGCM.swift:309-313 | `rightShift`, with the high half's last bit added into the low half's top; no contract of its own, `RightShiftValue` and `BlockBits.ToBitsRightShift` state its meaning |
| U128.Increment | SwiftGCM.swift:288-292 | `increment`, its trapping `b + 1` a requirement that the low half is not all ones; no ensures of its own, `IncrementValue`, `IncrementCount` and `SwiftGCM.IncrementInc32` state its meaning |
| U128.IncrementValue | SwiftGCM.swift:288-292 | when the low half is not all ones, `increment` adds one to the 128-bit value, leaves the high half alone and never yields zero |
| U128.IncrementCount | SwiftGCM.swift:288-292 | when the low half is not all ones, `increment` adds one to the number the low half stands for, read as an unsigned big-endian integer byte by byte, and keeps the high half |
| U128.Equal | SwiftGCM.swift:316-318 | `==` holds exactly when the two values are equal |
| U128.NotEqual | SwiftGCM.swift:319-321 | `!=` holds exactly when the two values differ |
| BlockBits.ToBitsInjective | SwiftGCM.swift:273-285 | distinct values give distinct bit strings, so equalities proved on bit strings carry back to values |
| BlockBits.ToBitsXor | SwiftGCM.swift:295-300 | `^` is addition of blocks in GF(2^128) |
| BlockBits.ToBitsAnd | SwiftGCM.swift:302-307 | bit `j` of `n1 & n2` is set exactly when it is set in both |
| BlockBits.ToBitsRightShift | SwiftGCM.swift:309-313 | `rightShift` moves every bit of the block one place right and clears bit 0 |
| BlockBits.TestBit | SwiftGCM.swift:186 | for a mask with only bit `i` set, `y & k == k` holds exactly when bit `i` of `y` is set |
| GaloisField.TopBlock | SwiftGCM.swift:182 | the starting mask `UInt128(a: 1 << 63, b: 0)` is the block 10^127, the unit of the field |
| GaloisField.OneBlock | SwiftGCM.swift:174 | `one` is the block whose only set bit is the last, bit 127 |
| GaloisField.RBlock | SwiftGCM.swift:175 | `r` is the reduction constant R = 11100001 ∥ 0^120 |
| GaloisField.ZeroBlock | SwiftGCM.swift:180 | the initial `z` is the zero block |
| GaloisField.NextVBlock | SwiftGCM.swift:188-192 | one update of `v` (shift, and fold in R when a one falls off) is the step V_i → V_{i+1} of Algorithm 1 |
| GaloisField.MaskBlock | SwiftGCM.swift:182-193 | before round `i` the mask `k` selects exactly bit `i` |
| GaloisField.ZBlock | SwiftGCM.swift:184-194 | after `i` rounds, `z` is Z_i of Algorithm 1 with `y` as the selecting operand and `x` as the shifted one |
| GaloisField.NextV | SwiftGCM.swift:188-192 | one round's update of `v`; no contract of its own, `NextVBlock` states that it is V_i → V_{i+1} of Algorithm 1 |
| GaloisField.Multiply | SwiftGCM.swift:179-197 | `multiply(x, y)`, the `z` of the 128-round loop; no contract of its own, `MultiplyIsProduct` states that it is y • x and `MultiplyLoop` that the loop computes it |
| GaloisField.MultiplyIsProduct | SwiftGCM.swift:179-197 | `multiply(x, y)` is the field product y • x of Algorithm 1 |
| GaloisField.MultiplyLoop | SwiftGCM.swift:179-197 | the loop, statement by statement, returns the field product y • x |
| GaloisField.MultiplyZeroLeft | SwiftGCM.swift:179-197 | multiplying zero by anything gives zero |
| GaloisField.MultiplyZeroRight | SwiftGCM.swift:179-197 | multiplying anything by zero gives zero |
| GaloisField.MultiplyUnitLeft | SwiftGCM.swift:179-197 | 0x80…0 is a left unit of `multiply` |
| GaloisField.MultiplyUnitRight | SwiftGCM.swift:179-197 | 0x80…0 is a right unit of `multiply` |
| GaloisField.MultiplyLinearLeft | SwiftGCM.swift:179-197 | `multiply` distributes over `^` in its first argument |
| GaloisField.MultiplyLinearRight | SwiftGCM.swift:179-197 | `multiply` distributes over `^` in its second argument |
| GaloisField.MultiplyByMaskOne | SwiftGCM.swift:179-197 | multiplying by 0x40…0 is a single round's update of `v` |
| GaloisField.PadToBlockSize | SwiftGCM.swift:231-241 | the result starts with the input, continues with zeros only, has a length that is a positive multiple of 16, and is 1 to 16 bytes longer than the input |
| GaloisField.PadAgainstStandard | SwiftGCM.swift:231-241 | the padding is the standard's zero padding, plus a whole extra zero block exactly when the input is block-aligned |
| GaloisField.Absorb | SwiftGCM.swift:212-222 | one block loop of `hash`; no contract of its own, `AbsorbLoop`, `AbsorbAppend` and `AbsorbPadded` state its meaning |
| GaloisField.AbsorbLoop | SwiftGCM.swift:212-222 | each block loop (`x = multiply(x ^ block, h)` for each 16-byte block, with `pos` advancing by 16) absorbs every block of the padded input in order |
| GaloisField.AbsorbAppend | SwiftGCM.swift:212-222 | absorbing whole blocks and then more bytes is absorbing the first part and then the rest |
| GaloisField.AbsorbZeroBlock | SwiftGCM.swift:212-216 | absorbing a zero block only multiplies the accumulator by `h` |
| GaloisField.LengthBlock | SwiftGCM.swift:224 | the length block, with the byte counts times eight as the high and low halves; no contract of its own, used by `HashAgainstStandard` |
| GaloisField.Hash | SwiftGCM.swift:200-228 | `hash(h, a, c)`; no contract of its own, `HashLoop`, `HashAgainstStandard`, `HashZeroKey`, `HashEmpty` and `HashDiffers` state its meaning |
| GaloisField.HashLoop | SwiftGCM.swift:200-228 | `hash` as written (pad both inputs, two block loops, then the length block) returns the standard's GHASH over A, C and the length block, with one extra multiplication by `h` after each block-aligned input; it equals the standard GHASH when neither input is aligned, and it is 0 when `h` is 0 |
| GaloisField.HashZeroKey | SwiftGCM.swift:200-228 | with `h = 0` the hash is 0 whatever the inputs |
| GaloisField.HashEmpty | SwiftGCM.swift:200-228 | with empty additional data and empty ciphertext the hash is 0 whatever `h` |
| GaloisField.AbsorbPadded | SwiftGCM.swift:201-222 | absorbing the source's padding is absorbing the standard's, plus one more multiplication by `h` when the input is block-aligned |
| GaloisField.HashAgainstStandard | SwiftGCM.swift:200-228 | `hash` is the standard GHASH over A, C and the length block, except for one extra multiplication by `h` after each block-aligned input; when neither input is aligned, the two are equal |
| GaloisField.HashNoAad | SwiftGCM.swift:200-228 | with no additional data and a ciphertext that is not block-aligned, `hash` equals the standard GHASH |
| GaloisField.HashDiffers | SwiftGCM.swift:200-241 | for `h` = 0x40…0, no additional data and the one-block ciphertext 0x80…0, `hash` gives 0x10…040 where the standard GHASH gives 0x20…040 |
| SwiftGCM.Init | SwiftGCM.swift:17-28 | construction succeeds exactly for a 16-, 24- or 32-byte key and a 12-byte nonce; a bad key size is reported before a bad nonce size; a new engine holds the key, is unused, and its counter bytes are the nonce followed by 00 00 00 01 |
| SwiftGCM.EmptyCounter | SwiftGCM.swift:9 | `emptyCounter` is four bytes long; `CounterStartsAtOne` states that it makes the block counter of J0 equal to 1 |
| SwiftGCM.MakeCounter | SwiftGCM.swift:126-133 | the counter's 16 bytes are the nonce followed by `emptyCounter` |
| SwiftGCM.CounterStartsAtOne | SwiftGCM.swift:126-133 | the last 32 bits of a fresh counter, the block counter of J0, are 1 |
| SwiftGCM.IncrementInc32 | SwiftGCM.swift:288-292 | `increment` agrees with inc_32 of the standard as long as the last 32 bits are not all ones |
| SwiftGCM.XorData | SwiftGCM.swift:136-148 | `xorData` yields as many bytes as `d1`; `XorDataTwice` states that it undoes itself and `CtrByte` what each byte is |
| SwiftGCM.XorDataTwice | SwiftGCM.swift:136-148 | XORing data twice with the same key bytes gives the data back |
| SwiftGCM.TsCompare | SwiftGCM.swift:149-161 | the comparison holds exactly when the two byte strings are equal, different lengths included |
| SwiftGCM.TsCompareLoop | SwiftGCM.swift:149-161 | the OR-accumulating loop answers true exactly when the byte strings are equal |
| SwiftGCM.DifferenceZero | SwiftGCM.swift:154-160 | the accumulator is zero after `n` bytes exactly when the first `n` bytes agree |
| SwiftGCM.AdvanceCount | SwiftGCM.swift:41-42 | after `n` calls of `increment` the counter keeps its nonce half, and its low half counts `n` further |
| SwiftGCM.RoomCount | SwiftGCM.swift:288-292 | `n` further calls of `increment` avoid the trapping `b + 1` exactly when the low half's value plus `n` is at most 2^64 - 1 |
| SwiftGCM.Keystream | SwiftGCM.swift:41-44 | the encryptions of the successive counters after J0, 16 bytes per block; `KeystreamByte` states which counter masks each byte |
| SwiftGCM.Ctr | SwiftGCM.swift:34-49 | the counter-mode loop of `encrypt` and `decrypt` cut back to the input's length, which it keeps; `CtrByte`, `CtrCounts`, `CtrTwice` and `CtrLoop` state its meaning |
| SwiftGCM.AuthData | SwiftGCM.swift:38 | an absent `auth` is empty data; no contract of its own |
| SwiftGCM.Tag | SwiftGCM.swift:51-52 | the tag `hash(H, A, C) ^ E(K, J0)` is always 16 bytes; `DecryptEncrypt` and `WrongTagRefused` state that decryption accepts exactly it |
| SwiftGCM.KeystreamByte | SwiftGCM.swift:41-47 | byte `j` of the keystream is byte `j % 16` of E(K, J0 advanced `j / 16 + 1` times) |
| SwiftGCM.CtrLoop | SwiftGCM.swift:41-49 | the counter-mode loop produces the counter-mode output and leaves the counter advanced once per padded block |
| SwiftGCM.CtrByte | SwiftGCM.swift:41-49 | ciphertext byte `j` is plaintext byte `j` XOR byte `j % 16` of E(K, J0 advanced `j / 16 + 1` times) |
| SwiftGCM.CtrCounts | SwiftGCM.swift:41-49 | every output byte `j` of counter mode is input byte `j` XOR byte `j % 16` of E applied to the counter with the same nonce half and a low half `j / 16 + 1` further on |
| SwiftGCM.CtrTwice | SwiftGCM.swift:41-49 | counter mode from the same counter undoes itself |
| SwiftGCM.Encrypt | SwiftGCM.swift:31-60 | encryption succeeds exactly on an unused engine, returns the plaintext's length plus 16 bytes and marks the engine used; otherwise it throws `instanceAlreadyUsed` and changes nothing |
| SwiftGCM.EncryptLayout | SwiftGCM.swift:31-60 | the output is the plaintext in counter mode, where byte `j` is masked by byte `j % 16` of E(K, J0 + 1 + j / 16) and the count is taken in the low half; then 16 bytes of `hash(H, A, C) ^ E(K, J0)` over that ciphertext, with the source's `hash` (related to GHASH by `HashAgainstStandard`); the engine keeps the key, becomes used, and its counter ends one count per padded block past J0 |
| SwiftGCM.Body | SwiftGCM.swift:64-65 | the input less its last 16 bytes, which together with those bytes is the whole input |
| SwiftGCM.TagMatches | SwiftGCM.swift:64-75 | the last 16 bytes equal the tag over the rest; no contract of its own, `DecryptEncrypt` and `WrongTagRefused` state when it holds |
| SwiftGCM.Decrypt | SwiftGCM.swift:61-94 | decryption succeeds exactly on an unused engine whose tag matches; a used engine throws `instanceAlreadyUsed` whatever the input length; a tag mismatch throws `authTagValidation`; both errors leave the engine unchanged; success returns the input less 16 bytes and marks the engine used |
| SwiftGCM.DecryptLayout | SwiftGCM.swift:77-93 | when the tag matches, decryption succeeds and its output is the body in counter mode, where byte `j` is masked by byte `j % 16` of E(K, J0 + 1 + j / 16) and the count is taken in the low half; the engine keeps the key, becomes used, and its counter ends one count per padded block of the body past J0 |
| SwiftGCM.DecryptEncrypt | SwiftGCM.swift:31-94 | decrypting an encryption's output on the engine as it was before encrypting returns the plaintext, and leaves the engine exactly as encryption left it |
| SwiftGCM.WrongTagRefused | SwiftGCM.swift:64-75 | any last 16 bytes other than the correct tag are refused with `authTagValidation`, and no plaintext is produced |
| SwiftGCM.UsedOnce | SwiftGCM.swift:31-94 | after a successful encryption, every further `encrypt` and every `decrypt`, on any input of any length, throws `instanceAlreadyUsed` and leaves the engine unchanged |
| SwiftGCM.DecryptUsedOnce | SwiftGCM.swift:31-94 | after a successful decryption, every `encrypt` and every further `decrypt`, on any input of any length, throws `instanceAlreadyUsed` and leaves the engine unchanged |

`GF128` in `gf128.dfy` is the standard's definition of the field, on bit
strings. It is the reference that `multiply` is proved against. Its
lemmas are the field facts the proofs use:
- zero and unit;
- distributivity;
- `ProductUnitOne`: multiplying by x is one reduction step.

## Left out

- `encryptBlock` (SwiftGCM.swift:95-123), CommonCrypto's `CCCrypt` in
  ECB mode: the parameter `E` stands in for it, and it cannot fail.
  - `commonCryptoError` is not modelled. In the source it can be thrown
    inside the counter loop (:43, :84) after `counter = counter.increment()`
    has run (:42, :83). The engine is then left with its counter advanced
    and `used` still false, so a retry would start from a shifted J0. The
    model has no such path.
  - `invalidDataSize` is unreachable, because every caller passes 16 bytes.
- `withUnsafeBytes` loads and `bigEndian` conversions in `init(raw:offset:)` and
  `getData`: modelled by what they compute, a big-endian reading and
  writing of the 8-byte halves. Host byte order does not appear.
- `Data` slices keep their parent's indices, and the source reads them
  through `[UInt8](...)` or absolute offsets. The model uses zero-based
  sequences and absolute offsets into the padded input, which reads the
  same bytes.
- `tsCompare` runs in constant time in the source; the model states only
  its result.
- Commutativity of `multiply` is not proved. `hash` calls
  `multiply(t, h)`, which is h • t, where the standard writes t • h. The
  standard reference `StandardHash` keeps the source's argument order, so
  the comparison between `hash` and the standard's GHASH is exact only
  up to this commutativity.
- SwiftGCM.Encrypt: on an unused engine it requires `Room(counter, blocks)`,
  because `increment`'s `b + 1` traps when the low half is all ones.
  `RoomCount` gives the arithmetic form of this bound. It also requires
  the `count * 8` bounds of `hash`. A used engine has no requirement.
- SwiftGCM.Decrypt: on an unused engine it requires at least 16 bytes of
  input, because the slice `0..<count - 16` (:64) traps on a shorter one.
  It also requires the `hash` bounds, and `Room` once the tag matches. A
  used engine has no requirement, since :62 throws before the slice.
- GaloisField.Hash: requires `count * 8` to fit in `Int` for both inputs, because the
  source's multiplication traps beyond that.
- GaloisField.Absorb: total: on a tail of fewer than 16 bytes it stops. The source
  never reaches that case, since it only absorbs padded inputs, and
  `AbsorbLoop` requires a non-empty whole number of blocks, as the
  closed range `0...m - 1` does.
- SwiftGCM.IncrementInc32: the standard's 32-bit counter limit is not enforced by the
  source. `IncrementInc32` relates the two up to that limit.
- Nonce uniqueness across engines and thread safety are outside the
  model.
