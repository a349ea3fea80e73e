# Proofs about an OpenBSD kernel

This project models the small, self-contained algorithms of an OpenBSD kernel tree whose correctness is not visible
from any single function, and proves what they promise. Each core file has its own modules.

| part | modules | what is proved |
|---|---|---|
| scatter/gather cipher engine | `Uio`, `BlockMode`, `Cryptosoft` | for every request, every cutting into buffers and every outcome, `swcr_encdec` does to the flattened bytes what plain CBC does |
| full-duplex audio | `AudioRing`, `Audio`, `AudioRuns`, `AudioParams` | over every interleaving of interrupts, a reader, a writer and stops, exactly when the rings, the promised spans and the play/record offset stay right; the negotiated sizes start such a run |
| Poly1305 | `PolyLimbs`, `PolyKey`, `PolyFinish`, `Poly1305` | no word wraps on 32- or 64-bit machines, and the tag is RFC 8439's for every cutting of the message |
| Curve25519 | `FieldLimbs`, `FieldBytes`, `Modular`, `Curve25519`, `Ladder` | no overflow, tight limbs, exact field products; the whole ladder is X25519, whose steps are the doubling and differential addition formulas |
| identifiers | `Idgen` | over every run no identifier repeats within a key epoch or the next; what the permutation computes and when a key is given up |
| profiler arcs | `DbProf` | the hash chains agree with a counting map |
| AES | `AesBits`, `AesRounds`, `Aes`, `Fips197`, `AesKeys` | from the bytes of a key to the blocks written, the bitsliced code is the cipher and the key expansion of FIPS 197; the two lanes are independent and alike; round trips |
| GHASH | `GaloisField`, `Ghash` | the word loop is the product of a commutative, associative, distributive multiplication; GHASH is a polynomial in the subkey |
| key wrap | `KeyWrap` | round trip with overlapping buffers, and acceptance of exactly the wrapped texts |
| ChaCha20-Poly1305 | `Chacha`, `ChachaPoly` | seal and open for all lengths, and the exact length from which the 32-bit byte count breaks it |
| streaming MAC and hash | `Cmac`, `Blake2s`, `HeldBack` | any cutting into updates gives the result of one update |

`Arith`, `WordOps`, `Bits`, `WordBits`, `LittleEndian`, `ByteStrings` and `BlockCiphers` hold what the others share.

Machine words whose arithmetic matters are natural numbers with the reduction written out (`Wrap`, `% W32`); bitwise
operations on them are `Bits.And`, `Or` and `XorBits`. Memory that the source changes in place is an `array`; contexts
that it updates are classes. Block ciphers, compression functions and block functions are parameters, so the
results hold for all of them. Random numbers and clock readings are parameters too.

`dafny verify dfyconfig.toml` checks the whole project.

Where the code and what one might expect of it differ, the difference is stated as a result, with the exact condition:

- `audio_blksz_bytes` and `audio_setpar_blksz` compute a least common multiple exactly when a 32-bit product does not
  wrap (`BlkszBytes`, `MultIsLeast`, `AlwaysGoodExactlyWhen`), and `MultiplierWraps` has a multiplier that makes the
  latter divide by zero.
- A stop does not wait for a reader that copies data out with the lock dropped; `StepKeeps` and `RunIsSafe` say that
  this is the one step that breaks the record ring, and `ReaderLosesItsSpan` is a run that does it.
- `chacha20poly1305_encrypt` and its inverse leave the last byte of the message as it was from 2^32 bytes on, because
  the cipher takes a 32-bit count (`SealsExactlyBelow32Bits`, `OpensExactlyBelow32Bits`).
- The profiler reads one entry past its table of buckets for a call at the very end of the text (`KernelTables`).

## Model

| member | source | states |
|---|---|---|
| `Uio.FlatSlice` | src/sys/crypto/criov.c:102-124 | what is flattened: part of iovec `ind` is the slice of the flat data at the sum of the lengths before it |
| `Uio.GetPtr` | src/sys/crypto/criov.c:102-124 | the iovec and offset of every flat position, never the end of an iovec unless it is the end of the data; -1 exactly beyond the data or without iovecs |
| `Uio.Skip` | src/sys/crypto/criov.c:45-53 | the skip loop ends inside an iovec or between two, and panics exactly beyond the data |
| `Uio.CopyData` | src/sys/crypto/criov.c:35-65 | copies exactly the range of the flattened data, panics exactly when it is not all there |
| `Uio.CopyBack` | src/sys/crypto/criov.c:68-99 | overwrites exactly the range of the flattened data, panics exactly when it is not all there |
| `BlockMode.RunIsCbcEncryption` | src/sys/crypto/cryptosoft.c:366-372 | block by block, a run is textbook CBC encryption: each block is the cipher of its xor with the ciphertext block before |
| `BlockMode.RunIsCbcDecryption` | src/sys/crypto/cryptosoft.c:373-387 | a run is textbook CBC decryption |
| `BlockMode.RunInverts` | src/sys/crypto/cryptosoft.c:360-389 | decrypting an encrypted run from the same chaining value gives the data and the same key schedule, also for stateful ciphers |
| `BlockMode.RunLeaves` | src/sys/crypto/cryptosoft.c:366-387 | the chaining value after a run is its last ciphertext block |
| `BlockMode.RunIsStateful` | src/sys/crypto/cryptosoft.c:360-368 | a transform with a reinit method: block k of the result is the cipher of block k under the schedule that k blocks have passed through |
| `Cryptosoft.EncryptBlock` | src/sys/crypto/cryptosoft.c:305-316 | the block is xored with what the chaining pointer points at and encrypted in place, and the pointer moves to the block or to its copy |
| `Cryptosoft.DecryptBlock` | src/sys/crypto/cryptosoft.c:317-332 | the ciphertext is saved in the local buffer not pointed at, and becomes what the pointer points at |
| `Cryptosoft.CryptBlock` | src/sys/crypto/cryptosoft.c:297-332 | one block in place equals the chaining specification, and the pointer to the next chaining value denotes it, whether it points into a local buffer or into the data |
| `Cryptosoft.StraddlingBlock` | src/sys/crypto/cryptosoft.c:294-335 | a block across iovecs, copied out and back, changes exactly its bytes of the flattened data |
| `Cryptosoft.BlockInPlace` | src/sys/crypto/cryptosoft.c:360-389 | a block inside one iovec changes exactly its bytes of the flattened data |
| `Cryptosoft.StraddlingStep` | src/sys/crypto/cryptosoft.c:292-349 | the straddling step keeps the agreement of memory, chaining pointer and position with the specification |
| `Cryptosoft.IovecLoop` | src/sys/crypto/cryptosoft.c:358-395 | the loop inside one iovec keeps that agreement and stops at the end of the iovec or of the request |
| `Cryptosoft.CryptData` | src/sys/crypto/cryptosoft.c:278-410 | outcome, key schedule and flattened data are those of plain block chaining on the flat bytes, for every list of disjoint iovecs, empty ones included |
| `Cryptosoft.EncDec` | src/sys/crypto/cryptosoft.c:99-413 | the same for the whole call, with the IV taken, injected or made up in each of the source's ways |
| `Cryptosoft.DoneExactlyWhenInside` | src/sys/crypto/cryptosoft.c:99-413 | the call succeeds if and only if the length is whole blocks, the range is inside the data, the IV fits and there is an iovec |
| `Cryptosoft.FailsExactly` | src/sys/crypto/cryptosoft.c:99-413 | the call panics if and only if the length is whole blocks and the IV is to be put or found where the data end, or the data end inside a block of the range |
| `Cryptosoft.EncDecBlock` | src/sys/crypto/cryptosoft.c:123-151 | what becomes of every block reached, for each way the IV is given: with a reinit method the schedule is set up from the IV and turned over block by block; without one the first block is chained to the IV and each other to the ciphertext before it |
| `Cryptosoft.EncDecRest` | src/sys/crypto/cryptosoft.c:99-413 | a successful call leaves the schedule turned over by every block, and outside the range nothing changes but an injected IV |
| `Cryptosoft.DecryptRestores` | src/sys/crypto/cryptosoft.c:99-413 | decrypting under any other cutting restores every byte whenever it finds the IV, in the request or at a place of the data outside the range |
| `Cryptosoft.InjectedIvRestores` | src/sys/crypto/cryptosoft.c:105-200 | an IV injected outside the range is found again, and only its place differs from the data before |
| `Cryptosoft.ExplicitIvRestores` | src/sys/dev/softraid_crypto.c:307-325 | requests with the IV present and explicit, as the disk encryption sends them, are undone exactly |
| `AudioRing.AudioBuf.RGetBlk` | src/sys/dev/audio.c:345-354 | the span given to a reader holds data only and ends within the userland length when it begins there; the difference wraps beyond it |
| `AudioRing.ReadableIs` | src/sys/dev/audio.c:345-354 | its size in every valid ring, also a play ring whose data begin beyond the userland length |
| `AudioRing.AudioBuf.RDiscard` | src/sys/dev/audio.c:360-372 | the ring after discarding |
| `AudioRing.AudioBuf.WCommit` | src/sys/dev/audio.c:378-387 | the ring after committing |
| `AudioRing.AudioBuf.WGetBlk` | src/sys/dev/audio.c:393-406 | the span promised to a writer is contiguous and free |
| `Audio.AudioSoftc.PIntr` | src/sys/dev/audio.c:487-553 | the play interrupt, with its calls of the record interrupt, equals a closed form; it nests at most one level deep |
| `Audio.AudioSoftc.RIntr` | src/sys/dev/audio.c:559-630 | the record interrupt, with its calls of the play interrupt, equals a closed form; it nests at most one level deep |
| `Audio.AudioSoftc.PlayOneBlock` | src/sys/dev/audio.c:521-533 | a block played, with a block of silence when too little is left |
| `Audio.AudioSoftc.RecOneBlock` | src/sys/dev/audio.c:600-612 | a block recorded, the oldest dropped when too little room is left |
| `Audio.PlayBlockKeepsShape` | src/sys/dev/audio.c:521-533 | the ring stays aligned with a block to discard, and the write position moves by exactly the silence inserted |
| `Audio.RecBlockKeepsShape` | src/sys/dev/audio.c:600-612 | the write position stays aligned with room for a block, and the read position moves by exactly the blocks dropped |
| `Audio.PlayBlockKeepsBooks` | src/sys/dev/audio.c:521-533 | conservation: every byte played was queued, written or silence |
| `Audio.RecBlockKeepsBooks` | src/sys/dev/audio.c:600-612 | conservation: every byte recorded was taken, dropped or is still there |
| `Audio.LossesAreNeeded` | src/sys/dev/audio.c:521-533 | silence is inserted, and a block dropped, exactly when less than another block would be left, or fit |
| `Audio.PlayIntrCounts` | src/sys/dev/audio.c:509-518 | a play interrupt plays one block; it catches up exactly one ring of record blocks when that would put the record position a whole ring behind, and none otherwise |
| `Audio.RecIntrCounts` | src/sys/dev/audio.c:587-598 | the mirror image for a record interrupt and the play ring |
| `Audio.CatchUpDropsLittle` | src/sys/dev/audio.c:509-518 | a catch-up that drops or inserts anything ends with less than another block of room, or of data |
| `AudioRuns.InterruptKeeps` | src/sys/dev/audio.c:487-630 | no interrupt takes back bytes promised to the reader or room promised to the writer, who hold no lock |
| `AudioRuns.StepKeeps` | src/sys/dev/audio.c:1597-1738 | a step of interrupts, reader, writer, drain, start or stop keeps the bounds and the promised bytes and room if and only if it is not a stop under a reader, and also the places of the spans if and only if it is not a stop under either, but for a writer at the beginning of the ring |
| `AudioRuns.StopUnderReader` | src/sys/dev/audio.c:1072-1082 | after a stop a reader that holds a span commits more than is there, and the count of bytes used wraps |
| `AudioRuns.ReaderLosesItsSpan` | src/sys/dev/audio.c:1072-1082 | a run of four steps that ends in such a state |
| `AudioRuns.RunIsSafe` | src/sys/dev/audio.c:487-702 | for every interleaving, all states keep the rings, the promises, the books and the offset if and only if no stop came under a reader |
| `AudioRuns.RunKeepsPlaces` | src/sys/dev/audio.c:487-702 | and the spans are where data begin and end if and only if no stop came under a writer either |
| `AudioRuns.RingsStayInBounds` | src/sys/dev/audio.c:487-630 | in such runs the rings are in bounds and aligned, active playback has a block to discard, and the offset is record blocks minus play blocks, strictly between minus one ring and plus the other |
| `AudioParams.Gcd` | src/sys/dev/audio.c:249-259 | the loop is Euclid's algorithm |
| `AudioParams.EuclidIsGcd` | src/sys/dev/audio.c:249-259 | it divides both numbers and is a combination of them |
| `AudioParams.PerUnitExact` | src/sys/dev/audio.c:273-280 | exactly the multiples of it make a whole number of units |
| `AudioParams.LcmExact` | src/sys/dev/audio.c:283-283 | exactly the multiples of it are multiples of both |
| `AudioParams.LcmSuits` | src/sys/dev/audio.c:267-284 | exactly its multiples are frame counts that suit both directions |
| `AudioParams.BlkszBytes` | src/sys/dev/audio.c:267-284 | the result is positive and divides exactly the suitable frame counts if and only if the 32-bit product does not wrap |
| `AudioParams.BlkszWraps` | src/sys/dev/audio.c:283-283 | it does wrap: the result is 0 for units of 65536 bytes and 1 for 65537, with frames of one byte |
| `AudioParams.FrameMultiplier` | src/sys/dev/audio.c:779-793 | the multiplier in 32-bit arithmetic |
| `AudioParams.MultIsLeast` | src/sys/dev/audio.c:779-793 | it is the least common multiple if and only if the product has 32 bits |
| `AudioParams.SetparBlksz` | src/sys/dev/audio.c:766-839 | which error is returned, or division by zero met, if and only if what; on success at most half of each buffer, whole hardware units unless the product wrapped, and not 0 for a rate of 1000 or more |
| `AudioParams.AlwaysGoodExactlyWhen` | src/sys/dev/audio.c:766-839 | every size it accepts is whole hardware units if and only if the product does not wrap or the range has a single size that happens to be |
| `AudioParams.MultiplierWraps` | src/sys/dev/audio.c:793-820 | a hardware multiplier of 65536 makes it divide by zero, one of 65537 makes it accept any size |
| `AudioParams.LoPositive` | src/sys/dev/audio.c:820-821 | the lower bound is positive if and only if the rate is at least 1000 and its sum with the multiplier does not wrap |
| `AudioParams.MaxFramesIs` | src/sys/dev/audio.c:800-818 | a block may have n frames if and only if the blocks of both directions take at most half of either buffer and are not above the largest hardware block |
| `AudioParams.RangeIsExact` | src/sys/dev/audio.c:800-821 | the sizes in range are exactly the multiples that last a millisecond and fit so, unless the lower bound wraps |
| `AudioParams.ChosenIsNearest` | src/sys/dev/audio.c:831-836 | no size in range is nearer to the one asked for than the one chosen, unless rounding up wraps |
| `AudioParams.SetparNblks` | src/sys/dev/audio.c:851-856 | a count in range is kept, a larger one becomes what fits, a smaller one two; two blocks at least unless the count that fits was truncated |
| `AudioParams.NewRingGeometry` | src/sys/dev/audio.c:1033-1042 | two blocks, the used length and the buffer are in order and multiples of a block |
| `AudioParams.OpenedIsSafe` | src/sys/dev/audio.c:1033-1042 | fresh rings satisfy the run invariant |
| `AudioParams.Setpar` | src/sys/dev/audio.c:1022-1048 | which settings are refused or divided by zero; every accepted setting has rings of as many whole blocks as the buffers have room for, the play ring uses the number asked for as far as there is room, and for buffers below 4 GB it starts in a state that all runs keep safe |
| `PolyLimbs.LoadIsLe` | src/sys/crypto/poly1305.c:94-98 | the five overlapping loads represent the 16 bytes and the bit above them |
| `PolyLimbs.ProductsExact` | src/sys/crypto/poly1305.c:100-125 | no product or sum wraps in 64 bits |
| `PolyLimbs.ExactIsProduct` | src/sys/crypto/poly1305.c:100-125 | the sums represent the product modulo 2^130 - 5 |
| `PolyLimbs.ReduceValue` | src/sys/crypto/poly1305.c:127-145 | the carries lose only multiples of 2^130 - 5 and leave tight limbs |
| `PolyLimbs.BlockStepValue` | src/sys/crypto/poly1305.c:92-149 | one pass of the block loop keeps its bounds and computes (h + block) r modulo 2^130 - 5, for 32- and 64-bit words |
| `PolyKey.InitRIsClamped` | src/sys/crypto/poly1305.c:41-46 | the masked limbs are RFC 8439's clamped r |
| `PolyKey.ClampIsMask` | src/sys/crypto/poly1305.c:41-46 | the clamped r is the first half of the key under the mask 0ffffffc0ffffffc0ffffffc0fffffff |
| `PolyFinish.FullCarryValue` | src/sys/crypto/poly1305.c:213-234 | from the loop's bounds a single carry pass leaves all limbs below 2^26 |
| `PolyFinish.CanonicalValue` | src/sys/crypto/poly1305.c:236-263 | one branch-free conditional subtraction gives the residue below 2^130 - 5 |
| `PolyFinish.PackValue` | src/sys/crypto/poly1305.c:265-269 | the limbs packed into four words are the number modulo 2^128 |
| `PolyFinish.MacValue` | src/sys/crypto/poly1305.c:213-284 | the bytes written are (residue + pad) modulo 2^128 |
| `Poly1305.AccIsPolynomial` | src/sys/crypto/poly1305.c:92-149 | the accumulator is the polynomial with the padded blocks as coefficients, evaluated at r |
| `Poly1305.CoefficientsAt` | src/sys/crypto/poly1305.c:92-98 | the coefficients are the blocks in order, each with a one bit above its last byte |
| `Poly1305.TagIs` | src/sys/crypto/poly1305.c:39-63 | the tag is that polynomial at the first half of the key, modulo 2^130 - 5, plus the second half, in 16 bytes |
| `Poly1305.State.constructor` | src/sys/crypto/poly1305.c:39-63 | an empty message under the key |
| `Poly1305.State.Blocks` | src/sys/crypto/poly1305.c:66-156 | whole blocks are added to the accumulator; the final one without the bit above it |
| `Poly1305.State.Update` | src/sys/crypto/poly1305.c:159-193 | the message grows by the data, whatever is buffered |
| `Poly1305.State.Finish` | src/sys/crypto/poly1305.c:196-301 | the tag of section 2.5 of RFC 8439 for everything fed, however it was cut |
| `FieldLimbs.AddValue` | src/sys/crypto/curve25519.c:257-289 | tight plus tight is loose, without wrapping, and is the sum |
| `FieldLimbs.SubValue` | src/sys/crypto/curve25519.c:299-331 | tight minus tight is loose, without wrapping, and is the difference plus twice the modulus |
| `FieldLimbs.SumsExact` | src/sys/crypto/curve25519.c:363-408 | for loose limbs no sum of products reaches 2^63 |
| `FieldLimbs.ProductsValue` | src/sys/crypto/curve25519.c:363-381 | multiplying numbers of five digits to the base 2^51 digit by digit |
| `FieldLimbs.SumsAreProduct` | src/sys/crypto/curve25519.c:363-408 | the sums represent the product modulo 2^255 - 19 |
| `FieldLimbs.CarryValue` | src/sys/crypto/curve25519.c:409-453 | the carries never wrap, lose only multiples of the modulus and leave tight limbs |
| `FieldLimbs.FeMulIsProduct` | src/sys/crypto/curve25519.c:341-454 | for all loose inputs the result is tight and the product modulo 2^255 - 19 |
| `FieldLimbs.FeMul121666IsMultiple` | src/sys/crypto/curve25519.c:662-775 | the same for the multiple by 121666 |
| `FieldLimbs.FeSqrIsFeMul` | src/sys/crypto/curve25519.c:472-575 | squaring computes limb for limb what multiplying an element by itself computes |
| `FieldBytes.SubBorrow` | src/sys/crypto/curve25519.c:113-132 | the wrapped 32-bit difference splits into low bits and a borrow |
| `FieldBytes.AddCarry` | src/sys/crypto/curve25519.c:91-110 | the sum splits into low bits and a carry |
| `FieldBytes.Freeze` | src/sys/crypto/curve25519.c:140-193 | every tight element becomes its only representative below 2^255 - 19 |
| `FieldBytes.ToBytes` | src/sys/crypto/curve25519.c:195-231 | the bytes are that number, least significant first |
| `FieldBytes.FromBytes` | src/sys/crypto/curve25519.c:62-83 | the element is the number read, without its top bit |
| `FieldBytes.DecodeEncode` | src/sys/crypto/curve25519.c:62-231 | fe_frombytes after fe_tobytes gives every tight element its only representative below 2^255 - 19 |
| `Curve25519.NumberIsValue` | src/sys/crypto/curve25519.c:48-56 | the flat weights 1, 2^26, 2^51, 2^77, … are those of alternating 26- and 25-bit limbs |
| `Modular.TimesIs` | src/sys/crypto/curve25519.c:845-870 | the field product of the X25519 specification, defined by repeated addition, is x * y mod p |
| `Modular.PowerIs` | src/sys/crypto/curve25519.c:587-635 | the field power of the specification, defined by repeated field products, is x^e mod p |
| `Curve25519.Multiply` | src/sys/crypto/curve25519.c:456-470 | product in the field, tight |
| `Curve25519.Square` | src/sys/crypto/curve25519.c:577-585 | square in the field, tight |
| `Curve25519.Multiply121666` | src/sys/crypto/curve25519.c:777-780 | multiple in the field, tight |
| `Curve25519.Sum` | src/sys/crypto/curve25519.c:294-297 | sum in the field, loose |
| `Curve25519.Difference` | src/sys/crypto/curve25519.c:336-339 | difference in the field, loose |
| `Curve25519.Squarings` | src/sys/crypto/curve25519.c:603-606 | n squarings multiply the exponent by 2^n |
| `Curve25519.Extend` | src/sys/crypto/curve25519.c:603-606 | from exponents 2^k - 1 and 2^n - 1 to 2^(k+n) - 1 |
| `Curve25519.Invert` | src/sys/crypto/curve25519.c:587-642 | for every loose element the chain raises to exactly 2^255 - 21 |
| `Curve25519.Cswap` | src/sys/crypto/curve25519.c:649-659 | the branch-free exchange, limb by limb |
| `Curve25519.LadderStep` | src/sys/crypto/curve25519.c:853-870 | for tight elements the loop body is the step of the specification, with 121666 on the smaller square instead of 121665 on the larger, and leaves tight elements; `Ladder` says what that step computes |
| `Curve25519.ClampValue` | src/sys/crypto/curve25519.h:30-35 | the clamped scalar as a number: 2^254 + (n mod 2^254) - (n mod 8) |
| `WordBits.BitOfByte` | src/sys/crypto/curve25519.c:840-840 | bit t of a little-endian number is bit t mod 8 of byte t / 8 |
| `Curve25519.ScalarMult` | src/sys/crypto/curve25519.c:782-891 | for every scalar and point the bytes are X25519 of section 5 of RFC 7748, and the return value tells whether they are not all zero |
| `Ladder.RungDoubles` | src/sys/crypto/curve25519.c:853-870 | one pair becomes ((x^2 - z^2)^2, 4 x z (x^2 + 486662 x z + z^2)) modulo p |
| `Ladder.RungAdds` | src/sys/crypto/curve25519.c:853-870 | the other becomes (4 (x x' - z z')^2, 4 x1 (x z' - z x')^2) modulo p |
| `Ladder.ClimbIsMultiples` | src/sys/crypto/curve25519.c:826-877 | for every family of pairs closed under these two laws, after bit t the two pairs stand for k >> t and k >> t plus one times the point, whichever way they are swapped |
| `Ladder.X25519IsMultiple` | src/sys/crypto/curve25519.c:872-881 | the result is x z^(p - 2) for a pair that stands for k times the point |
| `Ladder.ClampedScalar` | src/sys/crypto/curve25519.h:30-35 | a clamped scalar has 255 bits, the highest set, and is a multiple of 8 |
| `Idgen.RoundUndoes` | src/sys/crypto/idgen.c:94-99 | each Feistel round undoes itself and keeps 15 and 16 bits |
| `Idgen.PermuteIsBijective` | src/sys/crypto/idgen.c:84-102 | a bijection on 31 bits for every key, with its inverse on both sides |
| `Idgen.PermuteLoop` | src/sys/crypto/idgen.c:84-102 | the doubled-up loop is the sequence of 31 rounds |
| `Idgen.GIs` | src/sys/crypto/idgen.c:66-81 | the round function takes the two bytes of a word through four steps, each a table entry at the last byte and a key byte, combined with the byte before |
| `Idgen.PermuteIs` | src/sys/crypto/idgen.c:83-102 | the permutation as the trace of its 31 rounds: even ones change the right 16 bits, odd ones the left 15 |
| `Idgen.IdParts` | src/sys/crypto/idgen.c:132-133 | an identifier is the high bit and the permuted low 31 bits of offset plus counter |
| `Idgen.KeyGivenUp` | src/sys/crypto/idgen.c:127-131 | a key is given up if and only if the counter exceeds 0x60000000 or its 600 seconds are over, and what replaces it |
| `Idgen.CountersDiffer` | src/sys/crypto/idgen.c:132-133 | two counters of one epoch give two identifiers |
| `Idgen.SecondPassIsNonzero` | src/sys/crypto/idgen.c:127-134 | after a zero the next pass, rekeyed or not, is not zero |
| `Idgen.CalledKeeps` | src/sys/crypto/idgen.c:123-137 | a call keeps the invariant of all identifiers issued so far |
| `Idgen.CalledIs` | src/sys/crypto/idgen.c:123-137 | a call adds exactly one identifier, that of the counter used last in the epoch it leaves |
| `Idgen.RunNeverRepeats` | src/sys/crypto/idgen.c:83-137 | over every run with any clock and randomness: no zero, no repetition within an epoch or the next, counter at most 0x60000001 |
| `Idgen.Idgen32.constructor` | src/sys/crypto/idgen.c:115-120 | a fresh generator satisfies the invariant |
| `Idgen.Idgen32.Rekey` | src/sys/crypto/idgen.c:105-112 | counter, offset, key and time are new and the high bit is flipped |
| `Idgen.Idgen32.Pass` | src/sys/crypto/idgen.c:127-133 | the loop body rekeys exactly when the counter or the clock asks for it |
| `Idgen.Idgen32.Next` | src/sys/crypto/idgen.c:123-137 | one call of the specification; the loop body runs once or twice, the identifier is not zero |
| `DbProf.Pushed` | src/sys/ddb/db_prof.c:163-172 | a new entry at the head keeps the chain acyclic and its arcs distinct |
| `DbProf.Relinked` | src/sys/ddb/db_prof.c:186-189 | changing three links moves an entry to the head and keeps the chain |
| `DbProf.LookupMoved` | src/sys/ddb/db_prof.c:185-189 | one more call for the arc found, wherever its entry goes, and no other count changes |
| `DbProf.SeenBefore` | src/sys/ddb/db_prof.c:141-147 | an entry's count is the number of calls of its arc |
| `DbProf.NotSeen` | src/sys/ddb/db_prof.c:156-163 | an arc that is not in its chain was never called |
| `DbProf.Gmon.constructor` | src/sys/sys/gmon.h:128-146 | zeroed tables are empty chains |
| `DbProf.Gmon.Allocate` | src/sys/ddb/db_prof.c:125-140 | a new arc is counted, or profiling ends exactly when every entry is taken |
| `DbProf.Gmon.LinkFirst` | src/sys/ddb/db_prof.c:186-189 | the three assignments |
| `DbProf.Gmon.Promote` | src/sys/ddb/db_prof.c:185-190 | an arc seen before is counted once more |
| `DbProf.Gmon.Count` | src/sys/ddb/db_prof.c:86-196 | for every call exactly one of four outcomes: ignored, counted, end of profiling when a new arc has no entry left, or a bucket beyond the table; the chain walk terminates |
| `DbProf.OffsetIs` | src/sys/ddb/db_prof.c:112-114 | the distance of a program counter from the text, or a number far beyond it for those before the text |
| `DbProf.HashIs` | src/sys/ddb/db_prof.c:117-124 | each bucket takes 2 hashfraction bytes of text, in order |
| `DbProf.KernelTables` | src/sys/kern/subr_prof.c:79-90 | with the tables prof_init allocates every offset into the text has a bucket except textsize itself |
| `AesBits.InvSboxInverts` | src/sys/crypto/aes.c:528-585 | the inverse S-box circuit inverts the S-box circuit |
| `AesBits.SboxIsFips` | src/sys/crypto/aes.c:95-268 | the circuit is the inverse in GF(2^8) followed by the affine transformation of FIPS 197 |
| `AesBits.MixIs` | src/sys/crypto/aes.c:469-499 | mix_columns multiplies a column by 2, 3, 1, 1 in GF(2^8) |
| `AesBits.InvMixIs` | src/sys/crypto/aes.c:604-634 | inv_mix_columns multiplies it by 14, 11, 13, 9 |
| `AesBits.InvMixInverts` | src/sys/crypto/aes.c:604-634 | the second inverts the first |
| `AesRounds.ShiftRowsUndone` | src/sys/crypto/aes.c:588-601 | inv_shift_rows inverts shift_rows |
| `AesRounds.MixColumnsUndone` | src/sys/crypto/aes.c:604-634 | on all ranks |
| `AesRounds.DecryptUndoesEncrypt` | src/sys/crypto/aes.c:507-657 | for any round keys and any number of rounds |
| `AesRounds.LanesDoNotInterfere` | src/sys/crypto/aes.c:507-657 | what comes out on the even or odd ranks depends only on what goes in there |
| `AesRounds.LanesDoTheSame` | src/sys/crypto/aes.c:507-657 | with an expanded key, exchanging the two blocks exchanges the results |
| `Aes.OrthoAt` | src/sys/crypto/aes.c:270-307 | aes_ct_ortho exchanges word numbers and bit ranks within bytes |
| `Aes.OrthoUndoes` | src/sys/crypto/aes.c:276-307 | it is its own inverse |
| `Aes.LoadInterleaves` | src/sys/crypto/aes.c:677-691 | after loading, every rank holds one byte of one block, the blocks on alternate ranks |
| `Aes.StoreExtracts` | src/sys/crypto/aes.c:694-703 | storing writes the block of each lane |
| `Aes.ExpandedIsDoubled` | src/sys/crypto/aes.c:416-431 | every expanded key holds each subkey on both lanes |
| `Aes.SkeyExpand` | src/sys/crypto/aes.c:416-431 | the loop computes the expansion |
| `Fips197.ExpandedAt` | src/sys/crypto/aes.c:416-431 | word by word and bit by bit, what the expanded key takes from the compressed one |
| `Aes.TwoAtOnce` | src/sys/crypto/aes.c:670-754 | two blocks at once give what each gives alone |
| `Aes.BlockUndone` | src/sys/crypto/aes.c:756-766 | decrypting an encrypted block restores it, with any round keys |
| `Aes.AesIsInvertible` | src/sys/crypto/aes.c:756-766 | so AES can stand for the cipher of the modes proved for any invertible one |
| `Aes.EcbUndone` | src/sys/crypto/aes.c:670-754 | for every number of blocks, odd ones included |
| `Aes.BitsliceEncrypt` | src/sys/crypto/aes.c:507-522 | the loop is the sequence of rounds |
| `Aes.BitsliceDecrypt` | src/sys/crypto/aes.c:642-657 | the loop is the inverse rounds in reverse order |
| `Aes.CryptPair` | src/sys/crypto/aes.c:677-703 | load, transpose, cipher, transpose, store: each block as if alone |
| `Aes.EcbCrypt` | src/sys/crypto/aes.c:670-754 | the output is the blocks one at a time, also in place, and nothing else is written |
| `Fips197.SBoxIsCircuit` | src/sys/crypto/aes.c:95-268 | on bytes, the circuits are the S-box and its inverse of FIPS 197, where the multiplicative inverse is any number with the right product |
| `Fips197.ShiftedAt` | src/sys/crypto/aes.c:446-460 | ShiftRows rotates row r left by r, and its inverse right |
| `Fips197.ShiftLane` | src/sys/crypto/aes.c:446-460 | on each lane the masks and shifts of shift_rows and inv_shift_rows are ShiftRows and InvShiftRows |
| `Fips197.LaneIsFips` | src/sys/crypto/aes.c:507-657 | on each lane, for any state, round keys and number of rounds, the bitsliced cipher and its inverse are those of FIPS 197, written on bytes without the circuits |
| `Fips197.BlockIsFips` | src/sys/crypto/aes.c:756-766 | one block through AES_Encrypt and AES_Decrypt |
| `Fips197.EcbIsFips` | src/sys/crypto/aes.c:670-754 | block i of the output is block i of the input through the cipher of FIPS 197 |
| `AesKeys.SubWordOf` | src/sys/crypto/aes.c:309-322 | the S-box on the four bytes of a word, through the transposition |
| `AesKeys.RconIs` | src/sys/crypto/aes.c:324-326 | the table holds the powers of x in GF(2^8) |
| `AesKeys.KeyschedBase` | src/sys/crypto/aes.c:333-373 | the words are the key expansion of section 5.2 of FIPS 197 for 128, 192 and 256 bits; 0 rounds for any other length |
| `AesKeys.ExpandedKey` | src/sys/crypto/aes.c:383-431 | a subkey compressed and expanded is the round key on both lanes |
| `AesKeys.Keysched` | src/sys/crypto/aes.c:383-408 | the compressed subkeys of every round |
| `AesKeys.Ctx.Setkey` | src/sys/crypto/aes.c:660-668 | -1 exactly for other key lengths; otherwise the context holds the key schedule of FIPS 197 |
| `AesKeys.Ctx.EcbCrypt` | src/sys/crypto/aes.c:670-754 | from the bytes of the key: every block through the cipher of FIPS 197 or its inverse, also in place, and nothing else is written |
| `GaloisField.ProductCommutes` | src/sys/crypto/gmac.c:37-73 | the product of section 6.3 of SP 800-38D is commutative |
| `GaloisField.ProductDistributes` | src/sys/crypto/gmac.c:37-73 | it distributes over exclusive or on both sides |
| `GaloisField.ProductAssociates` | src/sys/crypto/gmac.c:37-73 | it is associative |
| `GaloisField.ProductOne` | src/sys/crypto/gmac.c:37-73 | the block 0x80 00 ... 00 is its identity |
| `GaloisField.UnitsMultiply` | src/sys/crypto/gmac.c:37-73 | x^i times x^j is x^(i+j) below 128 |
| `GaloisField.UnitsReduce` | src/sys/crypto/gmac.c:37-73 | x times x^127 is x^7 + x^2 + x + 1 |
| `Ghash.PolyBit` | src/sys/crypto/gmac.c:53-59 | bit 0 of a block is the most significant bit of its first byte |
| `Ghash.NextVIsTimesX` | src/sys/crypto/gmac.c:61-66 | the word shifts multiply V by x modulo the polynomial |
| `Ghash.NextZIsPlus` | src/sys/crypto/gmac.c:53-59 | the masked words add V exactly when the bit is set |
| `Ghash.Gfmul` | src/sys/crypto/gmac.c:39-73 | the product of the two blocks, also when it overwrites an operand |
| `Ghash.HashCut` | src/sys/crypto/gmac.c:76-97 | cutting the input at a block boundary changes nothing |
| `Ghash.HashIsPowerSum` | src/sys/crypto/gmac.c:76-97 | GHASH is X1 H^n + ... + Xn H |
| `Ghash.Ctx.Update` | src/sys/crypto/gmac.c:76-97 | GHASH of section 6.4 continued from the saved state; a partial block at the end is ignored |
| `KeyWrap.UnwrapUndoesWrap` | src/sys/crypto/key_wrap.c:46-112 | for every n and every cipher with an inverse, unwrapping a wrapped text gives the initial value and the plaintext |
| `KeyWrap.AcceptsExactlyWraps` | src/sys/crypto/key_wrap.c:110-111 | for a permutation, the integrity check passes if and only if the text is the wrapping of what comes out |
| `KeyWrap.Be64Is` | src/sys/crypto/key_wrap.c:66-66 | the step number is mixed in with its most significant byte first |
| `KeyWrap.WrappedShifts` | src/sys/crypto/key_wrap.c:46-76 | the indexed registers give what the shifting registers of section 2.2.1 of RFC 3394 give, from A6A6A6A6A6A6A6A6 |
| `KeyWrap.Wrap` | src/sys/crypto/key_wrap.c:46-76 | section 2.2.1 of RFC 3394 in one memory where the two buffers may overlap, nothing else written |
| `KeyWrap.Unwrap` | src/sys/crypto/key_wrap.c:79-112 | section 2.2.2 of RFC 3394, the same, and nonzero exactly when the initial value is wrong |
| `Chacha.AdvancedCounts` | src/sys/crypto/chacha_private.h:224-228 | the two counter words with their carry count modulo 2^64 |
| `Chacha.CryptUndoes` | src/sys/crypto/chacha_private.h:127-261 | encryption and decryption are the same operation |
| `Chacha.XorTail` | src/sys/crypto/chacha_private.h:156-161 | the partial block goes through a buffer whose other bytes do not matter |
| `Chacha.Ctx.EncryptBytes` | src/sys/crypto/chacha_private.h:128-261 | every byte is combined with its byte of the key stream, also in place, and the counter moves past the blocks used |
| `ChachaPoly.Begin` | src/sys/crypto/chachapoly.c:136-142 | the MAC key is from key block 0, and the padded additional data are fed |
| `ChachaPoly.End` | src/sys/crypto/chachapoly.c:146-153 | the tag of the padded strings and their lengths |
| `ChachaPoly.Seal` | src/sys/crypto/chachapoly.c:119-157 | the output buffer for every length, with the 32-bit byte count of the cipher, also in place |
| `ChachaPoly.Open` | src/sys/crypto/chachapoly.c:160-209 | accepts exactly the right tag, short inputs never, and leaves dst untouched otherwise |
| `ChachaPoly.OpenUndoesSeal` | src/sys/crypto/chachapoly.c:119-209 | section 2.8 of RFC 8439: opening what was sealed gives the plaintext |
| `ChachaPoly.OpensOnlySealed` | src/sys/crypto/chachapoly.c:160-209 | a text opens to a plaintext if and only if it is that plaintext sealed |
| `ChachaPoly.SealedIs` | src/sys/crypto/chachapoly.c:144-153 | the encrypted text, and in the last sixteen bytes the tag of that text |
| `ChachaPoly.Sigma` | src/sys/crypto/chacha_private.h:52-52 | the constant is "expand 32-byte k" |
| `ChachaPoly.SetupIs` | src/sys/crypto/chacha_private.h:93-126 | the block function is given the words of the constant, the key, the counter and the nonce, least significant byte first |
| `ChachaPoly.StreamIs` | src/sys/crypto/chachapoly.c:136-144 | byte i of the message meets byte i mod 64 of the key block with counter 1 + i / 64 |
| `ChachaPoly.MacKeyIs` | src/sys/crypto/chachapoly.c:134-137 | the one-time key is the first half of key block 0 |
| `ChachaPoly.MacDataIs` | src/sys/crypto/chachapoly.c:139-151 | what is authenticated, byte by byte: both strings, each followed by zeros up to a multiple of 16, then the two lengths in 64 bits |
| `ChachaPoly.SealsExactlyBelow32Bits` | src/sys/crypto/chachapoly.c:144-144 | the code writes the standard's result below 2^32 bytes; from there on the last byte of the message stays as it was |
| `ChachaPoly.OpensExactlyBelow32Bits` | src/sys/crypto/chachapoly.c:202-203 | a rejected text leaves dst as it was, an accepted one below 2^32 bytes gives the plaintext, a longer one leaves the last byte of dst as it was |
| `ChachaPoly.OpenAfterSeal` | src/sys/crypto/chachapoly.c:119-209 | sealing into any buffer and opening into any other restores the plaintext |
| `Cmac.ShiftedDoubles` | src/sys/crypto/cmac.c:30-35 | the byte shifts double the big-endian number modulo 2^128 |
| `Cmac.Double` | src/sys/crypto/cmac.c:92-96 | the subkey step in place |
| `Cmac.SubkeyDoubles` | src/sys/crypto/cmac.c:88-107 | a subkey step doubles the number modulo x^128 + x^7 + x^2 + x + 1 |
| `Cmac.MacIs` | src/sys/crypto/cmac.c:57-120 | for any chaining values that follow the message, the MAC is the cipher of the last one combined with the last block and K1, or K2 and padding if the block is not whole |
| `Cmac.Ctx.constructor` | src/sys/crypto/cmac.c:44-48 | an empty message |
| `Cmac.Ctx.Update` | src/sys/crypto/cmac.c:57-81 | the message grows by the data, empty data included; 1 to 16 bytes are held back unless it is empty |
| `Cmac.Ctx.Final` | src/sys/crypto/cmac.c:84-120 | section 6.2 of SP 800-38B for everything fed, however it was cut |
| `Blake2s.CounterAdds` | src/sys/crypto/blake2s.c:56-61 | the two counter words count bytes modulo 2^64 |
| `Blake2s.IvIsRoots` | src/sys/crypto/blake2s.c:33-36 | the initial words are the fractional parts of the square roots of the first eight primes |
| `Blake2s.InitialIs` | src/sys/crypto/blake2s.c:63-90 | the two lengths and two ones, added up, are combined with the first initial word |
| `Blake2s.DigestIs` | src/sys/crypto/blake2s.c:96-200 | for any chaining values that follow the message, byte i of the digest is that byte of the last compression, of the rest of the message with zeros and the number of all bytes |
| `Blake2s.State.constructor` | src/sys/crypto/blake2s.c:63-79 | an empty message |
| `Blake2s.State.Keyed` | src/sys/crypto/blake2s.c:81-94 | the zero-padded key is the first block |
| `Blake2s.State.Compress` | src/sys/crypto/blake2s.c:96-162 | whole blocks, each with the number of bytes up to its end |
| `Blake2s.State.Update` | src/sys/crypto/blake2s.c:164-187 | the message grows by the data, empty data included; 1 to 64 bytes are held back unless it is empty, and the counter is the bytes compressed |
| `Blake2s.State.Final` | src/sys/crypto/blake2s.c:189-200 | section 3.3 of RFC 7693 for everything fed, however it was cut |

## Left out

- EncDec: after a panic nothing is said of the data or the key schedule, because the kernel stops there.
- RunIsSafe: a stop or start is one step, and changing the parameters of a paused device is none; data bytes of the rings, driver hooks, sleeping, wakeups, suspend and resume are not modelled.
- Setpar: a block size in bytes is a product in 32 bits, which cannot wrap because it is at most the driver's limit; buffers of 4 GB and more, for which the number of blocks is truncated, start no run.
- SetparNblks: the play ring; the record ring takes all blocks that fit (`NewRingGeometry`).
- Count: entry counts are unbounded where the source has a `long`, the program counters are parameters where it reads a trap frame, links are unbounded where it has 16 bits (it allocates at most 65534 entries), nothing is said after a bucket beyond the table is read; its two allocation sites are one method because the chain is empty at the first.
- Invert: that the power 2^255 - 21 is the inverse needs that 2^255 - 19 is prime, and that the multiples of a point are closed under the laws of `Ladder.RungDoubles` and `Ladder.RungAdds` needs the group law; both are left to RFC 7748.
- EncryptBytes: the rounds of the block function are a parameter, and xor of little-endian words is xor of their bytes.
- Compress: the rounds of the compression function are a parameter.
- BitsliceEncrypt: a bitwise expression on eight words is that expression on the bits of each rank, and masks and shifts are maps of ranks; num_rounds is at least one, as AES_Setkey ensures.
- AES_KeySetup_Encrypt and AES_KeySetup_Decrypt: the same words in other byte orders for assembly code.
- The mbuf branch of swcr_encdec, swcr_authenc and swcr_compdec, which depend on mbuf and zlib code.
- The incremental Chacha20_Poly1305 and AES_GMAC interfaces, XChaCha20, blake2s_hmac, curve25519_generate_public and curve25519_generate_secret: thin layers over what is proved.
- explicit_bzero, locks and knotes.
- Blowfish, CAST, DES, RC4, MD5, SHA-1, SHA-2, RIPEMD-160, SipHash, the crypto session code and the rest of ddb and dev: weaker repeats of the properties above, input and output, or hardware.
