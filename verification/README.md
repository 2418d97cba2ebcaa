# Verified model of the SEV firmware's arithmetic, VCPU pool, memory map and key plumbing

This project models, in Dafny, the parts of the AMD Secure Processor's SEV firmware whose correctness rests on
arithmetic, on linked state and on long chains of calls, and proves what they compute:

- **Multi-precision arithmetic** (`BigNum`, `BnAddSub`, `BnShift`, `BnBits`, `Columns`, `BnMultiply`, `DigitEstimate`,
  `TopLimbs`, `BnDivide`, `BnDiv`, `BarrettMath`, `BnCorrection`, `BnBarrett`, `BarrettResults`, `BnOctets`, `Ecc`):
  sign-magnitude numbers of 28-bit limbs in a buffer of 80, with schoolbook products, long division (HAC algorithm
  14.20), Barrett reduction (HAC algorithm 14.42), packing of 32-bit words into limbs and back, and the octet-wise
  scalar arithmetic built on them.
- **The SEV-ES VCPU pool** (`VcpuPool`, `VcpuOwnership`, `SevEs`): an allocator whose free list and whose guests'
  lists run through the same array of next indices, and the checksums that bind a VMSA to its block.
- **The memory map** (`MemMap`, `MemOverlap`, `MemMerge`, `LockedMsrs`, `MemCuts`, `LockedMeaning`, `MemMapSetup`):
  exclusion, splitting, merging and compaction in place in a table of bounded size, as operations on sets of addresses;
  what the locked registers take away is told address by address, by bits of registers.
- **Checksums** (`Crc`, `ShiftRegister`, `CrcDetection`, `CrcReflected`, `CrcLanes`): CRC-32C, its three lanes, and
  which changes they always detect.
- **Streaming cryptography** (`Digest`, `Hmac`, `NistKdf`, `Cipher`, `SevChannel`): buffering, padding, counters and
  key wrapping around primitives that are left abstract.
- **APIC IDs and INVALID_ASID registers** (`Bits`, `ApicId`, `InvalidAsid`), and **VMSA register protection**
  (`VmsaTweak`).

`Word`, `Limbs`, `LimbDigits`, `Octets`, `OctetBits` and `OctetXor` hold the words, numerals and octet strings that
the rest uses. `dafny verify dfyconfig.toml` checks everything.

## How the firmware is represented

- C structures that are updated in place are classes, buffers are arrays, and loops are loops. Machine words are
  bounded integers; every wrap-around, truncation and 64-bit accumulator is written out, and where the code does not
  truncate, the proof shows that nothing is lost. Aliasing is part of the contracts: `Apart(z, x)` allows `z` to be
  `x`.
- A number carries a ghost copy of its limbs; `Abs` and `Value` are the integers it denotes. `Trimmed` means that the
  top limb is not zero, `Clean` that the limbs above `used` are zero, which `BNSecureCompare` needs and `BN_ZERO` and
  the shifts do not provide.
- Null checks of pointer parameters are left to the types. Clearing of stack buffers, cache maintenance and barriers
  have no counterpart.
- Calls that can fail for reasons outside the modelled code, such as mapping memory or starting an engine, fail
  arbitrarily, unless a `reliable` flag says that they never do. Contracts say what is kept after any failure, and
  that with reliable hardware the operation succeeds.
- The SHA engine, the block cipher, key agreement and the random number generator are parameters. The engines' state
  and the counter they advance are kept as the code keeps them.
- The straight-line bit operations on octets and registers are bit vectors in the CRC modules and naturals elsewhere.

## What the code does and its comments do not say

- `BNDiv` sizes the quotient as `a->Used - b->Used` limbs; a quotient with one limb more is cut. Barrett setup avoids
  this except for a modulus that is exactly B^(k-1), for which the reciprocal becomes 0.
- `BNBarrettReduce` computes on all 80 limbs of the result buffer, but clears only those it writes. Old content can
  make it fail, and can make it report success with a wrong, negative result: the residue less the modulus.
  `WrongExactlyWhen` says for which buffers, `StaleLimbIsTaken` gives one. A zeroed buffer never leads to a wrong
  result, and neither does the buffer of the operand itself.
- It also reports a bad number for a non-zero multiple of the modulus, because the remainder that equals the modulus
  leads to a zero with stale limbs; the exceptions need a modulus that divides B^2k and a clean, small old result. The
  comment speaks of two rounds of the correction loop; the bound that holds is three, for every modulus above B^(k-1).
  The loop tolerates eleven, and a modulus that is exactly B^(k-1) can need any number, because its reciprocal is 0.
- `BNStore` does not emit a number of a single limb at all, and cuts the top limb of others depending on its position
  in a group of eight; `EmittedTop` and `StoreAfterLoad` give the exact set.
- `BNCompare` calls two zeros bigger.
- `nist_kdf` computes the number of rounds from a 32-bit count of bits: up to 2^29 octets that is right, above it is
  too small, and for an empty output it is 2^24.
- Merging regions in `get_memory_map` can lose memory when a region is empty with its limit below its base, or when one
  ends at the top of the address range. `CoalesceLoss` computes the regions that are lost; merging keeps the cover
  exactly when there are none. `MergeLosesMemory` is an input.
- The excluded range of an IORR is what the IORR matches only for masks whose zeros are at the low end; for others it
  can be larger.
- `pool_vcpu_free` does the same two writes for any block in range. A block that is on the free list already cuts that
  list, one inside a guest's list cuts the guest's, and one past `nr_blocks` gets on the free list; what is behind a cut
  is lost.
- A free list of one block counts as empty, so that one block of the pool is never handed out.
- A bitmap that selects the nonce of a VMSA destroys it: a second application then does nothing.

## Model

| member | source | states |
|---|---|---|
| `BigNum.Compare` | fw/psp_bl_uapps/sev_uapp/src/bignum.c:673-705 | For canonical operands the result is the numeric order of the magnitudes, except that two zeros compare as bigger; lengths decide first |
| `BigNum.SecureCompare` | fw/psp_bl_uapps/sev_uapp/src/bignum.c:725-745 | The branch-free comparison orders the integers denoted by all 80 limbs of both buffers, hence the magnitudes when the limbs above `used` are zero |
| `BigNum.Copy` | fw/psp_bl_uapps/sev_uapp/src/bignum.c:186-190 | The destination gets length, sign and all 80 limbs |
| `BnAddSub.SubtractAbs` | fw/psp_bl_uapps/sev_uapp/src/bignum.c:465-535 | Exact difference of magnitudes with its sign, canonical, also in place; which limbs above the result are cleared and which keep old content |
| `BnAddSub.AddAbs` | fw/psp_bl_uapps/sev_uapp/src/bignum.c:548-607 | Exact sum of magnitudes, canonical, also in place; an overflow status exactly when 80 limbs are in use already, and then nothing changes |
| `BnAddSub.Subtract` | fw/psp_bl_uapps/sev_uapp/src/bignum.c:620-627 | Exact signed difference on canonical operands, in place or not, with the exact overflow condition |
| `BnAddSub.Add` | fw/psp_bl_uapps/sev_uapp/src/bignum.c:640-658 | Exact signed sum on canonical operands, in place or not, with the exact overflow condition |
| `BnShift.ShiftDigR` | fw/psp_bl_uapps/sev_uapp/src/bignum.c:200-232 | Dropping low limbs is division by B^shift, also in place |
| `BnShift.ShiftDigL` | fw/psp_bl_uapps/sev_uapp/src/bignum.c:245-282 | Moving limbs up is multiplication by B^shift, also in place, or an overflow status with nothing changed |
| `BnShift.ShiftBitsL` | fw/psp_bl_uapps/sev_uapp/src/bignum.c:296-357 | Multiplication by 2^shift across limb boundaries, also in place |
| `BnShift.ShiftBitsR` | fw/psp_bl_uapps/sev_uapp/src/bignum.c:367-416 | Division by 2^shift across limb boundaries, also in place |
| `BnBits.Set2Pwr` | fw/psp_bl_uapps/sev_uapp/src/bignum.c:427-452 | The number 2^pwr, or an overflow status exactly when it needs an 81st limb |
| `BnBits.Mod2Pwr` | fw/psp_bl_uapps/sev_uapp/src/bignum.c:962-984 | The remainder modulo 2^exp, canonical |
| `BnBits.BitCount` | fw/psp_bl_uapps/sev_uapp/src/bignum.c:995-1015 | For a canonical number v the count c satisfies 2^(c-1) <= v < 2^c; zero for zero; it follows from the length and the top limb |
| `Columns.ColumnsAreProduct` | fw/psp_bl_uapps/sev_uapp/src/bignum.c:759-849 | The columns of the schoolbook product, weighted by B^k, add up to the product |
| `BnMultiply.ColumnFits` | fw/psp_bl_uapps/sev_uapp/src/bignum.c:801-849 | The 64-bit column accumulator never overflows, for any column of up to 80 products and any carry |
| `BnMultiply.Multiply` | fw/psp_bl_uapps/sev_uapp/src/bignum.c:759-849 | x * y, or that modulo B^digits, canonical and with the right sign; the status is exact |
| `BnMultiply.MultiplyHighDigs` | fw/psp_bl_uapps/sev_uapp/src/bignum.c:865-948 | The product without the columns below `digits`, canonical; the status is exact |
| `BnMultiply.HighPartLoss` | fw/psp_bl_uapps/sev_uapp/src/bignum.c:865-948 | What the truncated product leaves out is less than digits * B^(digits+1), and nothing when digits is zero |
| `DigitEstimate.FirstGuessNotSmall` | fw/psp_bl_uapps/sev_uapp/src/bignum.c:1153-1173 | Step 3.1 of HAC algorithm 14.20: the first guess of a quotient digit is never too small |
| `DigitEstimate.PassingGuess` | fw/psp_bl_uapps/sev_uapp/src/bignum.c:1174-1203 | Step 3.2: with a top limb of only 27 bits, a guess that passes the three-by-two limb test is at most one too large |
| `DigitSearch.FirstCandidate` | fw/psp_bl_uapps/sev_uapp/src/bignum.c:1153-1173 | The first guess, made from limbs of the operands, is a candidate for the digit |
| `DigitSearch.AcceptCandidate` | fw/psp_bl_uapps/sev_uapp/src/bignum.c:1174-1203 | The guess that the test loop accepts is the digit or one more |
| `BnDivide.EstimateDigit` | fw/psp_bl_uapps/sev_uapp/src/bignum.c:1153-1209 | The digit estimation loop stops, within limbs, at the digit or at one more |
| `BnDivide.OneCorrection` | fw/psp_bl_uapps/sev_uapp/src/bignum.c:1210-1243 | A guess that is at most one too large is repaired by a single add-back |
| `BnDivide.DivideStep` | fw/psp_bl_uapps/sev_uapp/src/bignum.c:1147-1243 | One round of the main loop keeps: dividend = quotient so far * divisor + rest, with the rest below the scaled divisor |
| `BnDiv.Normalise` | fw/psp_bl_uapps/sev_uapp/src/bignum.c:1114-1135 | Dividend and divisor are scaled by the same power of two, so that the top limb of the divisor has its bit 26 set, for every dividend whose scaled value fits 80 limbs |
| `BnDiv.ScalableExactly` | fw/psp_bl_uapps/sev_uapp/src/bignum.c:1114-1131 | Every dividend of fewer than 80 limbs can be scaled, and one of 80 limbs exactly when its scaled value is below B^80 |
| `BnDiv.DivideDigits` | fw/psp_bl_uapps/sev_uapp/src/bignum.c:1136-1243 | The leading loop and the main loop together give the whole quotient and the remainder of the scaled operands |
| `BnDiv.Div` | fw/psp_bl_uapps/sev_uapp/src/bignum.c:1034-1259 | r = a mod b always; z is the quotient cut to a.used - b.used limbs (the whole quotient exactly when it fits them); a zero divisor is refused |
| `BnDiv.DivSmall` | fw/psp_bl_uapps/sev_uapp/src/bignum.c:1067-1091 | The cases a < b and a = b |
| `BarrettMath.EstimateClose` | fw/psp_bl_uapps/sev_uapp/src/bignum.c:1343-1354 | HAC algorithm 14.42: the estimate q3 satisfies floor(x/m) - 3 <= q3 <= floor(x/m), truncated middle product included |
| `BarrettMath.ExactOnMultiples` | fw/psp_bl_uapps/sev_uapp/src/bignum.c:1343-1354 | On a multiple of m the estimate is exact if and only if nothing was rounded: m divides B^2k and B^(k-1) divides x |
| `BnBarrett.BarrettSetup` | fw/psp_bl_uapps/sev_uapp/src/bignum.c:1271-1289 | u = B^2k / m; a modulus that is exactly B^(k-1) gets 0 instead; the status is exact |
| `BnBarrett.EstimateQuotient` | fw/psp_bl_uapps/sev_uapp/src/bignum.c:1332-1354 | The shifts and the truncated product give the estimate q3: floor(x / B^(k-1)) times the reciprocal, without the columns below k - 1, divided by B^(k+1) |
| `BnCorrection.CorrectRemainder` | fw/psp_bl_uapps/sev_uapp/src/bignum.c:1376-1401 | Success exactly when the rest and the stale limbs of the buffer allow it, for every old buffer; the result is then the rest less as many moduli as were subtracted, and that is the residue, or the residue less the modulus when stale limbs were taken for part of it |
| `BnBarrett.BarrettReduce` | fw/psp_bl_uapps/sev_uapp/src/bignum.c:1306-1406 | For x of up to 2k limbs and every old content of the result: the exact status and the exact result; every success gives a value between -m and m that is congruent to x, after at most three subtractions if m > B^(k-1) |
| `BnBarrett.RestIsSmall` | fw/psp_bl_uapps/sev_uapp/src/bignum.c:1343-1374 | For m > B^(k-1) the value that enters the correction is x less the estimated multiple of m, recovered exactly from the difference modulo B^(k+1); it is below 4m, congruent to x, and zero on a multiple of m exactly when nothing was rounded |
| `BnBarrett.RestOfPower` | fw/psp_bl_uapps/sev_uapp/src/bignum.c:1343-1374 | For m = B^(k-1) it is x modulo B^(k+1), congruent to x |
| `BarrettResults.WrongExactlyWhen` | fw/psp_bl_uapps/sev_uapp/src/bignum.c:1376-1401 | A reported success is wrong if and only if the rest is below the modulus, no stale limb lies at or above both lengths, and rest and stale limbs together reach the modulus; the result is then x mod m - m |
| `BarrettResults.StaleLimbIsTaken` | fw/psp_bl_uapps/sev_uapp/src/bignum.c:1376-1401 | Such an input: x = B^3 + 1 and m = 2B, into a buffer that holds 5B, gives 1 - 2B |
| `BarrettResults.ZeroedResult` | fw/psp_bl_uapps/sev_uapp/src/bignum.c:1306-1406 | Into a zeroed buffer success is always right; it happens exactly when x mod m is not zero or nothing was rounded, and for m = B^(k-1) exactly when the rest is zero, or no multiple of m with at most eleven multiples in it |
| `BarrettResults.InPlace` | fw/psp_bl_uapps/sev_uapp/src/bignum.c:1306-1406 | In place success is always right; it happens exactly for x mod m not zero and at most eleven multiples, with x of at most k + 1 limbs, or of k + 2 when the difference of the residues is negative |
| `BarrettResults.MultipleRejected` | fw/psp_bl_uapps/sev_uapp/src/bignum.c:1376-1401 | A multiple of m for which something is rounded is rejected, whatever the result buffer held |
| `BarrettResults.MultipleIsRejected` | fw/psp_bl_uapps/sev_uapp/src/bignum.c:1376-1401 | For instance x = m = 3, for every old buffer |
| `BnOctets.Load` | fw/psp_bl_uapps/sev_uapp/src/bignum.c:59-114 | A non-empty little-endian octet string is loaded as exactly its integer, clean above `used`, or refused by its length; limb 79 is never passed |
| `BnOctets.Store` | fw/psp_bl_uapps/sev_uapp/src/bignum.c:130-177 | What is written is the number modulo 2^(8w) for the w octets that the loop emits, the octets above keep their content; the status is exact |
| `BnOctets.EmittedTop` | fw/psp_bl_uapps/sev_uapp/src/bignum.c:150-170 | The top limb is emitted in full exactly when it starts a group of eight limbs or fits the bits that its phase leaves; a single limb never is |
| `BnOctets.StoreAfterLoad` | fw/psp_bl_uapps/sev_uapp/src/bignum.c:59-177 | Storing into a zeroed buffer what was loaded restores the octets if and only if the number is one that the loop emits in full |
| `LimbDigits.DigitsUnique` | fw/psp_bl_uapps/sev_uapp/src/bignum.c:150-170 | The limbs of a canonical number, and how many they are, are determined by its value |
| `Ecc.ArrayCompareLe` | fw/psp_bl_uapps/sev_uapp/src/secure_ops.c:30-46 | The branch-free octet comparison decides equal, greater or less of the little-endian integers |
| `Ecc.IsGreater` | fw/psp_bl_uapps/sev_uapp/src/ecc.c:248-255 | Greater means greater as little-endian integers |
| `Ecc.ScalarMinus` | fw/psp_bl_uapps/sev_uapp/src/ecc.c:292-341 | Exact octet-wise subtraction, also when the result overwrites an operand; refused exactly when it would be negative, and then nothing changes |
| `Ecc.ScalarMod` | fw/psp_bl_uapps/sev_uapp/src/ecc.c:343-377 | Repeated subtraction ends for every modulus but zero and gives op1 mod modulus, also in place |
| `Ecc.ScalarReduce` | fw/psp_bl_uapps/sev_uapp/src/ecc.c:379-434 | Barrett reduction of scalars: succeeds exactly when the operand is short enough, the residue is not zero, and, for a modulus B^(k-1), at most eleven multiples are in x mod B^(k+1); the octets written denote the residue as far as storing emits it |
| `Ecc.ReduceBothWays` | fw/psp_bl_uapps/sev_uapp/src/ecc.c:343-434 | Fast refines slow: when the fast reduction succeeds into a zeroed result, both results are the same octets if and only if storing emits the residue in full |
| `Ecc.SingleLimbIsLost` | fw/psp_bl_uapps/sev_uapp/src/bignum.c:150-170 | A residue of a single limb is never emitted: a counterexample to the fast form for every value below 2^28 |
| `Ecc.KeypairFromExtraBits` | fw/psp_bl_uapps/sev_uapp/src/ecc.c:589-646 | The private key is in 1 .. n-1; it is one more than what storing emits of c mod (n-1), which is (c mod (n-1)) + 1 if and only if the residue is emitted in full; the exact condition for success |
| `Crc.ComputeCrc32c` | fw/psp_bl_uapps/sev_uapp/src/crc.c:25-54 | The loop over octets and bits computes the CRC register over the whole buffer |
| `Crc.ComputeCrc32cOffset` | fw/psp_bl_uapps/sev_uapp/src/crc.c:73-159 | The strided loop computes the plain CRC-32C of one lane of the buffer, with the exact conditions on size and offset |
| `Crc.ComputeCrc64` | fw/psp_bl_uapps/sev_uapp/src/crc.c:170-212 | The 64-bit sum has the exclusive or of the checksums of the three lanes in its upper half, and in its lower half the CRC-32C of the twelve octets, least significant first, that hold them |
| `CrcReflected.Crc32cIsReflected` | fw/psp_bl_uapps/sev_uapp/src/crc.c:12-54 | The most-significant-bit-first loop equals the reflected CRC-32C of section 12.1 of RFC 3720, for every buffer |
| `ShiftRegister.BurstLeavesTrace` | fw/psp_bl_uapps/sev_uapp/src/crc.c:25-54 | For any lawful shift register, two bit strings that differ only inside a window of its width leave different registers |
| `CrcDetection.RegisterIsLawful` | fw/psp_bl_uapps/sev_uapp/src/crc.c:25-54 | The CRC-32C register is such a register |
| `CrcDetection.BurstChangesCrc` | fw/psp_bl_uapps/sev_uapp/src/crc.c:25-54 | Two buffers that differ only within 32 consecutive message bits have different checksums |
| `CrcLanes.LanesPartition` | fw/psp_bl_uapps/sev_uapp/src/crc.c:73-159 | The three lanes share out the buffer: octets and places in lanes correspond one to one |
| `CrcLanes.FourOctetsChangeCrc` | fw/psp_bl_uapps/sev_uapp/src/crc.c:25-54 | A change within four consecutive octets changes the plain checksum |
| `CrcLanes.WordChangeDetected` | fw/psp_bl_uapps/sev_uapp/src/crc.c:170-212 | A change within four consecutive octets of one aligned 8-octet word changes the 64-bit sum |
| `VcpuPool.LinkedIsAcyclic` | fw/psp_bl_uapps/sev_uapp/src/pool_u32.c:118-176 | A list that runs from head to tail and ends in INVALID_BLOCK visits no block twice |
| `VcpuPool.Pool.Init` | fw/psp_bl_uapps/sev_uapp/src/pool_u32.c:181-227 | All blocks are on the free list, in order; parameter errors change nothing |
| `VcpuPool.Pool.Alloc` | fw/psp_bl_uapps/sev_uapp/src/pool_u32.c:284-316 | Takes the head of the free list, and never its last block; how far a failing mapping gets |
| `VcpuPool.Pool.AddTail` | fw/psp_bl_uapps/sev_uapp/src/pool_u32.c:145-176 | Appends a block by two writes; after both the list is linked whatever the block was before, and ends with it; after one if the block ended a list of its own |
| `VcpuPool.Pool.Free` | fw/psp_bl_uapps/sev_uapp/src/pool_u32.c:321-325 | For every address: outside the pool nothing happens; otherwise the block is the tail of a linked free list after both writes, and after the first alone if it ended a list of its own; the whole new state is stated for any number of writes |
| `VcpuPool.SecondFreeCuts` | fw/psp_bl_uapps/sev_uapp/src/pool_u32.c:145-176 | Appending a block that is on the list already cuts the list behind it: the blocks after it are lost |
| `VcpuPool.ListedFreeCuts` | fw/psp_bl_uapps/sev_uapp/src/pool_u32.c:145-176 | Appending a block inside a guest's list cuts that list behind it: the block ends both lists, and the blocks after it are on neither |
| `VcpuPool.Pool.FreeList` | fw/psp_bl_uapps/sev_uapp/src/pool_u32.c:335-392 | The whole list of a guest is appended to the free list, or nothing changes |
| `VcpuPool.Pool.FindCrcInList` | fw/psp_bl_uapps/sev_uapp/src/pool_u32.c:394-464 | Ends within num_vcpus steps, and finds exactly the blocks on the list |
| `VcpuOwnership.TakeKeeps` | fw/psp_bl_uapps/sev_uapp/src/pool_u32.c:284-316 | Taking a block keeps: every block is on the free list, on one list of a guest, held or lost, and all lists are linked |
| `VcpuOwnership.ReturnKeeps` | fw/psp_bl_uapps/sev_uapp/src/pool_u32.c:321-325 | So does giving one back |
| `VcpuOwnership.AppendKeeps` | fw/psp_bl_uapps/sev_uapp/src/sev_es.c:419-470 | So does linking a held block behind the list of a guest |
| `VcpuOwnership.GiveBackKeeps` | fw/psp_bl_uapps/sev_uapp/src/pool_u32.c:335-392 | So does giving back the whole list of a guest |
| `VcpuOwnership.BlocksConserved` | fw/psp_bl_uapps/sev_uapp/src/pool_u32.c:118-176 | Free, owned, held and lost blocks add up to the size of the pool, and at most all but one are out at once |
| `SevEs.EsPlatform.constructor` | fw/psp_bl_uapps/sev_uapp/src/pool_u32.c:181-227 | The platform after initialisation of the pool is consistent |
| `SevEs.EsPlatform.AllocBlock` | fw/psp_bl_uapps/sev_uapp/src/pool_u32.c:284-316 | The block handed out is the head of the free list and becomes held; nobody owned it |
| `SevEs.EsPlatform.FreeBlock` | fw/psp_bl_uapps/sev_uapp/src/pool_u32.c:321-325 | A held block goes back to the free list, or is lost if memory cannot be mapped |
| `SevEs.EsPlatform.SetupVmsa` | fw/psp_bl_uapps/sev_uapp/src/sev_es.c:373-496 | The head of the free list becomes the last block of the guest, holds the checksum of the VMSA, and is named by it; on failure no guest and no checksum of a guest changes; the exact conditions for each status |
| `SevEs.EsPlatform.Decommission` | fw/psp_bl_uapps/sev_uapp/src/sev_mcmd.c:343-356 | The list of the guest goes back to the free list as a whole |
| `SevEs.EsPlatform.ValidateVmsa` | fw/psp_bl_uapps/sev_uapp/src/sev_es.c:501-584 | Succeeds on every unchanged VMSA of the guest; otherwise exactly when it names a block of the guest and has the checksum that is read through the address it gives, also where that address does not start a block |
| `SevEs.ReadBlock` | fw/psp_bl_uapps/sev_uapp/src/sev_es.c:556-574 | At the start of a block the eight octets that are read, least significant first, are the checksum it holds |
| `SevEs.TamperingDetected` | fw/psp_bl_uapps/sev_uapp/src/sev_es.c:501-584 | A change within four octets of one aligned word, anywhere in the page but in its last 64 octets, changes the checksum, whatever happens to those |
| `SevEs.Run` | fw/psp_bl_uapps/sev_uapp/src/sev_es.c:373-584 | Over any run of setups, decommissions, allocations, frees of any held block and writes to pages the pool stays consistent, blocks in use stay in use, none appears or disappears, and every page that was set up, and has since neither been written nor lost its guest, is on the list of the guest with its checksum |
| `SevEs.RunAndValidate` | fw/psp_bl_uapps/sev_uapp/src/sev_es.c:373-584 | After any run, validation succeeds on every such page, unless memory cannot be mapped |
| `MemMap.ExcludeFromMemMap` | fw/psp_bl_uapps/sev_uapp/src/sev_hal.c:1400-1451 | The memory cover afterwards is the old one without the range, point by point with multiplicity, so disjoint regions stay disjoint; row by row, what is left of each region stays in its place and the pieces behind the range follow; it succeeds if and only if the table has room for all pieces; it terminates although the table grows |
| `MemMap.CutRegion` | fw/psp_bl_uapps/sev_uapp/src/sev_hal.c:1411-1447 | One region: dropped, trimmed, split or untouched, with the whole new table; it fails exactly for a split with a full table, and the last branch is never taken |
| `MemMap.TableFull` | fw/psp_bl_uapps/sev_uapp/src/sev_hal.c:1431-1440 | Giving up at a split means there was never room |
| `MemMerge.Coalesce` | fw/psp_bl_uapps/sev_uapp/src/sev_hal.c:1516-1544 | For every table the rows are those of the nested merging and the MMIO hole is found; the cover before is the cover after and that of the lost regions, address by address, and it stays the same if and only if no region is lost |
| `MemMerge.JoinKeeps` | fw/psp_bl_uapps/sev_uapp/src/sev_hal.c:1520-1537 | Joining two regions keeps what they cover if and only if there is no wrap-around and no empty region with a limit that is too low, that is, if and only if no region is lost |
| `MemMerge.CoalesceConserves` | fw/psp_bl_uapps/sev_uapp/src/sev_hal.c:1516-1544 | For every table and address merging gains nothing: how often the table covered the address is how often the merged table and the lost regions do |
| `MemMerge.CoalesceExactly` | fw/psp_bl_uapps/sev_uapp/src/sev_hal.c:1516-1544 | The merged table covers the same if and only if no region is lost |
| `MemMerge.WellFormedLosesNothing` | fw/psp_bl_uapps/sev_uapp/src/sev_hal.c:1516-1544 | No region is lost if none is empty or ends at the top of the address range, and the merged table has none such either |
| `MemMerge.MergeLosesMemory` | fw/psp_bl_uapps/sev_uapp/src/sev_hal.c:1520-1537 | Such a table: 0 to 9 followed by an empty region from 10 to 5 loses the region 6 to 9 |
| `MemMerge.AllMerged` | fw/psp_bl_uapps/sev_uapp/src/sev_hal.c:1516-1544 | In a table with regions in ascending order no region starts right behind another after merging, and the order is kept |
| `MemMerge.MergedBackwards` | fw/psp_bl_uapps/sev_uapp/src/sev_hal.c:1520-1537 | Two neighbours become one also when the higher one comes first in the table |
| `MemMap.CheckTops` | fw/psp_bl_uapps/sev_uapp/src/sev_hal.c:1546-1560 | Accepts exactly the tables whose memory lies below the top of memory on its side of 4 GB |
| `MemMap.CheckMmio` | fw/psp_bl_uapps/sev_uapp/src/sev_hal.c:1562-1576 | Accepts exactly the tables in which no MMIO range meets memory, addresses compared without the C-bit |
| `MemOverlap.OverlapIsCommon` | fw/psp_bl_uapps/sev_uapp/src/x86_copy.c:23-31 | Ranges that share an address overlap, addresses compared without the C-bit; ranges that are not empty overlap only then |
| `MemOverlap.ClearedBits` | fw/psp_bl_uapps/sev_uapp/src/x86_copy.c:23-31 | The comparison ignores bit 51 of an address, and no other |
| `MemOverlap.AcceptedIsApart` | fw/psp_bl_uapps/sev_uapp/src/sev_hal.c:1562-1576 | In an accepted table no address of an MMIO range is one of memory |
| `MemMap.Compact` | fw/psp_bl_uapps/sev_uapp/src/sev_hal.c:1578-1592 | Compaction in place is the order-preserving filter of the memory entries, and keeps the cover |
| `LockedMsrs.IorrExcludesMatches` | fw/psp_bl_uapps/sev_uapp/src/sev_hal.c:1464-1490 | The excluded range is the set of addresses that the IORR matches, for all bases, if and only if the zeros of the mask are at its low end |
| `LockedMsrs.IorrCoversMatches` | fw/psp_bl_uapps/sev_uapp/src/sev_hal.c:1464-1490 | For every mask and every base, all addresses that the IORR matches are in the excluded range |
| `LockedMeaning.LowIs` | fw/psp_bl_uapps/sev_uapp/src/sev_hal.c:1621-1670 | The first megabyte, address by address: with the fixed-range registers enabled an address is taken away exactly if bit 3 or bit 4 of its octet is clear, in the register and the octet that arithmetic on the address gives; otherwise all of it is; it is known exactly when the registers can be read |
| `LockedMeaning.IorrIs` | fw/psp_bl_uapps/sev_uapp/src/sev_hal.c:1464-1490 | An IORR takes addresses away exactly if bit 11 of its mask is set and bits 3 and 4 of its base are not both set: those from the base, cut to bits 12 to 51 of the mask, up to the end of what these leave free |
| `LockedMeaning.HighIs` | fw/psp_bl_uapps/sev_uapp/src/sev_hal.c:1600-1614 | Without bit 21 of SYSCFG all addresses from 4 GB on are taken away; with it the second top of memory must agree |
| `LockedMeaning.LockedIs` | fw/psp_bl_uapps/sev_uapp/src/sev_hal.c:1600-1670 | The ranges that are cut out hold exactly the addresses that the registers map away, and are known exactly when the registers that are needed can be read and agree with the tops of memory |
| `MemMapSetup.CheckIorr` | fw/psp_bl_uapps/sev_uapp/src/sev_hal.c:1464-1490 | The range of an enabled IORR that maps to MMIO is excluded; success exactly when the registers it needs can be read and the table has room |
| `MemMapSetup.PrepareMap` | fw/psp_bl_uapps/sev_uapp/src/sev_hal.c:1516-1592 | First phase: what remains is the merged memory without the hole, inside the tops of memory; it covers nothing new, and is the initial memory without the hole if and only if every address that merging loses is in the hole; success exactly when the table has room for the hole and the two checks accept the result |
| `MemMapSetup.ApplyMsrs` | fw/psp_bl_uapps/sev_uapp/src/sev_hal.c:1600-1670 | Second phase: all the ranges that the locked registers give are excluded; success exactly when the registers can be read, agree with the tops of memory, and leave room for the pieces; afterwards memory is what there was, without every address that the bits of the registers map away |
| `MemMapSetup.GetMemoryMap` | fw/psp_bl_uapps/sev_uapp/src/sev_hal.c:1492-1696 | The final map is the merged memory minus all excluded ranges, and nothing but memory; it covers nothing that the initial memory did not, and is the initial memory minus those ranges if and only if every address that merging loses is excluded anyway; it is delivered if and only if the table fits, both checks accept the rows without the hole, and, once the registers are fetched, they can be read, agree with the tops of memory, and every range finds room in its turn; told by addresses: nothing of the hole, nothing that the bits of the fetched registers map away, and of all the rest as much as the initial table covered, less what merging loses |
| `Digest.DigestCtx.Update` | fw/psp_bl_uapps/sev_uapp/src/digest.c:207-259 | Whatever has been taken in = whole blocks seen by the engine + the buffered rest, which is shorter than a block; the data is appended to it |
| `Digest.DigestCtx.Final` | fw/psp_bl_uapps/sev_uapp/src/digest.c:267-284 | The digest is the one-shot hash of everything taken in, and the digest by definition |
| `Digest.FoldSnoc` | fw/psp_bl_uapps/sev_uapp/src/digest.c:79-119 | No block leaves the state of the engine; one more block at the end is one more compression |
| `Digest.HashIsDigest` | fw/psp_bl_uapps/sev_uapp/src/digest.c:181-284 | The hash is the digest by definition and the only one: a chain of states from the initial one, one compression for each whole block in order, then the final step with the rest and the number of octets before it modulo 2^32 |
| `Digest.HashChunks` | fw/psp_bl_uapps/sev_uapp/src/digest.c:181-284 | Chunking independence: for any sequence of pieces the digest is the digest of their concatenation, by the chain of compressions of its blocks; an engine that never fails gives it always |
| `Digest.DigestSha` | fw/psp_bl_uapps/sev_uapp/src/digest.c:294-320 | One call gives the digest of the message, by the chain of compressions of its blocks, and refuses an empty one |
| `Hmac.HmacCtx.Init` | fw/psp_bl_uapps/sev_uapp/src/hmac.c:15-63 | The inner digest has taken in the key combined with ipad |
| `Hmac.HmacCtx.Final` | fw/psp_bl_uapps/sev_uapp/src/hmac.c:83-133 | H(K xor opad, H(K xor ipad, text)) of section 2 of RFC 2104, for any way the text was cut |
| `Hmac.HmacIs` | fw/psp_bl_uapps/sev_uapp/src/hmac.c:15-133 | The code is the one of section 2 of RFC 2104: the digest of opad and the digest of ipad and text, where the pads are the key, filled up with zeros to 64 octets, with the bits of 0x5C and 0x36 flipped in each octet |
| `Hmac.HmacSha256` | fw/psp_bl_uapps/sev_uapp/src/hmac.c:135-160 | The code of a message, or the exact parameter errors |
| `Hmac.SecureCompare` | fw/psp_bl_uapps/sev_uapp/src/secure_ops.c:9-28 | Zero exactly for equal strings |
| `Hmac.VerifyMsg` | fw/psp_bl_uapps/sev_uapp/src/hmac.c:180-204 | Accepts a message exactly when its code is the expected one |
| `NistKdf.RoundsEnough` | fw/psp_bl_uapps/sev_uapp/src/nist_kdf.c:110-177 | ceil(length/32) rounds for 1 to 2^29 octets; too few above that and 2^24 for none, because the bit length wraps around |
| `NistKdf.Prf` | fw/psp_bl_uapps/sev_uapp/src/nist_kdf.c:40-108 | One application is the HMAC of the only string with the counter as a little-endian word at 0, the label from 4, a zero octet behind it, then the context, and the length in bits as a word in the last four octets |
| `NistKdf.PrfInputIs` | fw/psp_bl_uapps/sev_uapp/src/nist_kdf.c:40-108 | A string is hashed exactly if it has this layout, told by words and slices at their places |
| `NistKdf.InputsDiffer` | fw/psp_bl_uapps/sev_uapp/src/nist_kdf.c:40-108 | Different counters, and different lengths, give different inputs |
| `NistKdf.Kdf` | fw/psp_bl_uapps/sev_uapp/src/nist_kdf.c:110-177 | Counter mode of section 5.1 of NIST SP 800-108: the output is a prefix of PRF(1), PRF(2), ..., with nothing written past the end; exactly as many applications of the PRF as there are rounds |
| `Cipher.CtrTwice` | fw/psp_bl_uapps/sev_uapp/src/cipher.c:63-195 | Counter mode is its own inverse at every length |
| `Cipher.CtrSplit` | fw/psp_bl_uapps/sev_uapp/src/cipher.c:63-195 | Whole blocks first and the rest later is the same as everything at once |
| `OctetXor.XorOctetBits` | fw/psp_bl_uapps/sev_uapp/src/cipher.c:63-108 | Combining two octets: a bit of the result is set exactly if the two bits differ |
| `Cipher.CtrAt` | fw/psp_bl_uapps/sev_uapp/src/cipher.c:63-195 | Octet i of the data meets octet i mod 16 of the key stream block for the counter after i / 16 blocks, for every length |
| `Cipher.CtrCtx.Update` | fw/psp_bl_uapps/sev_uapp/src/cipher.c:63-108 | Whole blocks, each octet combined bit by bit with its octet of the key stream, and the counter after them; the exact parameter errors |
| `Cipher.CtrCtx.Final` | fw/psp_bl_uapps/sev_uapp/src/cipher.c:119-195 | The last piece of any length is combined, octet by octet and bit by bit, with a prefix of the key stream, as in section 6.5 of NIST SP 800-38A, and the context is wiped |
| `SevChannel.DeriveKey` | fw/psp_bl_uapps/sev_uapp/src/nist_kdf.c:180-187 | A key of 16 octets is the first half of one PRF output |
| `SevChannel.CreateSession` | fw/psp_bl_uapps/sev_uapp/src/sev_channel.c:111-188 | The session holds the wrapped keys, their code and the code of the policy |
| `SevChannel.OpenClient` | fw/psp_bl_uapps/sev_uapp/src/sev_channel.c:309-355 | The client holds the channel of its keys, and the session that goes with it |
| `SevChannel.EstablishChannel` | fw/psp_bl_uapps/sev_uapp/src/sev_channel.c:190-250 | The server checks the code, then unwraps |
| `SevChannel.OpenServer` | fw/psp_bl_uapps/sev_uapp/src/sev_channel.c:259-307 | A sound session is accepted and unwrapped; a bad measurement means the code was wrong |
| `SevChannel.SameChannel` | fw/psp_bl_uapps/sev_uapp/src/sev_channel.c:66-250 | The session of a channel passes the check and unwraps to that channel and to no other |
| `SevChannel.OpenBothEnds` | fw/psp_bl_uapps/sev_uapp/src/sev_channel.c:66-355 | Both ends hold the same master secret, TEK, TIK and nonce when key agreement commutes; with primitives that do not fail both ends always open |
| `SevChannel.LabelsSpell` | fw/psp_bl_uapps/sev_uapp/src/sev_channel.c:14-16 | The labels of the three derivations are the octets of their texts, without a final zero |
| `Bits.Width` | fw/psp_bl_uapps/sev_uapp/src/apicid.c:56-59 | The field width w of n is the least with n < 2^w |
| `ApicId.FormatAlwaysFits` | fw/psp_bl_uapps/sev_uapp/src/apicid.c:92-126 | Only a package without registers is refused; an ID never needs more than twelve bits |
| `ApicId.FieldsAbut` | fw/psp_bl_uapps/sev_uapp/src/apicid.c:92-126 | Each field starts right above the one below it and has the least width for its largest number; in sixteen-thread mode the field of the complex starts at bit 4, unless the fields below it reach beyond |
| `ApicId.PackageBits` | fw/psp_bl_uapps/sev_uapp/src/apicid.c:41-45 | Which bits of the package register each largest number and the mode are |
| `ApicId.LogicalBits` | fw/psp_bl_uapps/sev_uapp/src/apicid.c:34-38 | Which bits of the register of a core each of its logical numbers is |
| `ApicId.IdIsSum` | fw/psp_bl_uapps/sev_uapp/src/apicid.c:436-454 | The fields of an ID never overlap, in whatever order they are combined |
| `ApicId.IdsDiffer` | fw/psp_bl_uapps/sev_uapp/src/apicid.c:436-454 | Within the declared maxima IDs are equal exactly for equal (socket, ccd, ccx, core, thread), and below 2^width |
| `ApicId.EntryPosition` | fw/psp_bl_uapps/sev_uapp/src/apicid.c:233-235 | A table entry gives back socket and complex |
| `ApicId.ComplexOfCore` | fw/psp_bl_uapps/sev_uapp/src/apicid.c:205-235 | With two complexes of eight cores core 8x + c of a die is core c of complex 2 ccd + x of the socket, and its register is read there |
| `ApicId.RowsAre` | fw/psp_bl_uapps/sev_uapp/src/apicid.c:205-213 | The table is filled with exactly the enabled cores |
| `ApicId.CreateTable` | fw/psp_bl_uapps/sev_uapp/src/apicid.c:168-288 | For an accepted format the result is success with ACTIVATE_EX enabled if and only if every enabled core is in range and none conflicts; the table then holds exactly their threads; otherwise the status says which core was the reason, and an error leaves ACTIVATE_EX enabled |
| `ApicId.CleanIsDistinct` | fw/psp_bl_uapps/sev_uapp/src/apicid.c:168-288 | For cores that report declared numbers a conflict means an ID of 512 and more, or two cores with the same logical numbers |
| `ApicId.CcxBitmask` | fw/psp_bl_uapps/sev_uapp/src/apicid.c:359-415 | The mask has exactly the bits of the complexes of the listed IDs; the exact errors |
| `InvalidAsid.AsidBijection` | fw/psp_bl_uapps/sev_uapp/src/sev_hal_interface.c:83-101 | ASIDs from 1 on and pairs of register and bit correspond one to one |
| `InvalidAsid.EveryBitIsAnAsid` | fw/psp_bl_uapps/sev_uapp/src/sev_hal_interface.c:83-101 | Every pair is the place of an ASID |
| `InvalidAsid.AddressesDiffer` | fw/psp_bl_uapps/sev_uapp/src/sev_hal_interface.c:103-122 | Different threads or registers have different addresses |
| `InvalidAsid.Registers.AccessInvalidAsidRegs` | fw/psp_bl_uapps/sev_uapp/src/sev_hal_interface.c:132-212 | A read returns one register of a requested thread; a write sets all of them and no other; a failure has a reason |
| `InvalidAsid.Registers.MarkAsid` | fw/psp_bl_uapps/sev_uapp/src/sev_hal_interface.c:228-265 | On success exactly the registers of the requested, present complexes change, and only in the bit of the ASID; a complex is requested by bit 16 die + 2 ccd + complex, or 16 die + ccd with one complex a die; after a failure every register is either old or so marked |
| `InvalidAsid.MarkRefinesRelation` | fw/psp_bl_uapps/sev_uapp/src/sev_hal_interface.c:228-265 | As a relation between threads and ASIDs: one ASID changes on the requested threads, and nothing else |
| `InvalidAsid.ActiveIs` | fw/psp_bl_uapps/sev_uapp/src/sev_hal_interface.c:67-81 | A thread exists exactly if its die is there, bit ccd of the present dies and bit 8 complex + core of the present cores are set, and its number is 0, or 1 with two threads a core |
| `InvalidAsid.EntryIsPosition` | fw/psp_bl_uapps/sev_uapp/src/sev_hal_interface.c:160-164 | The bit of a mask that names the complex of a thread is the one that the table of APIC IDs has for the ID of the thread, whatever the format of the package |
| `InvalidAsid.ListedIsRequested` | fw/psp_bl_uapps/sev_uapp/src/apicid.c:359-415 | The mask for a list of APIC IDs names exactly the threads whose complex has a thread with one of these IDs |
| `InvalidAsid.MarkByApicIds` | fw/psp_bl_uapps/sev_uapp/src/sev_hal_interface.c:228-265 | Hence marking with that mask changes one ASID on the threads of the complexes of the listed IDs that are present, and nothing else |
| `InvalidAsid.MarkKeepsUniform` | fw/psp_bl_uapps/sev_uapp/src/sev_hal_interface.c:228-265 | The threads of a complex still hold the same values, in every register |
| `InvalidAsid.LogicalNumbersSuffice` | fw/psp_bl_uapps/sev_uapp/src/sev_hal_interface.c:132-212 | Threads with different logical numbers have the different APIC IDs that marking relies on |
| `VmsaTweak.ApplyBitmap` | fw/psp_bl_uapps/sev_uapp/src/sev_es.c:656-683 | Exactly the selected quadwords are combined with the nonce found at the start, bit by bit |
| `VmsaTweak.TweakTwice` | fw/psp_bl_uapps/sev_uapp/src/sev_es.c:656-683 | Twice is the identity on every VMSA if and only if the bitmap does not select the nonce |
| `VmsaTweak.BuiltInIsRegisters` | fw/psp_bl_uapps/sev_uapp/src/sev_es.c:602-615 | The built-in bitmap selects exactly the quadwords of the protected registers |
| `VmsaTweak.BuildBitmap` | fw/psp_bl_uapps/sev_uapp/src/sev_es.c:617-651 | The table of registers, run through the alternative loop, gives the built-in bitmap |
| `VmsaTweak.XorTweak` | fw/psp_bl_uapps/sev_uapp/src/sev_es.c:688-725 | With protection enabled, by bit 14 of the feature word at 0x3B0, the nonce is stored at 0x300 and the selected quadwords are combined with it bit by bit; otherwise, or without randomness, nothing changes |
| `VmsaTweak.ProtectedVmsaRestores` | fw/psp_bl_uapps/sev_uapp/src/sev_es.c:602-725 | Nonce and feature word survive, unprotected quadwords stay, and one more application gives the registers back |

## Left out

- BnDiv.Div: a dividend of 80 limbs is excluded if scaling carries out of its top limb, for instance B^80 - 1 over 1:
  the code would then write limb 80.
- BnDiv.Normalise: the same dividends are excluded.
- BnBarrett.BarrettReduce: the limbs of operand and modulus above their lengths are taken to be zero, as loading and
  setting up leave them; stale limbs there, which the code accepts, are not modelled.
- Ecc.KeypairFromExtraBits: the public key is not computed; the addition of one is an addition of integers.
- BnOctets.Load: the empty input is excluded, for which the count of remaining octets wraps around.
- BnOctets.Store: a buffer of more than 280 octets for a zero is excluded, because the loop would read past the limbs.
- BnShift.ShiftBitsL: a shift by bits whose carry needs an 81st limb is excluded; the code does not check for it.
- VcpuPool.Pool.Init: a pool of a single index block of four octets is excluded, for which the loop would write block
  -1, and pools of 4 GB and more.
- SevEs.EsPlatform.ValidateVmsa: eight octets that reach past the last block of the checksum memory are arbitrary.
- SevEs.Run: the steps are those of the pool and of SEV-ES guests; destroying the pool is not one of them.
- MemMapSetup.GetMemoryMap: the size of the table is a parameter.
- InvalidAsid.Registers.MarkAsid: the address of the CPU's trusted region is taken to be known, the threads of a
  complex to hold equal registers before, and APIC IDs to be distinct and below 2^20; a second complex needs dies 0 to
  7.
- InvalidAsid.MarkByApicIds: the table is taken to hold the lines of every socket, the socket number that a core
  reports to be its die, and every listed ID to be that of a thread.
- ApicId.CreateTable: the numbers of an enabled core come from a function; merging the tables of two sockets is left
  out.
- The eight cores of a complex are a constant here; the header that defines it is not part of this model.
- The obfuscated copies that the number structure can carry, and timing of the branch-free comparisons.
- ecc_keypair_from_candidates, the scalar and point operations that call the ECC engine, and signatures.
- pool_vcpu_destroy and the set-up of the trusted regions, which only change hardware state.
- The firmware's command dispatch, guest state tables, certificates, RSA, CPUID tables, IOMMU and data-fabric
  registers, slave-die messages and persistent storage: look-ups, field checks or drivers of hardware that is not
  shown.
- The inner workings of SHA, AES, ECDH and the random number generator.
