# fhe-eva-core arithmetic engine, modelled in Dafny

This project models the arithmetic engine of fhe-eva-core, a Rust library for
fully homomorphic encryption.

- **Modular kernel** (`src/modular.rs`): `mod_add`, `mod_sub`, `mod_mul` and
  `mod_pow` over `u64`, the Fermat inverse `mod_inv`, and the
  extended-Euclid inverse `mod_inv_extended`.
- **Radix-4 forward transform** (`src/ntt.rs`): an in-place bit-reversal
  permutation, then radix-4 butterfly stages of length 4, 16, 64, and so on.
- **`fhe-ntt` crate** (`fhe-ntt/src/lib.rs`): an `FHEContext` of modulus,
  root and size, a radix-2 Cooley-Tukey `ntt`, and its `intt`. The `intt`
  re-runs `ntt`, reverses all entries but the first, and scales by
  `n^(m-2) mod m`.
- **`UltraFheContext`** (`src/lib.rs`): a context over the modulus
  180143985094819841.
  - Its constructor precomputes a bit-reversal table and one twiddle triple
    `[w, w^2, w^3]` per radix-4 stage.
  - `generate_keys` fills the coefficients from a 128-bit linear
    congruential generator.
  - `ntt_ultrafast` transforms the coefficients in place.
- **Residue number system** (`src/rns.rs`): `FastRns` precomputes the
  Chinese Remainder tables. It converts to and from residues and adds and
  multiplies residue by residue.
- **Homomorphic operators**:
  - BFV addition and the simplified BFV tensor product (`src/fhe/bfv.rs`);
  - the CKKS polynomial rotation (`src/fhe/ckks.rs`).

## How the code is modelled

- **One module per source file.** Two further modules hold the mathematics
  the proofs rest on:
  - `NumberTheory`: Euclidean division, powers, gcd and Bezout, primes,
    Fermat's little theorem and the uniqueness half of the Chinese Remainder
    Theorem;
  - `Bits`: powers of two, `trailing_zeros` and bit reversal.
- **Integers.** Values are `nat`. Each `u64`, `u128` and `i64` bound is
  stated explicitly (`U64`, `U128`, `I64`). Each wrapping operation is
  written with `% U64` or `% U128`. Rust's truncating `%` on `isize` is
  modelled by `Ckks.TruncRem`.
- **Panics.** Where the source would panic, the model has a `requires`:
  - an index out of range;
  - an overflow in debug arithmetic;
  - a division by zero;
  - an underflowing `modulus - 1`.
  Where an overflow depends on the data too intricately to state, the
  `requires` is a sufficient bound, and "## Left out" says so (the `2^32`
  modulus bound of the `fhe-ntt` context).
- **Errors** the source returns become `Outcome.Err`.
- **In-place loops are methods over arrays.** This covers
  `bit_reverse`, the transform loops, `intt`'s scaling and reversal,
  `generate_keys`, and the scatter and negation of `rotate_polynomial`. Each
  is proved against a pure specification function on sequences, and the
  source's promises are proved as lemmas about that function.
- **`UltraFheContext` is a class.** Its coefficient vector is an array that
  `generate_keys` and `ntt_ultrafast` overwrite. The fields the constructor
  fixes are `const`, so those two methods leave them unchanged.
- **Transforms are modelled as written.**
  - Nothing requires `root` to be a root of unity.
  - The radix-4 butterflies are taken literally:
    - `src/ntt.rs` multiplies `t3` by the stage root;
    - `src/lib.rs` uses one twiddle triple for a whole stage and a sign-only
      (Walsh-Hadamard) combination.
  - A length that is a power of two but not of four leaves its last factor
    of two without a stage (`NttRadix4.EightRunsOneStage`).
- **Context checks.** `FHEContext::new` (fhe-ntt/src/lib.rs:16-18) stores
  its arguments unchecked, and `ntt` and `intt` report only a size mismatch.
  The crate's test `test_ntt_basic` (fhe-ntt/src/lib.rs:184-198) expects
  `intt(ntt(x)) == x`. The code as written does not deliver that (see
  Findings). The test's own parameters do not either, even with a
  bit-reversal: its modulus `0xFFFFF001` is composite
  (`FheNtt.TestModulusComposite`), and with root 7 the stage root of
  length 8 is not an 8th root of unity modulo it.

## Model

| member | source | states |
|---|---|---|
| Modular.ModAdd | src/modular.rs:5-22 | For modulus 0 the result is `(a + b) mod 2^64` (wrapping add). Otherwise it is `(a + b) mod modulus`. It always fits a `u64`. |
| Modular.ModSub | src/modular.rs:25-42 | For modulus 0 the result is `(a - b) mod 2^64` (wrapping sub). Otherwise it is the non-negative residue of `a - b`. |
| Modular.ModMul | src/modular.rs:45-65 | 0 for the moduli 0 and 1. Otherwise `(a * b) mod modulus`: the shortcuts for residues 0 and 1 agree with the 128-bit product. |
| Modular.ModMulCongruent | src/modular.rs:45-65 | `mod_mul` depends on its second operand only through its residue. |
| Modular.AddCong | src/modular.rs:5-22 | On operands congruent to integers `x` and `y`, `mod_add` gives the residue of `x + y`. |
| Modular.SubCong | src/modular.rs:25-42 | On operands congruent to `x` and `y`, `mod_sub` gives the residue of `x - y`. |
| Modular.MulCong | src/modular.rs:45-65 | On operands congruent to `x` and `y`, `mod_mul` gives the residue of `x * y`. |
| Modular.TwiddleAdvance | src/modular.rs:45-65 | `mod_mul` of a power `base^e` and a power `base^d` is `base^(e+d)` modulo `m`. |
| Modular.ExpModValue | src/modular.rs:68-83 | `mod_pow` returns 0 when the modulus is below 2 or divides the base. Otherwise it returns `base^exp mod m`, including `1 % m` for the exponent 0. |
| Modular.ModPow | src/modular.rs:68-96 | The square-and-multiply loop returns that value, reduced below `m` for `m >= 2`. |
| Modular.PowLoopStep | src/modular.rs:87-93 | One iteration keeps `result * base^exp (mod m)` invariant. |
| Modular.ExpModAdd | src/modular.rs:68-96 | `base^(e1+e2) = mod_mul(base^e1, base^e2)`, for powers as `mod_pow` computes them. |
| Modular.KernelExamples | src/modular.rs:45-96 | `mod_mul(123, 456, 1000) == 88` and `mod_pow(2, 10, 1000) == 24`. |
| Modular.ModInv | src/modular.rs:100-113 | Returns 0 for `m < 2` or `m` dividing `a`, `a mod 2` for `m == 2`, and `mod_pow(a, m - 2, m)` otherwise. The result is below `m` for `m >= 2`. |
| Modular.FermatInverseCorrect | src/modular.rs:100-113 | For a prime `p` not dividing `a`, the result is below `p` and `a * inv ≡ 1 (mod p)`. |
| Modular.FermatInverseExample | src/modular.rs:100-113 | `mod_inv(3, 17) == 6`. |
| Modular.ModInvExtended | src/modular.rs:116-147 | 0 for modulus 0 or `gcd(m, a) != 1`. Otherwise `a * inv ≡ 1 (mod m)`, with `inv <= m`, and `inv < m` for `m >= 2`. |
| Modular.EuclidStep | src/modular.rs:126-136 | One step of the `i64` Euclid loop keeps three facts: the Bezout identity `r = s*m + t*a`, opposite signs of `t` and `newt`, and `abs(t)*newr + abs(newt)*r = m`. So `t` stays within `[-m, m]`. |
| Modular.ExtendedResult | src/modular.rs:138-146 | From the loop's final Bezout pair, the sign-adjusted `t` lies in `[0, m]` and inverts `a` modulo `m`. |
| Bits.BitRevBound | src/ntt.rs:55 | Reversing the low `k` bits of an index gives a value below `2^k`. |
| Bits.BitRevInvolution | src/ntt.rs:50-60 | Reversing the low `k` bits twice gives the index back. |
| Bits.BitRevPermutation | src/ntt.rs:50-60 | On `[0, 2^k)`, bit reversal stays in range and is its own inverse, so it is a permutation. |
| Bits.ReverseBitsShift | src/ntt.rs:55 | `i.reverse_bits() >> (64 - k)` is the reversal of the low `k` bits. |
| Bits.LogBelowWord | src/ntt.rs:52 | For a power of two below `2^64`, `trailing_zeros` is its base-2 logarithm, and that is below 64. |
| Bits.BitReversedAt | src/ntt.rs:50-60 | Entry `x` of the bit-reversal permutation of `s` is `s[rev(x)]`. |
| Bits.BitReversedTwice | src/ntt.rs:50-60 | The bit-reversal permutation is its own inverse. |
| NttRadix4.BitReverse | src/ntt.rs:50-60 | `bit_reverse` leaves the bit-reversal permutation of the old slice, with the same multiset of entries. |
| NttRadix4.PartlyReversedStep | src/ntt.rs:54-59 | After iteration `i`, exactly the pairs `{x, rev(x)}` with a member at or below `i` are exchanged, and the multiset is kept. |
| NttRadix4.Swap | src/ntt.rs:57 | Exchanges entries `i` and `j` and nothing else. |
| NttRadix4.SwapMultiset | src/ntt.rs:57 | An exchange keeps the multiset of entries. |
| NttRadix4.PartlyReversedEnd | src/ntt.rs:54-59 | Once every index has been visited, the pairs swapped so far make the whole bit-reversal permutation. |
| NttRadix4.Butterfly4 | src/ntt.rs:28-37 | The four outputs of the kernel butterfly are reduced below `m`. |
| NttRadix4.ButterflyOutMod | src/ntt.rs:28-37 | The butterfly's outputs are `x0+x2 ± (x1+x3)` and `x0-x2 ± wlen*(x1-x3)`, each modulo `m`. |
| NttRadix4.ButterflyKernel | src/ntt.rs:22-37 | The kernel butterfly on `a0` and `mod_mul(a_g, w_g)` equals that exact butterfly on `a0, a1*w1, a2*w2, a3*w3`, reduced. |
| NttRadix4.ButterflyCong | src/ntt.rs:22-37 | The butterfly depends on its twiddled inputs only through their residues. |
| NttRadix4.PowersAt | src/ntt.rs:16-18 | Entry `e` of a stage's twiddle table is `wlen^e mod m`. |
| NttRadix4.TableStep | src/ntt.rs:40-42 | `mod_mul` of the table entries `e` and `d` is congruent to table entry `e + d`. |
| NttRadix4.StageTwiddles | src/ntt.rs:11-18 | The starting accumulators are the table's entries 0 to 3: 1, `wlen`, `wlen2 = wlen^2` and `wlen3 = wlen^3`. |
| NttRadix4.AccumulatorsStep | src/ntt.rs:40-42 | After column `j`, `w1`, `w2` and `w3` are congruent to `wlen^(j+1)`, `wlen^(2(j+1))` and `wlen^(3(j+1))`. |
| NttRadix4.StageExponentDiv | src/ntt.rs:11 | The exponent of the stage root is `(m - 1) / len`. |
| NttRadix4.Block4At | src/ntt.rs:15-43 | Entry `o` of a block after its butterflies is the output of its column's butterfly. |
| NttRadix4.Column4 | src/ntt.rs:20-37 | Column `j` writes the exact butterfly of `t[j]`, `t[j+q]*w^j`, `t[j+2q]*w^2j` and `t[j+3q]*w^3j` to its four positions. |
| NttRadix4.ColumnEntry | src/ntt.rs:20-37 | Each entry of a transformed block is the matching output of its column's exact butterfly. |
| NttRadix4.Stage4Snoc | src/ntt.rs:15-44 | A stage over a prefix and one more block is the stage over the prefix followed by that block's butterflies. |
| NttRadix4.EightRunsOneStage | src/ntt.rs:8-46 | For 8 entries only the stage of length 4 runs, after the bit-reversal. No stage combines the two halves. |
| NttRadix4.NttForwardRadix4 | src/ntt.rs:1-47 | The slice becomes the stages of length 4, 16, … ≤ n applied to its bit-reversal permutation. Each stage uses root `root^((m-1)/len)`. |
| NttRadix4.Radix4Reduced | src/ntt.rs:1-47 | For a power-of-two length of at least 4, every entry the transform leaves is below `m`. |
| NttRadix4.StagesBelow | src/ntt.rs:8-46 | The stages from any length `len <= n` on leave every entry reduced, because each stage covers whole blocks. |
| NttRadix4.Stage4Below | src/ntt.rs:15-44 | A stage over a slice of whole blocks leaves every entry below `m`. |
| NttRadix4.RunStages | src/ntt.rs:8-46 | The stage loop leaves the stages from length 4 on, applied to the input. |
| NttRadix4.Stage | src/ntt.rs:9-45 | One pass of the stage loop turns "the stages from `len` on" into "the stages from `4·len` on". |
| NttRadix4.StagesStep | src/ntt.rs:9-45 | The stage of length `len` followed by the stages from `4·len` is the stages from `len`. |
| NttRadix4.RunStage4 | src/ntt.rs:15-44 | The block loop performs the stage: every block of `len` entries gets its butterflies. |
| NttRadix4.StageStep | src/ntt.rs:15-44 | Transforming block `i` extends the transformed prefix and leaves the rest of the slice as it was. |
| NttRadix4.RunBlock | src/ntt.rs:15-43 | One block gets its butterflies; entries outside the block are unchanged. |
| NttRadix4.BlockColumn | src/ntt.rs:20-42 | One column step finishes column `j` and keeps the twiddle accumulators in step. |
| NttRadix4.ColumnStep | src/ntt.rs:20-42 | The column's butterfly makes block progress `j + 1` out of `j`. |
| NttRadix4.Butterfly | src/ntt.rs:22-37 | Writes the four butterfly outputs at `c`, `c+q`, `c+2q` and `c+3q` and changes nothing else. |
| FheNtt.ContextPow | fhe-ntt/src/lib.rs:84-97 | The context's `mod_pow` returns 1 for the exponent 0. Otherwise the result is below `m`. |
| FheNtt.ContextPowAgrees | fhe-ntt/src/lib.rs:84-97 | For a positive exponent it is `base^exp mod m`. It equals the library's `mod_pow` whenever `m` does not divide the base. |
| FheNtt.ModPowContext | fhe-ntt/src/lib.rs:84-97 | The square-and-multiply loop computes that value for moduli up to `2^32`, and for every `u64` modulus when the base is 0 or 1 modulo it. |
| FheNtt.ModInvContext | fhe-ntt/src/lib.rs:100-102 | `mod_inv(a)` is `a^(m-2)` by the context's `mod_pow`. |
| FheNtt.ContextInverse | fhe-ntt/src/lib.rs:100-102 | For a prime `p` not dividing `a`, `a * mod_inv(a) ≡ 1 (mod p)`. |
| FheNtt.Block2Of | fhe-ntt/src/lib.rs:34-42 | Entry `j` of a block after its butterflies is `u + v*wlen^j`, and entry `j + len/2` is `u - v*wlen^j`, both modulo `m`. |
| FheNtt.Stage2Snoc | fhe-ntt/src/lib.rs:32-43 | A stage over a prefix and one more block is the stage over the prefix followed by that block's butterflies. |
| FheNtt.StageRoot2 | fhe-ntt/src/lib.rs:30 | The stage root `mod_pow(root, (m-1)/len)` is 1 or reduced. |
| FheNtt.NttReduced | fhe-ntt/src/lib.rs:21-48 | Every entry of a transformed slice of length at least 2 is below `m`. |
| FheNtt.StagesReduced | fhe-ntt/src/lib.rs:28-45 | Every entry after the stages from `len` on is reduced below `m`. |
| FheNtt.StagesTwo | fhe-ntt/src/lib.rs:21-48 | Two entries transform to `[s0 + s1, s0 - s1] mod m`. |
| FheNtt.NttFour | fhe-ntt/src/lib.rs:21-48 | Four entries, taken in natural order, transform to the exact four-point network with the stage root `w` of length 4, reduced. |
| FheNtt.FourNetwork | fhe-ntt/src/lib.rs:28-45 | The stages of length 2 and 4 together compute that network. |
| FheNtt.RevTail | fhe-ntt/src/lib.rs:58 | `data[1..].reverse()` keeps entry 0 and puts `s[n - x]` at position `x`. |
| FheNtt.RevTailInvolution | fhe-ntt/src/lib.rs:58 | Reversing the tail twice restores the slice. |
| FheNtt.RevTailPermutes | fhe-ntt/src/lib.rs:58 | Reversing the tail keeps the multiset of entries. |
| FheNtt.RoundTripTwo | fhe-ntt/src/lib.rs:21-65 | For two entries and an odd prime modulus, `intt(ntt(s))` is `s` reduced. |
| FheNtt.InttNttCounterexample | fhe-ntt/src/lib.rs:21-65 | As written, with modulus 5 and root 2 (whose stage root of length 4 is 2, a square root of -1): `ntt([1,2,3,4]) = [0,2,1,1]` and `intt` of that is `[1,2,0,2]`. The corrected pair returns `[1,2,3,4]`. |
| FheNtt.SeventeenCounterexample | fhe-ntt/src/lib.rs:21-65 | As written, with modulus 17 and root 9 (order 8): `ntt([1,2,3,4]) = [10,0,13,15]` and `intt` of that is `[1,2,4,3]`. |
| FheNtt.TestModulusComposite | fhe-ntt/src/lib.rs:185-186 | The modulus `0xFFFFF001` of `test_ntt_basic`, commented as prime, is `107 * 40139843` and so not prime. |
| FheNtt.OddWordAccepted | fhe-ntt/src/lib.rs:33-39 | Only the first entry of each pair in the stage of length 2 gets the modulus added: `ntt` accepts `[0, 2^64 - 1]` modulo 5 and returns `[0, 0]`. |
| FheNtt.OneEntryInverse | fhe-ntt/src/lib.rs:51-65 | For a one-entry slice and any modulus from 2 on, `intt` leaves the entry reduced: `mod_inv(1)` is 1. |
| FheNtt.ExampleForward | fhe-ntt/src/lib.rs:21-48 | As written, modulo 5 with root 2: `ntt([1,2,3,4]) = [0,2,1,1]`, and `ntt([0,2,1,1]) = [4,3,0,3]`. |
| FheNtt.ExampleInverse | fhe-ntt/src/lib.rs:51-65 | As written, modulo 5 with root 2: `intt([0,2,1,1]) = [1,2,0,2]`. |
| FheNtt.ExampleCorrected | fhe-ntt/src/lib.rs:21-65 | With the bit-reversal added, modulo 5 with root 2, `[1,2,3,4]` goes through both transforms and comes back unchanged. |
| FheNtt.CorrectedFour | fhe-ntt/src/lib.rs:21-48 | The corrected forward transform (bit-reversal first) of four entries is the four-point network on `s0, s2, s1, s3`. |
| FheNtt.TwiceCorrectedFour | fhe-ntt/src/lib.rs:21-48 | When `w^2 ≡ -1`, applying it twice gives `4·s` with the tail reversed. |
| FheNtt.InttCorrectedFour | fhe-ntt/src/lib.rs:51-65 | The corrected inverse of four entries is the corrected forward transform, tail-reversed and scaled by `mod_inv(4)`. |
| FheNtt.RoundTripFourCorrected | fhe-ntt/src/lib.rs:21-65 | For an odd prime `m` and `w^2 ≡ -1`, the corrected `intt(ntt(s))` is `s` reduced, for every `s` of length 4. |
| FheNtt.RoundTripFourInvertible | fhe-ntt/src/lib.rs:21-65 | The same round trip for any modulus in which `mod_inv(4)` inverts 4. |
| FheNtt.InverseNetwork | fhe-ntt/src/lib.rs:51-65 | When `w^2 ≡ -1`, the four-point network applied twice (bit-reversed) is 4 times the identity up to tail reversal. |
| FheNtt.QuarterInverse | fhe-ntt/src/lib.rs:55 | For an odd prime `m`, `n_inv = mod_inv(4)` satisfies `4 * n_inv ≡ 1`. |
| FheNtt.FourInvertible | fhe-ntt/src/lib.rs:55 | An odd prime does not divide 4. |
| FheNtt.Ntt | fhe-ntt/src/lib.rs:21-48 | A length other than the context's size returns `Err` and leaves the data unchanged. Otherwise `ntt` returns `Ok` and the data is the transform of the old data. |
| FheNtt.RunStages2 | fhe-ntt/src/lib.rs:28-45 | The stage loop leaves the stages of length 2, 4, …, n applied to the input. |
| FheNtt.RunStage2 | fhe-ntt/src/lib.rs:32-43 | The block loop performs one stage and leaves every entry reduced. |
| FheNtt.Stage2Step | fhe-ntt/src/lib.rs:32-43 | Transforming block `i` extends the transformed prefix. |
| FheNtt.ReducedPrefix | fhe-ntt/src/lib.rs:32-43 | After block `i` every entry before `i + len` is reduced. |
| FheNtt.RunBlock2 | fhe-ntt/src/lib.rs:33-42 | One block gets its butterflies; entries outside the block are unchanged. |
| FheNtt.BlockColumn2 | fhe-ntt/src/lib.rs:34-42 | One iteration of the `j` loop finishes column `j`. |
| FheNtt.Column2Step | fhe-ntt/src/lib.rs:34-42 | The butterfly on column `j` makes block progress `j + 1` out of `j`. |
| FheNtt.Butterfly2 | fhe-ntt/src/lib.rs:35-39 | Writes `(u + v) % m` and `(u + m - v) % m` at the two positions and changes nothing else. |
| FheNtt.ButterflyMod | fhe-ntt/src/lib.rs:36-39 | `(u + v) % m` and `(u + m - v) % m`, with `v = p % m`, are the residues of `u + p` and `u - p`. |
| FheNtt.ButterflyBounds | fhe-ntt/src/lib.rs:35-39 | Neither `u + m` nor `data[…] * w` overflows a `u64`. |
| FheNtt.TwiddleStep | fhe-ntt/src/lib.rs:41 | `w * wlen % m` is the twiddle of the next column, `wlen^(j+1) mod m`. |
| FheNtt.TwiddleCong | fhe-ntt/src/lib.rs:36-39 | The reduced twiddle gives the same outputs as `wlen^j`. |
| FheNtt.Intt | fhe-ntt/src/lib.rs:51-65 | A size mismatch returns `Err` with the data unchanged. Otherwise `intt` returns `Ok` with the transform, tail-reversed and scaled by `mod_inv(size)`. A one-entry slice is accepted with any `u64` modulus from 2 on. |
| FheNtt.ReverseTail | fhe-ntt/src/lib.rs:58 | `data[1..].reverse()` in place. |
| FheNtt.ScaleAll | fhe-ntt/src/lib.rs:60-62 | Every entry becomes `val * n_inv % m`. |
| FheNtt.ScaleEntry | fhe-ntt/src/lib.rs:55-62 | `val * n_inv` does not overflow a `u64`. |
| UltraFhe.BitRevTablePermutation | src/lib.rs:151-159 | Every table entry is below `n`, and the table composed with itself is the identity, so it is a permutation. |
| UltraFhe.PrecomputeBitrev | src/lib.rs:151-159 | Entry `i` of the table is `i` with its low `log2 n` bits reversed. |
| UltraFhe.ShiftedReversal | src/lib.rs:156 | `i.reverse_bits() >> (usize::BITS - log_n)` is the `log_n`-bit reversal of `i`. |
| UltraFhe.WideMulMod | src/lib.rs:178-180 | The reduced `u128` product is below `m` and equals the library's `mod_mul`. |
| UltraFhe.WideMulModAgrees | src/lib.rs:143-145 | `(a * b mod 2^128) mod m` equals `mod_mul(a, b, m)` and `(a * b) mod m`; the `u128` product never wraps. |
| UltraFhe.TwiddlePow | src/lib.rs:165-176 | The nested `mod_pow` returns `base^exp mod m`, or 1 for the exponent 0, as the fhe-ntt context's does. |
| UltraFhe.StageTriple | src/lib.rs:184-189 | The triple pushed for a stage has `w2` and `w3` reduced and `w` in `u64`. |
| UltraFhe.StageTriplePowers | src/lib.rs:182-189 | `w ≡ 7^((m-1)/len)`, `w2 = w^2 mod m` and `w3 = w^3 mod m`. |
| UltraFhe.StageRootValue | src/lib.rs:184-185 | The stage root is `7^((m-1)/len)` modulo `m`. |
| UltraFhe.PowersOf | src/lib.rs:186-187 | `mod_mul(w, w)` is `w^2` and `mod_mul(w2, w)` is `w^3`, modulo `m`. |
| UltraFhe.TwiddlesCount | src/lib.rs:182-191 | The table has an entry `k` exactly when the stage length `4·4^k` is at most `n`. |
| UltraFhe.TwiddlesAt | src/lib.rs:182-191 | Entry `k` is the triple for the stage of length `4·4^k`. |
| UltraFhe.PrecomputeTwiddles | src/lib.rs:161-194 | The loop pushes one triple per stage length 4, 16, … ≤ n, in order. |
| UltraFhe.TwiddlesUnfold | src/lib.rs:182-191 | The table from `len` on is the triple of `len` followed by the table from `4·len`. |
| UltraFhe.LcgNext | src/lib.rs:78-79 | The next generator state fits a `u128`. |
| UltraFhe.WrappingStep | src/lib.rs:78-79 | `wrapping_mul` followed by `wrapping_add` is the affine step modulo `2^128`. |
| UltraFhe.Keys | src/lib.rs:77-81 | `generate_keys` writes `k` coefficients, each reduced below `m`. |
| UltraFhe.KeysAt | src/lib.rs:77-81 | Coefficient `x` is the generator state after `x + 1` steps from `0xDEADBEEFCAFEBABE`, modulo `m`. |
| UltraFhe.KeysPrefix | src/lib.rs:77-81 | The keys of a shorter vector are a prefix of the keys of a longer one. |
| UltraFhe.UltraBlock | src/lib.rs:106-127 | A block after its butterflies has every entry below `m`. |
| UltraFhe.UltraBlockEntry | src/lib.rs:106-127 | Entry `o` of a block after its butterflies is its column's butterfly output. |
| UltraFhe.UltraKernel | src/lib.rs:118-126 | The modular butterfly `t0..t3` computes the Walsh-Hadamard combination of `u0`, `u1`, `u2`, `u3`, modulo `m`. |
| UltraFhe.UltraColumnOut | src/lib.rs:107-126 | Column `j` writes the Hadamard combination of `t[j]`, `t[j+q]*w`, `t[j+2q]*w2` and `t[j+3q]*w3`. |
| UltraFhe.UltraColumnEntry | src/lib.rs:107-126 | Each entry of a transformed block is the matching output of its column. |
| UltraFhe.UltraStageSnoc | src/lib.rs:105-128 | A stage over a prefix and one more block is the stage over the prefix followed by that block. |
| UltraFhe.UltraZeros | src/lib.rs:86-133 | The transform maps the zero vector to the zero vector. |
| UltraFhe.UltraFheContext.NewOptimized | src/lib.rs:52-72 | Requires a power-of-two size ≥ 4, and gives a valid context: zero coefficients, modulus 180143985094819841, and the bit-reversal and twiddle tables of that size. |
| UltraFhe.UltraFheContext.MulMod | src/lib.rs:143-145 | `mul_mod` is below the modulus and equals `mod_mul`. |
| UltraFhe.UltraFheContext.GetCoeff | src/lib.rs:135-141 | The coefficient at `index` when `index < size`, and 0 otherwise. |
| UltraFhe.UltraFheContext.GenerateKeys | src/lib.rs:74-84 | The coefficients become the generator's keys, the context stays valid, and the result is `size * 8`. |
| UltraFhe.UltraFheContext.NttUltrafast | src/lib.rs:86-133 | The coefficients become the radix-4 transform, as written, of the old coefficients. The context stays valid and every coefficient stays reduced. |
| UltraFhe.TableBitReverse | src/lib.rs:91-96 | The swap loop driven by the table leaves the bit-reversal permutation. |
| UltraFhe.BitReversedBelow | src/lib.rs:91-96 | Permuting reduced coefficients leaves them reduced. |
| UltraFhe.RunUltraStages | src/lib.rs:99-132 | The stage loop applies the stages from length 4 on and keeps the coefficients reduced. |
| UltraFhe.TwiddleTableStep | src/lib.rs:102-103 | Whenever `len <= n`, `twiddles[stage]` is in bounds and is the triple for `len`. The rest of the table serves the longer stages. |
| UltraFhe.UltraStagesStep | src/lib.rs:102-132 | The stage of length `len` followed by the stages from `4·len` is the stages from `len`. |
| UltraFhe.RunUltraStage | src/lib.rs:105-128 | The block loop performs one stage and keeps the coefficients reduced. |
| UltraFhe.UltraStageStep | src/lib.rs:105-128 | Transforming block `i` extends the transformed prefix. |
| UltraFhe.RunUltraBlock | src/lib.rs:106-127 | One block gets its butterflies; entries outside the block are unchanged. |
| UltraFhe.UltraColumn | src/lib.rs:107-126 | One iteration of the `j` loop finishes column `j`. |
| UltraFhe.UltraColumnStep | src/lib.rs:107-126 | The column's butterfly makes block progress `j + 1` out of `j`. |
| UltraFhe.UltraButterfly | src/lib.rs:112-126 | Writes the four outputs at `idx0..idx3` and changes nothing else. |
| Rns.TablesAt | src/rns.rs:20-28 | Entry `i` of the tables is `M / m_i`, and the inverse is `mod_inv((M / m_i) mod m_i, m_i)`. |
| Rns.TablesStep | src/rns.rs:20-28 | Each loop iteration pushes one entry onto both tables. |
| Rns.New | src/rns.rs:13-36 | `new` keeps the moduli, and computes `M` and both tables. |
| Rns.ProdDivExact | src/rns.rs:22 | `M / m_i` is exact: it is the product of the other moduli, and times `m_i` it gives `M`. |
| Rns.InverseBound | src/rns.rs:26 | Every stored inverse is below its modulus. |
| Rns.CrtBasis | src/rns.rs:22-27 | For distinct primes, `(M / m_i) * inv_i` is 1 modulo `m_i` and 0 modulo every other modulus. |
| Rns.ToRnsSingle | src/rns.rs:62-66 | One residue per modulus, each below its modulus. |
| Rns.ToRnsBatch | src/rns.rs:55-59 | One residue vector per number, each as long as the base. |
| Rns.FromRnsFast | src/rns.rs:39-52 | The loop returns the wrapping `u128` accumulation reduced modulo `M`, which is below `M`. |
| Rns.AccumulateExact | src/rns.rs:43-49 | For `M < 2^64` and reduced residues, no step wraps. The accumulator is the Chinese Remainder sum modulo `M`. |
| Rns.TermNoWrap | src/rns.rs:44-46 | Under the same bounds, each term is below `M^2`, and the `u128` multiplications do not wrap. |
| Rns.CrtSumCongruent | src/rns.rs:43-51 | The CRT sum is congruent, modulo `m_j`, to its `j`-th term alone. |
| Rns.TermCongruent | src/rns.rs:44-46 | The `j`-th term of `to_rns_single(x)` is congruent to `x` modulo `m_j`. |
| Rns.CrtRoundTrip | src/rns.rs:39-66 | For distinct prime moduli with `M < 2^64`, `from_rns_fast(to_rns_single(x)) == x mod M`. |
| Rns.BatchRoundTrip | src/rns.rs:39-59 | The same for every entry of `to_rns_batch`. |
| Rns.ExampleQuotients | src/rns.rs:14-23 | Base `[3, 5, 7]`: `M = 105` and `m_prod_div = [35, 21, 15]`. |
| Rns.ExampleInverses | src/rns.rs:26-27 | Base `[3, 5, 7]`: `inv_prod_div = [2, 1, 1]`. |
| Rns.ExampleSums | src/rns.rs:39-52 | `from_rns_fast([1, 2, 3]) == 52`. |
| Rns.CrtExample | src/rns.rs:13-66 | Base `[3, 5, 7]`: 52 becomes `[1, 2, 3]`, which reconstructs to 52. |
| Rns.SlotLengths | src/rns.rs:69-87 | Both operators are as long as the shortest of `a`, `b` and the moduli (the `zip`). |
| Rns.RnsAdd | src/rns.rs:69-77 | `rns_add_fast` is as long as the shortest of `a`, `b` and the moduli, and slot `i` is `AddSlot(a_i, b_i, m_i)`. |
| Rns.AddSlot | src/rns.rs:73-74 | The slot is the wrapping sum, or the wrapping sum less `m`. It fits a `u64`, and it is reduced whenever the wrapping sum is below `2m`. |
| Rns.RnsMul | src/rns.rs:80-87 | `rns_mul_fast` is as long as the shortest of `a`, `b` and the moduli, and every slot is below its modulus. |
| Rns.AddSlotMod | src/rns.rs:73-74 | For reduced inputs and a modulus ≤ `2^63`, the slot is `(a + b) mod m`. |
| Rns.RnsAddHomomorphic | src/rns.rs:69-77 | For moduli ≤ `2^63`, `rns_add_fast(to_rns(x), to_rns(y)) == to_rns(x + y)`. |
| Rns.RnsAddWraps | src/rns.rs:73-74 | As written: modulus `2^64-1` with both residues `2^64-2` gives `2^64-4`. The residue of the sum is `2^64-3`, which the corrected slot returns. |
| Rns.AddSlotWide | src/rns.rs:73-74 | The corrected slot is the sum, or the sum less `m`, and it is reduced whenever the sum is below `2m`. |
| Rns.RnsAddCorrected | src/rns.rs:69-77 | The corrected addition has the length of the zip, and slot `i` is the corrected slot of `a_i`, `b_i` and `m_i`. |
| Rns.AddSlotWideMod | src/rns.rs:73-74 | The corrected slot (sum without wrap, one subtraction) is `(a + b) mod m` for every modulus. |
| Rns.RnsAddCorrectedHomomorphic | src/rns.rs:69-77 | With the corrected slot, addition is homomorphic for every base. |
| Rns.RnsMulHomomorphic | src/rns.rs:80-87 | `rns_mul_fast(to_rns(x), to_rns(y)) == to_rns(x * y)`. |
| Rns.RnsMulSlot | src/rns.rs:80-87 | Each slot is reduced, equals `mod_mul` for moduli ≥ 2, and is symmetric in `a` and `b`. |
| Bfv.SumPoly | src/fhe/bfv.rs:88-91 | The first `n` coefficient-wise `mod_add`s, each fitting a `u64`. |
| Bfv.HomomorphicAdd | src/fhe/bfv.rs:79-94 | Both result vectors have length `n`, and coefficient `i` is `mod_add` of the operands' coefficients `i`. |
| Bfv.Phase | src/fhe/bfv.rs:57-59 | The decryption phase `c1 - c0*s` of a coefficient is reduced below `q`. |
| Bfv.AddPhase | src/fhe/bfv.rs:57-59 | The phase of a sum is the sum of the phases modulo `q`. |
| Bfv.AddCommutes | src/fhe/bfv.rs:79-94 | Addition is commutative. |
| Bfv.AddZero | src/fhe/bfv.rs:79-94 | Adding the zero ciphertext on either side gives the first `n` coefficients reduced (unchanged for `q = 0`). |
| Bfv.AddExample | src/fhe/bfv.rs:79-94 | Modulo 11: `([1,2],[3,4]) + ([5,6],[7,8]) = ([6,8],[10,1])`. |
| Bfv.DeltaInverse | src/fhe/bfv.rs:104 | `mod_inv(q / t, q)` fits a `u64`. |
| Bfv.HomomorphicMulSimple | src/fhe/bfv.rs:97-123 | The three result vectors are `d0 = x0*y0*Δ⁻¹`, `d1 = (x0*y1 + x1*y0)*Δ⁻¹` and `d2 = x1*y1*Δ⁻¹`, computed with the kernel. |
| Bfv.MulCommutes | src/fhe/bfv.rs:97-123 | The tensor product is symmetric in its operands. |
| Bfv.MulDegenerate | src/fhe/bfv.rs:104-119 | Whenever `mod_inv(q / t, q)` returns 0, every coefficient of all three components of the product is 0. |
| Bfv.DegenerateDelta | src/fhe/bfv.rs:104 | `mod_inv(q / t, q)` is 0 for the moduli 0 and 1, for `t == 1` (`Δ = q`) and for `t > q` (`Δ = 0`). |
| Bfv.DegenerateComposite | src/fhe/bfv.rs:104 | For the composite modulus `q = 4` with `t = 2`, `Δ = 2` and `mod_inv(2, 4) = 0`, so the product vanishes there too. |
| Bfv.MulUnscale | src/fhe/bfv.rs:104-119 | For a prime `q` and `1 < t <= q`, multiplying each component by `Δ` recovers the exact products modulo `q`. |
| Bfv.MulPhase | src/fhe/bfv.rs:57-59 | The relinearisation-free phase `d2 - d1*s + d0*s^2` of the product is `Δ⁻¹` times the product of the operands' phases, modulo `q`. |
| Ckks.TruncRem | src/fhe/ckks.rs:35 | Rust's `%` on `isize`: the remainder is below `n` in absolute value and has the dividend's sign. |
| Ckks.TruncRemShift | src/fhe/ckks.rs:35 | `(steps % n + n) % n` is the Euclidean residue of `steps`. |
| Ckks.NormalShift | src/fhe/ckks.rs:35 | The normalised shift lies in `[0, n)` and is congruent to `steps`. |
| Ckks.Target | src/fhe/ckks.rs:41 | Coefficient `i` goes to `(i + s) mod n`. |
| Ckks.Source | src/fhe/ckks.rs:39-43 | Every position has exactly the source `i` that the scatter moves there, so the scatter is a bijection. |
| Ckks.RotatePolynomial | src/fhe/ckks.rs:33-55 | The result is the rotation of `poly` by `steps`. |
| Ckks.Scatter | src/fhe/ckks.rs:37-43 | The scatter loop over a zeroed vector leaves `poly` shifted by `s`. |
| Ckks.ScatterStep | src/fhe/ckks.rs:41-42 | One iteration writes the next coefficient to its target. |
| Ckks.ScatteredEnd | src/fhe/ckks.rs:39-43 | After `n` iterations every position holds its source. |
| Ckks.NegateOddInPlace | src/fhe/ckks.rs:47-51 | The loop negates, with `mod_sub(0, x)`, every odd position and leaves the even ones. |
| Ckks.NegatedStep | src/fhe/ckks.rs:48-50 | One iteration negates position `i` when it is odd. |
| Ckks.NegatedEnd | src/fhe/ckks.rs:47-51 | After `n` iterations every odd position is negated. |
| Ckks.RotationEntry | src/fhe/ckks.rs:33-55 | Output `j` is `poly[source(j)]`, negated exactly when the shift and `j` are both odd. |
| Ckks.RotationAt | src/fhe/ckks.rs:33-55 | For an even shift, `rotated[(i + s) mod n] == poly[i]`. Otherwise that entry is negated at odd targets. |
| Ckks.RotationPeriodic | src/fhe/ckks.rs:35 | Rotating by `steps + k*n` is rotating by `steps`. |
| Ckks.RotationIdentity | src/fhe/ckks.rs:33-55 | A shift that is a multiple of `n` returns the input. |
| Ckks.NegationReduced | src/fhe/ckks.rs:46-52 | A negated entry is reduced and adds up with the original coefficient to 0 modulo `m`. |
| Ckks.NegationInverse | src/fhe/ckks.rs:49 | `mod_sub(0, x, m)` is the additive inverse of `x` modulo `m`. |

## Left out

- I/O, timing and bindings are not modelled: the benchmark wrappers (`FHEContext::benchmark`, `ntt_1024`, `ntt_4096_ultrafast` and the other benchmark functions of `src/lib.rs`), the `wasm_bindgen` and `web_sys` bindings, and console logging.
- The placeholder SIMD module of `fhe-ntt` is left out; it only names the scalar transform.
- `encrypt_decrypt_cycle` (src/fhe/bfv.rs:8-76), a deterministic encryption simulation, is not modelled. Only its decryption phase `c1 - c0*s` is, as `Bfv.Phase`.
- `encode_real`, `decode_real` and `rescaling` (src/fhe/ckks.rs:7-30) compute in `f64` and are not modelled.
- The remaining context files (`src/main.rs`, `src/spiel.rs`, `src/fhe/mod.rs`, `sro/lib.rs`, `edit/…`) are not part of this model.
- `FHEContext::new` is the datatype constructor `FheNtt.FheContext`, since it only stores its arguments.
- Transform linearity and the convolution theorem are not proved. The code makes no such promise, and its transforms are not Fourier transforms for every root (see Findings).
- FheNtt.RoundTripTwo, FheNtt.RoundTripFourCorrected: the round trip is proved for lengths 2 and 4 only, not for every power-of-two length.
- FheNtt.Ntt: requires a power-of-two length below `2^63`, `data[i] + modulus < 2^64` at even `i`, and a modulus from 1 to `2^32`. The first two are exactly what the source needs: at `2^63`, `len <<= 1` wraps to 0 and the next stage root divides by zero, and only the first entry of each pair in the stage of length 2 has the modulus added to it unreduced. The modulus bound is sufficient, not necessary: above `2^32` the products of `mod_pow` and `data[…] * w` can overflow, and the roots and data for which they happen not to are left out.
- FheNtt.Intt: additionally requires a non-empty slice (`data[1..]` panics on an empty one) and a modulus of at least 2 (`modulus - 2` underflows). A one-entry slice needs nothing more: `mod_inv(1)` and `val * 1` cannot overflow, so any `u64` modulus from 2 on is accepted.
- FheNtt.ModPowContext, FheNtt.ModInvContext: require a modulus of at most `2^32`, or a base of 0 or 1 modulo it. Above `2^32`, `result * base` and `base * base` can overflow for other bases, and the bases and exponents for which they happen not to are left out.
- Modular.ModInvExtended: requires `a` and the modulus below `2^63`, because their `as i64` casts turn larger values negative. That path is not modelled.
- NttRadix4.BitReverse: requires a length of at least 2. For length 1, `usize::BITS - 0` shifts by 64, which panics.
- NttRadix4.NttForwardRadix4: requires entries and root below `2^64` and a modulus of at least 1, as the kernel's `u64` inputs and `modulus - 1` demand. It also requires a length below `2^62`: for longer slices `len <<= 2` wraps the stage length `2^62` to 0 in `usize`, and `(modulus - 1) / len` then divides by zero.
- UltraFhe.UltraFheContext.NewOptimized: sizes are bounded by `2^60` (`MaxSize`), below which a `Vec<u64>` of that size can exist and `len <<= 2` cannot wrap.
- UltraFhe.PrecomputeTwiddles: requires `4 * n < 2^64` so that `len <<= 2` does not wrap.
- Ckks.RotatePolynomial: requires a non-empty polynomial (`% n` by 0 panics) shorter than `2^60` words, and a shift within `isize`.
- Rns.RnsAddHomomorphic: holds only for moduli ≤ `2^63`. Above that the wrapping add breaks it (see Findings). The corrected addition holds for every modulus.
- Rns.CrtRoundTrip: requires distinct prime moduli with product below `2^64`, which keeps the `u128` products from wrapping. Without that bound the source's wrapping terms are modelled but not proved to reconstruct `x`.
- `to_rns_single` takes a `u64` in the source. The model takes any natural number, which the homomorphism lemmas use for `x + y` and `x * y`.
- The bit-reversal `Swap` and the vector writes are modelled on `array<nat>`. `Vec` reallocation and aliasing between the two ciphertext operands are not modelled (operands are passed by value).

## Findings

| source | as written | input that shows it | evidently intended | confidence | as-written member | corrected member |
|---|---|---|---|---|---|---|
| fhe-ntt/src/lib.rs:21-65 | `ntt` runs the radix-2 stages on the slice in natural order, with no bit-reversal permutation, and `intt` re-runs it, reverses the tail and scales by `n^-1`. | Modulus 5, root 2 (stage root 2, with `2^2 ≡ -1`), data `[1, 2, 3, 4]`: `ntt` gives `[0, 2, 1, 1]`, and `intt` then gives `[1, 2, 0, 2]`. Also modulus 17, root 9: the result is `[1, 2, 4, 3]` (`FheNtt.SeventeenCounterexample`). | `intt(ntt(x)) == x`, as `test_ntt_basic` (fhe-ntt/src/lib.rs:184-198) asserts. This needs a bit-reversal before the stages and a root whose stage root of length 4 squares to `-1`. | high for the counterexample, which is proved; not executed | FheNtt.InttNttCounterexample | FheNtt.RoundTripFourCorrected |
| fhe-ntt/src/lib.rs:185-186 | `test_ntt_basic` takes `0xFFFFF001` as a prime modulus and 7 as a primitive root, for a transform of size 8. | `0xFFFFF001 = 107 * 40139843`. With `m = 0xFFFFF001` and root 7, the stage root of length 8, `w = 7^((m-1)/8) mod m`, has `w^4 mod m = 964885812` rather than `m - 1`, and `w^8 mod m` is not 1. So `w` is not an 8th root of unity, and the stages cannot be undone even after a bit-reversal. Also, `mod_inv` by Fermat's little theorem has no guarantee for a composite modulus. | A prime modulus where `n` divides `m - 1`, and a root whose stage roots have the full orders; for length 4 the corrected pair then round-trips. | high for the factorisation, which is proved; the powers of the root are not proved; not executed | FheNtt.TestModulusComposite | FheNtt.RoundTripFourCorrected |
| src/rns.rs:73-74 | `ai.wrapping_add(bi)`, then one conditional subtraction of `mi`. | Modulus `2^64 - 1`, residues `a = b = 2^64 - 2`: the sum wraps to `2^64 - 4`, which is below the modulus and is returned. `(a + b) mod m` is `2^64 - 3`. | `(a + b) mod m` for every `u64` modulus, which makes `rns_add_fast` homomorphic. | high, proved on the input; not executed | Rns.RnsAddWraps | Rns.RnsAddCorrectedHomomorphic |
