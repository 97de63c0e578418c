# FEA: a 16-round Feistel block cipher, modelled in Dafny

FEA.py is a 16-round Feistel cipher. It works on 128-bit blocks with a
32-byte key. Its tables are drawn at random when the module is loaded:

- eight S-boxes, each mapping a 16-bit chunk to a byte;
- a fixed expansion table that folds bit i + 64 onto bit i;
- a 128-entry bit permutation;
- sixteen 32-bit round constants.

Key schedule and cipher:

- `subkey_generation` cuts the key into big-endian 32-bit words.
- For each round i, it rotates the first eight key words left by i bits,
  XORs each with round constant i, and packs the eight words into one
  256-bit subkey.
- `round_function` expands the right half, XORs it with the subkey, applies
  the S-boxes to eight 16-bit chunks, and permutes the bits.
- `encrypt_block` splits the block into two masked 64-bit halves and runs
  16 Feistel rounds. It joins the halves with `(left << 64) | right`, with
  no mask.
- `decrypt_block` runs the rounds from 15 down to 0, with the halves
  swapped in every call.

The model has four modules:

- `Bits` (bits.dfy) gives Python's integer operators on unbounded naturals.
  `Shr` is `>>`, `Shl` is `<<`, `Low(x, n)` is `x & (2^n - 1)`, and
  `Or`/`Xor` are `|`/`^`. `Bit` and `Field` read bits of a number.
  `FitsIn(x, n)` means `x >> n == 0`, and `FitsInPow2` proves this is
  x < 2^n. Facts are proved bit by bit and lifted with `BitsDetermine`.
- `FeistelNetwork` (feistel.dfy) is the Feistel network over any round
  function, in both directions. `BackwardUndoesForward` holds whatever the
  round function is.
- `Fea` (fea.dfy) is the cipher itself:
  - The tables are a `Tables` value, and `WellFormed` states the shapes
    the generator gives them.
  - Each loop of the source is a method proved equal to a recursive
    specification function, and the properties are lemmas about those
    functions.
- `FeaFindings` (findings.dfy) shows that the round trip fails as written,
  and gives the corrected cipher with its round trip proved.

Values are unbounded, as in Python. Nothing is truncated except where the
code masks.

## Model

| member | source | states |
|---|---|---|
| Fea.WellFormed | FEA.py:4-15 | the shapes the generator gives the tables: 8 S-boxes of 65536 bytes, 128 permutation positions below 128, 16 round constants below 2^32 |
| Fea.ExpansionTable | FEA.py:9 | the fixed expansion table, position i to i mod 64 for i < 128 |
| Fea.RotateLeft | FEA.py:17-18 | a 32-bit word rotates to a 32-bit word |
| Fea.RotateLeftBit | FEA.py:17-18 | each bit of the result: it is bit k - bits of the word when bits <= k, bit k + 32 - bits otherwise, and clear from bit 32 up |
| Fea.RotateLeftRotates | FEA.py:17-18 | rotating moves bit k of a 32-bit word to bit (k + bits) mod 32 |
| Fea.RotateLeftFull | FEA.py:17-18 | rotating a 32-bit word by 0 or by 32 positions gives the word back |
| Fea.BigEndian | FEA.py:22 | `int.from_bytes(..., 'big')`: each byte shifts the value left by 8 bits |
| Fea.KeyWords | FEA.py:22 | the key gives ceil(len / 4) words |
| Fea.BigEndianBit | FEA.py:22 | bit k of a big-endian number is bit k mod 8 of byte k / 8 counted from the end, and clear past the last byte |
| Fea.BigEndianBound | FEA.py:22 | n bytes read big-endian fit in 8n bits |
| Fea.KeyWordBytes | FEA.py:22 | every key word fits in 32 bits, and byte m of a full slice is the word's byte 3 - m |
| Fea.RoundKey | FEA.py:24-27 | a round key has eight words |
| Fea.RoundKeyWords | FEA.py:24-27 | every round-key word fits in 32 bits |
| Fea.Pack | FEA.py:29-31 | the fold `subkey = (subkey << 32) \| word` over the round-key words |
| Fea.PackBit | FEA.py:29-31 | bit k of the packed value is bit k mod 32 of word k / 32 counted from the end, and clear past the last word |
| Fea.PackWords | FEA.py:29-31 | eight packed 32-bit words fit in 256 bits, and word j, most significant first, reads back unchanged |
| Fea.Schedule | FEA.py:20-33 | there are exactly 16 subkeys |
| Fea.ScheduleWords | FEA.py:20-33 | subkey i is below 2^256, and its word j is key word j rotated left by i and XORed with round constant i |
| Fea.SubkeyGeneration | FEA.py:20-33 | the nested loops produce exactly the schedule |
| Fea.Scatter | FEA.py:42-47 | the first n iterations of `result \|= ((block >> i) & 1) << table[i]`, the loop shared by expand_block and permute_block |
| Fea.ScatterBit | FEA.py:42-47 | output bit j is set exactly when some input position i below n with table[i] == j has its bit set |
| Fea.ScatterLowBits | FEA.py:42-47 | only the input bits below n are read |
| Fea.ScatterBound | FEA.py:42-47 | the result fits in m bits when the table sends every position below m |
| Fea.ScatterBits | FEA.py:36-40 | the 128-iteration loop computes the scatter of all 128 positions |
| Fea.Expanded | FEA.py:35-40 | the scatter of the block's 128 positions through the expansion table |
| Fea.ExpandBlock | FEA.py:35-40 | expand_block computes the expansion of the block |
| Fea.ExpandedBit | FEA.py:35-40 | output bit j is input bit j OR input bit j + 64 for j < 64, and clear from bit 64 up |
| Fea.ExpandedBound | FEA.py:35-40 | the expansion fits in 64 bits |
| Fea.ExpandedIgnoresHighBits | FEA.py:35-40 | input bits from 128 up do not matter |
| Fea.ExpandedIdentityBelow64 | FEA.py:35-40 | a value of at most 64 bits expands to itself |
| Fea.Permuted | FEA.py:42-47 | the scatter of the block's 128 positions through PERMUTATION |
| Fea.PermuteBlock | FEA.py:42-47 | permute_block computes the permutation of the block |
| Fea.PermutedBit | FEA.py:42-47 | output bit j is set exactly when some input bit i < 128 with PERMUTATION[i] == j is set |
| Fea.PermutedBound | FEA.py:42-47 | the result fits in 128 bits, and input bits from 128 up do not matter |
| Fea.PermutedZero | FEA.py:42-47 | the zero block permutes to zero, for any well-formed tables |
| Fea.PermutedBelow64 | FEA.py:42-47 | if the permutation sends positions 0..63 below 64, a 64-bit input gives a 64-bit output |
| Fea.SBoxLookup | FEA.py:52-53 | an S-box lookup on a 16-bit chunk gives a byte |
| Fea.SubstitutedUpTo | FEA.py:49-54 | the first n iterations of the S-box loop: S-box i's byte shifted to byte i, ORed in |
| Fea.Substituted | FEA.py:49-54 | all 8 iterations of the S-box loop |
| Fea.SBoxSubstitution | FEA.py:49-54 | the 8-iteration loop computes the substitution |
| Fea.SubstitutedUpToBit | FEA.py:49-54 | bit k is bit k mod 8 of S-box k / 8's output below 8n, and clear from 8n up |
| Fea.SubstitutedBytes | FEA.py:49-54 | the result fits in 64 bits, and its byte i is S-box i applied to 16-bit chunk i |
| Fea.SubstitutedLowBits | FEA.py:49-54 | inputs that agree on their low 128 bits substitute alike |
| Fea.SubstitutedIgnoresHighBits | FEA.py:49-54 | masking the input to 128 bits does not change the result |
| Fea.RoundFunction | FEA.py:56-61 | the round output fits in 128 bits, and in 64 bits when the permutation keeps positions 0..63 low |
| Fea.RoundFunctionUsesLowSubkeyBits | FEA.py:56-61 | only the low 128 bits of the 256-bit subkey affect the output |
| Fea.FnBounded | FEA.py:56-61 | the round function is bounded by 128 bits, and by 64 bits under a low permutation |
| Fea.ZeroSBoxesBounded | FEA.py:56-61 | with all-zero S-boxes every round output is 0, so the round function fits in 64 bits whatever PERMUTATION is |
| Fea.FeistelRound | FEA.py:63-66 | the new left half is the old right half; 128-bit halves stay within 128 bits, and 64-bit halves within 64 under a low permutation |
| Fea.RoundOutputFits | FEA.py:65 | XORing the round output into a 128-bit left half stays within 128 bits, and a 64-bit one within 64 under a low permutation |
| Fea.FeistelRoundUndo | FEA.py:63-66 | calling the round again on its result with the halves swapped gives back the original halves, swapped |
| Fea.Split | FEA.py:69-70 | a block cut into its masked upper and lower 64-bit halves |
| Fea.Join | FEA.py:76 | the halves joined as `(left << 64) \| right`, not masked |
| Fea.Encrypted | FEA.py:68-77 | the 16 forward rounds on the split block, then the join |
| Fea.Decrypted | FEA.py:79-88 | the decryption steps 15..0 on the split block, then the join |
| Fea.SplitFits | FEA.py:69-70 | both halves of a split block fit in 64 bits |
| Fea.EncryptBlock | FEA.py:68-77 | encrypt_block computes the 16 forward rounds on the split block followed by the unmasked join, and the result fits in 192 bits |
| Fea.DecryptBlock | FEA.py:79-88 | decrypt_block computes the backward steps 15..0 on the split block followed by the unmasked join, and the result fits in 192 bits |
| Fea.JoinBound | FEA.py:76 | joining two halves of w bits gives at most w + 64 bits |
| Fea.SplitJoin | FEA.py:69-76 | two 64-bit halves survive joining and then splitting |
| Fea.JoinSplit | FEA.py:69-76 | a 128-bit block survives splitting and then joining |
| Fea.EncryptedBound | FEA.py:68-77 | a ciphertext fits in 192 bits, and in 128 under a low permutation |
| Fea.DecryptedBound | FEA.py:79-88 | a decrypted block fits in 192 bits, and in 128 under a low permutation |
| Fea.RoundTrip | FEA.py:68-88 | decrypting the encryption gives every 128-bit block back whenever every round output fits in 64 bits; a permutation that keeps positions 0..63 below 64 gives that (`Fea.FnBounded`), and so do all-zero S-boxes (`Fea.ZeroSBoxesBounded`) |
| FeistelNetwork.Round | FEA.py:63-66 | one round for any round function: `(right, left ^ f(right, subkey))` |
| FeistelNetwork.Unround | FEA.py:85 | one decryption step: the round called with the halves swapped and its result assigned back swapped |
| FeistelNetwork.Forward | FEA.py:73-74 | rounds 0..n-1 in increasing order |
| FeistelNetwork.Backward | FEA.py:84-85 | decryption steps n-1 down to 0 |
| FeistelNetwork.RoundSwapUndoes | FEA.py:63-66 | one round applied twice with the halves swapped is undone, for any round function |
| FeistelNetwork.UnroundUndoes | FEA.py:84-85 | one decryption step undoes the encryption round with the same subkey |
| FeistelNetwork.BackwardUndoesForward | FEA.py:73-85 | the decryption steps n-1..0 undo the forward rounds 0..n-1, for any round function |
| FeistelNetwork.ForwardFits | FEA.py:73-74 | if the round function fits in w bits, forward rounds keep w-bit halves within w bits |
| FeistelNetwork.BackwardFits | FEA.py:84-85 | the same for the decryption steps |
| FeaFindings.CounterPermuted | FEA.py:42-47 | on the counterexample tables, permuting 0 or 1 gives 0 or 2^p |
| FeaFindings.CounterSBoxLookup | FEA.py:52-53 | on the counterexample tables, S-box 0 gives bit 0 of its input and the others give 0 |
| FeaFindings.CounterSubstituted | FEA.py:49-54 | on the counterexample tables, substitution keeps only bit 0 |
| FeaFindings.CounterRoundFunction | FEA.py:56-61 | on the counterexample tables, the round output is 2^p exactly when bit 0 or 64 of the right half differs from bit 0 of the subkey, else 0 |
| FeaFindings.BigEndianZeros | FEA.py:22 | zero bytes read big-endian give 0 |
| FeaFindings.ZeroKeyWord | FEA.py:22 | word 7 of the all-zero 32-byte key is 0 |
| FeaFindings.RotateZeroBit | FEA.py:17-18 | bit 0 of a rotated 0 is clear |
| FeaFindings.CounterScheduleBit | FEA.py:20-33 | under the zero key, bit 0 of subkey i is set exactly for i == 0 |
| FeaFindings.AlternatingForward | FEA.py:73-74 | under the stated round values, the forward halves alternate between (0, g) and (g, 0) |
| FeaFindings.AlternatingBackward | FEA.py:84-85 | under the same values, the decryption steps from (0, 0) end at (g, 0) |
| FeaFindings.CounterFirstRound | FEA.py:56-61 | the first round's output on a zero right half is 2^p |
| FeaFindings.CounterLaterRound | FEA.py:56-61 | every later round's output on a right half of 0 or 2^p is 0 |
| FeaFindings.SplitOfZero | FEA.py:69-70 | the zero block splits into zero halves |
| FeaFindings.SplitOfHighPower | FEA.py:80-81 | the masks in decrypt_block turn 2^(p + 64), for p >= 64, into zero halves |
| FeaFindings.JoinOfPower | FEA.py:76 | joining (2^p, 0) gives 2^(p + 64) |
| FeaFindings.RoundTripFailsFor | FEA.py:68-88 | for any tables of the counterexample shape, zero block and zero key encrypt to 2^(p + 64), which decrypts to 2^(p + 64) again |
| FeaFindings.RoundTripFails | FEA.py:68-88 | for 65 <= p < 128, the concrete tables with PERMUTATION[0] = p are well formed, do not keep positions 0..63 low, and decrypting the encryption of the zero block under the zero key does not give 0 |
| FeaFindings.MaskedRoundFunction | FEA.py:56-61 | the round output masked to 64 bits fits in 64 bits, and equals the unmasked output under a low permutation |
| FeaFindings.MaskedFn | FEA.py:56-61 | the masked round function as the network's round function |
| FeaFindings.MaskedEncrypted | FEA.py:68-77 | encryption with the masked round function |
| FeaFindings.MaskedDecrypted | FEA.py:79-88 | decryption with the masked round function |
| FeaFindings.MaskedRoundTrip | FEA.py:68-88 | with the masked round output, decryption undoes encryption for every well-formed table set, every key of more than 28 bytes and every 128-bit block |
| FeaFindings.MaskedForwardAgrees | FEA.py:73-74 | under a low permutation, the masked forward rounds equal the rounds as written |
| FeaFindings.MaskedEncryptedAgrees | FEA.py:68-77 | under a low permutation, the masked cipher encrypts exactly as FEA.py does |

## Left out

- Table generation (FEA.py:1-15) draws S-boxes, the permutation and the round constants from `random`. The model takes the tables as a parameter. `WellFormed` states the shapes the generator produces: 8 S-boxes of 65536 bytes, 128 positions below 128, and 16 constants below 2^32.
- The demonstration (FEA.py:90-98) only prints. It is not modelled, but `FeaFindings.RoundTripFails` uses its inputs: the all-zero block under the all-zero 32-byte key.
- A key of 28 bytes or fewer makes `subkey_generation` raise IndexError at `key_words[j]`. The model does not model the exception; it requires more than 28 bytes. Bytes past the first 32 are read from the key but never used, as in the code.
- `rotate_left` raises on a negative shift count, that is when bits > 32. The model requires bits <= 32; the code only rotates by 0..15.
- Negative Python integers as blocks are not modelled: blocks, halves and words are naturals.
- FEA.py has no typed errors for short keys or badly shaped tables; a short key fails with Python's IndexError, as above.
- FEA.py masks nothing inside the round function, and the model masks nothing there either. The subkey's bits above 128 are never read anyway (`Fea.RoundFunctionUsesLowSubkeyBits`).
- The round trip is proved whenever every round output fits in 64 bits (`Fea.RoundTrip`), for instance when PERMUTATION sends positions 0..63 below 64. `FeaFindings.RoundTripFails` gives tables of the generated shape for which it fails; see Findings.
- Cryptographic strength (diffusion, nonlinearity) is not modelled.

## Findings

| source | as written | input that shows it | evidently intended | confidence | as-written member | corrected member |
|---|---|---|---|---|---|---|
| FEA.py:63-88 | the round output can reach 128 bits, because PERMUTATION sends bits up to position 127, so a half grows past 64 bits; the join at line 76 overlaps the halves, and the masks at lines 80-81 drop bits | tables with PERMUTATION[0] = 65, S-box 0 returning bit 0 of its chunk, the other S-boxes 0 and round constants (1, 0, ..., 0); key of 32 zero bytes and block 0: encryption gives 2^129, and decrypting that gives 2^129 instead of 0 | half-width round output: mask the round function to 64 bits, so that decrypt(encrypt(b, k), k) == b for every 128-bit block | not executed | FeaFindings.RoundTripFails | FeaFindings.MaskedRoundTrip |
