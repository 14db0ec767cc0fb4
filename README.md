# Key-value encoding of the vector commitment

This project models, in Dafny, the adapter layer of the stateless-blockchain vector
commitment (`vector-commitment/src/vc.rs`). The layer stores a sparse vector of `u8`
values in a binary accumulator. `to_binary` turns a value into its eight bits. The most
significant bit comes first, because the value's single little-endian byte is expanded by
`BitVec::from_bytes`. `convert_key_value` turns a list of (key, value) pairs into two
parallel vectors. The bit vector holds each value's eight bits. The index vector holds
the eight slots `key*8 .. key*8+7` that the key owns. `commit`, `open_at_key`,
`verify_at_key`, `update` and `get_key_value_elem` each re-encode their pairs this way.
They then make one call into the binary accumulator engine.

Modules:

- `Words` (words.dfy): `u8` (`ValueType`), `usize` (`Usize`, below 2^64), bit `k` of a
  number, and three facts about division and multiplication.
- `ValueBits` (value_bits.dfy): `to_binary`, with the `to_le_bytes` and
  `BitVec::from_bytes` steps it chains. Also `FromBinary`, which reads such bits back.
- `KeyValue` (key_value.dfy): `convert_key_value`. `KeyValueEncoding` is the
  specification function. `ConvertKeyValue` is the loop, proved equal to it. The
  lemmas state the layout, the failure cases and index disjointness.
- `VectorCommitment` (vector_commitment.dfy): the five protocol wrappers over an
  `Engine` parameter, which holds the accumulator's five operations. It also states two
  engine properties and lemmas showing what the encoding contributes to opening and
  verifying.
- `WrappingIndices` (wrapping_indices.dfy): the index arithmetic as a build without
  overflow checks runs it (see Findings).

The Rust function panics in two cases. It panics when `keys` is shorter than `values`,
because `keys[i]` is out of bounds. In a build with overflow checks, it also panics when
`keys[i]*8 + 8` exceeds `usize::MAX`. The model returns `Err(MissingKey(i))` and
`Err(IndexOverflow(i))` for these, where `i` is the first pair that fails. Extra keys are
never read, and the model ignores them as the code does: a `keys` shorter than `values`
is `MissingKey`, a longer one is accepted. The protocol wrappers inherit the same error results. So `VerifyAtKey` returns
an answer for every key whose slots fit in a `usize`, and fails for no other reason.
All operations are functions of their arguments, so converting the same pairs twice
gives the same result.

## Model

| member | source | states |
|---|---|---|
| `ValueBits.ToBinary` | vector-commitment/src/vc.rs:52-56 | a value always becomes exactly eight booleans (one byte of a `u8`) |
| `ValueBits.ToLeBytes` | vector-commitment/src/vc.rs:53 | `u8::to_le_bytes` gives one byte whose little-endian value is `v` |
| `ValueBits.MsbFirst` | vector-commitment/src/vc.rs:54-55 | the per-byte expansion of `BitVec::from_bytes` yields exactly `n` bits |
| `ValueBits.MsbFirstAt` | vector-commitment/src/vc.rs:54-55 | entry `j` of the `n`-bit expansion is bit `n - 1 - j` of the byte |
| `ValueBits.MsbFirstValue` | vector-commitment/src/vc.rs:54-55 | the `n`-bit expansion read back most significant first is `v mod 2^n` |
| `ValueBits.FromBytes` | vector-commitment/src/vc.rs:54-55 | iterating `BitVec::from_bytes` yields eight bits per byte |
| `ValueBits.FromBytesBits` | vector-commitment/src/vc.rs:54-55 | position `p` of the expanded bytes is bit `7 - p % 8` of byte `p / 8` (most significant bit first within each byte) |
| `ValueBits.ToBinaryBits` | vector-commitment/src/vc.rs:52-55 | entry `j` of `to_binary(v)` is bit `7 - j` of `v`, i.e. `(v / 2^(7-j)) % 2 == 1` |
| `ValueBits.ToBinaryRoundTrip` | vector-commitment/src/vc.rs:52-55 | reading the eight bits back most significant first gives `v` |
| `ValueBits.FromBinaryRoundTrip` | vector-commitment/src/vc.rs:52-55 | every eight-bit vector spells a value below 256 whose `to_binary` is that vector, so `to_binary` is a bijection onto eight-bit vectors |
| `ValueBits.ToBinaryInjective` | vector-commitment/src/vc.rs:52-55 | distinct values have distinct bit vectors |
| `ValueBits.ToBinarySix` | vector-commitment/src/vc.rs:70-75 | `to_binary(6)` is `[F,F,F,F,F,T,T,F]`, as the crate's test expects |
| `KeyValue.KeyValueEncoding` | vector-commitment/src/vc.rs:38-49 | a successful conversion has a key for every value and `8 * |values|` bits and indices; a failure names one of the pairs (characterised fully by `EncodeSucceedsIff`, `EncodeFailsAtFirstBadPair` and `EncodeLayout`) |
| `KeyValue.IndexBlock` | vector-commitment/src/vc.rs:44 | `(key*8 .. key*8+8).collect()` has eight slots, slot `j` dividing down to `key` with remainder `j` |
| `KeyValue.ConvertKeyValue` | vector-commitment/src/vc.rs:38-49 | the appending loop returns exactly the specified encoding, including the panic of the first failing pair |
| `KeyValue.EncodeErrorPersists` | vector-commitment/src/vc.rs:41-47 | once a prefix of the pairs panics, the whole conversion fails with that panic |
| `KeyValue.EncodeSucceedsIff` | vector-commitment/src/vc.rs:41-44 | the conversion succeeds iff `|values| <= |keys|` and every used key's slots fit in a `usize`; extra keys are allowed |
| `KeyValue.EncodeFailsAtFirstBadPair` | vector-commitment/src/vc.rs:41-44 | a failure names the first pair that does not fit, as a missing key when `keys` ran out and as an overflow otherwise |
| `KeyValue.EncodeLayout` | vector-commitment/src/vc.rs:38-48 | both outputs have length `8 * |values|`; position `p` holds bit `p % 8` of `to_binary(values[p / 8])` and index `keys[p / 8] * 8 + p % 8` |
| `KeyValue.EncodeBlock` | vector-commitment/src/vc.rs:42-46 | positions `8i .. 8i+7` hold `to_binary(values[i])` and the block of `keys[i]`, in input order |
| `KeyValue.EncodeValueRoundTrip` | vector-commitment/src/vc.rs:42-45 | the eight bits stored for pair `i` read back as `values[i]` |
| `KeyValue.EncodeIndexLocates` | vector-commitment/src/vc.rs:43-46 | an index divided by eight is the key of its pair, and its remainder is the bit offset |
| `KeyValue.SharedIndexSameSlot` | vector-commitment/src/vc.rs:43-46 | two positions share an index only when they have the same key and the same bit offset |
| `KeyValue.DistinctKeysGiveDistinctIndices` | vector-commitment/src/vc.rs:43-46 | with pairwise distinct keys, no index appears twice in the output |
| `KeyValue.IndexBlockOwnsSlots` | vector-commitment/src/vc.rs:44 | a key's block is strictly increasing and holds exactly the indices that divide down to the key |
| `KeyValue.DisjointIndexBlocks` | vector-commitment/src/vc.rs:43-44 | distinct keys own disjoint blocks `[k*8, k*8+8)` |
| `KeyValue.ExtraKeysIgnored` | vector-commitment/src/vc.rs:41-44 | keys beyond the last value never change the result |
| `KeyValue.SinglePairEncoding` | vector-commitment/src/vc.rs:38-48 | converting one pair gives the value's bits and the key's block, or an overflow at pair 0 |
| `KeyValue.SinglePairInjective` | vector-commitment/src/vc.rs:24-27 | two single pairs with the same encoding are the same pair, so a substituted key or value never re-derives the opened bits and indices |
| `KeyValue.SinglePairAssignmentInjective` | vector-commitment/src/vc.rs:24-27 | even as an unordered set of (index, bit) pairs, the encoding of one fitting pair determines its key and its value |
| `KeyValue.EncodeBlockIsSinglePair` | vector-commitment/src/vc.rs:12-22 | the slice of a batch encoding for pair `i` equals the single-pair encoding that `open_at_key` derives |
| `KeyValue.ConvertExample` | vector-commitment/src/vc.rs:94-102 | keys `[0,1]` with values `[4,7]` give the bits and the indices `0..15` that the crate's test expects |
| `KeyValue.CommitExampleSetIndices` | vector-commitment/src/vc.rs:78-91 | the indices carrying a `true` bit for keys `[0,1]` and values `[4,7]` are exactly `{5, 13, 14, 15}`, the four elements whose primes `test_commit` multiplies |
| `VectorCommitment.Commit` | vector-commitment/src/vc.rs:12-15 | `commit` fails exactly when the conversion panics, at a pair that does not fit; otherwise it returns the engine's commit of the encoding |
| `VectorCommitment.OpenAtKey` | vector-commitment/src/vc.rs:19-22 | `open_at_key` fails only on an overflowing key; otherwise the engine opens `to_binary(value)` at the key's block |
| `VectorCommitment.VerifyAtKey` | vector-commitment/src/vc.rs:25-28 | `verify_at_key` fails only on an overflowing key; otherwise it is the engine's verdict on `to_binary(value)` at the key's block |
| `VectorCommitment.Update` | vector-commitment/src/vc.rs:31-34 | `update` fails exactly when the conversion panics; otherwise it returns the engine's update with the encoding |
| `VectorCommitment.GetKeyValueElem` | vector-commitment/src/vc.rs:60-64 | `get_key_value_elem` fails only on an overflowing key; otherwise it returns the first element the engine derives from `to_binary(value)` at the key's block |
| `VectorCommitment.OpenThenVerifyAccepts` | vector-commitment/src/vc.rs:104-113 | if the engine opens committed slices, then after committing pairs with distinct keys, opening any one pair verifies |
| `VectorCommitment.VerifyRejectsSubstitution` | vector-commitment/src/vc.rs:25-28 | if witnesses bind only the set of (index, bit) pairs they were opened for, then after committing pairs with distinct keys, the witnesses opened for one pair verify to false for any other fitting key or value |
| `VectorCommitment.OpenAndVerifyExample` | vector-commitment/src/vc.rs:104-116 | the crate's test, for every engine meeting both hypotheses (`AssignmentEngine` is one): commit (0,4),(1,7), open key 1; (1,7) verifies, while (0,7) and (1,4) do not |
| `VectorCommitment.GetKeyValueElemExample` | vector-commitment/src/vc.rs:119-125 | `get_key_value_elem(0, 5)` hands the engine `to_binary(5)` at indices `0..8`, the vectors `test_get_key_value_elem` commits directly |
| `VectorCommitment.AssignmentEngine` | vector-commitment/src/vc.rs:86-91 | an engine that sees only the set of (index, bit) pairs, as a product of one prime per pair does, meets both engine hypotheses, so the lemmas that assume them are not vacuous |
| `WrappingIndices.WrappingIndexBlock` | vector-commitment/src/vc.rs:44 | with wrapping arithmetic the range is either eight slots `(key*8 + j) mod 2^64` or empty |
| `WrappingIndices.WrappingKeyValueEncoding` | vector-commitment/src/vc.rs:38-49 | the release-build conversion fails only with `MissingKey(|keys|)`, exactly when `keys` is shorter than `values`; it yields `8 * |values|` bits and at most as many indices (equal to the checked build by `WrappingAgreesWhenIndicesFit`) |
| `WrappingIndices.WrappingAgreesWhenIndicesFit` | vector-commitment/src/vc.rs:43-44 | when every key's slots fit, the wrapping build and the checked build produce the same encoding |
| `WrappingIndices.WrappedKeysCollide` | vector-commitment/src/vc.rs:43-44 | with wrapping arithmetic, keys 0 and 2^61 both get index 0, once with bit `false` and once with bit `true` |
| `WrappingIndices.WrappedKeyLosesItsSlots` | vector-commitment/src/vc.rs:43-44 | with wrapping arithmetic, key 2^61-1 gets eight bits and no index |
| `WrappingIndices.CheckedRejectsWrappingKeys` | vector-commitment/src/vc.rs:43-44 | the checked conversion refuses both inputs with an overflow at the offending pair |

## Left out

- The accumulator engine (`crate::binary` and the `accumulator` crate) is not part of this model. Its five operations are fields of the `Engine` parameter. Its properties appear only as two hypotheses that lemmas take as preconditions. `OpensCommittedSlices` says that an honest opening of part of a commitment verifies. `BindsOpenedAssignment` says that such witnesses verify only an assignment with the same set of (index, bit) pairs, in any order. For the real engine, the second is a computational assumption: it holds only against an adversary that cannot find roots in the RSA group. `AssignmentEngine` shows that both hypotheses can hold together, but no lemma proves them for the real engine.
- Engine failures (an invalid digest or a malformed witness) are not modelled. The engine's operations are total functions.
- `U2048` is an unbounded natural number. Its 2048-bit width, `hash_to_prime`, `mod_exp` and `MODULUS` are left out. So is the group-arithmetic half of the tests at vc.rs:77-92 and vc.rs:118-128 (the products of primes and the modular exponentiations). Their encoding half is modelled: `CommitExampleSetIndices` gives the set indices 5, 13, 14 and 15 that `test_commit` multiplies, and `GetKeyValueElemExample` gives the vectors `test_get_key_value_elem` compares against.
- The semantics of `update` are not modelled: which bits it flips, and the commit, update, verify sequence built on it. They belong to the engine. `VectorCommitment.Update` states only the conversion it performs and the inputs it hands over.
- `usize` is 64 bits wide. On a 32-bit target the modulus is 2^32, and the wrapping keys of the findings become 2^29 and 2^29-1.
- `Vec::append` on the growable vectors is modelled as reassigning a sequence. The allocation and moving of elements is not modelled.
- The `BitVec` internals are left out. Only what iteration after `BitVec::from_bytes` returns is modelled.

## Findings

| source | as written | input that shows it | evidently intended | confidence | as-written member | corrected member |
|---|---|---|---|---|---|---|
| vector-commitment/src/vc.rs:44 | `keys[i]*offset` wraps modulo 2^64 in a build without overflow checks (Cargo's release profile) | keys `[0, 2^61]`, values `[0, 255]`: both pairs get indices 0..7, so index 0 is assigned `false` and `true` | distinct keys never share an index | not executed; depends on the build profile (a build with overflow checks panics instead) | `WrappingIndices.WrappedKeysCollide` | `KeyValue.SharedIndexSameSlot` |
| vector-commitment/src/vc.rs:44 | the range end `keys[i]*offset+offset` wraps to 0 in a build without overflow checks, so the range is empty | key `2^61 - 1`: eight bits and no index, so the two output vectors are no longer aligned | both vectors hold eight entries per pair | not executed; depends on the build profile | `WrappingIndices.WrappedKeyLosesItsSlots` | `KeyValue.EncodeLayout` |
