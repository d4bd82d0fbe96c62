# Merkle tree with flag-free inclusion proofs, in Dafny

This project models the `MerkleTree` class of `primitives/merkletree/src/merkletree.ts`.
The class commits to an ordered list of strings. Each string is hashed into a leaf. The
leaves are reduced pass by pass into a single root: an odd layer gets its last digest
repeated, and every pair of neighbours is combined by hashing the concatenation of the
numerically smaller digest with the larger one. Because each combine puts its two inputs
in numeric order, an inclusion proof is a plain list of sibling digests with no left/right
flags. `getProof` records one sibling per pass. `verifyProof` folds the proof into the
hash of the leaf and compares the result with the stored root.

The project has three modules:

- `Hex` (`hex.dfy`): hex digits, `HexVal` (the number `BigInt("0x" + s)` reads), the
  `Digest` type (64 lower-case hex characters), and the facts that on digests equal values
  mean equal strings and numeric order is string order.
- `MerkleSpec` (`merkle_spec.dfy`): the tree as pure definitions. It defines the combine,
  one reduction pass, the root, the inclusion proof and the verification fold, with the
  lemmas about them: commutativity, pass count, padding, round trip and a worked example.
- `MerkleTrees` (`merkletree.dfy`): the class itself, as imperative Dafny. It has the
  fields `leaves` and `root`, the constructor, and the `while`/`for` loops of
  `computeMerkleRoot`, `getProof` and `verifyProof`. Each loop is proved to compute the
  value `MerkleSpec` defines.

The hash function is the class's `hash` field of type `string -> Digest`, fixed at
construction. The deployed code uses SHA-256 in hex. No property here assumes anything
about the hash beyond it being a function, so the round trip holds for every hash function.

Where the component's written description and the code disagree, the model follows the code:

- `getProof` has no bounds check, so an index outside the leaves is excluded by a
  precondition rather than modelled as an `IndexOutOfRange` error.
- `verifyProof` is described as never raising. The code, though, calls `BigInt("0x" + data)`
  on every proof element, and `BigInt` throws a `SyntaxError` on an element that is not a hex
  numeral. The model returns `Err(MalformedSibling(k))` for the first such element `k`.

## Model

| member | source | states |
|---|---|---|
| `MerkleTrees.MerkleTree.constructor` | primitives/merkletree/src/merkletree.ts:7-10 | `leaves` has one entry per element, `leaves[i] == hash(elements[i])`, and `root` is the root over the leaves; no elements give the sentinel `""`, one element gives that element's leaf |
| `MerkleTrees.MerkleTree.ComputeMerkleRoot` | primitives/merkletree/src/merkletree.ts:12-39 | the loop that pads odd layers and replaces each layer by its pairs returns the root `MerkleRoot` defines; the empty input returns `""` before the loop |
| `MerkleTrees.MerkleTree.CombinePairs` | primitives/merkletree/src/merkletree.ts:24-33 | the `for` loop over an even layer yields, in order, the combine of digests 2k and 2k+1 as entry k |
| `MerkleTrees.MerkleTree.GetProof` | primitives/merkletree/src/merkletree.ts:58-94 | for an index inside the leaves, the returned proof is `ProofPath` (the sibling at every pass) and has exactly `Passes(n)` = ceil(log2 n) digests |
| `MerkleTrees.MerkleTree.CombinePairsRecordingSibling` | primitives/merkletree/src/merkletree.ts:70-87 | the same pairing loop, which also appends exactly one digest to the proof: the other member of the pair holding the tracked index |
| `MerkleTrees.MerkleTree.VerifyProof` | primitives/merkletree/src/merkletree.ts:41-56 | the fold from `hash(leaf)` with the ordered combine, compared with the stored root; an element `BigInt` cannot parse gives an error at its position |
| `MerkleTrees.ProveInclusion` | primitives/merkletree/src/merkletree.ts:41-94 | building a tree, asking it for the proof of any position and verifying that proof for the element at that position always yields `Ok(true)` |
| `Hex.HexValInjective` | primitives/merkletree/src/merkletree.ts:29 | two lower-case hex strings of one length with equal `BigInt` values are the same string |
| `Hex.HexOrderIsLexicographic` | primitives/merkletree/src/merkletree.ts:29 | on lower-case hex strings of one length, `BigInt` order is lexicographic string order, in both directions |
| `Hex.DigestIsHexNumeral` | primitives/merkletree/src/merkletree.ts:45-46 | every digest is a string `BigInt("0x" + s)` accepts |
| `MerkleSpec.CombineCommutes` | primitives/merkletree/src/merkletree.ts:28-31 | combining `(a, b)` and `(b, a)` hashes the same string, so the combine is order-independent on digests |
| `MerkleSpec.Pad` | primitives/merkletree/src/merkletree.ts:20-22 | the padded layer has even length, keeps the layer as its prefix, and its one added digest, if any, repeats the last |
| `MerkleSpec.PairUpAt` | primitives/merkletree/src/merkletree.ts:24-33 | entry k of a paired-up layer combines digests 2k and 2k+1 |
| `MerkleSpec.NextLayer` | primitives/merkletree/src/merkletree.ts:17-36 | a pass turns a layer of n digests into one of ceil(n/2), strictly shorter when n > 1, so the loop terminates |
| `MerkleSpec.NextLayerAt` | primitives/merkletree/src/merkletree.ts:20-33 | entry k of the next layer combines digests 2k and 2k+1 of the padded layer |
| `MerkleSpec.MerkleRoot` | primitives/merkletree/src/merkletree.ts:12-39 | the root is `""` exactly for the empty layer, and a digest otherwise, so the sentinel never equals a real root |
| `MerkleSpec.PassesIsCeilLog2` | primitives/merkletree/src/merkletree.ts:17-36 | the number of passes is ceil(log2 n): the least k with n <= 2^k |
| `MerkleSpec.PassesReachOneDigest` | primitives/merkletree/src/merkletree.ts:17-38 | on a non-empty layer the loop runs exactly `Passes(n)` times: every earlier layer has more than one digest, the last has one, and it is the root |
| `MerkleSpec.SiblingInPaddedLayer` | primitives/merkletree/src/merkletree.ts:74-77 | the sibling of a position inside the layer lies inside the padded layer and in the same pair |
| `MerkleSpec.SiblingInPair` | primitives/merkletree/src/merkletree.ts:74-75 | within pair j, the sibling of position 2j is 2j+1 and the sibling of 2j+1 is 2j |
| `MerkleSpec.ProofPath` | primitives/merkletree/src/merkletree.ts:63-91 | one sibling per pass: the proof has `Passes(n)` digests |
| `MerkleSpec.ProofPathStep` | primitives/merkletree/src/merkletree.ts:63-91 | recording one pass's sibling and halving the index leaves the rest of the proof to the next layer |
| `MerkleSpec.FirstMalformed` | primitives/merkletree/src/merkletree.ts:44-46 | the position of the first proof element `BigInt` rejects: all before it parse, and it does not |
| `MerkleSpec.FoldIsDigest` | primitives/merkletree/src/merkletree.ts:44-53 | folding any proof into a digest yields a digest |
| `MerkleSpec.EmptyRootAcceptsNothing` | primitives/merkletree/src/merkletree.ts:41-56 | against the empty tree's root `""` no proof of any leaf verifies |
| `MerkleSpec.ParentOfTracked` | primitives/merkletree/src/merkletree.ts:74-84 | combining the tracked digest with its recorded sibling gives the parent the pass computes, on either side of the pair |
| `MerkleSpec.ProofRoundTrip` | primitives/merkletree/src/merkletree.ts:41-94 | folding the proof of position i into the digest at i yields the root |
| `MerkleSpec.TreeRoundTrip` | primitives/merkletree/src/merkletree.ts:41-94 | for leaves hashed from `elements`, the proof of any position verifies for `elements[index]` against the root |
| `MerkleSpec.OddLayerSharesRootWithPadded` | primitives/merkletree/src/merkletree.ts:20-22 | a layer of odd length above one has the same root as the layer with its last digest repeated (the trees over `[a,b,c]` and `[a,b,c,c]` share a root) |
| `MerkleSpec.ThreeElementTree` | primitives/merkletree/src/merkletree.ts:58-94 | for `["a","b","c"]` the proof of index 2 is `[h(c), combine(h(a),h(b))]`, the root is `combine(combine(h(a),h(b)), combine(h(c),h(c)))`, and the proof verifies |

## Left out

- The SHA-256 call (`createHash`, merkletree.ts:96-98) is a foreign call. It is the parameter `hash` of type `string -> Digest`. No tamper-detection or collision-resistance property is claimed, since those rest on cryptographic assumptions.
- `BigInt` parsing is modelled as `HexVal` over hex digits of either case, plus the non-empty, all-hex-digit test. `BigInt` also tolerates surrounding whitespace in its argument, so a proof element with trailing whitespace parses in the code; the model reports it as malformed.
- An out-of-range `getProof` index is excluded by the precondition `index < |leaves|`. The code does not check it, and for an odd leaf count `index == n` would read the padded copy.
- `verifyProof` always compares with the stored `root`. `MerkleSpec.VerifyAgainst` takes the root as an argument, but that is only a refactor of the method's comparison, not separate behaviour.
- "Nothing else changes" is stated by the frame rules rather than by an ensures clause. `GetProof` and `VerifyProof` have no `modifies` clause, so Dafny guarantees that `leaves` and `root` are unchanged. The copies the code pads in place (`[...elements]`, `push`) are sequence values here, so the caller's array is never shared.
- JavaScript numbers and strings: indices are unbounded naturals and strings are sequences of characters. Array lengths near 2^32 and UTF-16 details are outside the model.
- Concurrency and the sharing of one tree between callers are not modelled.
- The other modules of the repository, `primitives/ecdsa/src/ecdsa.ts` (a wrapper over an elliptic-curve library) and `primitives/pow/src/pow.ts` (an unbounded search over SHA-256), are not part of this model.
