/**
 * The MerkleTree class: built once from a list of strings, it keeps the
 * hashed leaves and the root, hands out inclusion proofs and checks them.
 * Each operation is the loop the class runs, proved to compute the value
 * MerkleSpec defines; what MerkleSpec proves of those values (the round
 * trip, the proof length, the empty-tree sentinel) then holds of the class.
 */
module MerkleTrees {
  import opened Hex
  import opened MerkleSpec

  class MerkleTree {
    /** The digest function; SHA-256 in hex in the deployed system. */
    const hash: Hasher
    var leaves: seq<Digest>
    var root: string

    /** The cached root is the root over the leaves. */
    ghost predicate Valid()
      reads this
    {
      root == MerkleRoot(hash, leaves)
    }

    /** Hashes each element into a leaf, in order, and reduces the leaves to the root. */
    constructor (hash: Hasher, elements: seq<string>)
      ensures this.hash == hash
      ensures |leaves| == |elements|
      ensures forall i :: 0 <= i < |elements| ==> leaves[i] == hash(elements[i])
      ensures Valid()
      ensures |elements| == 0 ==> root == ""
      ensures |elements| == 1 ==> root == leaves[0]
    {
      this.hash := hash;
      var hashed := seq(|elements|, i requires 0 <= i < |elements| => hash(elements[i]));
      var computed := ComputeMerkleRoot(hash, hashed);
      leaves, root := hashed, computed;
    }

    /**
     * Reduces a layer pass by pass until one digest is left; the empty layer
     * gives the sentinel "" without entering the loop. Each pass repeats the
     * last digest of an odd layer, then combines neighbours two by two.
     */
    static method ComputeMerkleRoot(hash: Hasher, elements: seq<Digest>) returns (root: string)
      ensures root == MerkleRoot(hash, elements)
    {
      if |elements| == 0 {
        return "";
      }
      var layer := elements;
      while |layer| > 1
        invariant |layer| > 0
        invariant MerkleRoot(hash, layer) == MerkleRoot(hash, elements)
        decreases |layer|
      {
        ghost var current := layer;
        if |layer| % 2 != 0 {
          layer := layer + [layer[|layer| - 1]];
        }
        assert layer == Pad(current);
        NextLayerPairsPadded(hash, current);
        layer := CombinePairs(hash, layer);
      }
      root := layer[0];
    }

    /** The inner loop of a pass: digests 2k and 2k+1 of an even layer become digest k. */
    static method CombinePairs(hash: Hasher, layer: seq<Digest>) returns (next: seq<Digest>)
      requires |layer| % 2 == 0
      ensures next == PairUp(hash, layer, |layer| / 2)
    {
      next := [];
      ghost var pairs := |layer| / 2;
      var i := 0;
      while i < |layer|
        invariant i == 2 * |next| && |next| <= pairs
        invariant next == PairUp(hash, layer, |next|)
        decreases |layer| - i
      {
        var left: string, right: string := layer[i], layer[i + 1];
        var combined := Combine(hash, left, right);
        next := next + [combined];
        i := i + 2;
      }
    }

    /**
     * The inclusion proof of leaf `index`: the same reduction over a copy of
     * the leaves, recording on each pass the sibling of the tracked position.
     */
    method GetProof(index: nat) returns (proof: seq<Digest>)
      requires index < |leaves|
      ensures proof == ProofPath(hash, leaves, index)
      ensures |proof| == Passes(|leaves|)
    {
      proof := [];
      var currentIndex: nat := index;
      var elements := leaves;
      while |elements| > 1
        invariant currentIndex < |elements|
        invariant proof + ProofPath(hash, elements, currentIndex) == ProofPath(hash, leaves, index)
        decreases |elements|
      {
        ProofPathStep(hash, elements, currentIndex, proof);
        ghost var current := elements;
        if |elements| % 2 != 0 {
          elements := elements + [elements[|elements| - 1]];
        }
        assert elements == Pad(current);
        NextLayerPairsPadded(hash, current);
        elements, proof := CombinePairsRecordingSibling(hash, elements, currentIndex, proof);
        currentIndex := currentIndex / 2;
      }
    }

    /**
     * The inner loop of a `GetProof` pass: combines neighbours like
     * `CombinePairs` and, at the pair holding position `index`, appends the
     * other member of the pair to the proof.
     */
    static method CombinePairsRecordingSibling(hash: Hasher, layer: seq<Digest>, index: nat, proof: seq<Digest>)
      returns (next: seq<Digest>, extended: seq<Digest>)
      requires |layer| % 2 == 0 && index < |layer|
      ensures next == PairUp(hash, layer, |layer| / 2)
      ensures extended == proof + [layer[SiblingIndex(index)]]
    {
      next, extended := [], proof;
      ghost var sibling := SiblingIndex(index);
      ghost var pairs := |layer| / 2;
      assert sibling < |layer|;
      var i := 0;
      while i < |layer|
        invariant i == 2 * |next| && |next| <= pairs
        invariant next == PairUp(hash, layer, |next|)
        invariant index < i ==> extended == proof + [layer[sibling]]
        invariant i <= index ==> extended == proof
        decreases |layer| - i
      {
        var element1: string, element2: string := layer[i], layer[i + 1];
        if i == index || i + 1 == index {
          var siblingIndex := if i == index then i + 1 else i;
          SiblingInPair(index, |next|);
          extended := extended + [layer[siblingIndex]];
        }
        var combinedHash := Combine(hash, element1, element2);
        next := next + [combinedHash];
        i := i + 2;
      }
    }

    /**
     * Folds the proof into hash(leaf) with the order-independent combine and
     * compares the result with the stored root. A proof element that is not
     * a hex numeral stops the fold with an error, as `BigInt` does.
     */
    method VerifyProof(leaf: string, proof: seq<string>) returns (result: Result<bool>)
      ensures result == VerifyAgainst(hash, leaf, proof, root)
    {
      var computedHash: string := hash(leaf);
      var k := 0;
      while k < |proof|
        invariant k <= |proof|
        invariant forall j :: 0 <= j < k ==> IsHexNumeral(proof[j])
        invariant Fold(hash, computedHash, proof[k..]) == Fold(hash, hash(leaf), proof)
      {
        var data := proof[k];
        if !IsHexNumeral(data) {
          return Err(MalformedSibling(k));
        }
        if HexVal(computedHash) <= HexVal(data) {
          computedHash := hash(computedHash + data);
        } else {
          computedHash := hash(data + computedHash);
        }
        assert proof[k..][1..] == proof[k + 1..];
        k := k + 1;
      }
      return Ok(computedHash == root);
    }
  }

  /**
   * A client of the class: a tree built from any elements verifies the proof
   * it hands out for any position, using nothing but the methods' contracts.
   */
  method ProveInclusion(hash: Hasher, elements: seq<string>, index: nat) returns (verdict: Result<bool>)
    requires index < |elements|
    ensures verdict == Ok(true)
  {
    var tree := new MerkleTree(hash, elements);
    var proof := tree.GetProof(index);
    verdict := tree.VerifyProof(elements[index], proof);
    TreeRoundTrip(hash, elements, tree.leaves, index);
  }
}
