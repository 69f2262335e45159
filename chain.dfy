/** The `Blockchain` class: an append-only list of blocks, the proof-of-work
    search, mining and the validity scan, together with the acceptance
    condition of the scan stated as predicates on a list of blocks. */
module Chain {
  import opened Wrappers
  import opened Blocks

  /** `cur` records the hash of `prev`. */
  predicate Linked(sha256: Hasher, prev: Block, cur: Block) {
    cur.previousHash == BlockHash(sha256, prev)
  }

  /** `p` is a proof for a block with the given index and data that follows a
      block whose proof is `previousProof`. */
  predicate IsProof(sha256: Hasher, p: int, previousProof: int, index: int, data: string) {
    HasWork(sha256(ToDigest(p, previousProof, index, data)))
  }

  /** The proof stored in `cur` does the work relative to `prev`. */
  predicate Worked(sha256: Hasher, prev: Block, cur: Block) {
    IsProof(sha256, cur.proof, prev.proof, cur.index, cur.data)
  }

  /** What the validity scan checks of each pair of adjacent blocks. */
  predicate GoodLink(sha256: Hasher, prev: Block, cur: Block) {
    Linked(sha256, prev, cur) && Worked(sha256, prev, cur)
  }

  /** Every block after the first is linked to and worked against the block
      before it. The first block is not checked. */
  predicate ValidChain(sha256: Hasher, c: seq<Block>) {
    forall i | 1 <= i < |c| :: GoodLink(sha256, c[i - 1], c[i])
  }

  /** Block `i` of the list carries index `i + 1`. */
  predicate Indexed(c: seq<Block>) {
    forall i | 0 <= i < |c| :: c[i].index == i + 1
  }

  /** `p` is the first proof the upward search from 1 meets. */
  predicate IsLeastProof(sha256: Hasher, p: int, previousProof: int, index: int, data: string) {
    && p >= 1
    && IsProof(sha256, p, previousProof, index, data)
    && forall q | 1 <= q < p :: !IsProof(sha256, q, previousProof, index, data)
  }

  /** No candidate from 1 to `n` is a proof. */
  predicate NoProofUpTo(sha256: Hasher, n: int, previousProof: int, index: int, data: string) {
    forall q | 1 <= q <= n :: !IsProof(sha256, q, previousProof, index, data)
  }

  /** The search result depends on its inputs alone. */
  lemma LeastProofUnique(sha256: Hasher, p: int, q: int, previousProof: int, index: int, data: string)
    requires IsLeastProof(sha256, p, previousProof, index, data)
    requires IsLeastProof(sha256, q, previousProof, index, data)
    ensures p == q
  {
  }

  /** The block `mine_block` appends to `c`, given the proof it found and the
      reading of the clock. */
  function NextBlock(sha256: Hasher, c: seq<Block>, data: string, proof: int, now: string): (b: Block)
    requires c != []
    ensures Linked(sha256, c[|c| - 1], b)
    ensures b.index == |c| + 1 && b.data == data && b.proof == proof && b.timestamp == now
  {
    CreateBlock(data, proof, BlockHash(sha256, c[|c| - 1]), |c| + 1, now)
  }

  /** A list extended by one block is valid exactly when the list was valid
      and the new block is linked to and worked against its last block. */
  lemma ValidAppend(sha256: Hasher, c: seq<Block>, b: Block)
    requires c != []
    ensures ValidChain(sha256, c + [b]) <==> ValidChain(sha256, c) && GoodLink(sha256, c[|c| - 1], b)
  {
    var d := c + [b];
    assert d[|c| - 1] == c[|c| - 1] && d[|c|] == b;
    if ValidChain(sha256, d) {
      forall i | 1 <= i < |c| ensures GoodLink(sha256, c[i - 1], c[i]) {
        assert d[i - 1] == c[i - 1] && d[i] == c[i];
        assert GoodLink(sha256, d[i - 1], d[i]);
      }
      assert GoodLink(sha256, d[|c| - 1], d[|c|]);
    }
    if ValidChain(sha256, c) && GoodLink(sha256, c[|c| - 1], b) {
      forall i | 1 <= i < |d| ensures GoodLink(sha256, d[i - 1], d[i]) {
        if i < |c| {
          assert d[i - 1] == c[i - 1] && d[i] == c[i];
        }
      }
    }
  }

  /** Appending the block `mine_block` builds around a proof keeps a valid
      list valid. */
  lemma MiningKeepsValid(sha256: Hasher, c: seq<Block>, data: string, proof: int, now: string)
    requires c != [] && ValidChain(sha256, c)
    requires IsProof(sha256, proof, c[|c| - 1].proof, |c| + 1, data)
    ensures ValidChain(sha256, c + [NextBlock(sha256, c, data, proof, now)])
  {
    ValidAppend(sha256, c, NextBlock(sha256, c, data, proof, now));
  }

  /** Appending the block `mine_block` builds keeps the indices in step with
      the positions. */
  lemma MiningKeepsIndexed(sha256: Hasher, c: seq<Block>, data: string, proof: int, now: string)
    requires c != [] && Indexed(c)
    ensures Indexed(c + [NextBlock(sha256, c, data, proof, now)])
  {
    var d := c + [NextBlock(sha256, c, data, proof, now)];
    forall i | 0 <= i < |d| ensures d[i].index == i + 1 {
      if i < |c| {
        assert d[i] == c[i];
      }
    }
  }

  /** The genesis block alone is a valid, correctly indexed chain. */
  lemma GenesisChain(sha256: Hasher, now: string)
    ensures var g := Genesis(now);
      && g.index == 1 && g.proof == 1 && g.previousHash == "0" && g.data == GenesisData && g.timestamp == now
      && ValidChain(sha256, [g]) && Indexed([g])
  {
  }

  /** Replacing the recorded hash of block `i` by any other value makes the
      list invalid. */
  lemma RelinkDetected(sha256: Hasher, c: seq<Block>, i: int, h: string)
    requires 1 <= i < |c|
    requires h != BlockHash(sha256, c[i - 1])
    ensures !ValidChain(sha256, c[i := c[i].(previousHash := h)])
  {
    var d := c[i := c[i].(previousHash := h)];
    assert d[i - 1] == c[i - 1];
    assert !GoodLink(sha256, d[i - 1], d[i]);
  }

  /** Replacing a block other than the last by one with a different hash
      makes a valid list invalid: the next block still records the hash of
      the old contents. (With a collision-free hash every changed block has a
      different hash, by `BlockHashInjective`.) */
  lemma EditDetected(sha256: Hasher, c: seq<Block>, i: int, b: Block)
    requires ValidChain(sha256, c)
    requires 0 <= i < |c| - 1 && BlockHash(sha256, b) != BlockHash(sha256, c[i])
    ensures !ValidChain(sha256, c[i := b])
  {
    var d := c[i := b];
    assert GoodLink(sha256, c[i], c[i + 1]);
    assert d[i] == b && d[i + 1] == c[i + 1];
    assert !Linked(sha256, d[i], d[i + 1]);
  }

  /** The timestamp of the last block is covered by no hash and no proof, so
      the scan cannot see a change to it: a valid list stays valid. */
  lemma LastTimestampUnchecked(sha256: Hasher, c: seq<Block>, t: string)
    requires ValidChain(sha256, c) && c != []
    ensures ValidChain(sha256, c[|c| - 1 := c[|c| - 1].(timestamp := t)])
  {
    var n := |c| - 1;
    var d := c[n := c[n].(timestamp := t)];
    forall i | 1 <= i < |d| ensures GoodLink(sha256, d[i - 1], d[i]) {
      assert d[i - 1] == c[i - 1];
      assert GoodLink(sha256, c[i - 1], c[i]);
    }
  }

  /** The chain of one node: its list of blocks, only ever appended to, and
      the hash function it uses. */
  class Blockchain {
    const sha256: Hasher
    var chain: seq<Block>

    /** `__init__`: the list holds the genesis block alone. */
    constructor(sha256: Hasher, now: string)
      ensures this.sha256 == sha256
      ensures chain == [Genesis(now)]
      ensures chain[0].index == 1 && chain[0].proof == 1 && chain[0].previousHash == "0"
      ensures chain[0].data == GenesisData
    {
      this.sha256 := sha256;
      var initialBlock := CreateBlock(GenesisData, 1, "0", 1, now);
      chain := [initialBlock];
    }

    /** `get_previous_block`: the last block. An empty list raises in the
        source, so the list must not be empty. */
    method GetPreviousBlock() returns (b: Block)
      requires chain != []
      ensures b == chain[|chain| - 1]
    {
      b := chain[|chain| - 1];
    }

    /** `_proof_of_work`: tries 1, 2, 3, ... and returns the first candidate
        whose digest has the work. The source searches without bound; here
        the search gives up after `maxTries` candidates and answers `None`,
        having found every one of them wanting. */
    method ProofOfWork(previousProof: int, index: int, data: string, maxTries: nat) returns (r: Option<int>)
      ensures r.Some? ==> IsLeastProof(sha256, r.value, previousProof, index, data)
      ensures r.None? ==> NoProofUpTo(sha256, maxTries, previousProof, index, data)
    {
      var newProof := 1;
      var checkProof := false;
      while !checkProof
        invariant 1 <= newProof <= maxTries + 1
        invariant forall q | 1 <= q < newProof :: !IsProof(sha256, q, previousProof, index, data)
        invariant checkProof ==> IsProof(sha256, newProof, previousProof, index, data)
        decreases maxTries + 1 - newProof, if checkProof then 0 else 1
      {
        if newProof > maxTries {
          return None;
        }
        var toDigest := ToDigest(newProof, previousProof, index, data);
        var hashOperation := sha256(toDigest);
        if HasWork(hashOperation) {
          checkProof := true;
        } else {
          newProof := newProof + 1;
        }
      }
      return Some(newProof);
    }

    /** `mine_block`: searches for the proof, builds the block on the hash of
        the last block and appends it. When the search gives up, nothing
        changes. */
    method MineBlock(data: string, now: string, maxTries: nat) returns (r: Option<Block>)
      requires chain != []
      modifies this
      ensures r.Some? ==> IsLeastProof(sha256, r.value.proof, old(chain)[|old(chain)| - 1].proof, |old(chain)| + 1, data)
      ensures r.Some? ==> r.value == NextBlock(sha256, old(chain), data, r.value.proof, now)
      ensures r.Some? ==> chain == old(chain) + [r.value]
      ensures r.None? ==> chain == old(chain)
      ensures r.None? ==> NoProofUpTo(sha256, maxTries, old(chain)[|old(chain)| - 1].proof, |old(chain)| + 1, data)
      ensures old(ValidChain(sha256, chain)) ==> ValidChain(sha256, chain)
      ensures old(Indexed(chain)) ==> Indexed(chain)
    {
      var previousBlock := GetPreviousBlock();
      var previousProof := previousBlock.proof;
      var index := |chain| + 1;
      var found := ProofOfWork(previousProof, index, data, maxTries);
      if found.None? {
        return None;
      }
      var proof := found.value;
      var previousHash := BlockHash(sha256, previousBlock);
      var block := CreateBlock(data, proof, previousHash, index, now);
      assert block == NextBlock(sha256, chain, data, proof, now);
      if ValidChain(sha256, chain) {
        MiningKeepsValid(sha256, chain, data, proof, now);
      }
      if Indexed(chain) {
        MiningKeepsIndexed(sha256, chain, data, proof, now);
      }
      chain := chain + [block];
      return Some(block);
    }

    /** `is_chain_valid`: walks the list from the second block on and stops
        at the first block that is not linked to or not worked against its
        predecessor. */
    method IsChainValid() returns (ok: bool)
      requires chain != []
      ensures ok == ValidChain(sha256, chain)
    {
      var previousBlock := chain[0];
      var blockIndex := 1;
      while blockIndex < |chain|
        invariant 1 <= blockIndex <= |chain|
        invariant previousBlock == chain[blockIndex - 1]
        invariant forall i | 1 <= i < blockIndex :: GoodLink(sha256, chain[i - 1], chain[i])
      {
        var block := chain[blockIndex];
        if block.previousHash != BlockHash(sha256, previousBlock) {
          return false;
        }
        var previousProof := previousBlock.proof;
        var index, data, proof := block.index, block.data, block.proof;
        var hashOperation := sha256(ToDigest(proof, previousProof, index, data));
        if !HasWork(hashOperation) {
          return false;
        }
        previousBlock := block;
        blockIndex := blockIndex + 1;
      }
      return true;
    }
  }

  /** Mining "hello" onto a fresh chain: the new block has index 2, records
      the hash of the genesis block, and its proof `p` makes the digest of
      `str(p*p - 1 + 2) + "hello"` start with "0000". */
  method MineHelloOnFreshChain(sha256: Hasher, now1: string, now2: string, maxTries: nat)
    returns (bc: Blockchain, r: Option<Block>)
    ensures r.Some? ==> r.value.index == 2 && r.value.data == "hello"
    ensures r.Some? ==> r.value.previousHash == BlockHash(sha256, Genesis(now1))
    ensures r.Some? ==> HasWork(sha256(ToDigest(r.value.proof, 1, 2, "hello")))
    ensures r.Some? ==> bc.chain == [Genesis(now1), r.value]
  {
    bc := new Blockchain(sha256, now1);
    r := bc.MineBlock("hello", now2, maxTries);
  }
}
