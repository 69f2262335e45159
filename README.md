# Blockchain foundations, modelled in Dafny

This project models the `Blockchain` class of `blockchain.py`. The class is a
single node's in-memory chain of block records that is only ever appended to.
It has four public operations:

- construction, which creates the genesis block;
- `mine_block`, which searches for a proof of work, links the new block to
  the hash of the last one and appends it;
- `get_previous_block`, which reads the last block;
- `is_chain_valid`, which re-derives every link and every proof.

It also has four private helpers: `_create_block`, `_to_digest`, `_hash` and
`_proof_of_work`. The first three are pure once the clock reading that
`_create_block` takes is a parameter; `_proof_of_work` is a search loop.

Modules:

- `Blocks` (`block.dfy`) holds the block record and the three pure helpers.
  `_hash` is SHA-256 of the UTF-8 bytes of `json.dumps(block, sort_keys=True)`.
- `Chain` (`chain.dfy`) holds the `Blockchain` class. Its `chain` field is a
  `seq<Block>` that the constructor and `MineBlock` assign. The proof search
  and the validity scan are `while` loops proved against the predicates
  `IsLeastProof` and `ValidChain`.
- `Json` (`json.dfy`) implements the part of Python's `json.dumps` the hash
  depends on:
  - `ensure_ascii` string escaping, including `\uXXXX` surrogate pairs above U+FFFF;
  - the default separators `", "` and `": "`;
  - a stable sort of the keys by code point.

  It also has a reader for the text it writes. Reading back a member list
  recovers it, which makes the serialization injective.
- `Utf8` (`utf8.dfy`) holds `str.encode()` as in RFC 3629, with a strict
  decoder and the round trip.
- `Decimal` (`decimal.dfy`) holds `str(int)` with its leading `-`, a reader
  and the round trip.
- `Wrappers` holds `Option`.

SHA-256 is not modelled. Every operation takes the hash function as a value
of type `Hasher = Bytes -> string` (the class keeps it in a `const`), so
every result holds whatever that function is. Where a property needs a
hash function without collisions, the lemma takes `CollisionFree(sha256)` as
a hypothesis. That hypothesis is an idealisation: no function with a
fixed-length output, such as a 64-character hex digest, is free of
collisions, so `Blocks.BlockHashInjective` describes an ideal hash only.

The reading of the clock, `str(datetime.now())`, is a `now` parameter. The
unbounded proof search is bounded by a `maxTries` parameter. `None` stands
for "the source would still be searching".

Two facts about the code that the proofs make precise:

- `json.dumps` with its default separators writes `", "` and `": "`, with a
  space after each (`Blocks.SerializeLayout`).
- The class docstring (blockchain.py:21-22) says mined information cannot be
  edited, yet the validity scan does not see every edit.
  `Chain.LastTimestampUnchecked` shows that the last block's timestamp can
  change without the scan noticing. `Chain.EditDetected` shows detection of a
  changed block other than the last whenever the changed block hashes
  differently.

## Model

| member | source | states |
|---|---|---|
| Chain.Blockchain.constructor | blockchain.py:31-35 | the chain is exactly the genesis block: index 1, proof 1, previous hash "0", data "I am the Genesis Block" |
| Chain.GenesisChain | blockchain.py:31-35 | the genesis block has those literal fields and the clock reading as timestamp, and on its own it is a valid, correctly indexed chain |
| Blocks.CreateBlock | blockchain.py:88-96 | the record holds the five given values under the keys index, timestamp, data, proof, previous_hash, in that insertion order |
| Chain.Blockchain.GetPreviousBlock | blockchain.py:98-103 | returns the last element of the chain and changes nothing |
| Blocks.ToDigest | blockchain.py:121-122 | the digest input decodes as UTF-8 to exactly the decimal text of `p*p - q*q + index` followed by `data` |
| Blocks.HasWork | blockchain.py:145 | `hash[:4] == "0000"` holds exactly when the digest has at least four characters and the first four are '0' (a shorter slice never equals "0000") |
| Blocks.DigestLayout | blockchain.py:121-122 | the digest input is the UTF-8 bytes of the decimal text of `p*p - q*q + index`, one byte per character, with a leading `-` (0x2D) exactly when the value is negative, followed directly by the UTF-8 bytes of `data` |
| Blocks.DigestRoundTrip | blockchain.py:121-122 | when `data` does not start with a digit, the digest input decodes to its text and the text splits back into the value and `data` |
| Decimal.ParseShow | blockchain.py:121 | `str(n)` followed by text that does not start with a digit reads back as `n` and that text |
| Decimal.ShowInjective | blockchain.py:121 | different integers have different decimal texts |
| Utf8.DecodeEncode | blockchain.py:122 | decoding the UTF-8 encoding of any string gives back the string |
| Utf8.EncodeInjective | blockchain.py:122 | different strings have different UTF-8 encodings |
| Utf8.EncodeAppend | blockchain.py:121-122 | encoding a concatenation is concatenating the encodings |
| Chain.Blockchain.ProofOfWork | blockchain.py:139-150 | a result `p` is at least 1, its digest has the `0000` prefix, and every candidate from 1 to p-1 fails; giving up means every candidate up to the cap fails |
| Chain.LeastProofUnique | blockchain.py:139-150 | the least proof is determined by the previous proof, index and data |
| Json.SortByKeyCorrect | blockchain.py:163 | `sort_keys=True` orders the members by key and keeps them as a permutation |
| Blocks.Serialize | blockchain.py:163 | `json.dumps(block, sort_keys=True)`: `Json.Dumps` of the five fields in insertion order; no contract of its own, its layout is `Blocks.SerializeLayout` |
| Blocks.BlockHash | blockchain.py:163-165 | `_hash`: the hash function applied to the UTF-8 bytes of `Blocks.Serialize`; no contract of its own, its layout is `Blocks.BlockHashLayout` |
| Blocks.BlockHashLayout | blockchain.py:163-165 | `_hash` is SHA-256 of the UTF-8 bytes of the canonical text with keys data, index, previous_hash, proof, timestamp and separators ", " and ": " |
| Blocks.SerializeLayout | blockchain.py:163 | `json.dumps(block, sort_keys=True)` is `{"data": …, "index": …, "previous_hash": …, "proof": …, "timestamp": …}`: sorted keys, strings quoted and escaped, integers bare, separators ", " and ": " |
| Json.EscapeCharPrintable | blockchain.py:163 | every character escapes under `ensure_ascii` to printable ASCII |
| Json.DumpsPrintable | blockchain.py:163 | the whole JSON text is printable ASCII |
| Blocks.HashInputIsAscii | blockchain.py:163 | the bytes handed to SHA-256 are one per character of the JSON text, each its printable ASCII code |
| Json.ParseQuote | blockchain.py:163 | a quoted and escaped string reads back as the original string |
| Json.QuoteInjective | blockchain.py:163 | different strings are quoted differently |
| Json.ParseDumps | blockchain.py:163 | reading back the text of `json.dumps` gives the members sorted by key and nothing left over |
| Json.DumpsInjective | blockchain.py:163 | objects with the same text have the same sorted members |
| Blocks.SerializeInjective | blockchain.py:163 | blocks with the same JSON text are the same block |
| Blocks.BlockHashInjective | blockchain.py:163-165 | with a collision-free SHA-256, blocks with the same `_hash` agree on all five fields |
| Chain.NextBlock | blockchain.py:60-63 | the mined block records the hash of the last block, has index length+1, and carries the data, proof and clock reading given |
| Chain.Blockchain.MineBlock | blockchain.py:54-65 | the chain grows by exactly the returned block with earlier blocks unchanged, the block is built on the hash of the old last block with index old length+1 and the least proof, validity and indexing are kept, and nothing changes when the search gives up |
| Chain.MiningKeepsValid | blockchain.py:57-64 | appending the block built around a proof keeps a valid chain valid |
| Chain.MiningKeepsIndexed | blockchain.py:56 | appending the mined block keeps block `i` at index `i+1` |
| Chain.MineHelloOnFreshChain | blockchain.py:54-65 | mining "hello" onto a fresh chain gives index 2, the genesis hash as previous hash, and a proof whose digest of `str(p*p - 1 + 2) + "hello"` has the `0000` prefix |
| Chain.Blockchain.IsChainValid | blockchain.py:178-205 | returns true exactly when every block after the first records the hash of its predecessor and its proof has the work against its predecessor's proof |
| Chain.ValidAppend | blockchain.py:181-203 | a chain extended by one block is valid exactly when the chain was valid and the new block is linked and worked against its last block |
| Chain.RelinkDetected | blockchain.py:185-186 | replacing a stored previous hash by any other value makes the chain invalid |
| Chain.EditDetected | blockchain.py:21-22 | replacing any block but the last by one with a different hash makes a valid chain invalid |
| Chain.LastTimestampUnchecked | blockchain.py:178-205 | changing the timestamp of the last block keeps a valid chain valid |

## Left out

- SHA-256 (`hashlib`) is not implemented. It is a function parameter, and collision freedom is a hypothesis where a lemma needs it.
- `datetime.now()` is not modelled. Its text is the `now` parameter.
- Chain.Blockchain.ProofOfWork: the source searches without bound. The model stops after `maxTries` candidates and returns `None`, so a proof above the cap is not found.
- Chain.Blockchain.MineBlock: when the search gives up, the model leaves the chain unchanged and returns `None`. The source would still be searching.
- Blocks.CreateBlock: its contract lists the record it builds. The source promises nothing more of `_create_block`.
- The annotation `previous_proof: str` at blockchain.py:125 is modelled as an integer, which is the value every caller passes (blockchain.py:55).
- Lone surrogate characters cannot occur in Dafny strings, so the error `str.encode()` raises on them is not modelled.
- `json.dumps` is modelled only for flat objects with integer and string values, which is all a block holds.
- The chain is a public attribute in the source, and callers may change it between operations. The model states validity as a predicate on any list of blocks, and the tamper lemmas say what the scan sees after such a change.
- Chain.Blockchain.GetPreviousBlock, Chain.Blockchain.MineBlock, Chain.Blockchain.IsChainValid: each requires a non-empty `chain`. On an emptied list the source raises `IndexError` (blockchain.py:103 through blockchain.py:54, and blockchain.py:178); that error path is not modelled. The class itself never empties the list.
- Blocks.Serialize, Blocks.BlockHash: no `ensures` of their own. Stating the JSON layout on the functions puts the whole text into every proof about the chain; the layout is stated by the lemmas Blocks.SerializeLayout and Blocks.BlockHashLayout instead.
- Concurrent calls are not modelled. The source has no locking.
- main.py is not part of this model. Its web endpoints only call the operations above.
