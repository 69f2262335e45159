/** One block record of the chain and the three pure operations on it: building
    it (`_create_block`), hashing it canonically (`_hash`), and building the
    proof-of-work input (`_to_digest`) that links it to its predecessor. */
module Blocks {
  import opened Wrappers
  import opened Utf8
  import Decimal
  import Json

  /** A block as the source stores it: a dictionary with five keys. */
  datatype Block = Block(index: int, timestamp: string, data: string, proof: int, previousHash: string)

  /** The SHA-256 hex digest of a byte string. The algorithm is not modelled:
      every operation takes the hash function as an argument, so every result
      holds whatever that function is. */
  type Hasher = Bytes -> string

  /** A hash function without collisions, which tamper detection relies on. */
  ghost predicate CollisionFree(sha256: Hasher) {
    forall x: Bytes, y: Bytes :: sha256(x) == sha256(y) ==> x == y
  }

  const GenesisData: string := "I am the Genesis Block"

  /** The dictionary of a block, its keys in the order `_create_block` inserts
      them. */
  function Fields(b: Block): seq<Json.Member> {
    [("index", Json.Int(b.index)),
     ("timestamp", Json.Str(b.timestamp)),
     ("data", Json.Str(b.data)),
     ("proof", Json.Int(b.proof)),
     ("previous_hash", Json.Str(b.previousHash))]
  }

  /** `_create_block`, with the reading of the clock, `str(datetime.now())`,
      passed in as `now`. */
  function CreateBlock(data: string, proof: int, previousHash: string, index: int, now: string): (b: Block)
    ensures Fields(b) == [("index", Json.Int(index)), ("timestamp", Json.Str(now)), ("data", Json.Str(data)),
                          ("proof", Json.Int(proof)), ("previous_hash", Json.Str(previousHash))]
  {
    Block(index, now, data, proof, previousHash)
  }

  /** The first block of every chain. */
  function Genesis(now: string): Block {
    CreateBlock(GenesisData, 1, "0", 1, now)
  }

  /** The members of a block with their keys in sorted order. */
  function KeyOrder(b: Block): seq<Json.Member> {
    [("data", Json.Str(b.data)), ("index", Json.Int(b.index)),
     ("previous_hash", Json.Str(b.previousHash)), ("proof", Json.Int(b.proof)),
     ("timestamp", Json.Str(b.timestamp))]
  }

  /** `json.dumps(block, sort_keys=True)`. */
  function Serialize(b: Block): string {
    Json.Dumps(Fields(b))
  }

  /** `_hash`: the hex digest of the UTF-8 bytes of the block's JSON text. */
  function BlockHash(sha256: Hasher, b: Block): string {
    sha256(Encode(Serialize(b)))
  }

  /** The value whose decimal text starts the proof-of-work input. */
  function DigestValue(newProof: int, previousProof: int, index: int): int {
    newProof * newProof - previousProof * previousProof + index
  }

  /** `_to_digest`: the decimal text of `newProof² - previousProof² + index`
      followed directly by `data`, UTF-8 encoded; the bytes decode back to
      that text. */
  function ToDigest(newProof: int, previousProof: int, index: int, data: string): (r: Bytes)
    ensures Decode(r) == Some(Decimal.Show(DigestValue(newProof, previousProof, index)) + data)
  {
    var text := Decimal.Show(DigestValue(newProof, previousProof, index)) + data;
    DecodeEncode(text);
    Encode(text)
  }

  /** Python's `s[:n]`: the first `n` characters, or all of a shorter string. */
  function PrefixSlice(s: string, n: nat): string {
    if |s| <= n then s else s[..n]
  }

  /** The difficulty condition `hash[:4] == "0000"`: the digest has at least
      four characters and the first four are all '0'. */
  predicate HasWork(hex: string)
    ensures HasWork(hex) <==> |hex| >= 4 && hex[0] == '0' && hex[1] == '0' && hex[2] == '0' && hex[3] == '0'
  {
    PrefixSlice(hex, 4) == "0000"
  }

  /** The text `json.dumps` produces for a block, written out: the keys in
      sorted order, each as a JSON string followed by ": " and its value, the
      members separated by ", " and enclosed in braces. */
  function CanonicalText(b: Block): string {
    "{" + Json.Quote("data") + ": " + Json.Quote(b.data)
    + ", " + Json.Quote("index") + ": " + Decimal.Show(b.index)
    + ", " + Json.Quote("previous_hash") + ": " + Json.Quote(b.previousHash)
    + ", " + Json.Quote("proof") + ": " + Decimal.Show(b.proof)
    + ", " + Json.Quote("timestamp") + ": " + Json.Quote(b.timestamp) + "}"
  }

  /** The keys of a block, in the order `sort_keys=True` puts them. */
  lemma SortedFields(b: Block)
    ensures Json.SortByKey(Fields(b)) == KeyOrder(b)
  {
    var f := Fields(b);
    var ix, ts, da, pr, ph := f[0], f[1], f[2], f[3], f[4];
    Json.SortByKeyStep([ix], [], ix);
    assert Json.SortByKey([ix]) == [ix];
    // "timestamp" goes after "index"
    Json.SortByKeyStep([ix, ts], [ix], ts);
    Json.InsertAfter(ts, [ix]);
    assert [ix][1..] == [];
    assert Json.SortByKey([ix, ts]) == [ix, ts];
    // "data" goes first
    Json.SortByKeyStep([ix, ts, da], [ix, ts], da);
    Json.InsertBefore(da, [ix, ts]);
    // "proof" goes between "index" and "timestamp"
    Json.SortByKeyStep([ix, ts, da, pr], [ix, ts, da], pr);
    Json.InsertAfter(pr, [da, ix, ts]);
    assert [da, ix, ts][1..] == [ix, ts];
    Json.InsertAfter(pr, [ix, ts]);
    assert [ix, ts][1..] == [ts];
    Json.InsertBefore(pr, [ts]);
    assert Json.SortByKey([ix, ts, da, pr]) == [da, ix, pr, ts];
    // "previous_hash" goes between "index" and "proof"
    Json.SortByKeyStep(f, [ix, ts, da, pr], ph);
    Json.InsertAfter(ph, [da, ix, pr, ts]);
    assert [da, ix, pr, ts][1..] == [ix, pr, ts];
    Json.InsertAfter(ph, [ix, pr, ts]);
    assert [ix, pr, ts][1..] == [pr, ts];
    Json.InsertBefore(ph, [pr, ts]);
  }

  /** The members of a block in sorted order, joined. */
  lemma RenderSortedFields(b: Block)
    ensures Json.RenderMembers(Json.SortByKey(Fields(b)))
         == Json.RenderMember(("data", Json.Str(b.data))) + ", "
            + (Json.RenderMember(("index", Json.Int(b.index))) + ", "
            + (Json.RenderMember(("previous_hash", Json.Str(b.previousHash))) + ", "
            + (Json.RenderMember(("proof", Json.Int(b.proof))) + ", "
            + Json.RenderMember(("timestamp", Json.Str(b.timestamp))))))
  {
    SortedFields(b);
    Json.RenderFive(("data", Json.Str(b.data)), ("index", Json.Int(b.index)),
                    ("previous_hash", Json.Str(b.previousHash)), ("proof", Json.Int(b.proof)),
                    ("timestamp", Json.Str(b.timestamp)));
  }

  /** Five members joined, without the nesting of the join. */
  lemma JoinFive(k1: string, v1: string, k2: string, v2: string, k3: string, v3: string,
                 k4: string, v4: string, k5: string, v5: string)
    ensures "{" + ((k1 + ": " + v1) + ", " + ((k2 + ": " + v2) + ", " + ((k3 + ": " + v3) + ", "
                 + ((k4 + ": " + v4) + ", " + (k5 + ": " + v5))))) + "}"
         == "{" + k1 + ": " + v1 + ", " + k2 + ": " + v2 + ", " + k3 + ": " + v3
            + ", " + k4 + ": " + v4 + ", " + k5 + ": " + v5 + "}"
  {
  }

  /** `json.dumps(block, sort_keys=True)` writes exactly the canonical text. */
  lemma SerializeLayout(b: Block)
    ensures Serialize(b) == CanonicalText(b)
  {
    RenderSortedFields(b);
    var kd, ki, kh, kp, kt := Json.Quote("data"), Json.Quote("index"), Json.Quote("previous_hash"),
                              Json.Quote("proof"), Json.Quote("timestamp");
    var vd, vi, vh, vp, vt := Json.Quote(b.data), Decimal.Show(b.index), Json.Quote(b.previousHash),
                              Decimal.Show(b.proof), Json.Quote(b.timestamp);
    assert Json.RenderMember(("data", Json.Str(b.data))) == kd + ": " + vd;
    assert Json.RenderMember(("index", Json.Int(b.index))) == ki + ": " + vi;
    assert Json.RenderMember(("previous_hash", Json.Str(b.previousHash))) == kh + ": " + vh;
    assert Json.RenderMember(("proof", Json.Int(b.proof))) == kp + ": " + vp;
    assert Json.RenderMember(("timestamp", Json.Str(b.timestamp))) == kt + ": " + vt;
    JoinFive(kd, vd, ki, vi, kh, vh, kp, vp, kt, vt);
  }

  /** `_hash` is SHA-256 of the UTF-8 bytes of the canonical text: keys
      sorted, default separators. */
  lemma BlockHashLayout(sha256: Hasher, b: Block)
    ensures BlockHash(sha256, b) == sha256(Encode(CanonicalText(b)))
  {
    SerializeLayout(b);
  }

  /** Blocks with the same JSON text are the same block. */
  lemma SerializeInjective(a: Block, b: Block)
    requires Serialize(a) == Serialize(b)
    ensures a == b
  {
    Json.DumpsInjective(Fields(a), Fields(b));
    SortedFields(a);
    SortedFields(b);
    var ka, kb := KeyOrder(a), KeyOrder(b);
    assert ka == kb;
    assert ka[0].1 == kb[0].1 && ka[1].1 == kb[1].1 && ka[2].1 == kb[2].1;
    assert ka[3].1 == kb[3].1 && ka[4].1 == kb[4].1;
  }

  /** With a collision-free hash function, `_hash` tells blocks apart: two
      blocks with the same hash agree on all five fields. */
  lemma BlockHashInjective(sha256: Hasher, a: Block, b: Block)
    requires CollisionFree(sha256)
    requires BlockHash(sha256, a) == BlockHash(sha256, b)
    ensures a == b
  {
    EncodeInjective(Serialize(a), Serialize(b));
    SerializeInjective(a, b);
  }

  /** Printable ASCII is ASCII. */
  lemma PrintableIsAscii(s: string)
    requires Json.AllPrintable(s)
    ensures IsAscii(s)
  {
    forall k | 0 <= k < |s| ensures s[k] as int < 0x80 {
      assert Json.IsPrintable(s[k]);
    }
  }

  /** The proof-of-work input is the decimal text of the value, one byte per
      character and a leading `-` (byte 0x2D) exactly when the value is
      negative, followed directly by the UTF-8 bytes of `data`. */
  lemma DigestLayout(newProof: int, previousProof: int, index: int, data: string)
    ensures var text := Decimal.Show(DigestValue(newProof, previousProof, index));
      && ToDigest(newProof, previousProof, index, data) == Encode(text) + Encode(data)
      && |Encode(text)| == |text|
      && (Encode(text)[0] == 0x2D <==> DigestValue(newProof, previousProof, index) < 0)
  {
    var text := Decimal.Show(DigestValue(newProof, previousProof, index));
    EncodeAppend(text, data);
    Json.ShowPrintable(DigestValue(newProof, previousProof, index));
    PrintableIsAscii(text);
    EncodeAscii(text);
    assert Encode(text)[0] as int == text[0] as int;
  }

  /** Reading the proof-of-work input back: when `data` does not start with a
      digit, the bytes decode to the text, and the text splits back into the
      value and `data`. */
  lemma DigestRoundTrip(newProof: int, previousProof: int, index: int, data: string)
    requires !Decimal.StartsWithDigit(data)
    ensures Decode(ToDigest(newProof, previousProof, index, data))
         == Some(Decimal.Show(DigestValue(newProof, previousProof, index)) + data)
    ensures Decimal.ParseInt(Decimal.Show(DigestValue(newProof, previousProof, index)) + data)
         == Some((DigestValue(newProof, previousProof, index), data))
  {
    Decimal.ParseShow(DigestValue(newProof, previousProof, index), data);
  }

  /** `ensure_ascii` makes the bytes `_hash` feeds to SHA-256 one per
      character of the JSON text: each byte is that character's code, a
      printable ASCII one. */
  lemma HashInputIsAscii(b: Block)
    ensures |Encode(Serialize(b))| == |Serialize(b)|
    ensures forall k | 0 <= k < |Serialize(b)| ::
              0x20 <= Encode(Serialize(b))[k] <= 0x7E && Encode(Serialize(b))[k] as int == Serialize(b)[k] as int
  {
    var text := Serialize(b);
    Json.DumpsPrintable(Fields(b));
    PrintableIsAscii(text);
    EncodeAscii(text);
    forall k | 0 <= k < |text| ensures 0x20 <= Encode(text)[k] <= 0x7E {
      assert Json.IsPrintable(text[k]);
    }
  }
}
