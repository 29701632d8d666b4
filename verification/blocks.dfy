/**
  Blocks and their digest. The source hashes the text
  `timestamp + data + index + previousHash + nonce` with SHA-256 and keeps the hex
  digest. SHA-256 is a foreign library, so every operation that hashes takes the
  digest as a parameter of type `Hasher`, a function of the five hashed fields
  in that order; `TextHasher` builds the source's own kind of hasher from a digest
  over text and the exact concatenation. Nothing in the model depends on which
  digest is used.
*/
module Blocks {
  import opened JsText

  datatype Block = Block(
    index: int,
    timestamp: int,
    data: string,
    previousHash: string,
    nonce: int,
    hash: string)

  /** The hashed fields, in the order they are concatenated. The stored `hash` is not among them. */
  datatype HashInput = HashInput(timestamp: int, data: string, index: int, previousHash: string, nonce: int)

  /** A digest of the hashed fields. */
  type Hasher = HashInput -> string

  function Hashed(b: Block): HashInput {
    HashInput(b.timestamp, b.data, b.index, b.previousHash, b.nonce)
  }

  /** The text the source hands to SHA-256: the five fields concatenated, numbers in decimal. */
  function HashedText(i: HashInput): string {
    IntToString(i.timestamp) + i.data + IntToString(i.index) + i.previousHash + IntToString(i.nonce)
  }

  /** The source's hasher: a digest over text applied to the concatenated fields. */
  function TextHasher(digest: string -> string): Hasher {
    i => digest(HashedText(i))
  }

  /**
    The concatenation loses the field boundaries: data `"a1"` with index 2 and data
    `"a"` with index 12 give the same text, so the source's hasher cannot tell
    these two different blocks apart, whatever the digest.
  */
  lemma HashedTextCollision(digest: string -> string)
    ensures var x := HashInput(7, "a1", 2, "p", 0);
            var y := HashInput(7, "a", 12, "p", 0);
            x != y && HashedText(x) == HashedText(y) && TextHasher(digest)(x) == TextHasher(digest)(y)
  {
    var x := HashInput(7, "a1", 2, "p", 0);
    var y := HashInput(7, "a", 12, "p", 0);
    assert IntToString(2) == "2";
    assert IntToString(12) == "12";
    assert IntToString(7) == "7";
    assert IntToString(0) == "0";
    assert HashedText(x) == "7a12p0";
    assert HashedText(y) == "7a12p0";
  }

  /** The digest of a block's fields, computed with `sha`. */
  function BlockHash(sha: Hasher, b: Block): string {
    sha(Hashed(b))
  }

  /** `_hashIsValid`: the stored hash equals the recomputed one. */
  predicate HashIsValid(sha: Hasher, b: Block) {
    BlockHash(sha, b) == b.hash
  }

  /**
    The stored hash is not among the hashed fields, so each block has exactly one
    valid stored hash: its recomputed digest, whatever the block held before.
  */
  lemma ValidHashIsUnique(sha: Hasher, b: Block, h: string)
    ensures HashIsValid(sha, b.(hash := BlockHash(sha, b)))
    ensures HashIsValid(sha, b) && HashIsValid(sha, b.(hash := h)) ==> h == b.hash
  {
    assert Hashed(b.(hash := h)) == Hashed(b);
  }

  /** The proof-of-work target: the digest's last characters. */
  const Difficulty: string := "000"

  /** The digest ends in the proof-of-work target, tested as `hash.slice(-3) === '000'`. */
  predicate MeetsDifficulty(h: string) {
    SliceFromEnd(h, |Difficulty|) == Difficulty
  }

  /** The slice test is exactly "at least three characters, the last three being zeros". */
  lemma MeetsDifficultyIsZeroSuffix(h: string)
    ensures MeetsDifficulty(h) <==> |h| >= 3 && h[|h| - 3] == '0' && h[|h| - 2] == '0' && h[|h| - 1] == '0'
  {
    if |h| >= 3 {
      var t := h[|h| - 3..];
      assert t == [h[|h| - 3], h[|h| - 2], h[|h| - 1]];
    }
  }

}
