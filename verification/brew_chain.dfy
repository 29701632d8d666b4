/**
  The chain ledger: an append-only sequence of hash-linked blocks with a head
  pointer, the acceptance rule for a single new block, the validator for a whole
  candidate chain, wholesale replacement, and proof-of-work mining.
*/
module BrewChain {
  import opened Wrappers
  import opened JsText
  import opened Blocks

  /** The ledger after `init`: the block sequence and the head pointer `currentBlock`. */
  datatype Ledger = Ledger(chain: seq<Block>, current: Block)

  /** The head pointer designates the last block. */
  predicate Wf(l: Ledger) {
    |l.chain| > 0 && l.current == l.chain[|l.chain| - 1]
  }

  const GenesisTimestamp: int := 1511818270000
  const GenesisData: string := "Our genesis data"
  const GenesisPreviousHash: string := "-1"

  /** The hashed fields of the hard-coded first block. */
  const GenesisInput: HashInput := HashInput(GenesisTimestamp, GenesisData, 0, GenesisPreviousHash, 0)

  /** The hard-coded first block, its hash computed from its own fields at start-up. */
  function Genesis(sha: Hasher): Block {
    Block(0, GenesisTimestamp, GenesisData, GenesisPreviousHash, 0, sha(GenesisInput))
  }

  /** The decimal text of the genesis timestamp, one digit at a time. */
  lemma GenesisTimestampText()
    ensures IntToString(GenesisTimestamp) == "1511818270000"
  {
    assert NatToString(1) == "1";
    assert NatToString(15) == "15";
    assert NatToString(151) == "151";
    assert NatToString(1511) == "1511";
    assert NatToString(15118) == "15118";
    assert NatToString(151181) == "151181";
    assert NatToString(1511818) == "1511818";
    assert NatToString(15118182) == "15118182";
    assert NatToString(151181827) == "151181827";
    assert NatToString(1511818270) == "1511818270";
    assert NatToString(15118182700) == "15118182700";
    assert NatToString(151181827000) == "151181827000";
    assert NatToString(1511818270000) == "1511818270000";
  }

  /**
    With the source's hasher every process hashes the same text for its genesis
    block, so independently started ledgers agree on the genesis hash.
  */
  lemma GenesisHashIsFixed(digest: string -> string)
    ensures HashedText(GenesisInput) == "1511818270000Our genesis data0-10"
    ensures Genesis(TextHasher(digest)).hash == digest("1511818270000Our genesis data0-10")
  {
    GenesisTimestampText();
    assert IntToString(0) == "0";
    assert HashedText(GenesisInput) == "1511818270000" + GenesisData + "0" + GenesisPreviousHash + "0";
  }

  /** A fresh ledger after `init`: the genesis block alone, and the head on it. */
  function Init(sha: Hasher): (l: Ledger)
    ensures Wf(l) && |l.chain| == 1
    ensures l.current.index == 0 && l.current.timestamp == 1511818270000
    ensures l.current.data == "Our genesis data" && l.current.previousHash == "-1" && l.current.nonce == 0
    ensures l.current.hash == sha(HashInput(1511818270000, "Our genesis data", 0, "-1", 0))
    ensures HashIsValid(sha, l.current)
  {
    Ledger([Genesis(sha)], Genesis(sha))
  }

  /** `_checkNewBlockIsValid`: consecutive index, link to the head, stored hash recomputes. */
  function IsValidNewBlock(sha: Hasher, b: Block, previous: Block): (ok: bool)
    ensures ok <==> b.index == previous.index + 1 && b.previousHash == previous.hash && HashIsValid(sha, b)
  {
    if previous.index + 1 != b.index then false
    else if previous.hash != b.previousHash then false
    else HashIsValid(sha, b)
  }

  /** `addToChain`: appends the block and moves the head when it passes the check, else changes nothing. */
  function AddToChain(sha: Hasher, l: Ledger, b: Block): (r: (Ledger, bool))
    ensures r.1 <==> b.index == l.current.index + 1 && b.previousHash == l.current.hash && b.hash == sha(Hashed(b))
    ensures r.1 ==> r.0.chain == l.chain + [b] && r.0.current == b
    ensures !r.1 ==> r.0 == l
    ensures Wf(l) ==> Wf(r.0)
  {
    if IsValidNewBlock(sha, b, l.current) then (Ledger(l.chain + [b], b), true) else (l, false)
  }

  /** `latestBlock`: the head, which is the last block of a well-formed ledger. */
  function LatestBlock(l: Ledger): (b: Block)
    ensures Wf(l) ==> b == l.chain[TotalBlocks(l) - 1]
  {
    l.current
  }

  /** `totalBlocks`: the number of blocks, at least one after `init`. */
  function TotalBlocks(l: Ledger): (n: nat)
    ensures Wf(l) ==> n >= 1
  {
    |l.chain|
  }

  /** `blockChain`: the block sequence itself (an immutable value here, so callers cannot alter the ledger through it). */
  function BlockChain(l: Ledger): (c: seq<Block>)
    ensures |c| == TotalBlocks(l)
  {
    l.chain
  }

  /** `replaceChain`: installs the given sequence wholesale, without validating it. */
  function ReplaceChain(l: Ledger, c: seq<Block>): (r: Ledger)
    requires |c| > 0
    ensures r.chain == c && Wf(r)
  {
    Ledger(c, c[|c| - 1])
  }

  // ----- validating a candidate chain -----

  /** The `i`th block links to the recomputed hash of its predecessor and its stored hash meets the target. */
  predicate LinkedAt(sha: Hasher, c: seq<Block>, i: int)
    requires 1 <= i < |c|
  {
    c[i].previousHash == BlockHash(sha, c[i - 1]) && MeetsDifficulty(c[i].hash)
  }

  /** Every block after the first links to its predecessor and is mined. */
  predicate AllLinked(sha: Hasher, c: seq<Block>) {
    forall i :: 1 <= i < |c| ==> LinkedAt(sha, c, i)
  }

  /**
    What `checkNewChainIsValid` is meant to accept: a non-empty chain whose first
    block hashes to the genesis hash, every later block linked and mined. Neither
    indices nor the later blocks' stored hashes are examined.
  */
  predicate ValidChain(sha: Hasher, c: seq<Block>) {
    |c| > 0 && BlockHash(sha, c[0]) == Genesis(sha).hash && AllLinked(sha, c)
  }

  /** The walk of `checkNewChainIsValid` from the second block on. */
  method WalkLinks(sha: Hasher, c: seq<Block>) returns (ok: bool)
    requires |c| > 0
    ensures ok <==> AllLinked(sha, c)
  {
    var previous := c[0];
    var i := 1;
    while i < |c|
      invariant 1 <= i <= |c|
      invariant previous == c[i - 1]
      invariant forall j :: 1 <= j < i ==> LinkedAt(sha, c, j)
    {
      var block := c[i];
      if block.previousHash != BlockHash(sha, previous) || !MeetsDifficulty(block.hash) {
        assert !LinkedAt(sha, c, i);
        return false;
      }
      previous := block;
      i := i + 1;
    }
    return true;
  }

  /** What an accepted chain guarantees: each later block names its predecessor's recomputed hash and is mined. */
  lemma ValidChainIsLinked(sha: Hasher, c: seq<Block>)
    requires ValidChain(sha, c)
    ensures BlockHash(sha, c[0]) == Genesis(sha).hash
    ensures forall i :: 1 <= i < |c| ==> c[i].previousHash == BlockHash(sha, c[i - 1])
    ensures forall i :: 1 <= i < |c| ==> MeetsDifficulty(c[i].hash)
  {
    forall i | 1 <= i < |c|
      ensures c[i].previousHash == BlockHash(sha, c[i - 1]) && MeetsDifficulty(c[i].hash)
    {
      assert LinkedAt(sha, c, i);
    }
  }

  /**
    `checkNewChainIsValid` with the genesis comparison it evidently means,
    `_createHash(newChain[0]) !== genesisBlock.hash`, then the linkage walk.
    An empty candidate, on which the source would fail reading `newChain[0]`, is rejected.
  */
  method CheckNewChainIsValid(sha: Hasher, c: seq<Block>) returns (ok: bool)
    ensures ok <==> ValidChain(sha, c)
  {
    if |c| == 0 {
      return false;
    }
    if BlockHash(sha, c[0]) != Genesis(sha).hash {
      return false;
    }
    ok := WalkLinks(sha, c);
  }

  /** What line 83 hands to `_createHash`: a block, or, as written, a boolean. */
  datatype HashArgument = BlockArgument(block: Block) | BooleanArgument(flag: bool)

  /** The error code of Node's `crypto` when `update` is given something other than text or bytes. */
  const InvalidArgType: string := "ERR_INVALID_ARG_TYPE"

  /**
    `_createHash` over either kind of argument, with the source's text digest.
    Destructuring a boolean yields five `undefined` fields, and `undefined + undefined`
    is the Number NaN; `update` accepts only text and bytes, so it throws a TypeError.
  */
  function CreateHashOf(digest: string -> string, a: HashArgument): (r: Outcome<string>)
    ensures a.BlockArgument? ==> r == Returned(BlockHash(TextHasher(digest), a.block))
    ensures a.BooleanArgument? ==> r == Threw(InvalidArgType)
  {
    match a
    case BlockArgument(b) => Returned(digest(HashedText(Hashed(b))))
    case BooleanArgument(_) => Threw(InvalidArgType)
  }

  /**
    `checkNewChainIsValid` as written, over the source's text digest. It hashes the
    boolean `newChain[0] !== genesisBlock.hash`, which is `true` for every candidate:
    a block object, or `undefined` for an empty array, is never strictly equal to a
    string. Hashing that boolean throws, so the check never answers at all.
  */
  function CheckNewChainAsWritten(digest: string -> string, c: seq<Block>): (r: Outcome<bool>)
    ensures r == Threw(InvalidArgType)
  {
    match CreateHashOf(digest, BooleanArgument(true))
    case Threw(e) => Threw(e)
    case Returned(h) => if h != "" then Returned(false) else Returned(AllLinked(TextHasher(digest), c))
  }

  /** A digest that maps every text to sixty-four zeros. */
  function ZeroDigest(s: string): string {
    seq(64, _ => '0')
  }

  /** The discrepancy on a concrete input: a mined two-block chain the intended check accepts and the written one rejects. */
  lemma AsWrittenRejectsValidChain()
    ensures var sha := TextHasher(ZeroDigest);
            var g := Genesis(sha);
            var c := [g, Block(1, 7, "brew", BlockHash(sha, g), 0, ZeroDigest(""))];
            ValidChain(sha, c) && CheckNewChainAsWritten(ZeroDigest, c) == Threw(InvalidArgType)
  {
    var sha := TextHasher(ZeroDigest);
    var g := Genesis(sha);
    var c := [g, Block(1, 7, "brew", BlockHash(sha, g), 0, ZeroDigest(""))];
    assert MeetsDifficulty(c[1].hash);
    assert LinkedAt(sha, c, 1);
  }

  // ----- mining -----

  /** The digest the block would have with nonce `n`. */
  function NonceHash(sha: Hasher, b: Block, n: int): string {
    BlockHash(sha, b.(nonce := n))
  }

  /** `m` is `b` with a nonce found at or above b's and the matching hash, which meets the target. */
  predicate MinedFrom(sha: Hasher, b: Block, m: Block) {
    && m == b.(nonce := m.nonce, hash := m.hash)
    && m.nonce >= b.nonce
    && HashIsValid(sha, m)
    && MeetsDifficulty(m.hash)
  }

  /**
    `_proofOfWork`: tries nonces upward from `b.nonce` until the digest meets the
    target. The source loops without bound; here at most `fuel` nonces are tried.
    The nonce found is the first one that works.
  */
  method ProofOfWork(sha: Hasher, b: Block, fuel: nat) returns (r: Option<Block>)
    ensures r.Some? ==> MinedFrom(sha, b, r.value)
    ensures r.Some? ==> forall n :: b.nonce <= n < r.value.nonce ==> !MeetsDifficulty(NonceHash(sha, b, n))
    ensures r.None? ==> forall n :: b.nonce <= n < b.nonce + fuel ==> !MeetsDifficulty(NonceHash(sha, b, n))
  {
    var candidate := b;
    var tries := 0;
    while tries < fuel
      invariant 0 <= tries <= fuel
      invariant candidate == b.(nonce := b.nonce + tries, hash := candidate.hash)
      invariant forall n :: b.nonce <= n < b.nonce + tries ==> !MeetsDifficulty(NonceHash(sha, b, n))
    {
      candidate := candidate.(hash := BlockHash(sha, candidate));
      assert candidate.hash == NonceHash(sha, b, b.nonce + tries);
      if SliceFromEnd(candidate.hash, 3) == "000" {
        return Some(candidate);
      }
      candidate := candidate.(nonce := candidate.nonce + 1);
      tries := tries + 1;
    }
    return None;
  }

  /** The block `createBlock` starts mining from: on top of the head, nonce 0, no hash yet. */
  function Unmined(l: Ledger, data: string, timestamp: int): Block {
    Block(l.current.index + 1, timestamp, data, l.current.hash, 0, "")
  }

  /**
    `createBlock`: a block on top of the head carrying `data`, mined from nonce 0.
    The clock reading is the parameter `timestamp`. The ledger is not changed.
  */
  method CreateBlock(sha: Hasher, l: Ledger, data: string, timestamp: int, fuel: nat) returns (r: Option<Block>)
    ensures r.Some? ==> r.value.index == l.current.index + 1 && r.value.previousHash == l.current.hash
    ensures r.Some? ==> r.value.data == data && r.value.timestamp == timestamp && r.value.nonce >= 0
    ensures r.Some? ==> r.value.hash == sha(Hashed(r.value)) && MeetsDifficulty(r.value.hash)
    ensures r.None? ==> forall n :: 0 <= n < fuel ==> !MeetsDifficulty(NonceHash(sha, Unmined(l, data, timestamp), n))
  {
    r := ProofOfWork(sha, Unmined(l, data, timestamp), fuel);
  }

  /** A block fresh from `CreateBlock` on the current head always passes `addToChain`. */
  lemma MinedBlockIsAccepted(sha: Hasher, l: Ledger, b: Block)
    requires b.index == l.current.index + 1 && b.previousHash == l.current.hash
    requires b.hash == sha(Hashed(b))
    ensures AddToChain(sha, l, b).1
    ensures AddToChain(sha, l, b).0.chain == l.chain + [b]
  {
  }

  // ----- the chain invariant kept by init and addToChain -----

  /** The `i`th block follows its predecessor: next index, stored link, stored hash recomputes. */
  predicate ChainedAt(sha: Hasher, c: seq<Block>, i: int)
    requires 1 <= i < |c|
  {
    c[i].index == c[i - 1].index + 1 && c[i].previousHash == c[i - 1].hash && HashIsValid(sha, c[i])
  }

  /** The chain starts at genesis and each later block passes the new-block check against its predecessor. */
  predicate WellLinked(sha: Hasher, c: seq<Block>) {
    && |c| > 0
    && c[0] == Genesis(sha)
    && forall i :: 1 <= i < |c| ==> ChainedAt(sha, c, i)
  }

  /** Every block after genesis carries a hash meeting the target. */
  predicate AllMined(c: seq<Block>) {
    forall i :: 1 <= i < |c| ==> MeetsDifficulty(c[i].hash)
  }

  lemma InitIsWellLinked(sha: Hasher)
    ensures WellLinked(sha, Init(sha).chain)
    ensures AllMined(Init(sha).chain)
  {
  }

  /** `addToChain` keeps a well-linked, well-formed ledger well linked. */
  lemma AddPreservesWellLinked(sha: Hasher, l: Ledger, b: Block)
    requires Wf(l) && WellLinked(sha, l.chain)
    ensures WellLinked(sha, AddToChain(sha, l, b).0.chain)
  {
    var r := AddToChain(sha, l, b);
    if r.1 {
      var c := r.0.chain;
      forall i | 1 <= i < |c|
        ensures ChainedAt(sha, c, i)
      {
        if i < |l.chain| {
          assert ChainedAt(sha, l.chain, i);
        }
      }
    }
  }

  /** In a well-linked chain the `i`th block has index `i`. */
  lemma {:induction false} WellLinkedIndices(sha: Hasher, c: seq<Block>, i: int)
    requires WellLinked(sha, c)
    requires 0 <= i < |c|
    ensures c[i].index == i
  {
    if i > 0 {
      WellLinkedIndices(sha, c, i - 1);
      assert ChainedAt(sha, c, i);
    }
  }

  /** A well-linked chain is in index order, so sorting it by index changes nothing. */
  lemma WellLinkedIsSorted(sha: Hasher, c: seq<Block>)
    requires WellLinked(sha, c)
    ensures forall i, j :: 0 <= i < j < |c| ==> c[i].index < c[j].index
  {
    forall i, j | 0 <= i < j < |c|
      ensures c[i].index < c[j].index
    {
      WellLinkedIndices(sha, c, i);
      WellLinkedIndices(sha, c, j);
    }
  }

  /** A chain built by `init` and `addToChain` from mined blocks is one the chain validator accepts. */
  lemma WellLinkedMinedIsValid(sha: Hasher, c: seq<Block>)
    requires WellLinked(sha, c) && AllMined(c)
    ensures ValidChain(sha, c)
  {
    assert HashIsValid(sha, c[0]);
    forall i | 1 <= i < |c|
      ensures LinkedAt(sha, c, i)
    {
      assert ChainedAt(sha, c, i);
      if i - 1 >= 1 {
        assert ChainedAt(sha, c, i - 1);
      }
    }
  }

  /**
    The converse fails: the validator checks neither indices nor stored hashes, so
    it accepts a chain that `addToChain` could never have built.
  */
  lemma ValidChainNeedNotBeWellLinked()
    ensures var sha: Hasher := _ => ZeroDigest("");
            var g := Genesis(sha);
            var c := [g, Block(5, 7, "brew", BlockHash(sha, g), 0, "000")];
            ValidChain(sha, c) && !WellLinked(sha, c)
  {
    var sha: Hasher := _ => ZeroDigest("");
    var g := Genesis(sha);
    var c := [g, Block(5, 7, "brew", BlockHash(sha, g), 0, "000")];
    assert MeetsDifficulty(c[1].hash);
    assert LinkedAt(sha, c, 1);
    assert !ChainedAt(sha, c, 1);
  }

}
