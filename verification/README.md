# BrewChain consensus engine in Dafny

This project models the consensus engine of BrewChain, a minimal peer-to-peer ledger. It has two layers.

- **The chain ledger** (`brewChain.js`, module `BrewChain`). This is an append-only sequence of hash-linked blocks with a head pointer (`currentBlock`) and a fixed genesis block. It covers:
  - the three-part check that `addToChain` applies to a new block;
  - the whole-chain validator `checkNewChainIsValid`;
  - wholesale `replaceChain`;
  - proof-of-work mining, which searches for a nonce whose hex digest ends in `"000"`.
- **The node** (`brewNode.js`, module `BrewNode`). It holds a ledger and the list of open peer connections, and it decides what to do in these cases:
  - a block arrives: ignore it, append it, or ask every peer for its chain;
  - a chain arrives: sort it by index, then adopt it only if it is strictly longer and valid;
  - the node mines locally: mine, append, broadcast;
  - a message arrives: dispatch it by kind;
  - a connection opens or closes.

Everything is immutable. A node transition is a pure function from a `Node` (ledger plus peer list) to a `Step`: the new node plus the messages sent, in order. A peer is an opaque id, and "send" means adding an entry to the outbox.

Supporting modules:
- `JsText`: the two JavaScript string behaviours the hashing relies on. These are the decimal rendering of integer Numbers by `+`, and `slice(-k)`.
- `Blocks`: the block record, the hashed fields and the difficulty test.
- `IndexSort`: the stable insertion sort that stands for `blocks.sort((a, b) => a.index - b.index)`.
- `Wrappers`: `Option`.

**The hash.** SHA-256 is a foreign library, so the model never fixes it. Every hashing operation takes a `Hasher`: a function of the five hashed fields (timestamp, data, index, previousHash, nonce). The source's own hasher is `TextHasher(digest)`. It applies a digest over text to the exact concatenation from line 39 of `brewChain.js`, with numbers in decimal. Every property is proved for every `Hasher`, so it holds for the real one in particular. The text-level concatenation is not injective: data `"a1"` with index 2 and data `"a"` with index 12 hash the same text. `HashedTextCollision` proves this collision. A general `Hasher` may be injective on the fields, so no property proved for every `Hasher` depends on the collision.

**The model follows the code as written wherever the code and its evident intent differ:**
- A second `init` pushes another genesis block onto the chain (`brewChain.js:32`); it does not reset the ledger.
- The validator checks the proof-of-work suffix only on blocks after the first. It tests each block's *stored* hash, and it never checks indices or whether a stored hash recomputes (`brewChain.js:90-103`). `ValidChainNeedNotBeWellLinked` exhibits a chain the validator accepts that `addToChain` could never have built.
- A malformed message is rethrown from the listener, not dropped (`brewNode.js:91-92`). Message parsing is not modelled.
- The `switch` over message kinds (`brewNode.js:95-114`) is never reached as written (see Findings). The corrected handler, which reaches it, is what the rest of the model uses.

## Model

| member | source | states |
|---|---|---|
| JsText.SliceFromEnd | brewChain.js:97 | `s.slice(-k)` is the suffix of `s` of length `min(k, |s|)` for `k >= 1`; `s.slice(-0)` is the whole string |
| Blocks.HashedTextCollision | brewChain.js:36-41 | `_createHash` concatenates the fields without separators, so two different blocks (data `"a1"` with index 2, data `"a"` with index 12) get the same text and hence the same hash under any digest |
| Blocks.ValidHashIsUnique | brewChain.js:71-73 | `_hashIsValid` compares the stored hash with the digest of the other fields, so storing the recomputed digest always makes a block valid, and no other stored hash is valid |
| Blocks.MeetsDifficultyIsZeroSuffix | brewChain.js:131 | the test `hash.slice(-3) === '000'` holds exactly when the digest has at least three characters and the last three are `'0'` |
| IndexSort.SortByIndex | brewNode.js:198 | the received blocks come back in non-decreasing index order, as a permutation of the input (same multiset, same length) |
| IndexSort.SortIsStable | brewNode.js:198 | the sort is stable, as `Array.prototype.sort` is: for every index value, the blocks carrying it appear in the same relative order before and after sorting |
| IndexSort.SortSortedIsIdentity | brewNode.js:198 | sorting a chain that is already in index order returns that same chain |
| BrewChain.GenesisHashIsFixed | brewChain.js:24-39 | with the source's hasher, the genesis block hashes the fixed text `"1511818270000Our genesis data0-10"`, so independently started ledgers get equal genesis hashes |
| BrewChain.Init | brewChain.js:23-34 | a fresh ledger holds exactly one block, which is also the head. The block has index 0, timestamp 1511818270000, data `'Our genesis data'`, previousHash `"-1"` and nonce 0, and its hash is the digest of those fields |
| BrewChain.InitIsWellLinked | brewChain.js:23-34 | the ledger after `init` satisfies the chain invariant: it starts at genesis, and every later block has the next index, links to its predecessor's stored hash and has a hash that recomputes |
| BrewChain.IsValidNewBlock | brewChain.js:60-69 | `_checkNewBlockIsValid` accepts exactly when the block's index is the previous block's plus one, its previousHash is the previous block's hash, and its stored hash recomputes; failing any one of the three rejects |
| BrewChain.AddToChain | brewChain.js:50-73 | accepts exactly when the index is the head's plus one, previousHash is the head's hash and the stored hash recomputes. On acceptance the chain grows by exactly that block and the head becomes it. On rejection nothing changes. A head-is-last ledger stays head-is-last |
| BrewChain.AddPreservesWellLinked | brewChain.js:50-69 | `addToChain` keeps the chain invariant, whatever block it is offered |
| BrewChain.LatestBlock | brewChain.js:145-147 | on a well-formed ledger, the head is the last block of the chain |
| BrewChain.TotalBlocks | brewChain.js:155-157 | a well-formed ledger holds at least one block |
| BrewChain.BlockChain | brewChain.js:165-167 | the chain returned has `totalBlocks` elements |
| BrewChain.ReplaceChain | brewChain.js:175-178 | without any validation, the chain becomes exactly the argument and the head becomes its last block |
| BrewChain.WalkLinks | brewChain.js:87-105 | the loop answers true exactly when every block after the first names its predecessor's recomputed hash and has a stored hash ending in `"000"` |
| BrewChain.CheckNewChainIsValid | brewChain.js:82-106 | with the genesis comparison corrected: accepts exactly when the chain is non-empty, its first block hashes to the genesis hash and the walk succeeds |
| BrewChain.ValidChainIsLinked | brewChain.js:90-103 | in every accepted chain, for each `i >= 1`, `chain[i].previousHash` is the recomputed hash of `chain[i-1]` and `chain[i].hash` ends in `"000"` |
| BrewChain.CreateHashOf | brewChain.js:36-41 | `_createHash` of a block returns the digest of its concatenated fields; `_createHash` of a boolean, whose destructured fields are all `undefined`, hands the Number NaN to `update` and throws a TypeError |
| BrewChain.CheckNewChainAsWritten | brewChain.js:82-85 | as written, the check hashes the boolean `newChain[0] !== genesisBlock.hash` and throws a TypeError for every candidate, the empty one included; it never answers true or false |
| BrewChain.AsWrittenRejectsValidChain | brewChain.js:82-106 | a concrete mined two-block chain that the corrected check accepts and on which the written check throws |
| BrewChain.ProofOfWork | brewChain.js:128-137 | a returned block differs from the input only in nonce and hash. Its nonce is the first one at or above the starting nonce whose digest ends in `"000"`, and its hash is that digest. If the search gives up, none of the nonces tried worked |
| BrewChain.CreateBlock | brewChain.js:115-126 | a mined block has index head+1, previousHash equal to the head's hash, the given data and timestamp, a nonce of at least 0, a hash that recomputes and ends in `"000"`. It does not touch the ledger |
| BrewChain.MinedBlockIsAccepted | brewNode.js:232-234 | a block mined on the current head always passes `addToChain`, which appends it |
| BrewChain.WellLinkedIndices | brewChain.js:61 | in a chain that keeps the invariant, the block at position `i` has index `i` |
| BrewChain.WellLinkedIsSorted | brewChain.js:61-64 | a chain that keeps the invariant has strictly increasing indices |
| BrewChain.WellLinkedMinedIsValid | brewChain.js:82-106 | a chain built by `init` and `addToChain` from mined blocks is one the chain validator accepts |
| BrewChain.ValidChainNeedNotBeWellLinked | brewChain.js:90-103 | the converse fails: the validator accepts a chain whose second block has index 5 and a stored hash that does not recompute |
| BrewNode.NodeInit | brewNode.js:38-39 | a started node has no peers and a well-formed ledger holding only the genesis block |
| BrewNode.Broadcast | brewNode.js:219-223 | exactly one copy of the message per peer, in peer-list order, and nothing to anyone else |
| BrewNode.BroadcastMessage | brewNode.js:219-223 | broadcasting changes neither the ledger nor the peer list, and sends the message once to each peer in order |
| BrewNode.ReceiveBlock | brewNode.js:168-188 | a block whose index is at most the head's changes nothing and sends nothing. A block that names the head as predecessor is appended exactly when `addToChain` would accept it, and nothing is sent. Any other higher block leaves the ledger alone and sends `REQUEST_CHAIN` once to every peer. The peer list never changes |
| BrewNode.ReceiveBlockPreservesWellLinked | brewNode.js:168-188 | receiving a block keeps the head-is-last shape and the chain invariant |
| BrewNode.ReceiveChain | brewNode.js:197-207 | nothing is sent. A candidate no longer than the local chain changes nothing. A strictly longer candidate whose sorted form validates replaces the chain with that sorted form. Any replacement is strictly longer, valid, and exactly the stably sorted received blocks (hence sorted by index and a permutation of them). The chain never shrinks |
| BrewNode.ReceiveChainAsWritten | brewNode.js:197-207 | as written, a candidate no longer than the local chain changes nothing and sends nothing, because `&&` short-circuits; any longer candidate reaches the chain check, whose TypeError escapes |
| BrewNode.ChainNeverReplacedAsWritten | brewNode.js:200-204 | as written, a received chain never replaces the ledger, however long and well formed it is: the call either changes nothing or throws |
| BrewNode.HandleMessage | brewNode.js:95-114 | with dispatch reached: `REQUEST_CHAIN` is answered with the whole chain, and `REQUEST_BLOCK` with the head, in each case to the asking peer only and with no state change. `BLOCK` goes to the block-reception rule and `CHAIN` to the chain-reception rule. An unknown event is ignored. The peer list never changes, the chain never shrinks, head-is-last is kept, and messages go only to the sender or to listed peers |
| BrewNode.HandleMessageAsWritten | brewNode.js:88-93 | as written, the handler returns right after parsing, so it neither changes the node nor sends anything |
| BrewNode.DispatchSkippedAsWritten | brewNode.js:88-114 | a block request goes unanswered as written, but is answered with the head once dispatched |
| BrewNode.NodeCreateBlock | brewNode.js:232-236 | after mining, the chain is the old chain plus one mined block on the old head, the head is that block, the peers are unchanged, and the block goes to every peer as `BLOCK`. The chain invariant is kept |
| BrewNode.GetStats | brewNode.js:244-248 | the reported block count is the length of the chain |
| BrewNode.StatsCountHeadIndex | brewNode.js:244-248 | on a ledger that keeps the chain invariant, the block count is the head's index plus one |
| BrewNode.InitConnection | brewNode.js:57-61 | the ledger is unchanged, the peer joins the end of the list, and it alone is sent one `BLOCK` message carrying the current head |
| BrewNode.ConnectThenCloseRestores | brewNode.js:57-61 | opening a connection to a peer not yet listed and then closing it restores the node exactly: closing undoes opening |
| BrewNode.IndexOf | brewNode.js:158 | `indexOf` is -1 exactly for an absent peer; otherwise it is the position of the first occurrence |
| BrewNode.SpliceOne | brewNode.js:158 | `splice(start, 1)` removes the element at `start`; a negative start counts from the end, so -1 removes the last element; a start below `-length` removes the first; a start at or past the end removes nothing |
| BrewNode.CloseConnectionAsWritten | brewNode.js:156-159 | as written, closing an absent peer removes the last peer in the list. For a present peer it agrees with the corrected close |
| BrewNode.CloseConnection | brewNode.js:156-159 | a present peer loses exactly its first occurrence and the others keep their order; an absent peer changes nothing; as multisets, the list loses one copy of the peer |
| BrewNode.DoubleCloseDropsBystander | brewNode.js:63-68 | when the `error` and `close` handlers both fire for peer 1 in `[1, 2]`, the as-written code empties the list, while the corrected close leaves `[2]` |
| BrewNode.LongerMinedChainWins | brewNode.js:197-207 | a node with a shorter chain that receives the chain of a node built by `init` and `addToChain` from mined blocks adopts exactly that chain |

## Left out

- Sockets and the WebSocket server and client are not modelled: the node's `init` server set-up, `addPeer`, and the `on('error' / 'close' / 'open' / 'message')` registrations. These are network I/O and callbacks. Only their effect on the peer list is kept, as `InitConnection` and `CloseConnection`.
- The `open` handler in `addPeer` names its parameter `ws` (`brewNode.js:268`). That shadows the socket, so `_initConnection` receives the event argument instead of the socket. This is I/O-level wiring and is noted only.
- JSON parsing and serialising of envelopes are not modelled (`brewNode.js:89-93`, 126-131, 142-147, 221). Messages are a tagged union, and a failed parse (which the source rethrows) is not represented.
- The internals of SHA-256 are not modelled: it is foreign code, taken as a parameter.
- The clock reading `new Date().getTime()` is not modelled; it becomes the `timestamp` parameter.
- Console logging, the `.env` configuration, the HTTP front end in `app.js` and the launch scripts under `test/` are not modelled. The scripts contain no assertions.
- Concurrency is not modelled: nothing here covers mining blocking the event loop.
- JavaScript Numbers are not modelled as doubles. Indices and nonces are unbounded integers, with no precision loss above 2^53, and decimal text is exact below 10^21.
- BrewChain.ProofOfWork: tries at most `fuel` nonces and may return `None`. The source loops without bound, and no termination proof exists for an arbitrary digest.
- BrewChain.CreateBlock: inherits the fuel bound of `ProofOfWork`. The unmined block carries `""` where the source leaves `hash` unset.
- BrewNode.NodeCreateBlock: inherits the fuel bound. When the search gives up, the node is unchanged and nothing is sent; the source would instead never return.
- BrewChain.ReplaceChain: requires a non-empty chain. On an empty array the source sets the head to `undefined`. Its only caller passes a chain longer than the local one.
- BrewChain.CheckNewChainIsValid: rejects an empty candidate. The source would fail reading fields of `newChain[0]`. The node only calls it on candidates longer than its own chain.
- BrewChain.CheckNewChainAsWritten: the TypeError is modelled as an outcome carrying Node's error code `ERR_INVALID_ARG_TYPE`; how the exception then travels out of the socket listener is not modelled. The digest branch after `update` is kept for the shape of the code but cannot be reached.
- A second call of the ledger's `init` is not modelled. It would append a second genesis block.

## Findings

| source | as written | input that shows it | evidently intended | confidence | as-written member | corrected member |
|---|---|---|---|---|---|---|
| brewChain.js:83 | `this._createHash(newChain[0] !== this.genesisBlock.hash)` hashes a boolean; its destructured fields are `undefined`, their sum is the Number NaN, and `update(NaN)` throws a TypeError | any candidate, e.g. a mined two-block chain starting at genesis: the check throws a TypeError for every candidate, so a longer chain is never adopted | `this._createHash(newChain[0]) !== this.genesisBlock.hash` | not executed; high | BrewChain.CheckNewChainAsWritten, BrewChain.AsWrittenRejectsValidChain | BrewChain.CheckNewChainIsValid |
| brewNode.js:90 | `return (msg = JSON.parse(data));` inside `try` leaves the listener before the `switch` | a `REQUEST_BLOCK` message: as written nothing is sent back | parse, then dispatch on `msg.event` | not executed; high | BrewNode.HandleMessageAsWritten, BrewNode.DispatchSkippedAsWritten | BrewNode.HandleMessage |
| brewNode.js:158 | `splice(indexOf(ws), 1)` with `indexOf` returning -1 for an absent socket | peers `[1, 2]`; peer 1 fires `error`, then `close`: the second call removes peer 2 | remove the socket only when present | not executed; high | BrewNode.CloseConnectionAsWritten, BrewNode.DoubleCloseDropsBystander | BrewNode.CloseConnection |
