/**
  The node: a ledger plus the list of open peer connections, and the decisions
  it takes when a block or chain arrives, when it mines locally and when a
  connection opens or closes. Sockets are opaque peer ids; sending a message is
  an entry in the outbox a step returns.
*/
module BrewNode {
  import opened Wrappers
  import opened Blocks
  import opened IndexSort
  import opened BrewChain

  /** An open connection, known only by its identity. */
  type PeerId = nat

  /** The four message kinds, plus any other event name, which is logged and ignored. */
  datatype Message =
    | RequestChain(note: string)
    | RequestBlock
    | BlockMsg(block: Block)
    | ChainMsg(blocks: seq<Block>)
    | Unrecognized(event: string)

  /** One message handed to one peer's socket. */
  datatype Send = Send(to: PeerId, msg: Message)

  /** `BrewNode` state: the ledger and `brewSockets`, in connection order. */
  datatype Node = Node(ledger: Ledger, peers: seq<PeerId>)

  /** The node after a transition, and what it sent, in order. */
  datatype Step = Step(node: Node, out: seq<Send>)

  /** The text the node sends with its chain request. */
  const ChainNeeded: string := "Chain needed!"

  /** `init`: a ledger holding only the genesis block and no peers yet. */
  function NodeInit(sha: Hasher): (n: Node)
    ensures n.peers == [] && Wf(n.ledger) && WellLinked(sha, n.ledger.chain)
    ensures n.ledger.chain == [Genesis(sha)]
  {
    InitIsWellLinked(sha);
    Node(Init(sha), [])
  }

  /** `broadcastMessage`: the message once to every peer, in list order. */
  function Broadcast(peers: seq<PeerId>, m: Message): (out: seq<Send>)
    ensures |out| == |peers|
    ensures forall i :: 0 <= i < |peers| ==> out[i] == Send(peers[i], m)
    ensures forall s :: s in out <==> s.msg == m && s.to in peers
  {
    if peers == [] then [] else [Send(peers[0], m)] + Broadcast(peers[1..], m)
  }

  /** `broadcastMessage` on a node: neither the ledger nor the peer list changes. */
  function BroadcastMessage(n: Node, m: Message): (r: Step)
    ensures r.node == n
    ensures |r.out| == |n.peers| && forall i :: 0 <= i < |n.peers| ==> r.out[i] == Send(n.peers[i], m)
  {
    Step(n, Broadcast(n.peers, m))
  }

  /**
    `_processedReceivedBlock`: a block no higher than the head is ignored; one that
    names the head as predecessor goes to `addToChain`; any other block higher than
    the head makes the node ask every peer for its chain.
  */
  function ReceiveBlock(sha: Hasher, n: Node, b: Block): (r: Step)
    ensures r.node.peers == n.peers
    ensures b.index <= n.ledger.current.index ==> r == Step(n, [])
    ensures b.index > n.ledger.current.index && b.previousHash == n.ledger.current.hash ==>
      && r.out == []
      && (if b.index == n.ledger.current.index + 1 && HashIsValid(sha, b)
          then r.node.ledger.chain == n.ledger.chain + [b] && r.node.ledger.current == b
          else r.node.ledger == n.ledger)
    ensures b.index > n.ledger.current.index && b.previousHash != n.ledger.current.hash ==>
      && r.node.ledger == n.ledger
      && |r.out| == |n.peers|
      && forall i :: 0 <= i < |n.peers| ==> r.out[i] == Send(n.peers[i], RequestChain(ChainNeeded))
  {
    var head := LatestBlock(n.ledger);
    if b.index <= head.index then
      Step(n, [])
    else if b.previousHash == head.hash then
      Step(n.(ledger := AddToChain(sha, n.ledger, b).0), [])
    else
      BroadcastMessage(n, RequestChain(ChainNeeded))
  }

  /** Receiving a block keeps a ledger built by `init` and `addToChain` in that shape. */
  lemma ReceiveBlockPreservesWellLinked(sha: Hasher, n: Node, b: Block)
    requires Wf(n.ledger) && WellLinked(sha, n.ledger.chain)
    ensures Wf(ReceiveBlock(sha, n, b).node.ledger)
    ensures WellLinked(sha, ReceiveBlock(sha, n, b).node.ledger.chain)
  {
    AddPreservesWellLinked(sha, n.ledger, b);
  }

  /**
    `_processedReceivedChain`: the candidate, sorted by index, replaces the ledger
    only when it is strictly longer and passes the chain check. Nothing is sent.
  */
  function ReceiveChain(sha: Hasher, n: Node, blocks: seq<Block>): (r: Step)
    ensures r.out == [] && r.node.peers == n.peers
    ensures r.node.ledger != n.ledger ==>
      && |blocks| > |n.ledger.chain|
      && SortedByIndex(r.node.ledger.chain)
      && multiset(r.node.ledger.chain) == multiset(blocks)
      && ValidChain(sha, r.node.ledger.chain)
      && r.node.ledger.chain == SortByIndex(blocks)
    ensures |blocks| <= |n.ledger.chain| ==> r.node == n
    ensures |blocks| > |n.ledger.chain| && ValidChain(sha, SortByIndex(blocks)) ==>
      r.node.ledger.chain == SortByIndex(blocks)
    ensures Wf(n.ledger) ==> Wf(r.node.ledger)
    ensures |r.node.ledger.chain| >= |n.ledger.chain|
  {
    var newChain := SortByIndex(blocks);
    if |newChain| > TotalBlocks(n.ledger) && ValidChain(sha, newChain) then
      Step(n.(ledger := ReplaceChain(n.ledger, newChain)), [])
    else
      Step(n, [])
  }

  /**
    `_processedReceivedChain` as written. A candidate no longer than the local chain
    is dropped by the short-circuit `&&`; any longer one reaches the chain check as
    written, whose TypeError escapes the handler.
  */
  function ReceiveChainAsWritten(digest: string -> string, n: Node, blocks: seq<Block>): (r: Outcome<Step>)
    ensures |blocks| <= |n.ledger.chain| ==> r == Returned(Step(n, []))
    ensures |blocks| > |n.ledger.chain| ==> r == Threw(InvalidArgType)
  {
    var newChain := SortByIndex(blocks);
    if |newChain| > TotalBlocks(n.ledger) then
      match CheckNewChainAsWritten(digest, newChain)
      case Threw(e) => Threw(e)
      case Returned(_) =>
        // the check as written never returns, so the replacement is never reached
        assert false; Returned(Step(n, []))
    else
      Returned(Step(n, []))
  }

  /** As written, a received chain never replaces the ledger: the call either changes nothing or throws. */
  lemma ChainNeverReplacedAsWritten(digest: string -> string, n: Node, blocks: seq<Block>)
    ensures ReceiveChainAsWritten(digest, n, blocks) in {Returned(Step(n, [])), Threw(InvalidArgType)}
  {
  }

  /**
    The message handler with its dispatch reached: answer a chain request with the
    chain and a block request with the head, both to the asking peer only; hand
    blocks and chains to the reception rules; ignore anything else.
  */
  function HandleMessage(sha: Hasher, n: Node, from: PeerId, m: Message): (r: Step)
    ensures r.node.peers == n.peers
    ensures Wf(n.ledger) ==> Wf(r.node.ledger)
    ensures |r.node.ledger.chain| >= |n.ledger.chain|
    ensures m.RequestChain? ==> r.node == n && r.out == [Send(from, ChainMsg(n.ledger.chain))]
    ensures m.RequestBlock? ==> r.node == n && r.out == [Send(from, BlockMsg(n.ledger.current))]
    ensures m.BlockMsg? ==> r == ReceiveBlock(sha, n, m.block)
    ensures m.ChainMsg? ==> r == ReceiveChain(sha, n, m.blocks)
    ensures m.Unrecognized? ==> r == Step(n, [])
    ensures forall s :: s in r.out ==> s.to == from || s.to in n.peers
  {
    match m
    case RequestChain(_) => Step(n, [Send(from, ChainMsg(BlockChain(n.ledger)))])
    case RequestBlock => Step(n, [Send(from, BlockMsg(LatestBlock(n.ledger)))])
    case BlockMsg(b) => ReceiveBlock(sha, n, b)
    case ChainMsg(c) => ReceiveChain(sha, n, c)
    case Unrecognized(_) => Step(n, [])
  }

  /**
    The message handler as written: the parse is returned from inside its `try`,
    so the dispatch after it never runs and every well-formed message is dropped.
  */
  function HandleMessageAsWritten(n: Node, from: PeerId, m: Message): (r: Step)
    ensures r.node == n && r.out == []
  {
    Step(n, [])
  }

  /** The discrepancy: a block request goes unanswered as written, and is answered with the head once dispatched. */
  lemma DispatchSkippedAsWritten(sha: Hasher, n: Node, from: PeerId)
    ensures HandleMessageAsWritten(n, from, RequestBlock).out == []
    ensures HandleMessage(sha, n, from, RequestBlock).out == [Send(from, BlockMsg(n.ledger.current))]
  {
  }

  /**
    Node-level `createBlock`: mine on the head, append (which always succeeds for a
    block just mined on the head), then send it as a block message to every peer.
    The source mines without bound; here the search may give up after `fuel` nonces,
    in which case nothing changes and nothing is sent.
  */
  method NodeCreateBlock(sha: Hasher, n: Node, data: string, timestamp: int, fuel: nat) returns (r: Option<Step>)
    ensures r.Some? ==>
      var c := r.value.node.ledger.chain;
      var b := r.value.node.ledger.current;
      && c == n.ledger.chain + [b]
      && b.index == n.ledger.current.index + 1 && b.previousHash == n.ledger.current.hash
      && b.data == data && b.timestamp == timestamp
      && HashIsValid(sha, b) && MeetsDifficulty(b.hash)
      && r.value.node.peers == n.peers
      && r.value.out == Broadcast(n.peers, BlockMsg(b))
    ensures r.Some? && Wf(n.ledger) && WellLinked(sha, n.ledger.chain) ==>
      Wf(r.value.node.ledger) && WellLinked(sha, r.value.node.ledger.chain)
    ensures r.None? ==> forall k :: 0 <= k < fuel ==> !MeetsDifficulty(NonceHash(sha, Unmined(n.ledger, data, timestamp), k))
  {
    var mined := CreateBlock(sha, n.ledger, data, timestamp, fuel);
    if mined.None? {
      return None;
    }
    var b := mined.value;
    var added := AddToChain(sha, n.ledger, b);
    if Wf(n.ledger) && WellLinked(sha, n.ledger.chain) {
      AddPreservesWellLinked(sha, n.ledger, b);
    }
    var sent := BroadcastMessage(n.(ledger := added.0), BlockMsg(b));
    return Some(sent);
  }

  /** `getStats`: the number of blocks. */
  datatype Stats = Stats(blocks: nat)

  function GetStats(n: Node): (s: Stats)
    ensures s.blocks == |BlockChain(n.ledger)|
  {
    Stats(TotalBlocks(n.ledger))
  }

  /** On a ledger built by `init` and `addToChain`, the block count is the head's index plus one. */
  lemma StatsCountHeadIndex(sha: Hasher, n: Node)
    requires Wf(n.ledger) && WellLinked(sha, n.ledger.chain)
    ensures GetStats(n).blocks == n.ledger.current.index + 1
  {
    WellLinkedIndices(sha, n.ledger.chain, |n.ledger.chain| - 1);
  }

  /**
    `_initConnection`: the new peer is told the local head with one block message
    and joins the end of the peer list.
  */
  function InitConnection(n: Node, p: PeerId): (r: Step)
    ensures r.node.ledger == n.ledger
    ensures r.node.peers == n.peers + [p]
    ensures r.out == [Send(p, BlockMsg(n.ledger.current))]
  {
    Step(n.(peers := n.peers + [p]), [Send(p, BlockMsg(LatestBlock(n.ledger)))])
  }

  /** Opening a connection to a new peer and then closing it leaves the peer list as it was. */
  lemma ConnectThenCloseRestores(n: Node, p: PeerId)
    requires p !in n.peers
    ensures CloseConnection(InitConnection(n, p).node, p) == n
  {
    var peers := n.peers + [p];
    assert peers[..|n.peers|] == n.peers;
    var k := IndexOf(peers, p);
    assert k == |n.peers|;
    assert peers[..k] + peers[k + 1..] == n.peers;
  }

  /** `Array.prototype.indexOf`: the first position holding `p`, or -1. */
  function IndexOf(peers: seq<PeerId>, p: PeerId): (k: int)
    ensures k == -1 <==> p !in peers
    ensures k != -1 ==> 0 <= k < |peers| && peers[k] == p && p !in peers[..k]
  {
    if peers == [] then -1
    else if peers[0] == p then 0
    else
      var k := IndexOf(peers[1..], p);
      assert peers[1..][..if k == -1 then 0 else k] == peers[1..if k == -1 then 1 else k + 1];
      if k == -1 then -1 else k + 1
  }

  /**
    `splice(start, 1)`: a negative start counts from the end, one below `-|s|` is
    clamped to the front, and a start past the end removes nothing.
  */
  function SpliceOne(s: seq<PeerId>, start: int): (r: seq<PeerId>)
    ensures |s| > 0 && -|s| <= start < |s| ==> |r| == |s| - 1
    ensures 0 <= start < |s| ==> r == s[..start] + s[start + 1..]
    ensures -|s| <= start < 0 ==> r == s[..|s| + start] + s[|s| + start + 1..]
    ensures |s| > 0 && start == -1 ==> r == s[..|s| - 1]
    ensures |s| > 0 && start < -|s| ==> r == s[1..]
    ensures start >= |s| ==> r == s
  {
    var at := if start < 0 then (if |s| + start < 0 then 0 else |s| + start) else start;
    if at < |s| then s[..at] + s[at + 1..] else s
  }

  /**
    `_closeConnection` as written: `splice(indexOf(ws), 1)`. For a peer that is not
    in the list `indexOf` gives -1, and the splice removes the last peer instead.
  */
  function CloseConnectionAsWritten(n: Node, p: PeerId): (r: Node)
    ensures r.ledger == n.ledger
    ensures p !in n.peers && n.peers != [] ==> r.peers == n.peers[..|n.peers| - 1]
    ensures p in n.peers ==> r == CloseConnection(n, p)
  {
    n.(peers := SpliceOne(n.peers, IndexOf(n.peers, p)))
  }

  /**
    `_closeConnection` as intended: the first occurrence of the peer leaves the list,
    the others keep their order, and an absent peer changes nothing.
  */
  function CloseConnection(n: Node, p: PeerId): (r: Node)
    ensures r.ledger == n.ledger
    ensures p !in n.peers ==> r == n
    ensures p in n.peers ==>
      exists k :: 0 <= k < |n.peers| && n.peers[k] == p && p !in n.peers[..k] && r.peers == n.peers[..k] + n.peers[k + 1..]
    ensures multiset(r.peers) == multiset(n.peers) - multiset{p}
  {
    var k := IndexOf(n.peers, p);
    if k == -1 then
      assert multiset(n.peers)[p] == 0;
      n
    else
      assert n.peers == n.peers[..k] + [p] + n.peers[k + 1..];
      n.(peers := n.peers[..k] + n.peers[k + 1..])
  }

  /**
    The discrepancy: a socket that errors and then closes runs the close handler
    twice. As written the second call removes an unrelated peer; as intended it
    changes nothing.
  */
  lemma DoubleCloseDropsBystander(l: Ledger)
    ensures CloseConnectionAsWritten(CloseConnectionAsWritten(Node(l, [1, 2]), 1), 1).peers == []
    ensures CloseConnection(CloseConnection(Node(l, [1, 2]), 1), 1).peers == [2]
  {
    assert CloseConnectionAsWritten(Node(l, [1, 2]), 1).peers == [2];
    assert CloseConnection(Node(l, [1, 2]), 1).peers == [2];
  }

  /**
    The longest-valid-chain rule brings a behind node level: a node whose ledger was
    built by `init` and `addToChain` from mined blocks sends its chain, and a node
    with a shorter chain adopts exactly that chain.
  */
  lemma LongerMinedChainWins(sha: Hasher, a: Node, b: Node, from: PeerId)
    requires WellLinked(sha, a.ledger.chain) && AllMined(a.ledger.chain)
    requires |a.ledger.chain| > |b.ledger.chain|
    ensures HandleMessage(sha, b, from, ChainMsg(a.ledger.chain)).node.ledger.chain == a.ledger.chain
  {
    var c := a.ledger.chain;
    WellLinkedIsSorted(sha, c);
    assert SortedByIndex(c);
    SortSortedIsIdentity(c);
    WellLinkedMinedIsValid(sha, c);
  }

}
