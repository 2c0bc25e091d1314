/** What the block walk establishes: its trace under arbitrary replies, its
    meaning on an honest chain, and its bound of six getblock calls. */
module BlockWalk {
  import opened Base
  import opened BitcoindRpc
  import opened SecondChance

  function TxidsOf(blocks: seq<BlockTxids>): set<Txid>
  {
    if blocks == [] then {}
    else TxidsOf(blocks[..|blocks| - 1]) + SetOf(blocks[|blocks| - 1].txids)
  }

  // The hash asked for after these blocks: the tip's, then each parent's.
  function NextHash(node: Bitcoind, blocks: seq<BlockTxids>): Option<Hash>
  {
    if blocks != [] then blocks[|blocks| - 1].prev
    else match node.best case Ok(h) => Some(h) case Err(_) => None
  }

  // blocks are the successive getblock replies, from the reported tip down.
  ghost predicate Follows(node: Bitcoind, blocks: seq<BlockTxids>)
  {
    forall i :: 0 <= i < |blocks| ==>
      && NextHash(node, blocks[..i]).Some?
      && node.block(i, NextHash(node, blocks[..i]).value) == Ok(blocks[i])
  }

  // The reply to the next call, when there is a next call to make.
  function NextReply(node: Bitcoind, blocks: seq<BlockTxids>): Option<Result<BlockTxids, RpcError>>
  {
    match NextHash(node, blocks)
    case Some(h) => Some(node.block(|blocks|, h))
    case None => None
  }

  function NextHeight(node: Bitcoind, blocks: seq<BlockTxids>): Option<nat>
  {
    match NextReply(node, blocks)
    case Some(Ok(b)) => Some(b.height)
    case _ => None
  }

  // Nothing at or above `height` is left below these blocks: the last one is
  // at that height, or is the genesis, or its parent is reported lower.
  ghost predicate Covers(node: Bitcoind, height: nat, blocks: seq<BlockTxids>)
  {
    && Follows(node, blocks)
    && (forall i :: 0 <= i < |blocks| ==> blocks[i].height >= height)
    && ( || (blocks != [] && (blocks[|blocks| - 1].height == height || blocks[|blocks| - 1].prev.None?))
         || (NextReply(node, blocks).Some? && NextReply(node, blocks).value.Ok?
             && NextReply(node, blocks).value.value.height < height))
  }

  // How a walk ended, in terms of the replies it saw.
  ghost predicate Explains(node: Bitcoind, height: nat, w: WalkCoverage, blocks: seq<BlockTxids>)
  {
    && Follows(node, blocks)
    && w.txids == TxidsOf(blocks)
    && w.scanned == |blocks| <= MAX_RECENT_BLOCKS_SCANNED
    && w.tip == (if blocks != [] then TipOf(blocks) else if w.Complete? then NextHeight(node, blocks) else None)
    && match w
       case Complete(_, _, _) => Covers(node, height, blocks)
       case Truncated(_, _, _) =>
         && |blocks| == MAX_RECENT_BLOCKS_SCANNED
         && blocks[|blocks| - 1].height > height && blocks[|blocks| - 1].prev.Some?
       case Failed(_, _, _, e) =>
         (blocks == [] && node.best == Err(e)) || NextReply(node, blocks) == Some(Err(e))
  }

  lemma {:induction false} FollowsNext(node: Bitcoind, blocks: seq<BlockTxids>, b: BlockTxids)
    requires Follows(node, blocks) && NextReply(node, blocks) == Some(Ok(b))
    ensures Follows(node, blocks + [b])
    ensures TxidsOf(blocks + [b]) == TxidsOf(blocks) + SetOf(b.txids)
  {
    var next := blocks + [b];
    assert next[..|blocks|] == blocks;
    forall i | 0 <= i < |next|
      ensures NextHash(node, next[..i]).Some? && node.block(i, NextHash(node, next[..i]).value) == Ok(next[i])
    {
      if i < |blocks| { assert next[..i] == blocks[..i]; }
    }
  }

  function TipOf(blocks: seq<BlockTxids>): Option<nat>
  {
    if blocks == [] then None else Some(blocks[0].height)
  }

  // The walk has collected these blocks and asks for another.
  ghost predicate Walking(node: Bitcoind, height: nat, seen: seq<BlockTxids>)
  {
    && Follows(node, seen) && |seen| < MAX_RECENT_BLOCKS_SCANNED && NextHash(node, seen).Some?
    && forall i :: 0 <= i < |seen| ==> seen[i].height > height
  }

  lemma {:induction false} WalkStops(node: Bitcoind, height: nat, seen: seq<BlockTxids>)
    requires Walking(node, height, seen)
    ensures match NextReply(node, seen).value
            case Err(e) => Explains(node, height, WalkCoverage.Failed(TxidsOf(seen), |seen|, TipOf(seen), e), seen)
            case Ok(b) =>
              b.height < height ==>
                Explains(node, height,
                         Complete(TxidsOf(seen), |seen|, if seen == [] then Some(b.height) else TipOf(seen)), seen)
  {
  }

  lemma {:induction false} WalkAdds(node: Bitcoind, height: nat, seen: seq<BlockTxids>, b: BlockTxids)
    requires Walking(node, height, seen) && NextReply(node, seen) == Some(Ok(b)) && b.height >= height
    ensures var next := seen + [b];
            && TxidsOf(next) == TxidsOf(seen) + SetOf(b.txids)
            && (b.height == height || b.prev.None? ==>
                  Explains(node, height, Complete(TxidsOf(next), |next|, TipOf(next)), next))
            && (b.height > height && b.prev.Some? && |next| == MAX_RECENT_BLOCKS_SCANNED ==>
                  Explains(node, height, Truncated(TxidsOf(next), |next|, TipOf(next)), next))
            && (b.height > height && b.prev.Some? && |next| < MAX_RECENT_BLOCKS_SCANNED ==>
                  Walking(node, height, next) && NextHash(node, next) == b.prev)
  {
    FollowsNext(node, seen, b);
  }

  lemma {:induction false} WalkFromTrace(node: Bitcoind, height: nat, seen: seq<BlockTxids>)
    returns (blocks: seq<BlockTxids>)
    requires Walking(node, height, seen)
    ensures Explains(node, height,
                     WalkFrom(node, height, NextHash(node, seen).value, |seen|, TxidsOf(seen), TipOf(seen)), blocks)
    decreases MAX_RECENT_BLOCKS_SCANNED - |seen|
  {
    hide Explains, Follows, TxidsOf;
    blocks := seen;
    WalkStops(node, height, seen);
    var reply := NextReply(node, seen).value;
    if reply.Ok? && reply.value.height >= height {
      var b := reply.value;
      WalkAdds(node, height, seen, b);
      blocks := seen + [b];
      assert TipOf(blocks) == if seen == [] then Some(b.height) else TipOf(seen);
      if b.height > height && b.prev.Some? && |blocks| < MAX_RECENT_BLOCKS_SCANNED {
        blocks := WalkFromTrace(node, height, blocks);
      }
    }
  }

  // Whatever bitcoind replies, the walk's result is explained by the blocks
  // it followed: in particular Complete is only reported on a covered range.
  lemma {:induction false} WalkTrace(node: Bitcoind, height: nat) returns (blocks: seq<BlockTxids>)
    ensures Explains(node, height, Walk(node, height), blocks)
  {
    blocks := [];
    if node.best.Ok? {
      blocks := WalkFromTrace(node, height, []);
    }
  }

  // The walk makes at most six getblock calls: no later reply can matter.
  lemma {:induction false} WalkFromSixCalls(a: Bitcoind, b: Bitcoind, height: nat, hash: Hash, scanned: nat,
                                            collected: set<Txid>, tip: Option<nat>)
    requires scanned < MAX_RECENT_BLOCKS_SCANNED
    requires forall k, h :: 0 <= k < MAX_RECENT_BLOCKS_SCANNED ==> a.block(k, h) == b.block(k, h)
    ensures WalkFrom(a, height, hash, scanned, collected, tip) == WalkFrom(b, height, hash, scanned, collected, tip)
    decreases MAX_RECENT_BLOCKS_SCANNED - scanned
  {
    var reply := a.block(scanned, hash);
    if reply.Ok? && reply.value.height > height && reply.value.prev.Some?
       && scanned + 1 < MAX_RECENT_BLOCKS_SCANNED {
      var block := reply.value;
      WalkFromSixCalls(a, b, height, block.prev.value, scanned + 1, collected + SetOf(block.txids),
                       if tip.None? then Some(block.height) else tip);
    }
  }

  lemma WalkSixCalls(a: Bitcoind, b: Bitcoind, height: nat)
    requires a.best == b.best
    requires forall k, h :: 0 <= k < MAX_RECENT_BLOCKS_SCANNED ==> a.block(k, h) == b.block(k, h)
    ensures Walk(a, height) == Walk(b, height)
  {
    if a.best.Ok? {
      WalkFromSixCalls(a, b, height, a.best.value, 0, {}, None);
    }
  }

  // ---- Ground truth: a hash-linked chain whose index is the height ----

  datatype ChainBlock = ChainBlock(hash: Hash, txids: seq<Txid>)

  function BlockAt(chain: seq<ChainBlock>, h: nat): BlockTxids
    requires h < |chain|
  {
    BlockTxids(h, chain[h].txids, if h == 0 then None else Some(chain[h - 1].hash))
  }

  // Every reply that succeeds is about this chain. Any call may still fail.
  ghost predicate Honest(node: Bitcoind, chain: seq<ChainBlock>)
  {
    && (node.best.Ok? ==> chain != [] && node.best.value == chain[|chain| - 1].hash)
    && forall k, h :: 0 <= k && 0 <= h < |chain| && node.block(k, chain[h].hash).Ok? ==>
                      node.block(k, chain[h].hash).value == BlockAt(chain, h)
  }

  ghost predicate NeverFails(node: Bitcoind, chain: seq<ChainBlock>)
  {
    && node.best.Ok?
    && forall k, h :: 0 <= k && 0 <= h < |chain| ==> node.block(k, chain[h].hash).Ok?
  }

  // Every transaction mined at `height` or above.
  ghost function MinedFrom(chain: seq<ChainBlock>, height: nat): set<Txid>
  {
    set h, t | height <= h < |chain| && t in chain[h].txids :: t
  }

  lemma {:induction false} FollowsFront(node: Bitcoind, blocks: seq<BlockTxids>)
    requires Follows(node, blocks) && blocks != []
    ensures var n := |blocks| - 1;
            && Follows(node, blocks[..n])
            && NextHash(node, blocks[..n]).Some?
            && node.block(n, NextHash(node, blocks[..n]).value) == Ok(blocks[n])
  {
    var front := blocks[..|blocks| - 1];
    assert forall i :: 0 <= i < |front| ==> front[..i] == blocks[..i];
  }

  // After n blocks an honest walk asks for the next one down.
  ghost function HashBelow(chain: seq<ChainBlock>, n: nat): Option<Hash>
    requires n <= |chain|
  {
    if n == |chain| then None else Some(chain[|chain| - 1 - n].hash)
  }

  lemma {:induction false} HonestReply(node: Bitcoind, chain: seq<ChainBlock>, k: nat, n: nat, b: BlockTxids)
    requires Honest(node, chain) && n < |chain| && node.block(k, HashBelow(chain, n).value) == Ok(b)
    ensures b == BlockAt(chain, |chain| - 1 - n) && b.prev == HashBelow(chain, n + 1)
  {
  }

  lemma {:induction false} FollowsChain(node: Bitcoind, chain: seq<ChainBlock>, blocks: seq<BlockTxids>)
    requires Honest(node, chain) && Follows(node, blocks) && blocks != []
    ensures |blocks| <= |chain|
    ensures forall i :: 0 <= i < |blocks| ==> blocks[i] == BlockAt(chain, |chain| - 1 - i)
    ensures NextHash(node, blocks) == HashBelow(chain, |blocks|)
  {
    hide HashBelow, BlockAt, Follows, Honest;
    var n := |blocks| - 1;
    var front := blocks[..n];
    FollowsFront(node, blocks);
    HashBelowEnds(chain);
    if n > 0 {
      FollowsChain(node, chain, front);
    } else {
      HonestTip(node, chain);
    }
    HonestReply(node, chain, n, n, blocks[n]);
    assert forall i :: 0 <= i < n ==> blocks[i] == front[i];
  }

  lemma HonestTip(node: Bitcoind, chain: seq<ChainBlock>)
    requires Honest(node, chain) && node.best.Ok?
    ensures chain != [] && Some(node.best.value) == HashBelow(chain, 0)
  {
  }

  lemma HashBelowEnds(chain: seq<ChainBlock>)
    ensures HashBelow(chain, |chain|) == None
    ensures chain != [] ==> HashBelow(chain, 0) == Some(chain[|chain| - 1].hash)
  {
  }

  lemma {:induction false} TxidsOfMembers(blocks: seq<BlockTxids>, t: Txid)
    ensures t in TxidsOf(blocks) <==> exists i :: 0 <= i < |blocks| && t in blocks[i].txids
  {
    if blocks != [] {
      TxidsOfMembers(blocks[..|blocks| - 1], t);
    }
  }

  // The txids of the top n blocks of the chain.
  lemma {:induction false} TopBlocks(chain: seq<ChainBlock>, blocks: seq<BlockTxids>)
    requires |blocks| <= |chain|
    requires forall i :: 0 <= i < |blocks| ==> blocks[i] == BlockAt(chain, |chain| - 1 - i)
    ensures TxidsOf(blocks) == MinedFrom(chain, |chain| - |blocks|)
  {
    forall t ensures t in TxidsOf(blocks) <==> t in MinedFrom(chain, |chain| - |blocks|) {
      TxidsOfMembers(blocks, t);
      if t in MinedFrom(chain, |chain| - |blocks|) {
        var h :| |chain| - |blocks| <= h < |chain| && t in chain[h].txids;
        assert t in blocks[|chain| - 1 - h].txids;
      }
    }
  }

  // On an honest chain a covered range is the whole range: exactly the
  // blocks at or above the height were walked, and their txids collected.
  lemma {:induction false} CoversEverything(node: Bitcoind, chain: seq<ChainBlock>, height: nat,
                                            blocks: seq<BlockTxids>)
    requires Honest(node, chain) && Covers(node, height, blocks)
    ensures |blocks| == SatSub(|chain|, height)
    ensures TxidsOf(blocks) == MinedFrom(chain, height)
  {
    if blocks != [] {
      FollowsChain(node, chain, blocks);
      TopBlocks(chain, blocks);
      var last := blocks[|blocks| - 1];
      assert last.height == |chain| - |blocks|;
    } else {
      assert node.block(0, chain[|chain| - 1].hash).value == BlockAt(chain, |chain| - 1);
    }
  }

  // Exactness: complete iff the gap fits in six blocks, and then exact;
  // otherwise truncated at exactly six.
  lemma {:induction false} WalkExact(node: Bitcoind, chain: seq<ChainBlock>, height: nat)
    requires Honest(node, chain) && NeverFails(node, chain)
    ensures var w := Walk(node, height);
            && (w.Complete? <==> SatSub(|chain|, height) <= MAX_RECENT_BLOCKS_SCANNED)
            && (w.Complete? ==> w.scanned == SatSub(|chain|, height) && w.txids == MinedFrom(chain, height))
            && (!w.Complete? ==> w.Truncated? && w.scanned == MAX_RECENT_BLOCKS_SCANNED
                                 && w.txids == MinedFrom(chain, |chain| - MAX_RECENT_BLOCKS_SCANNED))
            && w.tip == Some(|chain| - 1)
  {
    var w := Walk(node, height);
    var blocks := WalkTrace(node, height);
    if blocks != [] {
      FollowsChain(node, chain, blocks);
    } else {
      assert node.block(0, chain[|chain| - 1].hash).value == BlockAt(chain, |chain| - 1);
    }
    match w {
      case Complete(_, _, _) => CoversEverything(node, chain, height, blocks);
      case Truncated(_, _, _) => TopBlocks(chain, blocks);
      case Failed(_, _, _, _) =>
        assert false;
    }
  }
}
