/** The second-chance lookup put to bitcoind before a Class M rejection
    stands (services/pool-verifier/src/second_chance.rs). bitcoind is an
    arbitrary reply oracle: nothing here assumes it is honest or complete. */
module SecondChance {
  import opened Base
  import opened BitcoindRpc

  type Hash = string

  datatype MempoolInfo = MempoolInfo(size: nat, loaded: bool)

  datatype BlockTxids = BlockTxids(height: nat, txids: seq<Txid>, prev: Option<Hash>)

  // Every reply the lookup could receive. `block` may answer differently at
  // each of the successive getblock calls, `batch` at each successive chunk.
  datatype Bitcoind = Bitcoind(
    info: Result<MempoolInfo, RpcError>,
    best: Result<Hash, RpcError>,
    block: (nat, Hash) -> Result<BlockTxids, RpcError>,
    batch: (nat, seq<string>) -> Result<seq<BatchResponse<string>>, RpcError>)

  const MAX_RECENT_BLOCKS_SCANNED: nat := 6
  const MEMPOOL_PROBE_CHUNK: nat := 250
  const ABSENT_SAMPLE_CAP: nat := 32
  const MIN_INSTALLABLE_MEMPOOL_SIZE: nat := 1

  // ---- The block walk ----

  datatype WalkCoverage =
    | Complete(txids: set<Txid>, scanned: nat, tip: Option<nat>)
    | Truncated(txids: set<Txid>, scanned: nat, tip: Option<nat>)
    | Failed(txids: set<Txid>, scanned: nat, tip: Option<nat>, error: RpcError)

  datatype Shortfall = HitCap(scanned: nat) | WalkFailed(error: RpcError)

  function ShortfallOf(w: WalkCoverage): Option<Shortfall>
  {
    match w
    case Complete(_, _, _) => None
    case Truncated(_, n, _) => Some(HitCap(n))
    case Failed(_, _, _, e) => Some(WalkFailed(e))
  }

  // The walk from `hash`, with `scanned` blocks already collected.
  function WalkFrom(node: Bitcoind, height: nat, hash: Hash, scanned: nat,
                    collected: set<Txid>, tip: Option<nat>): WalkCoverage
    requires scanned < MAX_RECENT_BLOCKS_SCANNED
    decreases MAX_RECENT_BLOCKS_SCANNED - scanned
  {
    match node.block(scanned, hash)
    case Err(e) => WalkCoverage.Failed(collected, scanned, tip, e)
    case Ok(b) =>
      var top := if tip.None? then Some(b.height) else tip;
      if b.height < height then Complete(collected, scanned, top)
      else
        var txids := collected + SetOf(b.txids);
        if b.height == height || b.prev.None? then Complete(txids, scanned + 1, top)
        else if scanned + 1 >= MAX_RECENT_BLOCKS_SCANNED then Truncated(txids, scanned + 1, top)
        else WalkFrom(node, height, b.prev.value, scanned + 1, txids, top)
  }

  function Walk(node: Bitcoind, height: nat): WalkCoverage
  {
    match node.best
    case Err(e) => WalkCoverage.Failed({}, 0, None, e)
    case Ok(hash) => WalkFrom(node, height, hash, 0, {}, None)
  }

  method RecentBlocks(node: Bitcoind, height: nat) returns (w: WalkCoverage)
    ensures w == Walk(node, height)
  {
    var collected: set<Txid> := {};
    var scanned := 0;
    if node.best.Err? {
      return WalkCoverage.Failed(collected, 0, None, node.best.error);
    }
    var hash := node.best.value;
    var tip: Option<nat> := None;
    while true
      invariant scanned < MAX_RECENT_BLOCKS_SCANNED
      invariant WalkFrom(node, height, hash, scanned, collected, tip) == Walk(node, height)
      decreases MAX_RECENT_BLOCKS_SCANNED - scanned
    {
      var reply := node.block(scanned, hash);
      if reply.Err? {
        return WalkCoverage.Failed(collected, scanned, tip, reply.error);
      }
      var block := reply.value;
      if tip.None? { tip := Some(block.height); }
      if block.height < height {
        return Complete(collected, scanned, tip);
      }
      collected := collected + SetOf(block.txids);
      scanned := scanned + 1;
      if block.height == height {
        return Complete(collected, scanned, tip);
      }
      if block.prev.None? {
        return Complete(collected, scanned, tip);
      }
      if scanned >= MAX_RECENT_BLOCKS_SCANNED {
        return Truncated(collected, scanned, tip);
      }
      hash := block.prev.value;
    }
  }

  // ---- Targeted probing, chunk by chunk ----

  function ToProbe(unknown: seq<Txid>, mined: set<Txid>): set<Txid>
  {
    set t | t in unknown && t !in mined
  }

  // `order` lists S once each, in whatever order a hash set is iterated.
  ghost predicate Enumerates(order: seq<Txid>, S: set<Txid>)
  {
    && SetOf(order) == S
    && forall i, j :: 0 <= i < j < |order| ==> order[i] != order[j]
  }

  function ChunkStart(c: nat): nat { MEMPOOL_PROBE_CHUNK * c }
  function ChunkOf(j: nat): nat { j / MEMPOOL_PROBE_CHUNK }
  function IndexInChunk(j: nat): nat { j % MEMPOOL_PROBE_CHUNK }

  function Chunk(order: seq<Txid>, c: nat): seq<Txid>
    requires ChunkStart(c) <= |order|
  {
    order[ChunkStart(c)..Min(ChunkStart(c + 1), |order|)]
  }

  function ChunkReply(node: Bitcoind, order: seq<Txid>, c: nat): Result<seq<BatchResponse<string>>, RpcError>
    requires ChunkStart(c) <= |order|
  {
    node.batch(c, ProbeParams(Chunk(order, c)))
  }

  // The transport error that ends the probing, looking from chunk c on.
  function FirstFailure(node: Bitcoind, order: seq<Txid>, c: nat): Option<RpcError>
    decreases |order| - ChunkStart(c)
  {
    if ChunkStart(c) >= |order| then None
    else
      match ChunkReply(node, order, c)
      case Err(e) => Some(e)
      case Ok(_) => FirstFailure(node, order, c + 1)
  }

  // The c-th call was made and answered.
  ghost predicate Answered(node: Bitcoind, order: seq<Txid>, c: nat)
  {
    ChunkStart(c) < |order| && ChunkReply(node, order, c).Ok?
  }

  // Every call the probe set needs was answered, whatever the answers say.
  ghost predicate AllAnswered(node: Bitcoind, order: seq<Txid>)
  {
    forall c: nat :: ChunkStart(c) < |order| ==> Answered(node, order, c)
  }

  // The c-th call is the first to fail, with e.
  ghost predicate FirstFailsAt(node: Bitcoind, order: seq<Txid>, c: nat, e: RpcError)
  {
    && ChunkStart(c) < |order| && ChunkReply(node, order, c) == Err(e)
    && forall k: nat :: k < c ==> Answered(node, order, k)
  }

  lemma {:induction false} FirstFailureIs(node: Bitcoind, order: seq<Txid>, c: nat)
    requires forall k: nat :: k < c && ChunkStart(k) < |order| ==> Answered(node, order, k)
    ensures FirstFailure(node, order, c).None? <==> AllAnswered(node, order)
    ensures forall e :: FirstFailure(node, order, c) == Some(e) <==> exists k :: FirstFailsAt(node, order, k, e)
    decreases |order| - ChunkStart(c)
  {
    if ChunkStart(c) < |order| {
      assert forall k: nat :: k < c ==> Answered(node, order, k);
      match ChunkReply(node, order, c) {
        case Err(e) =>
          assert FirstFailsAt(node, order, c, e);
          assert !Answered(node, order, c);
        case Ok(_) => FirstFailureIs(node, order, c + 1);
      }
    }
  }

  // What probing gives, by the calls: it succeeds exactly when every call
  // was answered, and fails with the error of the first that was not.
  lemma ProbeExactly(node: Bitcoind, order: seq<Txid>)
    ensures Probe(node, order).Ok? <==> AllAnswered(node, order)
    ensures forall e :: Probe(node, order) == Err(e) <==> exists c :: FirstFailsAt(node, order, c, e)
  {
    hide AbsorbAll, Verdicts, FirstFailsAt, AllAnswered, FirstFailure;
    FirstFailureIs(node, order, 0);
    forall e ensures Probe(node, order) == Err(e) <==> exists c :: FirstFailsAt(node, order, c, e) {
      assert Probe(node, order) == Err(e) <==> FirstFailure(node, order, 0) == Some(e);
    }
  }

  // The replies received for the chunk that holds position j.
  function RepliesAround(node: Bitcoind, order: seq<Txid>, j: nat): seq<BatchResponse<string>>
    requires j < |order|
  {
    match ChunkReply(node, order, ChunkOf(j))
    case Ok(replies) => replies
    case Err(_) => []
  }

  // The verdict on order[j]: its chunk's reply to the id it was sent under.
  function VerdictAt(node: Bitcoind, order: seq<Txid>, j: nat): MempoolProbe
    requires j < |order|
  {
    ProbeFromItem(ItemFor(RepliesAround(node, order, j), IndexInChunk(j)))
  }

  datatype Probed = Probed(present: set<Txid>, unadjudicated: set<Txid>)

  function Absorb(p: Probed, t: Txid, v: MempoolProbe): Probed
  {
    match v
    case Present => p.(present := p.present + {t})
    case Absent => p
    case Unadjudicated => p.(unadjudicated := p.unadjudicated + {t})
  }

  // The two sets after each listed transaction drew its verdict.
  function AbsorbAll(p: Probed, ts: seq<Txid>, vs: seq<MempoolProbe>): Probed
    requires |ts| == |vs|
  {
    if ts == [] then p
    else
      var n := |ts| - 1;
      Absorb(AbsorbAll(p, ts[..n], vs[..n]), ts[n], vs[n])
  }

  // Some position holds t and drew the verdict v.
  ghost predicate Drew(ts: seq<Txid>, vs: seq<MempoolProbe>, t: Txid, v: MempoolProbe)
    requires |ts| == |vs|
  {
    exists j :: 0 <= j < |ts| && ts[j] == t && vs[j] == v
  }

  lemma {:induction false} AbsorbAllMembers(ts: seq<Txid>, vs: seq<MempoolProbe>, t: Txid)
    requires |ts| == |vs|
    ensures t in AbsorbAll(Probed({}, {}), ts, vs).present <==> Drew(ts, vs, t, Present)
    ensures t in AbsorbAll(Probed({}, {}), ts, vs).unadjudicated <==> Drew(ts, vs, t, Unadjudicated)
  {
    if ts != [] {
      var n := |ts| - 1;
      AbsorbAllMembers(ts[..n], vs[..n], t);
      forall v ensures Drew(ts, vs, t, v) <==> Drew(ts[..n], vs[..n], t, v) || (ts[n] == t && vs[n] == v) {
        if Drew(ts[..n], vs[..n], t, v) {
          var j :| 0 <= j < n && ts[..n][j] == t && vs[..n][j] == v;
          assert ts[j] == t && vs[j] == v;
        }
      }
    }
  }

  lemma {:induction false} AbsorbAllSplit(p: Probed, ts: seq<Txid>, vs: seq<MempoolProbe>, n: nat)
    requires n <= |ts| == |vs|
    ensures AbsorbAll(p, ts, vs) == AbsorbAll(AbsorbAll(p, ts[..n], vs[..n]), ts[n..], vs[n..])
    decreases |ts|
  {
    if n == |ts| {
      assert ts[..n] == ts && vs[..n] == vs;
    } else {
      var m := |ts| - 1;
      AbsorbAllSplit(p, ts[..m], vs[..m], n);
      assert ts[..m][..n] == ts[..n] && vs[..m][..n] == vs[..n];
      assert ts[n..][..m - n] == ts[..m][n..] && vs[n..][..m - n] == vs[..m][n..];
    }
  }

  function Verdicts(node: Bitcoind, order: seq<Txid>): (vs: seq<MempoolProbe>)
    ensures |vs| == |order|
  {
    seq(|order|, j requires 0 <= j < |order| => VerdictAt(node, order, j))
  }

  function Probe(node: Bitcoind, order: seq<Txid>): Result<Probed, RpcError>
  {
    match FirstFailure(node, order, 0)
    case Some(e) => Err(e)
    case None => Ok(AbsorbAll(Probed({}, {}), order, Verdicts(node, order)))
  }

  // What the first n positions established.
  ghost function ProbedUpTo(node: Bitcoind, order: seq<Txid>, n: nat): Probed
    requires n <= |order|
  {
    AbsorbAll(Probed({}, {}), order[..n], Verdicts(node, order)[..n])
  }

  lemma {:induction false} ProbedEnds(node: Bitcoind, order: seq<Txid>)
    ensures ProbedUpTo(node, order, 0) == Probed({}, {})
    ensures FirstFailure(node, order, 0).None? ==> Probe(node, order) == Ok(ProbedUpTo(node, order, |order|))
    ensures FirstFailure(node, order, 0).Some? ==> Probe(node, order) == Err(FirstFailure(node, order, 0).value)
  {
    assert order[..|order|] == order && Verdicts(node, order)[..|order|] == Verdicts(node, order);
  }

  lemma {:induction false} ProbedNext(node: Bitcoind, order: seq<Txid>, c: nat, replies: seq<BatchResponse<string>>)
    requires ChunkStart(c) < |order| && ChunkReply(node, order, c) == Ok(replies)
    ensures ProbedUpTo(node, order, Min(ChunkStart(c + 1), |order|))
         == AbsorbAll(ProbedUpTo(node, order, ChunkStart(c)), Chunk(order, c),
                      ChunkProbes(replies, |Chunk(order, c)|))
  {
    hide AbsorbAll, Verdicts, ChunkReply;
    var n, m, vs := ChunkStart(c), Min(ChunkStart(c + 1), |order|), Verdicts(node, order);
    ChunkVerdicts(node, order, c, replies);
    AbsorbAllSplit(Probed({}, {}), order[..m], vs[..m], n);
    assert order[..m][..n] == order[..n] && vs[..m][..n] == vs[..n];
    assert order[..m][n..] == Chunk(order, c) && vs[..m][n..] == vs[n..m];
  }

  method ProbeChunks(node: Bitcoind, order: seq<Txid>) returns (r: Result<Probed, RpcError>)
    ensures r == Probe(node, order)
  {
    hide AbsorbAll, ProbedUpTo, Probe, Verdicts, ChunkProbes;
    var probed := Probed({}, {});
    var c := 0;
    ProbedEnds(node, order);
    while ChunkStart(c) < |order|
      invariant FirstFailure(node, order, c) == FirstFailure(node, order, 0)
      invariant probed == ProbedUpTo(node, order, Min(ChunkStart(c), |order|))
      decreases |order| - ChunkStart(c)
    {
      var chunk := Chunk(order, c);
      var reply := node.batch(c, ProbeParams(chunk));
      if reply.Err? {
        return Err(reply.error);
      }
      ProbedNext(node, order, c, reply.value);
      probed := TakeChunk(chunk, reply.value, probed);
      c := c + 1;
    }
    r := Ok(probed);
  }

  function ChunkProbes(replies: seq<BatchResponse<string>>, n: nat): seq<MempoolProbe>
  {
    seq(n, i requires 0 <= i < n => ProbeFromItem(ItemFor(replies, i)))
  }

  // One chunk's replies, zipped with the chunk and sorted into the two sets.
  method TakeChunk(chunk: seq<Txid>, replies: seq<BatchResponse<string>>, before: Probed) returns (after: Probed)
    ensures after == AbsorbAll(before, chunk, ChunkProbes(replies, |chunk|))
  {
    var items := ResolveBatch(replies, |chunk|);
    ghost var vs := ChunkProbes(replies, |chunk|);
    after := before;
    for i := 0 to |chunk|
      invariant after == AbsorbAll(before, chunk[..i], vs[..i])
    {
      assert chunk[..i + 1][..i] == chunk[..i] && vs[..i + 1][..i] == vs[..i];
      after := Absorb(after, chunk[i], ProbeFromItem(items[i]));
    }
    assert chunk[..|chunk|] == chunk && vs[..|chunk|] == vs;
  }

  lemma {:induction false} ChunkVerdicts(node: Bitcoind, order: seq<Txid>, c: nat, replies: seq<BatchResponse<string>>)
    requires ChunkStart(c) < |order| && ChunkReply(node, order, c) == Ok(replies)
    ensures var m := Min(ChunkStart(c + 1), |order|);
            Verdicts(node, order)[ChunkStart(c)..m] == ChunkProbes(replies, m - ChunkStart(c))
  {
    hide ItemFor, ProbeFromItem, ChunkReply;
    var m := Min(ChunkStart(c + 1), |order|);
    forall i | 0 <= i < m - ChunkStart(c)
      ensures Verdicts(node, order)[ChunkStart(c) + i] == ProbeFromItem(ItemFor(replies, i))
    {
      assert ChunkOf(ChunkStart(c) + i) == c && IndexInChunk(ChunkStart(c) + i) == i;
    }
  }

  // ---- The answer ----

  datatype BitcoindAnswer = BitcoindAnswer(
    present: set<Txid>,
    unadjudicated: set<Txid>,
    recent: set<Txid>,
    scanned: nat,
    truncated: bool,
    tip: Option<nat>,
    shortfall: Option<Shortfall>)

  datatype LookupError =
    | Rpc(error: RpcError)
    | Deadline
    | MempoolLoading
    | EmptyMempool
    | BlockWalkIncomplete(shortfall: Shortfall)
    | MempoolProbeIncomplete(unanswered: nat, of: nat)

  function AnswerOf(w: WalkCoverage, p: Probed): BitcoindAnswer
  {
    BitcoindAnswer(p.present, p.unadjudicated, w.txids, w.scanned, w.Truncated?, w.tip, ShortfallOf(w))
  }

  function Gathered(node: Bitcoind, height: nat, order: seq<Txid>): Result<BitcoindAnswer, LookupError>
  {
    match node.info
    case Err(e) => Err(Rpc(e))
    case Ok(info) =>
      if !info.loaded then Err(MempoolLoading)
      else if info.size < MIN_INSTALLABLE_MEMPOOL_SIZE then Err(EmptyMempool)
      else
        match Probe(node, order)
        case Err(e) => Err(Rpc(e))
        case Ok(p) => Ok(AnswerOf(Walk(node, height), p))
  }

  method Gather(node: Bitcoind, height: nat, unknown: seq<Txid>)
    returns (r: Result<BitcoindAnswer, LookupError>)
    ensures exists order :: Enumerates(order, ToProbe(unknown, Walk(node, height).txids))
                            && r == Gathered(node, height, order)
  {
    ghost var anyOrder := EnumerationExists(ToProbe(unknown, Walk(node, height).txids));
    if node.info.Err? {
      r := Err(Rpc(node.info.error));
      assert r == Gathered(node, height, anyOrder);
      return;
    }
    if !node.info.value.loaded {
      r := Err(MempoolLoading);
      assert r == Gathered(node, height, anyOrder);
      return;
    }
    if node.info.value.size < MIN_INSTALLABLE_MEMPOOL_SIZE {
      r := Err(EmptyMempool);
      assert r == Gathered(node, height, anyOrder);
      return;
    }
    var w := RecentBlocks(node, height);
    var order := Enumerate(ToProbe(unknown, w.txids));
    var probed := ProbeChunks(node, order);
    if probed.Err? {
      r := Err(Rpc(probed.error));
    } else {
      r := Ok(AnswerOf(w, probed.value));
    }
    assert r == Gathered(node, height, order);
  }

  method Enumerate(S: set<Txid>) returns (order: seq<Txid>)
    ensures Enumerates(order, S)
  {
    order := [];
    var rest := S;
    while rest != {}
      invariant rest <= S && SetOf(order) == S - rest
      invariant forall i, j :: 0 <= i < j < |order| ==> order[i] != order[j]
      decreases rest
    {
      var t :| t in rest;
      assert SetOf(order + [t]) == SetOf(order) + {t};
      assert t !in SetOf(order);
      order := order + [t];
      rest := rest - {t};
    }
  }

  lemma EnumerationExists(S: set<Txid>) returns (order: seq<Txid>)
    ensures Enumerates(order, S)
  {
    order := [];
    if S != {} {
      var t :| t in S;
      var rest := EnumerationExists(S - {t});
      order := rest + [t];
      assert SetOf(order) == SetOf(rest) + {t};
      assert t !in SetOf(rest);
    }
  }

  // The lookup is abandoned as a whole when its deadline passes.
  function Ask(node: Bitcoind, inTime: bool, height: nat, order: seq<Txid>): Result<BitcoindAnswer, LookupError>
  {
    if inTime then Gathered(node, height, order) else Err(Deadline)
  }

  // ---- Adjudication ----

  datatype TxAdjudication = InMempool | Mined | Unestablished | ProvenAbsent

  function Classify(t: Txid, answer: BitcoindAnswer): TxAdjudication
  {
    if t in answer.present then InMempool
    else if t in answer.recent then Mined
    else if t in answer.unadjudicated then Unestablished
    else ProvenAbsent
  }

  function FallsIn(answer: BitcoindAnswer, c: TxAdjudication): Txid -> bool
  {
    (t: Txid) => Classify(t, answer) == c
  }

  // How many of the listed transactions bitcoind's answer puts in class c.
  function Tally(unknown: seq<Txid>, answer: BitcoindAnswer, c: TxAdjudication): nat
  {
    |Filter(unknown, FallsIn(answer, c))|
  }

  datatype Adjudication = Adjudication(
    total: nat,
    unknownBefore: nat,
    inMempool: nat,
    mined: nat,
    stillAbsent: nat,
    unadjudicated: nat,
    sample: seq<Txid>,
    scanned: nat,
    truncated: bool,
    tip: Option<nat>,
    shortfall: Option<Shortfall>)

  function Take<T>(s: seq<T>, n: nat): seq<T> { s[..Min(n, |s|)] }

  function Adjudicated(total: nat, unknown: seq<Txid>, answer: BitcoindAnswer): Adjudication
  {
    Adjudication(
      total,
      Sat32(|unknown|),
      Sat32(Tally(unknown, answer, InMempool)),
      Sat32(Tally(unknown, answer, Mined)),
      Sat32(Tally(unknown, answer, ProvenAbsent)),
      Sat32(Tally(unknown, answer, Unestablished)),
      Sample(unknown, answer),
      answer.scanned, answer.truncated, answer.tip, answer.shortfall)
  }

  // The first still-absent transactions, as many as the record keeps.
  function Sample(unknown: seq<Txid>, answer: BitcoindAnswer): seq<Txid>
  {
    Take(Filter(unknown, FallsIn(answer, ProvenAbsent)), ABSENT_SAMPLE_CAP)
  }

  lemma TallyNext(front: seq<Txid>, t: Txid, answer: BitcoindAnswer, c: TxAdjudication)
    ensures Tally(front + [t], answer, c) == Tally(front, answer, c) + if Classify(t, answer) == c then 1 else 0
  {
    FilterAppend(front, t, FallsIn(answer, c));
  }

  lemma SampleNext(front: seq<Txid>, t: Txid, answer: BitcoindAnswer)
    ensures Sample(front + [t], answer) == Sample(front, answer) +
            if Classify(t, answer) == ProvenAbsent && |Sample(front, answer)| < ABSENT_SAMPLE_CAP then [t] else []
  {
    FilterAppend(front, t, FallsIn(answer, ProvenAbsent));
  }

  method Adjudicate(total: nat, unknown: seq<Txid>, answer: BitcoindAnswer) returns (adj: Adjudication)
    ensures adj == Adjudicated(total, unknown, answer)
  {
    hide Tally, Sample, Classify;
    var inMempool, mined, unadjudicated, stillAbsent := 0, 0, 0, 0;
    var sample: seq<Txid> := [];
    TallyNone(answer);
    for k := 0 to |unknown|
      invariant inMempool == Sat32(Tally(unknown[..k], answer, InMempool))
      invariant mined == Sat32(Tally(unknown[..k], answer, Mined))
      invariant unadjudicated == Sat32(Tally(unknown[..k], answer, Unestablished))
      invariant stillAbsent == Sat32(Tally(unknown[..k], answer, ProvenAbsent))
      invariant sample == Sample(unknown[..k], answer)
    {
      var txid := unknown[k];
      assert unknown[..k + 1] == unknown[..k] + [txid];
      TallyNext(unknown[..k], txid, answer, InMempool);
      TallyNext(unknown[..k], txid, answer, Mined);
      TallyNext(unknown[..k], txid, answer, Unestablished);
      TallyNext(unknown[..k], txid, answer, ProvenAbsent);
      SampleNext(unknown[..k], txid, answer);
      match Classify(txid, answer) {
        case InMempool => inMempool := Min(inMempool + 1, U32_MAX);
        case Mined => mined := Min(mined + 1, U32_MAX);
        case Unestablished => unadjudicated := Min(unadjudicated + 1, U32_MAX);
        case ProvenAbsent =>
          stillAbsent := Min(stillAbsent + 1, U32_MAX);
          if |sample| < ABSENT_SAMPLE_CAP {
            sample := sample + [txid];
          }
      }
    }
    assert unknown[..|unknown|] == unknown;
    adj := Adjudication(total, Sat32(|unknown|), inMempool, mined, stillAbsent, unadjudicated, sample,
                        answer.scanned, answer.truncated, answer.tip, answer.shortfall);
  }

  lemma TallyNone(answer: BitcoindAnswer)
    ensures forall c :: Tally([], answer, c) == 0
    ensures Sample([], answer) == []
  {
  }

  // The one threshold rule. `rnd` is the rounding of the f64 operations.
  predicate ExceedsTolerance(rnd: real -> real, unknown: nat, total: nat, tolerance: real)
  {
    total != 0 && rnd(rnd(unknown as real / total as real) * 100.0) > tolerance
  }

  // No rounding at all.
  function Exact(): real -> real { (x: real) => x }

  // The rule in plain arithmetic: more than `tolerance` percent of the
  // template is unknown, and exactly that much is not too much.
  lemma ExceedsExactly(unknown: nat, total: nat, tolerance: real)
    ensures ExceedsTolerance(Exact(), unknown, total, tolerance)
            <==> total > 0 && 100.0 * unknown as real > tolerance * total as real
  {
    if total > 0 {
      var n := total as real;
      var ratio := unknown as real / n;
      assert ratio * n == unknown as real;
      assert (ratio * 100.0 - tolerance) * n == 100.0 * unknown as real - tolerance * n;
    }
  }

  function NotProvenKnown(adj: Adjudication): nat
  {
    Sat32(adj.stillAbsent + adj.unadjudicated)
  }

  predicate StillExceeds(rnd: real -> real, adj: Adjudication, tolerance: real)
  {
    ExceedsTolerance(rnd, NotProvenKnown(adj), adj.total, tolerance)
  }

  // ---- The decision (run_second_chance in ingress.rs) ----

  datatype Outcome =
    | Withdrawn(adj: Adjudication)
    | Upheld(adj: Adjudication)
    | LookupFailed(total: nat, unknownBefore: nat, reason: LookupError, unadjudicated: nat)

  function Judge(rnd: real -> real, tolerance: real, total: nat, unknown: seq<Txid>,
                 asked: Result<BitcoindAnswer, LookupError>): Outcome
  {
    var before := Sat32(|unknown|);
    match asked
    case Err(e) => LookupFailed(total, before, e, 0)
    case Ok(answer) =>
      var adj := Adjudicated(total, unknown, answer);
      if !StillExceeds(rnd, adj, tolerance) then Withdrawn(adj)
      else if adj.unadjudicated > 0 then
        LookupFailed(total, before, MempoolProbeIncomplete(adj.unadjudicated, before), adj.unadjudicated)
      else if answer.shortfall.Some? then
        LookupFailed(total, before, BlockWalkIncomplete(answer.shortfall.value), adj.unadjudicated)
      else Upheld(adj)
  }

  // The lookup as it runs, from the question to the outcome.
  method RunLookup(rnd: real -> real, tolerance: real, total: nat, unknown: seq<Txid>,
                   node: Bitcoind, inTime: bool, height: nat) returns (o: Outcome)
    ensures exists order :: Enumerates(order, ToProbe(unknown, Walk(node, height).txids))
                            && o == Judge(rnd, tolerance, total, unknown, Ask(node, inTime, height, order))
  {
    hide Gathered, Adjudicated, StillExceeds, Walk, Enumerates;
    var before := Sat32(|unknown|);
    if !inTime {
      ghost var order := EnumerationExists(ToProbe(unknown, Walk(node, height).txids));
      o := LookupFailed(total, before, Deadline, 0);
      assert o == Judge(rnd, tolerance, total, unknown, Ask(node, inTime, height, order));
      return;
    }
    var asked := Gather(node, height, unknown);
    ghost var order :| Enumerates(order, ToProbe(unknown, Walk(node, height).txids))
                       && asked == Gathered(node, height, order);
    if asked.Err? {
      o := LookupFailed(total, before, asked.error, 0);
    } else {
      var adj := Adjudicate(total, unknown, asked.value);
      if !StillExceeds(rnd, adj, tolerance) {
        o := Withdrawn(adj);
      } else if adj.unadjudicated > 0 {
        o := LookupFailed(total, before, MempoolProbeIncomplete(adj.unadjudicated, before), adj.unadjudicated);
      } else if asked.value.shortfall.Some? {
        o := LookupFailed(total, before, BlockWalkIncomplete(asked.value.shortfall.value), adj.unadjudicated);
      } else {
        o := Upheld(adj);
      }
    }
    assert o == Judge(rnd, tolerance, total, unknown, Ask(node, inTime, height, order));
  }

  // ---- The durable record ----

  datatype Record = Record(
    outcome: string,
    total: nat,
    unknownBefore: nat,
    inMempool: nat,
    mined: nat,
    stillAbsent: nat,
    unadjudicated: nat,
    scanned: nat,
    truncated: bool,
    tip: Option<nat>,
    shortfall: Option<Shortfall>,
    sample: seq<string>,
    lookupError: Option<LookupError>)

  function RecordOf(o: Outcome): Record
  {
    match o
    case LookupFailed(total, before, reason, unadjudicated) =>
      Record("lookup_failed", total, before, 0, 0, 0, unadjudicated, 0, false, None, None, [], Some(reason))
    case _ =>
      var adj := o.adj;
      Record(if o.Withdrawn? then "withdrawn" else "upheld",
             adj.total, adj.unknownBefore, adj.inMempool, adj.mined, adj.stillAbsent, adj.unadjudicated,
             adj.scanned, adj.truncated, adj.tip, adj.shortfall,
             seq(|adj.sample|, i requires 0 <= i < |adj.sample| => Display(adj.sample[i])), None)
  }
}
