/** What a second-chance outcome is evidence of: Upheld, Withdrawn and the
    durable record, for every reply bitcoind could give. */
module Evidence {
  import opened Base
  import opened BitcoindRpc
  import opened SecondChance
  import opened BlockWalk

  // ---- Counting ----

  lemma {:induction false} TallyPartition(unknown: seq<Txid>, answer: BitcoindAnswer)
    ensures Tally(unknown, answer, InMempool) + Tally(unknown, answer, Mined)
            + Tally(unknown, answer, Unestablished) + Tally(unknown, answer, ProvenAbsent) == |unknown|
  {
    if unknown != [] {
      TallyPartition(unknown[..|unknown| - 1], answer);
    }
  }

  function Known(S: set<Txid>, except: set<Txid>): Txid -> bool { (t: Txid) => t in S && t !in except }

  // The four counts, each by what it says of a transaction: they share out
  // the unknowns, and a transaction held in both places counts as in the mempool.
  lemma AdjudicationShares(total: nat, unknown: seq<Txid>, answer: BitcoindAnswer)
    ensures var adj := Adjudicated(total, unknown, answer);
            && adj.inMempool == Sat32(|Filter(unknown, Known(answer.present, {}))|)
            && adj.mined == Sat32(|Filter(unknown, Known(answer.recent, answer.present))|)
            && adj.unadjudicated
               == Sat32(|Filter(unknown, Known(answer.unadjudicated, answer.present + answer.recent))|)
            && (|unknown| <= U32_MAX ==>
                  adj.inMempool + adj.mined + adj.unadjudicated + adj.stillAbsent == |unknown| == adj.unknownBefore)
  {
    TallyPartition(unknown, answer);
    FilterAgree(unknown, FallsIn(answer, InMempool), Known(answer.present, {}));
    FilterAgree(unknown, FallsIn(answer, Mined), Known(answer.recent, answer.present));
    FilterAgree(unknown, FallsIn(answer, Unestablished),
                Known(answer.unadjudicated, answer.present + answer.recent));
  }

  // Neither in bitcoind's mempool nor in a walked block, as far as the answer goes.
  function Unproven(answer: BitcoindAnswer): Txid -> bool
  {
    (t: Txid) => t !in answer.present && t !in answer.recent
  }

  lemma {:induction false} UnprovenTally(unknown: seq<Txid>, answer: BitcoindAnswer)
    ensures |Filter(unknown, Unproven(answer))|
         == Tally(unknown, answer, Unestablished) + Tally(unknown, answer, ProvenAbsent)
  {
    if unknown != [] {
      UnprovenTally(unknown[..|unknown| - 1], answer);
    }
  }

  // The count the decision rests on depends on the proven sets alone.
  lemma NotProvenKnownCounts(total: nat, unknown: seq<Txid>, answer: BitcoindAnswer)
    ensures NotProvenKnown(Adjudicated(total, unknown, answer)) == Sat32(|Filter(unknown, Unproven(answer))|)
    ensures NotProvenKnown(Adjudicated(total, unknown, answer)) <= Sat32(|unknown|)
  {
    UnprovenTally(unknown, answer);
    TallyPartition(unknown, answer);
  }

  // ---- The threshold ----

  ghost predicate Monotone(rnd: real -> real)
  {
    forall x, y :: x <= y ==> rnd(x) <= rnd(y)
  }

  lemma DivideMonotone(a: nat, b: nat, n: nat)
    requires a <= b && n != 0
    ensures a as real / n as real <= b as real / n as real
  {
    var x, y := a as real / n as real, b as real / n as real;
    assert x * n as real == a as real && y * n as real == b as real;
  }

  // Under any monotone rounding, fewer unknowns never cross a threshold that more do not.
  lemma ExceedsMonotone(rnd: real -> real, a: nat, b: nat, total: nat, tolerance: real)
    requires Monotone(rnd) && a <= b
    ensures ExceedsTolerance(rnd, a, total, tolerance) ==> ExceedsTolerance(rnd, b, total, tolerance)
  {
    if total != 0 {
      DivideMonotone(a, b, total);
      var x, y := rnd(a as real / total as real), rnd(b as real / total as real);
      assert x <= y && x * 100.0 <= y * 100.0;
      assert rnd(x * 100.0) <= rnd(y * 100.0);
    }
  }

  // ---- Withdrawn ----

  // A withdrawal survives every fuller answer, whatever it leaves unadjudicated.
  lemma WithdrawnStable(rnd: real -> real, tolerance: real, total: nat, unknown: seq<Txid>,
                        answer: BitcoindAnswer, fuller: BitcoindAnswer)
    requires Monotone(rnd)
    requires answer.present <= fuller.present && answer.recent <= fuller.recent
    requires Judge(rnd, tolerance, total, unknown, Ok(answer)).Withdrawn?
    ensures Judge(rnd, tolerance, total, unknown, Ok(fuller)).Withdrawn?
  {
    NotProvenKnownCounts(total, unknown, answer);
    NotProvenKnownCounts(total, unknown, fuller);
    FilterImplies(unknown, Unproven(fuller), Unproven(answer));
    ExceedsMonotone(rnd, NotProvenKnown(Adjudicated(total, unknown, fuller)),
                    NotProvenKnown(Adjudicated(total, unknown, answer)), total, tolerance);
  }

  // A first-pass rejection is only ever withdrawn on some transaction that
  // bitcoind holds or has mined; no rounding assumption is needed.
  lemma WithdrawnEarned(rnd: real -> real, tolerance: real, total: nat, unknown: seq<Txid>, answer: BitcoindAnswer)
    requires ExceedsTolerance(rnd, Sat32(|unknown|), total, tolerance)
    requires Judge(rnd, tolerance, total, unknown, Ok(answer)).Withdrawn?
    ensures exists t :: t in unknown && (t in answer.present || t in answer.recent)
  {
    NotProvenKnownCounts(total, unknown, answer);
    FilterAllOrNone(unknown, Unproven(answer));
  }

  // ---- Upheld ----

  // Exactly one reply claims the request that carried t, and it says so.
  ghost predicate Said(node: Bitcoind, order: seq<Txid>, t: Txid, missing: bool)
  {
    exists j, resp ::
      && 0 <= j < |order| && order[j] == t
      && OnlyReply(RepliesAround(node, order, j), IndexInChunk(j), resp)
      && (if missing then resp.error.Some? && resp.error.value.code == MEMPOOL_MISSING_ENTRY_CODE
          else resp.error.None? && resp.result.Some?)
  }

  // The request that position j's reply is matched with did carry order[j],
  // in display order, under the id the reply is matched on.
  lemma RequestCarries(order: seq<Txid>, j: nat)
    requires j < |order|
    ensures IndexInChunk(j) < |ProbeParams(Chunk(order, ChunkOf(j)))|
    ensures Spells(ProbeParams(Chunk(order, ChunkOf(j)))[IndexInChunk(j)], order[j])
  {
    DisplaySpells(order[j]);
    assert Chunk(order, ChunkOf(j))[IndexInChunk(j)] == order[j];
  }

  // The c-th call carries the next 250 of the listed txids, or what is left.
  lemma RequestsSent(order: seq<Txid>, c: nat)
    requires 250 * c < |order|
    ensures ChunkStart(c) == 250 * c
    ensures var texts := ProbeParams(Chunk(order, c));
            && |texts| == Min(250, |order| - 250 * c)
            && forall k :: 0 <= k < |texts| ==> Spells(texts[k], order[250 * c + k])
  {
    var texts := ProbeParams(Chunk(order, c));
    forall k | 0 <= k < |texts| ensures Spells(texts[k], order[250 * c + k]) {
      DisplaySpells(order[250 * c + k]);
    }
  }

  ghost predicate PositionOf(order: seq<Txid>, t: Txid, j: nat)
  {
    j < |order| && order[j] == t && forall i :: 0 <= i < |order| && i != j ==> order[i] != t
  }

  // Where t was probed, and what that put it in.
  lemma {:induction false} ProbedAt(order: seq<Txid>, vs: seq<MempoolProbe>, S: set<Txid>, t: Txid) returns (j: nat)
    requires Enumerates(order, S) && t in S && |vs| == |order|
    ensures PositionOf(order, t, j)
    ensures var p := AbsorbAll(Probed({}, {}), order, vs);
            && (t in p.present <==> vs[j] == Present)
            && (t in p.unadjudicated <==> vs[j] == Unadjudicated)
  {
    assert t in SetOf(order);
    j :| 0 <= j < |order| && order[j] == t;
    AbsorbAllMembers(order, vs, t);
  }

  lemma SaidAt(node: Bitcoind, order: seq<Txid>, t: Txid, j: nat)
    requires PositionOf(order, t, j)
    ensures Said(node, order, t, true) <==> VerdictAt(node, order, j) == Absent
    ensures Said(node, order, t, false) <==> VerdictAt(node, order, j) == Present
  {
    VerdictEvidence(RepliesAround(node, order, j), IndexInChunk(j));
  }

  ghost function SaidMissing(node: Bitcoind, order: seq<Txid>, walked: set<Txid>): Txid -> bool
  {
    (t: Txid) => t !in walked && Said(node, order, t, true)
  }

  // A class counted zero times holds none of the unknowns.
  lemma NoneInClass(unknown: seq<Txid>, answer: BitcoindAnswer, c: TxAdjudication, t: Txid)
    requires Tally(unknown, answer, c) == 0 && t in unknown
    ensures Classify(t, answer) != c
  {
    FilterMembers(unknown, FallsIn(answer, c));
  }

  // What the walk and the probes of `order` add up to.
  ghost function Targeted(node: Bitcoind, w: WalkCoverage, order: seq<Txid>): BitcoindAnswer
  {
    AnswerOf(w, AbsorbAll(Probed({}, {}), order, Verdicts(node, order)))
  }

  ghost function SaidPresent(node: Bitcoind, order: seq<Txid>, walked: set<Txid>): Txid -> bool
  {
    (t: Txid) => t !in walked && Said(node, order, t, false)
  }

  // No reply settles it either way.
  ghost function Unanswered(node: Bitcoind, order: seq<Txid>, walked: set<Txid>): Txid -> bool
  {
    (t: Txid) => t !in walked && !Said(node, order, t, false) && !Said(node, order, t, true)
  }

  function Walked(walked: set<Txid>): Txid -> bool { (t: Txid) => t in walked }

  // The class of one unknown, by the replies alone.
  lemma {:induction false} ClassByReply(node: Bitcoind, order: seq<Txid>, unknown: seq<Txid>,
                                        w: WalkCoverage, t: Txid)
    requires Enumerates(order, ToProbe(unknown, w.txids)) && t in unknown
    ensures var c := Classify(t, Targeted(node, w, order));
            && (c == InMempool <==> SaidPresent(node, order, w.txids)(t))
            && (c == Mined <==> Walked(w.txids)(t))
            && (c == ProvenAbsent <==> SaidMissing(node, order, w.txids)(t))
            && (c == Unestablished <==> Unanswered(node, order, w.txids)(t))
  {
    if t !in w.txids {
      var j := ProbedAt(order, Verdicts(node, order), ToProbe(unknown, w.txids), t);
      SaidAt(node, order, t, j);
    } else {
      AbsorbAllMembers(order, Verdicts(node, order), t);
      assert t !in SetOf(order);
    }
  }

  ghost function ProbedAnswer(node: Bitcoind, height: nat, order: seq<Txid>): BitcoindAnswer
  {
    Targeted(node, Walk(node, height), order)
  }

  // Exactly when a rejection is upheld.
  lemma UpheldExactly(rnd: real -> real, tolerance: real, total: nat, unknown: seq<Txid>, node: Bitcoind,
                      inTime: bool, height: nat, order: seq<Txid>)
    ensures var o := Judge(rnd, tolerance, total, unknown, Ask(node, inTime, height, order));
            var answer := ProbedAnswer(node, height, order);
            && (o.Upheld? <==>
                  && inTime && node.info.Ok? && node.info.value.loaded
                  && node.info.value.size >= MIN_INSTALLABLE_MEMPOOL_SIZE
                  && AllAnswered(node, order) && Walk(node, height).Complete?
                  && Tally(unknown, answer, Unestablished) == 0
                  && ExceedsTolerance(rnd, Sat32(Tally(unknown, answer, ProvenAbsent)), total, tolerance))
            && (o.Upheld? ==> o.adj == Adjudicated(total, unknown, answer))
  {
    ProbeExactly(node, order);
    var answer := ProbedAnswer(node, height, order);
    assert Sat32(Sat32(Tally(unknown, answer, ProvenAbsent)) + 0) == Sat32(Tally(unknown, answer, ProvenAbsent));
  }

  // The count of an answer that left nothing unadjudicated.
  lemma {:induction false} EstablishedAll(node: Bitcoind, order: seq<Txid>, unknown: seq<Txid>, height: nat)
    requires Enumerates(order, ToProbe(unknown, Walk(node, height).txids))
    requires Tally(unknown, ProbedAnswer(node, height, order), Unestablished) == 0
    ensures forall t :: t in unknown && t !in Walk(node, height).txids ==>
                        Said(node, order, t, false) || Said(node, order, t, true)
    ensures Tally(unknown, ProbedAnswer(node, height, order), ProvenAbsent)
         == |Filter(unknown, SaidMissing(node, order, Walk(node, height).txids))|
  {
    var w, answer := Walk(node, height), ProbedAnswer(node, height, order);
    forall t | t in unknown
      ensures t !in w.txids ==> Said(node, order, t, false) || Said(node, order, t, true)
      ensures FallsIn(answer, ProvenAbsent)(t) == SaidMissing(node, order, w.txids)(t)
    {
      NoneInClass(unknown, answer, Unestablished, t);
      ClassByReply(node, order, unknown, w, t);
    }
    FilterAgree(unknown, FallsIn(answer, ProvenAbsent), SaidMissing(node, order, w.txids));
  }

  // The main result. Whatever bitcoind replied, in whatever order, with
  // whatever omissions, duplicates and failures: an upheld rejection rests on
  // a loaded, non-empty node, on a covered range of blocks, and on one
  // attributable reply for every unknown the blocks did not hold; and its
  // count is the number of unambiguous -5 replies.
  lemma {:induction false} UpheldSound(rnd: real -> real, tolerance: real, total: nat, unknown: seq<Txid>,
                                       node: Bitcoind, inTime: bool, height: nat, order: seq<Txid>)
    returns (blocks: seq<BlockTxids>)
    requires Enumerates(order, ToProbe(unknown, Walk(node, height).txids))
    requires Judge(rnd, tolerance, total, unknown, Ask(node, inTime, height, order)).Upheld?
    ensures inTime && node.info.Ok? && node.info.value.loaded && node.info.value.size >= MIN_INSTALLABLE_MEMPOOL_SIZE
    ensures Covers(node, height, blocks) && |blocks| <= MAX_RECENT_BLOCKS_SCANNED
    ensures forall t :: t in unknown && t !in TxidsOf(blocks) ==>
                        Said(node, order, t, false) || Said(node, order, t, true)
    ensures var adj := Judge(rnd, tolerance, total, unknown, Ask(node, inTime, height, order)).adj;
            && adj.stillAbsent == Sat32(|Filter(unknown, SaidMissing(node, order, TxidsOf(blocks)))|)
            && adj.unadjudicated == 0 && adj.total == total
            && ExceedsTolerance(rnd, adj.stillAbsent, total, tolerance)
  {
    blocks := WalkTrace(node, height);
    UpheldExactly(rnd, tolerance, total, unknown, node, inTime, height, order);
    EstablishedAll(node, order, unknown, height);
  }

  // On an honest chain the covered blocks are all of them: nothing an upheld
  // rejection counts as absent was mined at or above the template's height.
  lemma UpheldHonest(rnd: real -> real, tolerance: real, total: nat, unknown: seq<Txid>, node: Bitcoind,
                     inTime: bool, height: nat, order: seq<Txid>, chain: seq<ChainBlock>)
    requires Honest(node, chain)
    requires Enumerates(order, ToProbe(unknown, Walk(node, height).txids))
    requires Judge(rnd, tolerance, total, unknown, Ask(node, inTime, height, order)).Upheld?
    ensures Judge(rnd, tolerance, total, unknown, Ask(node, inTime, height, order)).adj.stillAbsent
         == Sat32(|Filter(unknown, SaidMissing(node, order, MinedFrom(chain, height)))|)
    ensures SatSub(|chain|, height) <= MAX_RECENT_BLOCKS_SCANNED
  {
    var blocks := UpheldSound(rnd, tolerance, total, unknown, node, inTime, height, order);
    CoversEverything(node, chain, height, blocks);
  }

  // ---- Targeted probing against the whole mempool ----

  // bitcoind holds exactly M and answers each request of a batch exactly
  // once, in any order: an entry for a member, -5 for anything else.
  ghost predicate AnswersRequest(replies: seq<BatchResponse<string>>, i: nat, text: string, M: set<Txid>)
  {
    exists resp :: OnlyReply(replies, i, resp)
                   && if exists t :: t in M && Spells(text, t)
                      then resp.error.None? && resp.result.Some?
                      else resp.error.Some? && resp.error.value.code == MEMPOOL_MISSING_ENTRY_CODE
  }

  ghost predicate Truthful(node: Bitcoind, M: set<Txid>)
  {
    && M != {} && node.info == Ok(MempoolInfo(|M|, true))
    && forall c, texts :: 0 <= c ==>
         && node.batch(c, texts).Ok?
         && forall i :: 0 <= i < |texts| ==> AnswersRequest(node.batch(c, texts).value, i, texts[i], M)
  }

  lemma TruthfulVerdict(node: Bitcoind, M: set<Txid>, order: seq<Txid>, j: nat)
    requires Truthful(node, M) && j < |order|
    ensures VerdictAt(node, order, j) == if order[j] in M then Present else Absent
  {
    var c := ChunkOf(j);
    var texts := ProbeParams(Chunk(order, c));
    RequestCarries(order, j);
    forall t | Spells(texts[IndexInChunk(j)], t) ensures t == order[j] {
      SpellsOne(texts[IndexInChunk(j)], t, order[j]);
    }
    assert node.batch(c, texts).Ok?;
    assert AnswersRequest(node.batch(c, texts).value, IndexInChunk(j), texts[IndexInChunk(j)], M);
    VerdictEvidence(node.batch(c, texts).value, IndexInChunk(j));
  }

  lemma {:induction false} TruthfulNeverFails(node: Bitcoind, M: set<Txid>, order: seq<Txid>, c: nat)
    requires Truthful(node, M)
    ensures FirstFailure(node, order, c) == None
    decreases |order| - ChunkStart(c)
  {
    if ChunkStart(c) < |order| {
      assert node.batch(c, ProbeParams(Chunk(order, c))).Ok?;
      TruthfulNeverFails(node, M, order, c + 1);
    }
  }

  // Held by the mempool and by a walked block.
  function InBoth(M: set<Txid>, mined: set<Txid>): Txid -> bool { (t: Txid) => t in M && t in mined }

  // One unknown, probed against classified with the whole mempool in hand.
  lemma {:induction false} TargetedOne(node: Bitcoind, M: set<Txid>, unknown: seq<Txid>, order: seq<Txid>,
                                       w: WalkCoverage, t: Txid)
    requires Truthful(node, M) && Enumerates(order, ToProbe(unknown, w.txids)) && t in unknown
    ensures var targeted := Targeted(node, w, order);
            var whole := AnswerOf(w, Probed(M, {}));
            && (Classify(t, targeted) == ProvenAbsent <==> Classify(t, whole) == ProvenAbsent)
            && Classify(t, targeted) != Unestablished && Classify(t, whole) != Unestablished
            && (if InBoth(M, w.txids)(t) then Classify(t, targeted) == Mined && Classify(t, whole) == InMempool
                else Classify(t, targeted) == Classify(t, whole))
  {
    var vs := Verdicts(node, order);
    if t in w.txids {
      AbsorbAllMembers(order, vs, t);
      assert t !in SetOf(order);
    } else {
      var j := ProbedAt(order, vs, ToProbe(unknown, w.txids), t);
      TruthfulVerdict(node, M, order, j);
    }
  }

  ghost predicate SameDecision(a: Outcome, b: Outcome)
  {
    (a.Withdrawn? <==> b.Withdrawn?) && (a.Upheld? <==> b.Upheld?) && (a.LookupFailed? ==> a == b)
  }

  // The tallies of the two forms: they differ by the unknowns held in both
  // places, counted as mined by the one and as in the mempool by the other.
  lemma {:induction false} TargetedTallies(node: Bitcoind, M: set<Txid>, unknown: seq<Txid>, order: seq<Txid>,
                                           w: WalkCoverage)
    requires Truthful(node, M) && Enumerates(order, ToProbe(unknown, w.txids))
    ensures var fast, slow := Targeted(node, w, order), AnswerOf(w, Probed(M, {}));
            var both := |Filter(unknown, InBoth(M, w.txids))|;
            && Tally(unknown, fast, ProvenAbsent) == Tally(unknown, slow, ProvenAbsent)
            && Tally(unknown, fast, Unestablished) == Tally(unknown, slow, Unestablished)
            && Tally(unknown, slow, InMempool) == Tally(unknown, fast, InMempool) + both
            && Tally(unknown, fast, Mined) == Tally(unknown, slow, Mined) + both
            && Sample(unknown, fast) == Sample(unknown, slow)
  {
    hide AbsorbAll, Verdicts, Enumerates, Classify, Sample;
    var fast, slow := Targeted(node, w, order), AnswerOf(w, Probed(M, {}));
    forall t | t in unknown
      ensures Classify(t, fast) == ProvenAbsent <==> Classify(t, slow) == ProvenAbsent
      ensures Classify(t, fast) != Unestablished && Classify(t, slow) != Unestablished
      ensures if InBoth(M, w.txids)(t) then Classify(t, fast) == Mined && Classify(t, slow) == InMempool
              else Classify(t, fast) == Classify(t, slow)
    {
      TargetedOne(node, M, unknown, order, w, t);
    }
    TalliesAgree(unknown, fast, slow, ProvenAbsent);
    TalliesAgree(unknown, fast, slow, Unestablished);
    FilterSplit(unknown, FallsIn(fast, InMempool), InBoth(M, w.txids), FallsIn(slow, InMempool));
    FilterSplit(unknown, FallsIn(slow, Mined), InBoth(M, w.txids), FallsIn(fast, Mined));
  }

  // The fast form refines the simple one: for every enumeration order of the
  // probe set, chunked probing decides as a whole-mempool comparison would.
  // The two adjudications are the same exactly when no unknown is held both
  // in the mempool and in a walked block.
  lemma {:induction false} TargetedRefinesWhole(rnd: real -> real, tolerance: real, total: nat, unknown: seq<Txid>,
                                                node: Bitcoind, height: nat, order: seq<Txid>, M: set<Txid>)
    requires Truthful(node, M) && Enumerates(order, ToProbe(unknown, Walk(node, height).txids))
    ensures var w := Walk(node, height);
            var whole := AnswerOf(w, Probed(M, {}));
            var asked := Gathered(node, height, order);
            var both := |Filter(unknown, InBoth(M, w.txids))|;
            && asked.Ok?
            && var fast, slow := Adjudicated(total, unknown, asked.value), Adjudicated(total, unknown, whole);
            && fast.stillAbsent == slow.stillAbsent && fast.sample == slow.sample
            && NotProvenKnown(fast) == NotProvenKnown(slow)
            && SameDecision(Judge(rnd, tolerance, total, unknown, asked),
                            Judge(rnd, tolerance, total, unknown, Ok(whole)))
            && ((forall t :: t in unknown ==> !(t in M && t in w.txids)) ==> fast == slow)
            && (|unknown| <= U32_MAX ==>
                  && slow.inMempool == fast.inMempool + both && fast.mined == slow.mined + both
                  && (fast == slow <==> forall t :: t in unknown ==> !(t in M && t in w.txids)))
  {
    hide Walk, AbsorbAll, Verdicts, Enumerates, ExceedsTolerance, Classify, Tally, Sample;
    var w := Walk(node, height);
    TruthfulNeverFails(node, M, order, 0);
    assert |M| >= 1;
    var fast, slow := Targeted(node, w, order), AnswerOf(w, Probed(M, {}));
    TargetedTallies(node, M, unknown, order, w);
    TallyPartition(unknown, fast);
    TallyPartition(unknown, slow);
    NoneInBoth(unknown, M, w.txids);
  }

  lemma NoneInBoth(unknown: seq<Txid>, M: set<Txid>, mined: set<Txid>)
    ensures |Filter(unknown, InBoth(M, mined))| == 0 <==> forall t :: t in unknown ==> !(t in M && t in mined)
  {
    FilterMembers(unknown, InBoth(M, mined));
    var both := Filter(unknown, InBoth(M, mined));
    if both != [] {
      assert both[0] in both;
    }
  }

  // A truthful node that holds t in its mempool and in its tip block: a
  // block just found whose transactions the mempool has not yet let go.
  function Overlapping(t: Txid, height: nat): Bitcoind
  {
    Bitcoind(
      Ok(MempoolInfo(1, true)),
      Ok("tip"),
      (_, hash) => if hash == "tip" then Ok(BlockAt(TipHolds(t, height), height)) else Err(RpcError("not found")),
      (_, texts) => Ok(seq(|texts|, i requires 0 <= i < |texts| => TrueReply(i, texts[i], {t}))))
  }

  function TipHolds(t: Txid, height: nat): (chain: seq<ChainBlock>)
    ensures |chain| == height + 1
  {
    seq(height, _ => ChainBlock("below", [])) + [ChainBlock("tip", [t])]
  }

  function TrueReply(i: nat, text: string, M: set<Txid>): BatchResponse<string>
  {
    if Named(text).Some? && Named(text).value in M then BatchResponse(Some(i), Some(text), None)
    else BatchResponse(Some(i), None, Some(Fault(MEMPOOL_MISSING_ENTRY_CODE, "")))
  }

  lemma {:induction false} OverlappingTruthful(t: Txid, height: nat)
    ensures Truthful(Overlapping(t, height), {t})
  {
    hide Spells, Named;
    var node := Overlapping(t, height);
    forall c: nat, texts, i | 0 <= i < |texts| ensures AnswersRequest(node.batch(c, texts).value, i, texts[i], {t}) {
      forall u ensures Named(texts[i]) == Some(u) <==> Spells(texts[i], u) {
        NamesWhatItSpells(texts[i], u);
      }
      assert node.batch(c, texts).value[i] == TrueReply(i, texts[i], {t});
      assert OnlyReply(node.batch(c, texts).value, i, TrueReply(i, texts[i], {t}));
    }
  }

  lemma TallyOfOne(t: Txid, answer: BitcoindAnswer)
    ensures forall c :: Tally([t], answer, c) == if Classify(t, answer) == c then 1 else 0
  {
    forall c ensures Tally([t], answer, c) == if Classify(t, answer) == c then 1 else 0 {
      TallyNext([], t, answer, c);
      assert [] + [t] == [t];
    }
  }

  // The counts do differ there, although the chain is honest and the replies
  // true: mined by probing, in the mempool by comparison.
  lemma {:induction false} CountsDiffer(t: Txid, height: nat)
    ensures var node := Overlapping(t, height);
            var asked := Gathered(node, height, []);
            var whole := AnswerOf(Walk(node, height), Probed({t}, {}));
            && Truthful(node, {t}) && Honest(node, TipHolds(t, height))
            && Enumerates([], ToProbe([t], Walk(node, height).txids)) && asked.Ok?
            && Adjudicated(1, [t], asked.value).mined == 1 && Adjudicated(1, [t], asked.value).inMempool == 0
            && Adjudicated(1, [t], whole).mined == 0 && Adjudicated(1, [t], whole).inMempool == 1
  {
    hide Truthful, Tally, Sample;
    var node := Overlapping(t, height);
    OverlappingTruthful(t, height);
    OverlappingHonest(t, height);
    assert Walk(node, height).txids == {t};
    var fast, slow := Gathered(node, height, []).value, AnswerOf(Walk(node, height), Probed({t}, {}));
    assert Classify(t, fast) == Mined && Classify(t, slow) == InMempool;
    TallyOfOne(t, fast);
    TallyOfOne(t, slow);
  }

  lemma {:induction false} OverlappingHonest(t: Txid, height: nat)
    ensures Honest(Overlapping(t, height), TipHolds(t, height))
  {
    assert "tip"[0] == 't' && "below"[0] == 'b';
  }

  // ---- Against the whole ground truth ----

  // Neither in the mempool nor among the mined.
  function InNeither(M: set<Txid>, mined: set<Txid>): Txid -> bool { (t: Txid) => t !in M && t !in mined }

  // What bitcoind knows of the unknowns exceeds the tolerance: those in
  // neither its mempool nor the blocks from the height up, six at most.
  ghost predicate TrulyExceeds(rnd: real -> real, tolerance: real, total: nat, unknown: seq<Txid>, M: set<Txid>,
                               chain: seq<ChainBlock>, height: nat)
  {
    var seen := MinedFrom(chain, Max(height, |chain| - MAX_RECENT_BLOCKS_SCANNED));
    ExceedsTolerance(rnd, Sat32(|Filter(unknown, InNeither(M, seen))|), total, tolerance)
  }

  // The same in plain arithmetic.
  lemma TruthInPercent(tolerance: real, total: nat, unknown: seq<Txid>, M: set<Txid>, chain: seq<ChainBlock>,
                       height: nat)
    ensures var seen := MinedFrom(chain, Max(height, |chain| - MAX_RECENT_BLOCKS_SCANNED));
            TrulyExceeds(Exact(), tolerance, total, unknown, M, chain, height) <==>
            total > 0 && 100.0 * Sat32(|Filter(unknown, InNeither(M, seen))|) as real > tolerance * total as real
  {
    var seen := MinedFrom(chain, Max(height, |chain| - MAX_RECENT_BLOCKS_SCANNED));
    ExceedsExactly(Sat32(|Filter(unknown, InNeither(M, seen))|), total, tolerance);
  }

  // The outcome by the truth alone: with an honest chain, a truthful mempool
  // and nothing failing, whatever order the probes went out in.
  lemma {:induction false} OutcomeIsTruth(rnd: real -> real, tolerance: real, total: nat, unknown: seq<Txid>,
                                          node: Bitcoind, height: nat, order: seq<Txid>, M: set<Txid>,
                                          chain: seq<ChainBlock>)
    requires Truthful(node, M) && Honest(node, chain) && NeverFails(node, chain)
    requires Enumerates(order, ToProbe(unknown, Walk(node, height).txids))
    ensures var o := Judge(rnd, tolerance, total, unknown, Ask(node, true, height, order));
            var over := TrulyExceeds(rnd, tolerance, total, unknown, M, chain, height);
            var near := SatSub(|chain|, height) <= MAX_RECENT_BLOCKS_SCANNED;
            && (o.Withdrawn? <==> !over)
            && (o.Upheld? <==> over && near)
            && (o.LookupFailed? <==> over && !near)
  {
    hide Truthful, Honest, NeverFails, Walk, Enumerates, MinedFrom, Tally, Sample, Gathered, ExceedsTolerance;
    var w := Walk(node, height);
    var whole := AnswerOf(w, Probed(M, {}));
    TargetedRefinesWhole(rnd, tolerance, total, unknown, node, height, order, M);
    WalkExact(node, chain, height);
    NotProvenKnownCounts(total, unknown, whole);
    var seen := MinedFrom(chain, Max(height, |chain| - MAX_RECENT_BLOCKS_SCANNED));
    if height >= |chain| {
      NothingMined(chain, height);
      NothingMined(chain, Max(height, |chain| - MAX_RECENT_BLOCKS_SCANNED));
    }
    assert w.txids == seen;
    FilterAgree(unknown, Unproven(whole), InNeither(M, seen));
    NoneUnestablished(unknown, whole);
  }

  lemma NothingMined(chain: seq<ChainBlock>, height: nat)
    requires height >= |chain|
    ensures MinedFrom(chain, height) == {}
  {
  }

  lemma NoneUnestablished(unknown: seq<Txid>, answer: BitcoindAnswer)
    requires answer.unadjudicated == {}
    ensures Tally(unknown, answer, Unestablished) == 0
  {
    FilterAllOrNone(unknown, FallsIn(answer, Unestablished));
  }

  // Two answers that put the same transactions in a class count it alike.
  lemma TalliesAgree(unknown: seq<Txid>, a: BitcoindAnswer, b: BitcoindAnswer, c: TxAdjudication)
    requires forall t :: t in unknown ==> (Classify(t, a) == c <==> Classify(t, b) == c)
    ensures Tally(unknown, a, c) == Tally(unknown, b, c)
    ensures c == ProvenAbsent ==> Sample(unknown, a) == Sample(unknown, b)
  {
    FilterAgree(unknown, FallsIn(a, c), FallsIn(b, c));
  }

  // ---- The record ----

  // Whoever pastes a recorded sample back gets the adjudicated txids,
  // at most 32 of them, each one of the unknowns; and a failed lookup's
  // record claims no presence, no mining and no absence.
  lemma RecordFaithful(rnd: real -> real, tolerance: real, total: nat, unknown: seq<Txid>,
                       asked: Result<BitcoindAnswer, LookupError>)
    ensures var o := Judge(rnd, tolerance, total, unknown, asked);
            var r := RecordOf(o);
            && |r.sample| <= ABSENT_SAMPLE_CAP
            && (forall i :: 0 <= i < |r.sample| ==>
                  && Named(r.sample[i]).Some? && Named(r.sample[i]).value in unknown
                  && asked.Ok? && Classify(Named(r.sample[i]).value, asked.value) == ProvenAbsent)
            && (r.lookupError.Some? ==> r.sample == [] && r.inMempool == r.mined == r.stillAbsent == 0)
            && (r.outcome == "upheld" ==> r.unadjudicated == 0 && r.shortfall.None? && r.lookupError.None?)
            && r.unknownBefore == Sat32(|unknown|) && r.total == total
            && (asked.Ok? && r.lookupError.None? ==>
                  && r.inMempool == Sat32(|Filter(unknown, Known(asked.value.present, {}))|)
                  && r.mined == Sat32(|Filter(unknown, Known(asked.value.recent, asked.value.present))|)
                  && r.stillAbsent == Sat32(Tally(unknown, asked.value, ProvenAbsent))
                  && (r.scanned, r.truncated, r.tip) == (asked.value.scanned, asked.value.truncated, asked.value.tip))
  {
    var o := Judge(rnd, tolerance, total, unknown, asked);
    var r := RecordOf(o);
    if asked.Ok? && !o.LookupFailed? {
      AdjudicationShares(total, unknown, asked.value);
      FilterMembers(unknown, FallsIn(asked.value, ProvenAbsent));
      forall i | 0 <= i < |r.sample|
        ensures Named(r.sample[i]).Some? && Named(r.sample[i]).value in unknown
        ensures Classify(Named(r.sample[i]).value, asked.value) == ProvenAbsent
      {
        DisplayNames(o.adj.sample[i]);
        assert o.adj.sample[i] in Filter(unknown, FallsIn(asked.value, ProvenAbsent));
      }
    }
  }
}
