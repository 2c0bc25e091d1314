/** Every outcome of the second chance, and every field of its durable
    record, by the replies that were received. */
module Outcome {
  import opened Base
  import opened BitcoindRpc
  import opened SecondChance
  import opened BlockWalk
  import opened Evidence

  // bitcoind reported a mempool that is loaded and not empty.
  predicate Usable(node: Bitcoind)
  {
    node.info.Ok? && node.info.value.loaded && node.info.value.size != 0
  }

  // The four counts, by the replies: each unknown is walked, reported held,
  // reported missing, or not settled.
  lemma {:induction false} TalliesByReply(node: Bitcoind, order: seq<Txid>, unknown: seq<Txid>, w: WalkCoverage)
    requires Enumerates(order, ToProbe(unknown, w.txids))
    ensures var answer := Targeted(node, w, order);
            && Tally(unknown, answer, InMempool) == |Filter(unknown, SaidPresent(node, order, w.txids))|
            && Tally(unknown, answer, Mined) == |Filter(unknown, Walked(w.txids))|
            && Tally(unknown, answer, Unestablished) == |Filter(unknown, Unanswered(node, order, w.txids))|
            && Filter(unknown, FallsIn(answer, ProvenAbsent)) == Filter(unknown, SaidMissing(node, order, w.txids))
  {
    hide Classify, Targeted, SaidPresent, SaidMissing, Unanswered, Walked, Enumerates;
    var answer := Targeted(node, w, order);
    forall t | t in unknown
      ensures FallsIn(answer, InMempool)(t) == SaidPresent(node, order, w.txids)(t)
      ensures FallsIn(answer, Mined)(t) == Walked(w.txids)(t)
      ensures FallsIn(answer, Unestablished)(t) == Unanswered(node, order, w.txids)(t)
      ensures FallsIn(answer, ProvenAbsent)(t) == SaidMissing(node, order, w.txids)(t)
    {
      ClassByReply(node, order, unknown, w, t);
    }
    FilterAgree(unknown, FallsIn(answer, InMempool), SaidPresent(node, order, w.txids));
    FilterAgree(unknown, FallsIn(answer, Mined), Walked(w.txids));
    FilterAgree(unknown, FallsIn(answer, Unestablished), Unanswered(node, order, w.txids));
    FilterAgree(unknown, FallsIn(answer, ProvenAbsent), SaidMissing(node, order, w.txids));
  }

  // What was counted when every call was answered.
  datatype Counts = Counts(held: nat, mined: nat, missing: nat, unsettled: nat)

  ghost function CountsOf(node: Bitcoind, order: seq<Txid>, unknown: seq<Txid>, walked: set<Txid>): Counts
  {
    Counts(|Filter(unknown, SaidPresent(node, order, walked))|, |Filter(unknown, Walked(walked))|,
           |Filter(unknown, SaidMissing(node, order, walked))|, |Filter(unknown, Unanswered(node, order, walked))|)
  }

  // Why a lookup failed, by what went wrong.
  ghost predicate FailedBecause(node: Bitcoind, inTime: bool, height: nat, order: seq<Txid>,
                                blocks: seq<BlockTxids>, undecided: bool, unsettled: nat, before: nat,
                                reason: LookupError)
  {
    match reason
    case Deadline => !inTime
    case Rpc(e) =>
      inTime && (node.info == Err(e) || (Usable(node) && exists c :: FirstFailsAt(node, order, c, e)))
    case MempoolLoading => inTime && node.info.Ok? && !node.info.value.loaded
    case EmptyMempool => inTime && node.info.Ok? && node.info.value.loaded && node.info.value.size == 0
    case MempoolProbeIncomplete(n, of) => undecided && unsettled > 0 && n == Sat32(unsettled) && of == before
    case BlockWalkIncomplete(s) => undecided && unsettled == 0 && FellShort(node, height, blocks, s)
  }

  // Six blocks were walked and the height was not reached, or the next reply failed.
  ghost predicate FellShort(node: Bitcoind, height: nat, blocks: seq<BlockTxids>, s: Shortfall)
  {
    match s
    case HitCap(n) => n == |blocks| == 6 && blocks[5].height > height && blocks[5].prev.Some?
    case WalkFailed(e) => (blocks == [] && node.best == Err(e)) || NextReply(node, blocks) == Some(Err(e))
  }

  lemma ShortfallIs(node: Bitcoind, height: nat, w: WalkCoverage, blocks: seq<BlockTxids>)
    requires Explains(node, height, w, blocks)
    ensures ShortfallOf(w).Some? ==> FellShort(node, height, blocks, ShortfallOf(w).value)
    ensures ShortfallOf(w).None? ==> Covers(node, height, blocks)
  {
  }

  // Every call was made and answered, in time.
  ghost predicate Asked(node: Bitcoind, inTime: bool, order: seq<Txid>)
  {
    inTime && Usable(node) && AllAnswered(node, order)
  }

  lemma {:induction false} AskedIs(node: Bitcoind, inTime: bool, height: nat, order: seq<Txid>)
    ensures Asked(node, inTime, order) ==>
              Ask(node, inTime, height, order) == Ok(Targeted(node, Walk(node, height), order))
    ensures !Asked(node, inTime, order) ==> Ask(node, inTime, height, order).Err?
    ensures forall blocks, undecided, unsettled, before | Ask(node, inTime, height, order).Err? ::
              FailedBecause(node, inTime, height, order, blocks, undecided, unsettled, before,
                            Ask(node, inTime, height, order).error)
  {
    hide Walk, Verdicts, AbsorbAll, FirstFailsAt, AllAnswered;
    ProbeExactly(node, order);
  }

  // The whole decision. For every reply behaviour: a rejection is withdrawn,
  // upheld or left standing by the replies as counted, and a failed lookup
  // names what failed.
  lemma {:induction false} OutcomeByReplies(rnd: real -> real, tolerance: real, total: nat, unknown: seq<Txid>,
                                            node: Bitcoind, inTime: bool, height: nat, order: seq<Txid>)
    returns (blocks: seq<BlockTxids>)
    requires Enumerates(order, ToProbe(unknown, Walk(node, height).txids))
    ensures Explains(node, height, Walk(node, height), blocks)
    ensures var o := Judge(rnd, tolerance, total, unknown, Ask(node, inTime, height, order));
            var n := CountsOf(node, order, unknown, TxidsOf(blocks));
            var asked := Asked(node, inTime, order);
            var over := ExceedsTolerance(rnd, Sat32(n.missing + n.unsettled), total, tolerance);
            && (o.Withdrawn? <==> asked && !over)
            && (o.Upheld? <==> asked && over && n.unsettled == 0 && Walk(node, height).Complete?)
            && (o.LookupFailed? ==>
                  && o.total == total && o.unknownBefore == Sat32(|unknown|)
                  && o.unadjudicated == (if asked then Sat32(n.unsettled) else 0)
                  && FailedBecause(node, inTime, height, order, blocks, asked && over, n.unsettled, Sat32(|unknown|),
                                   o.reason))
  {
    hide Walk, Ask, Asked, Targeted, ExceedsTolerance, Enumerates, Tally, Sample, Covers, FellShort, Follows,
         SaidPresent, SaidMissing, Unanswered, Walked;
    blocks := WalkTrace(node, height);
    var w := Walk(node, height);
    AskedIs(node, inTime, height, order);
    TalliesByReply(node, order, unknown, w);
    ShortfallIs(node, height, w, blocks);
    TallyIs(unknown, Targeted(node, w, order));
    TargetedKeeps(node, w, order);
  }

  lemma TallyIs(unknown: seq<Txid>, answer: BitcoindAnswer)
    ensures Tally(unknown, answer, ProvenAbsent) == |Filter(unknown, FallsIn(answer, ProvenAbsent))|
    ensures |Sample(unknown, answer)| == Min(32, Tally(unknown, answer, ProvenAbsent))
    ensures Sample(unknown, answer) <= Filter(unknown, FallsIn(answer, ProvenAbsent))
  {
  }

  lemma TargetedKeeps(node: Bitcoind, w: WalkCoverage, order: seq<Txid>)
    ensures var answer := Targeted(node, w, order);
            && answer.shortfall == ShortfallOf(w) && answer.scanned == w.scanned
            && answer.truncated == w.Truncated? && answer.tip == w.tip
  {
  }

  // A failed call fails the lookup: if the c-th batch is the first to draw a
  // transport error, nothing is withdrawn and nothing upheld, however many
  // of the others were answered and whatever they said.
  lemma {:induction false} FailedCallFailsLookup(rnd: real -> real, tolerance: real, total: nat, unknown: seq<Txid>,
                                                 node: Bitcoind, height: nat, order: seq<Txid>, c: nat, e: RpcError)
    requires Usable(node) && FirstFailsAt(node, order, c, e)
    ensures Judge(rnd, tolerance, total, unknown, Ask(node, true, height, order))
         == LookupFailed(total, Sat32(|unknown|), Rpc(e), 0)
  {
    hide Walk, Verdicts, AbsorbAll, FirstFailsAt, AllAnswered;
    ProbeExactly(node, order);
    assert Probe(node, order) == Err(e);
  }

  // ---- The record ----

  // Each text displays the listed txid in turn.
  ghost predicate Display32(texts: seq<string>, txids: seq<Txid>)
  {
    && |texts| == Min(32, |txids|)
    && forall i :: 0 <= i < |texts| ==> Spells(texts[i], txids[i])
  }

  // Every field of the record of a decided lookup, by the replies; and of a
  // failed one, which claims nothing but what it failed on.
  lemma {:induction false} RecordByReplies(rnd: real -> real, tolerance: real, total: nat, unknown: seq<Txid>,
                                           node: Bitcoind, inTime: bool, height: nat, order: seq<Txid>)
    returns (blocks: seq<BlockTxids>)
    requires Enumerates(order, ToProbe(unknown, Walk(node, height).txids))
    ensures Explains(node, height, Walk(node, height), blocks)
    ensures var o := Judge(rnd, tolerance, total, unknown, Ask(node, inTime, height, order));
            var r := RecordOf(o);
            var n := CountsOf(node, order, unknown, TxidsOf(blocks));
            && r.total == total && r.unknownBefore == Sat32(|unknown|)
            && r.outcome == (if o.Withdrawn? then "withdrawn" else if o.Upheld? then "upheld" else "lookup_failed")
            && (o.LookupFailed? ==>
                  && r.lookupError == Some(o.reason) && r.unadjudicated == o.unadjudicated
                  && r.inMempool == r.mined == r.stillAbsent == r.scanned == 0
                  && r.sample == [] && r.tip.None? && !r.truncated && r.shortfall.None?)
            && (!o.LookupFailed? ==>
                  && r.lookupError.None?
                  && r.inMempool == Sat32(n.held) && r.mined == Sat32(n.mined)
                  && r.stillAbsent == Sat32(n.missing) && r.unadjudicated == Sat32(n.unsettled)
                  && r.scanned == |blocks| && r.tip == Walk(node, height).tip
                  && (r.truncated <==> r.shortfall == Some(HitCap(6)))
                  && (r.shortfall.Some? ==> FellShort(node, height, blocks, r.shortfall.value))
                  && (r.shortfall.None? ==> Covers(node, height, blocks))
                  && Display32(r.sample, Filter(unknown, SaidMissing(node, order, TxidsOf(blocks)))))
  {
    hide Walk, Ask, Asked, Targeted, ExceedsTolerance, Enumerates, Tally, Sample, Spells, Covers, FellShort;
    blocks := WalkTrace(node, height);
    var w := Walk(node, height);
    var answer := Targeted(node, w, order);
    AskedIs(node, inTime, height, order);
    TalliesByReply(node, order, unknown, w);
    ShortfallIs(node, height, w, blocks);
    TallyIs(unknown, answer);
    TargetedKeeps(node, w, order);
    forall t ensures Spells(Display(t), t) {
      DisplaySpells(t);
    }
  }
}
