/** One template from evaluation to verdict: Class M, the second chance and
    the withdraw step (services/pool-verifier/src/ingress.rs). */
module Verdict {
  import opened Base
  import opened BitcoindRpc
  import opened SecondChance
  import opened BlockWalk
  import opened Evidence
  import opened MempoolView
  import opened Policy

  // A lookup bitcoind can be put to: its replies, whether it beat the
  // deadline, and the order its probe set happened to be enumerated in.
  datatype Lookup = Lookup(node: Bitcoind, inTime: bool, order: seq<Txid>)

  function RunSecondChance(rnd: real -> real, lookup: Option<Lookup>, phase2: Phase2Attribution,
                           height: nat, tolerance: real): Option<Outcome>
  {
    match (phase2, lookup)
    case (Rejected(unknown, total), Some(l)) =>
      Some(Judge(rnd, tolerance, total, unknown, Ask(l.node, l.inTime, height, l.order)))
    case _ => None
  }

  datatype Verdict = Verdict(accepted: bool, reason: Option<VerdictReason>, eval: EvalResult, record: Option<Record>)

  function Handle(rnd: real -> real, t: Template, cfg: Config, snapshot: Option<Snapshot>, mempoolTx: Option<nat>,
                  nowMs: nat, lookup: Option<Lookup>): Verdict
  {
    var eval := EvaluateTemplate(rnd, t, cfg, snapshot, mempoolTx, nowMs);
    var chance := RunSecondChance(rnd, lookup, eval.phase2, t.blockHeight, cfg.tolerancePct);
    var reason := if chance.Some? && chance.value.Withdrawn? then None else eval.reason;
    Verdict(reason.None?, reason, eval, match chance case Some(o) => Some(RecordOf(o)) case None => None)
  }

  // The lookup's probe set was enumerated in some order.
  ghost predicate Enumerated(lookup: Option<Lookup>, t: Template, eval: EvalResult)
  {
    lookup.Some? && eval.phase2.Rejected? ==>
      Enumerates(lookup.value.order, ToProbe(eval.phase2.unknown, Walk(lookup.value.node, t.blockHeight).txids))
  }

  // Class M rejected the template; without a mempool view it never does.
  predicate RejectedByClassM(rnd: real -> real, t: Template, cfg: Config, snapshot: Option<Snapshot>,
                             mempoolTx: Option<nat>, nowMs: nat)
  {
    snapshot.Some? && ClassMRejects(rnd, t, cfg, snapshot.value, mempoolTx, nowMs)
  }

  // Clearing the reason never accepts what Phase 1 would reject: the final
  // verdict accepts exactly when Phase 1 does and Class M either did not
  // reject or was withdrawn; and a rejection Phase 1 did not make is Class M's.
  lemma FinalVerdict(rnd: real -> real, t: Template, cfg: Config, snapshot: Option<Snapshot>, mempoolTx: Option<nat>,
                     nowMs: nat, lookup: Option<Lookup>)
    ensures var v := Handle(rnd, t, cfg, snapshot, mempoolTx, nowMs, lookup);
            var one := Phase1(rnd, t, cfg, mempoolTx, nowMs);
            var rejects := RejectedByClassM(rnd, t, cfg, snapshot, mempoolTx, nowMs);
            var withdrawn := v.record.Some? && v.record.value.outcome == "withdrawn";
            && (v.accepted <==> one.reason.None? && (rejects ==> withdrawn))
            && (!v.accepted ==> v.reason == if one.reason.Some? then one.reason else Some(MempoolToleranceExceeded))
            && (v.record.Some? <==> rejects && lookup.Some?)
  {
    hide CheckBasicValidity, CheckTemplateConstraints, CheckSafetyConstraints, ExceedsTolerance, UnknownTo;
    var eval := EvaluateTemplate(rnd, t, cfg, snapshot, mempoolTx, nowMs);
    if snapshot.Some? {
      ClassMAdditive(rnd, t, cfg, snapshot.value, mempoolTx, nowMs);
    }
    var chance := RunSecondChance(rnd, lookup, eval.phase2, t.blockHeight, cfg.tolerancePct);
    if chance.Some? {
      assert RecordOf(chance.value).outcome == "withdrawn" <==> chance.value.Withdrawn? by {
        assert "withdrawn"[0] == 'w' && "upheld"[0] == 'u' && "lookup_failed"[0] == 'l';
      }
    }
  }

  // A transaction the answer holds was answered for by one unambiguous
  // entry; one it calls mined is in a block that was followed.
  lemma {:induction false} HeldWasSaid(node: Bitcoind, height: nat, order: seq<Txid>, S: set<Txid>, x: Txid)
    returns (blocks: seq<BlockTxids>)
    requires Enumerates(order, S) && Gathered(node, height, order).Ok?
    requires var answer := Gathered(node, height, order).value; x in answer.present || x in answer.recent
    ensures Follows(node, blocks) && |blocks| <= MAX_RECENT_BLOCKS_SCANNED
    ensures Said(node, order, x, false) || x in TxidsOf(blocks)
  {
    blocks := WalkTrace(node, height);
    var vs := Verdicts(node, order);
    if x !in TxidsOf(blocks) {
      AbsorbAllMembers(order, vs, x);
      var j := ProbedAt(order, vs, S, x);
      SaidAt(node, order, x, j);
    }
  }

  // A recovered template really was recovered: some transaction the polled
  // view did not hold was answered for by one unambiguous mempool entry, or
  // is in a block bitcoind reported on the way down from its tip.
  lemma {:induction false} RecoveryEarned(rnd: real -> real, t: Template, cfg: Config, s: Snapshot,
                                          mempoolTx: Option<nat>, nowMs: nat, lookup: Option<Lookup>)
    returns (x: Txid, blocks: seq<BlockTxids>)
    requires Enumerated(lookup, t, EvaluateTemplate(rnd, t, cfg, Some(s), mempoolTx, nowMs))
    requires Handle(rnd, t, cfg, Some(s), mempoolTx, nowMs, lookup).accepted
    requires ClassMRejects(rnd, t, cfg, s, mempoolTx, nowMs)
    ensures lookup.Some? && lookup.value.inTime
    ensures x in t.rawBlock.value.facts.txids && x !in s.txids
    ensures Follows(lookup.value.node, blocks) && |blocks| <= MAX_RECENT_BLOCKS_SCANNED
    ensures Said(lookup.value.node, lookup.value.order, x, false) || x in TxidsOf(blocks)
  {
    hide Said, Follows, Enumerates, Adjudicated, StillExceeds, Gathered, Walk, ToProbe;
    ClassMAdditive(rnd, t, cfg, s, mempoolTx, nowMs);
    var l := lookup.value;
    var txids := t.rawBlock.value.facts.txids;
    var unknown := UnknownTo(s.txids, txids);
    FilterMembers(txids, NotIn(s.txids));
    var asked := Ask(l.node, l.inTime, t.blockHeight, l.order);
    WithdrawnEarned(rnd, cfg.tolerancePct, Sat32(|txids|), unknown, asked.value);
    x :| x in unknown && (x in asked.value.present || x in asked.value.recent);
    blocks := HeldWasSaid(l.node, t.blockHeight, l.order, ToProbe(unknown, Walk(l.node, t.blockHeight).txids), x);
  }

  // A detection recorded as upheld is backed, end to end, for the actual
  // template: its own transactions, absent from the served view, each
  // answered by one unambiguous reply or held by a walked block.
  lemma {:induction false} DetectionBacked(rnd: real -> real, t: Template, cfg: Config, s: Snapshot,
                                           mempoolTx: Option<nat>, nowMs: nat, lookup: Option<Lookup>)
    returns (blocks: seq<BlockTxids>)
    requires Enumerated(lookup, t, EvaluateTemplate(rnd, t, cfg, Some(s), mempoolTx, nowMs))
    requires var v := Handle(rnd, t, cfg, Some(s), mempoolTx, nowMs, lookup);
             v.record.Some? && v.record.value.outcome == "upheld"
    ensures var v := Handle(rnd, t, cfg, Some(s), mempoolTx, nowMs, lookup);
            var node, order := lookup.value.node, lookup.value.order;
            && ClassMRejects(rnd, t, cfg, s, mempoolTx, nowMs)
            && !v.accepted && v.reason == Some(MempoolToleranceExceeded)
            && Covers(node, t.blockHeight, blocks)
            && (forall x :: x in t.rawBlock.value.facts.txids && x !in s.txids && x !in TxidsOf(blocks) ==>
                            Said(node, order, x, false) || Said(node, order, x, true))
            && v.record.value.stillAbsent ==
               Sat32(|Filter(UnknownTo(s.txids, t.rawBlock.value.facts.txids),
                             SaidMissing(node, order, TxidsOf(blocks)))|)
  {
    ClassMAdditive(rnd, t, cfg, s, mempoolTx, nowMs);
    var l := lookup.value;
    var txids := t.rawBlock.value.facts.txids;
    var unknown := UnknownTo(s.txids, txids);
    FilterMembers(txids, NotIn(s.txids));
    var o := Judge(rnd, cfg.tolerancePct, Sat32(|txids|), unknown, Ask(l.node, l.inTime, t.blockHeight, l.order));
    assert o.Upheld? by {
      assert RecordOf(o).outcome == "upheld";
      assert "withdrawn"[0] == 'w' && "upheld"[0] == 'u' && "lookup_failed"[0] == 'l';
    }
    blocks := UpheldSound(rnd, cfg.tolerancePct, Sat32(|txids|), unknown, l.node, l.inTime, t.blockHeight, l.order);
  }

  // The verdict by the truth alone. Against an honest chain and a truthful
  // mempool, with a lookup in time: a template is rejected exactly when Phase
  // 1 rejects it, or when it is over tolerance twice, counting what the view
  // misses and counting what bitcoind misses too.
  lemma {:induction false} VerdictIsTruth(rnd: real -> real, t: Template, cfg: Config, s: Snapshot,
                                          mempoolTx: Option<nat>, nowMs: nat, l: Lookup, M: set<Txid>,
                                          chain: seq<ChainBlock>)
    requires Truthful(l.node, M) && Honest(l.node, chain) && NeverFails(l.node, chain) && l.inTime
    requires Enumerated(Some(l), t, EvaluateTemplate(rnd, t, cfg, Some(s), mempoolTx, nowMs))
    ensures var one := Phase1(rnd, t, cfg, mempoolTx, nowMs);
            Handle(rnd, t, cfg, Some(s), mempoolTx, nowMs, Some(l)).accepted <==>
            && one.reason.None?
            && !(ClassMRejects(rnd, t, cfg, s, mempoolTx, nowMs)
                 && var txids := t.rawBlock.value.facts.txids;
                    TrulyExceeds(rnd, cfg.tolerancePct, Sat32(|txids|), UnknownTo(s.txids, txids), M, chain,
                                 t.blockHeight))
  {
    hide Truthful, Honest, NeverFails, TrulyExceeds, Enumerates, Judge, CheckBasicValidity, CheckTemplateConstraints,
         CheckSafetyConstraints, ClassMRejects, EvaluateTemplate;
    ClassMAdditive(rnd, t, cfg, s, mempoolTx, nowMs);
    if ClassMRejects(rnd, t, cfg, s, mempoolTx, nowMs) {
      ClassMNeedsBlock(rnd, t, cfg, s, mempoolTx, nowMs);
      var txids := t.rawBlock.value.facts.txids;
      OutcomeIsTruth(rnd, cfg.tolerancePct, Sat32(|txids|), UnknownTo(s.txids, txids), l.node, t.blockHeight, l.order,
                     M, chain);
    }
  }

  lemma ClassMNeedsBlock(rnd: real -> real, t: Template, cfg: Config, s: Snapshot, mempoolTx: Option<nat>, nowMs: nat)
    requires ClassMRejects(rnd, t, cfg, s, mempoolTx, nowMs)
    ensures t.rawBlock.Some? && t.rawBlock.value.Parsed?
  {
  }
}
