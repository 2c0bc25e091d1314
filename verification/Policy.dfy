/** Policy evaluation of a template: fee tiers, template constraints, safety
    limits and the Invariant Shield (services/pool-verifier/src/policy.rs).
    What rg_consensus re-derives from the raw block is an uninterpreted input. */
module Policy {
  import opened Base
  import opened BitcoindRpc
  import opened SecondChance
  import opened MempoolView

  const PROTOCOL_VERSION: nat := 2
  const MAX_BLOCK_WEIGHT: real := 4_000_000.0
  const MAX_BLOCK_SIGOPS: real := 80_000.0

  type Violation = string

  datatype VerdictReason =
    | ProtocolVersionMismatch | PrevHashLenMismatch | InvalidPrevHash
    | EmptyTemplateRejected | CoinbaseValueZeroRejected | TxCountExceeded
    | TotalFeesBelowMinimum | AvgFeeBelowMinimum
    | WeightRatioExceeded | TemplateStale | SigopsBudgetWarning | CoinbaseSigopsAbnormal
    | DecodeFailed | CoinbaseValueMismatch | TemplateWeightMismatch | TxCountMismatch
    | SigopsMismatch | CoinbaseSigopsMismatch | CoinbaseHeightMismatch
    | Consensus(violation: Violation)
    | MempoolToleranceExceeded

  datatype FeeTier = Low | Mid | High

  // What rg_consensus reports about one parsed block. `tier3` holds the nine
  // standalone checks in the order they run.
  datatype BlockFacts = BlockFacts(
    coinbaseValue: Result<nat, Violation>,
    nonCoinbaseWeight: nat,
    merkleRoot: Option<Violation>,
    witnessCommitment: Option<Violation>,
    bip34Present: Option<Violation>,
    txCount: nat,
    nonCoinbaseSigops: nat,
    coinbaseSigops: nat,
    bip34Height: Result<nat, Violation>,
    tier3: seq<Option<Violation>>,
    txids: seq<Txid>)

  datatype RawBlock = BadHex | Unparsable(violation: Violation) | Parsed(facts: BlockFacts)

  datatype Template = Template(
    version: nat,
    blockHeight: nat,
    prevHash: seq<Byte>,
    coinbaseValue: nat,
    txCount: nat,
    totalFees: nat,
    observedWeight: Option<nat>,
    createdAtUnixMs: Option<nat>,
    totalSigops: Option<nat>,
    coinbaseSigops: Option<nat>,
    templateWeight: Option<nat>,
    rawBlock: Option<RawBlock>)

  datatype Safety = Safety(
    maxWeightRatio: real,
    enforceWeightRatio: bool,
    maxTemplateAgeMs: Option<nat>,
    enforceTemplateAge: bool,
    warnSigopsRatio: real,
    warnCoinbaseSigopsMax: nat)

  datatype Config = Config(
    protocolVersion: nat,
    requiredPrevhashLen: nat,
    minTotalFees: nat,
    maxTxCount: nat,
    lowMempoolTx: nat,
    highMempoolTx: nat,
    minAvgFeeLo: nat,
    minAvgFeeMid: nat,
    minAvgFeeHi: nat,
    rejectEmptyTemplates: bool,
    rejectCoinbaseZero: bool,
    unknownMempoolAsHigh: bool,
    safety: Safety,
    tolerancePct: real)

  predicate Validate(cfg: Config)
  {
    && cfg.protocolVersion == PROTOCOL_VERSION
    && cfg.requiredPrevhashLen != 0
    && cfg.maxTxCount != 0
    && cfg.lowMempoolTx <= cfg.highMempoolTx
    && cfg.minAvgFeeLo <= cfg.minAvgFeeMid <= cfg.minAvgFeeHi
    && 0.0 < cfg.safety.maxWeightRatio <= 1.0
    && 0.0 < cfg.safety.warnSigopsRatio <= 1.0
  }

  function EffectiveMinAvgFee(cfg: Config, mempoolTx: Option<nat>): (nat, FeeTier)
  {
    match mempoolTx
    case Some(tx) =>
      if tx < cfg.lowMempoolTx then (cfg.minAvgFeeLo, Low)
      else if tx < cfg.highMempoolTx then (cfg.minAvgFeeMid, Mid)
      else (cfg.minAvgFeeHi, High)
    case None =>
      if cfg.unknownMempoolAsHigh then (cfg.minAvgFeeHi, High) else (cfg.minAvgFeeMid, Mid)
  }

  predicate IsHexByte(b: Byte)
  {
    48 <= b <= 57 || 65 <= b <= 70 || 97 <= b <= 102
  }

  function CheckBasicValidity(t: Template, cfg: Config): Option<VerdictReason>
  {
    if t.version != cfg.protocolVersion then Some(ProtocolVersionMismatch)
    else if |t.prevHash| != cfg.requiredPrevhashLen then Some(PrevHashLenMismatch)
    else if exists i :: 0 <= i < |t.prevHash| && !IsHexByte(t.prevHash[i]) then Some(InvalidPrevHash)
    else None
  }

  function CheckTemplateConstraints(t: Template, cfg: Config, minAvgFee: nat): Option<VerdictReason>
  {
    if cfg.rejectEmptyTemplates && t.txCount == 0 then Some(EmptyTemplateRejected)
    else if cfg.rejectCoinbaseZero && t.coinbaseValue == 0 && t.txCount > 0 then Some(CoinbaseValueZeroRejected)
    else if t.txCount > cfg.maxTxCount then Some(TxCountExceeded)
    else if t.totalFees < cfg.minTotalFees then Some(TotalFeesBelowMinimum)
    else if minAvgFee > 0 && t.txCount > 0 && t.totalFees / t.txCount < minAvgFee then Some(AvgFeeBelowMinimum)
    else None
  }

  // One safety check: a finding either rejects or is added to the warnings.
  function Find(warnings: seq<VerdictReason>, found: bool, enforced: bool, reason: VerdictReason)
    : (Option<VerdictReason>, seq<VerdictReason>)
  {
    if !found then (None, warnings)
    else if enforced then (Some(reason), warnings)
    else (None, warnings + [reason])
  }

  function CheckSafetyConstraints(t: Template, cfg: Config, nowMs: nat)
    : (Option<VerdictReason>, seq<VerdictReason>)
  {
    var weight := if t.templateWeight.Some? then t.templateWeight else t.observedWeight;
    var heavy := weight.Some? && weight.value as real / MAX_BLOCK_WEIGHT > cfg.safety.maxWeightRatio;
    var (r1, w1) := Find([], heavy, cfg.safety.enforceWeightRatio, WeightRatioExceeded);
    if r1.Some? then (r1, w1)
    else
      var aged := t.createdAtUnixMs.Some? && cfg.safety.maxTemplateAgeMs.Some?
                 && SatSub(nowMs, t.createdAtUnixMs.value) > cfg.safety.maxTemplateAgeMs.value;
      var (r2, w2) := Find(w1, aged, cfg.safety.enforceTemplateAge, TemplateStale);
      if r2.Some? then (r2, w2)
      else
        var sigops := t.totalSigops.Some?
                      && t.totalSigops.value as real / MAX_BLOCK_SIGOPS > cfg.safety.warnSigopsRatio;
        var (_, w3) := Find(w2, sigops, false, SigopsBudgetWarning);
        var coinbase := t.coinbaseSigops.Some? && t.coinbaseSigops.value > cfg.safety.warnCoinbaseSigopsMax;
        Find(w3, coinbase, false, CoinbaseSigopsAbnormal)
  }

  // ---- The Invariant Shield ----

  datatype ShieldOutcome = ShieldSkipped | ShieldAgreed | ShieldRejected(reason: VerdictReason)

  datatype Phase2Attribution =
    | NotRun
    | ViewAgreed
    | ViewStale
    | SkippedDegraded
    | SkippedUnprimed
    | Rejected(unknown: seq<Txid>, total: nat)

  function FirstViolation(checks: seq<Option<Violation>>): Option<Violation>
  {
    if checks == [] then None
    else if checks[0].Some? then checks[0]
    else FirstViolation(checks[1..])
  }

  // The first Phase 1 check the block fails, in the order they run.
  function BlockViolation(t: Template, f: BlockFacts): Option<VerdictReason>
  {
    if f.coinbaseValue.Err? then Some(Consensus(f.coinbaseValue.error))
    else if f.coinbaseValue.value != t.coinbaseValue then Some(CoinbaseValueMismatch)
    else if t.templateWeight.Some? && f.nonCoinbaseWeight != t.templateWeight.value then Some(TemplateWeightMismatch)
    else if f.merkleRoot.Some? then Some(Consensus(f.merkleRoot.value))
    else if f.witnessCommitment.Some? then Some(Consensus(f.witnessCommitment.value))
    else if f.bip34Present.Some? then Some(Consensus(f.bip34Present.value))
    else if SatSub(f.txCount, 1) != t.txCount then Some(TxCountMismatch)
    else if t.totalSigops.Some? && f.nonCoinbaseSigops * 4 > t.totalSigops.value then Some(SigopsMismatch)
    else if t.coinbaseSigops.Some? && f.coinbaseSigops * 4 > t.coinbaseSigops.value
      then Some(CoinbaseSigopsMismatch)
    else if f.bip34Height.Err? then Some(Consensus(f.bip34Height.error))
    else if f.bip34Height.value != t.blockHeight then Some(CoinbaseHeightMismatch)
    else
      match FirstViolation(f.tier3)
      case Some(v) => Some(Consensus(v))
      case None => None
  }

  function ClassM(rnd: real -> real, s: Snapshot, txids: seq<Txid>, tolerance: real)
    : (ShieldOutcome, Phase2Attribution)
  {
    match Checked(rnd, s, txids, tolerance)
    case Agreed(_, _) => (ShieldAgreed, ViewAgreed)
    case StaleView(_) => (ShieldAgreed, ViewStale)
    case Skipped => (ShieldAgreed, if s.state == Degraded then SkippedDegraded else SkippedUnprimed)
    case ToleranceExceeded(unknown, total) =>
      (ShieldRejected(MempoolToleranceExceeded), Rejected(unknown, total))
  }

  function Shield(rnd: real -> real, t: Template, snapshot: Option<Snapshot>, tolerance: real)
    : (ShieldOutcome, Phase2Attribution)
  {
    match t.rawBlock
    case None => (ShieldSkipped, NotRun)
    case Some(BadHex) => (ShieldRejected(DecodeFailed), NotRun)
    case Some(Unparsable(v)) => (ShieldRejected(Consensus(v)), NotRun)
    case Some(Parsed(facts)) =>
      match BlockViolation(t, facts)
      case Some(r) => (ShieldRejected(r), NotRun)
      case None =>
        match snapshot
        case None => (ShieldAgreed, NotRun)
        case Some(s) => ClassM(rnd, s, facts.txids, tolerance)
  }

  // ---- The whole evaluation ----

  datatype EvalResult = EvalResult(
    reason: Option<VerdictReason>,
    feeTier: FeeTier,
    minAvgFeeUsed: nat,
    warnings: seq<VerdictReason>,
    shieldSkipped: bool,
    phase2: Phase2Attribution)

  function EvaluateTemplate(rnd: real -> real, t: Template, cfg: Config, snapshot: Option<Snapshot>,
                            mempoolTx: Option<nat>, nowMs: nat): EvalResult
  {
    var (minAvgFee, tier) := EffectiveMinAvgFee(cfg, mempoolTx);
    var basic := CheckBasicValidity(t, cfg);
    if basic.Some? then EvalResult(basic, tier, minAvgFee, [], false, NotRun)
    else
      var constraint := CheckTemplateConstraints(t, cfg, minAvgFee);
      if constraint.Some? then EvalResult(constraint, tier, minAvgFee, [], false, NotRun)
      else
        var (unsafe, warnings) := CheckSafetyConstraints(t, cfg, nowMs);
        if unsafe.Some? then EvalResult(unsafe, tier, minAvgFee, warnings, false, NotRun)
        else
          var (outcome, phase2) := Shield(rnd, t, snapshot, cfg.tolerancePct);
          match outcome
          case ShieldRejected(r) => EvalResult(Some(r), tier, minAvgFee, warnings, false, phase2)
          case _ => EvalResult(None, tier, minAvgFee, warnings, outcome.ShieldSkipped?, phase2)
  }

  function Phase1(rnd: real -> real, t: Template, cfg: Config, mempoolTx: Option<nat>, nowMs: nat): EvalResult
  {
    EvaluateTemplate(rnd, t, cfg, None, mempoolTx, nowMs)
  }

  // ---- Class M is strictly additive ----

  // Class M rejects: Phase 1 accepted with the shield run on a parsed block,
  // the view is served, and the unknown ratio crosses the tolerance.
  predicate ClassMRejects(rnd: real -> real, t: Template, cfg: Config, s: Snapshot, mempoolTx: Option<nat>, nowMs: nat)
  {
    && Phase1(rnd, t, cfg, mempoolTx, nowMs).reason.None?
    && t.rawBlock.Some? && t.rawBlock.value.Parsed?
    && Serving(s)
    && var txids := t.rawBlock.value.facts.txids;
       ExceedsTolerance(rnd, Sat32(|UnknownTo(s.txids, txids)|), Sat32(|txids|), cfg.tolerancePct)
  }

  lemma ClassMAdditive(rnd: real -> real, t: Template, cfg: Config, s: Snapshot, mempoolTx: Option<nat>, nowMs: nat)
    ensures var one, two := Phase1(rnd, t, cfg, mempoolTx, nowMs),
                            EvaluateTemplate(rnd, t, cfg, Some(s), mempoolTx, nowMs);
            && one.phase2 == NotRun
            && (two.phase2.Rejected? <==> ClassMRejects(rnd, t, cfg, s, mempoolTx, nowMs))
            && (!two.phase2.Rejected? ==> two == one.(phase2 := two.phase2))
            && (two.phase2.Rejected? ==>
                  && one.reason.None? && !one.shieldSkipped
                  && two == one.(reason := Some(MempoolToleranceExceeded), phase2 := two.phase2)
                  && two.phase2.total == Sat32(|t.rawBlock.value.facts.txids|)
                  && two.phase2.unknown == UnknownTo(s.txids, t.rawBlock.value.facts.txids))
            && (two.reason == Some(MempoolToleranceExceeded) <==> two.phase2.Rejected?)
  {
    var (minAvgFee, _) := EffectiveMinAvgFee(cfg, mempoolTx);
    if CheckBasicValidity(t, cfg).None? && CheckTemplateConstraints(t, cfg, minAvgFee).None?
       && CheckSafetyConstraints(t, cfg, nowMs).0.None? && t.rawBlock.Some? {
      match t.rawBlock.value {
        case Parsed(facts) => NoMempoolViolation(t, facts);
        case _ =>
      }
    }
  }

  // Phase 1 checks have no way to report the mempool reason.
  lemma NoMempoolViolation(t: Template, f: BlockFacts)
    ensures BlockViolation(t, f) != Some(MempoolToleranceExceeded)
  {
  }

  // ---- Fee tiers ----

  // Floor division is the strict direction: it rejects exactly the templates
  // whose true average is below the minimum.
  lemma FloorDivisionStrict(fees: nat, txs: nat, min: nat)
    requires txs > 0
    ensures fees / txs < min <==> fees < min * txs
  {
    var q, r := fees / txs, fees % txs;
    assert fees == q * txs + r && 0 <= r < txs;
    if q < min {
      assert (q + 1) * txs <= min * txs by { MulMonotone(q + 1, min, txs); }
      assert (q + 1) * txs == q * txs + txs;
    } else {
      MulMonotone(min, q, txs);
    }
  }

  // The template pays less than the floor of the tier its mempool falls in.
  predicate Underpays(t: Template, cfg: Config, mempoolTx: Option<nat>)
  {
    match mempoolTx
    case Some(tx) =>
      || (tx < cfg.lowMempoolTx && t.totalFees < cfg.minAvgFeeLo * t.txCount)
      || (cfg.lowMempoolTx <= tx < cfg.highMempoolTx && t.totalFees < cfg.minAvgFeeMid * t.txCount)
      || (cfg.lowMempoolTx <= tx && cfg.highMempoolTx <= tx && t.totalFees < cfg.minAvgFeeHi * t.txCount)
    case None =>
      || (cfg.unknownMempoolAsHigh && t.totalFees < cfg.minAvgFeeHi * t.txCount)
      || (!cfg.unknownMempoolAsHigh && t.totalFees < cfg.minAvgFeeMid * t.txCount)
  }

  // Which floor is used, by the configured thresholds: whatever the verdict,
  // the result names the tier and the floor that go with the mempool.
  lemma TierExactly(rnd: real -> real, t: Template, cfg: Config, snapshot: Option<Snapshot>,
                    mempoolTx: Option<nat>, nowMs: nat)
    ensures var r := EvaluateTemplate(rnd, t, cfg, snapshot, mempoolTx, nowMs);
            && (r.feeTier == Low <==> mempoolTx.Some? && mempoolTx.value < cfg.lowMempoolTx)
            && (r.feeTier == Mid <==>
                  if mempoolTx.Some? then cfg.lowMempoolTx <= mempoolTx.value < cfg.highMempoolTx
                  else !cfg.unknownMempoolAsHigh)
            && (r.feeTier == Low ==> r.minAvgFeeUsed == cfg.minAvgFeeLo)
            && (r.feeTier == Mid ==> r.minAvgFeeUsed == cfg.minAvgFeeMid)
            && (r.feeTier == High ==> r.minAvgFeeUsed == cfg.minAvgFeeHi)
  {
    hide CheckBasicValidity, CheckTemplateConstraints, CheckSafetyConstraints, Shield;
  }

  // The floor test as the source runs it is the product test.
  lemma {:induction false} BelowFloor(t: Template, cfg: Config, mempoolTx: Option<nat>)
    ensures var min := EffectiveMinAvgFee(cfg, mempoolTx).0;
            min > 0 && t.txCount > 0 && t.totalFees / t.txCount < min <==> Underpays(t, cfg, mempoolTx)
  {
    var min := EffectiveMinAvgFee(cfg, mempoolTx).0;
    assert Underpays(t, cfg, mempoolTx) <==> t.totalFees < min * t.txCount;
    if t.txCount > 0 {
      FloorDivisionStrict(t.totalFees, t.txCount, min);
    }
  }

  // Every check but the average-fee floor passes: a floor of zero rejects nothing.
  predicate PassesApartFromFees(rnd: real -> real, t: Template, cfg: Config, snapshot: Option<Snapshot>, nowMs: nat)
  {
    && CheckBasicValidity(t, cfg).None?
    && CheckTemplateConstraints(t, cfg, 0).None?
    && CheckSafetyConstraints(t, cfg, nowMs).0.None?
    && !Shield(rnd, t, snapshot, cfg.tolerancePct).0.ShieldRejected?
  }

  // The measured mempool enters the decision through the fee floor alone.
  lemma AcceptedExactly(rnd: real -> real, t: Template, cfg: Config, snapshot: Option<Snapshot>,
                        mempoolTx: Option<nat>, nowMs: nat)
    ensures EvaluateTemplate(rnd, t, cfg, snapshot, mempoolTx, nowMs).reason.None? <==>
            PassesApartFromFees(rnd, t, cfg, snapshot, nowMs) && !Underpays(t, cfg, mempoolTx)
  {
    hide EffectiveMinAvgFee, Underpays, Shield, CheckBasicValidity, CheckSafetyConstraints;
    BelowFloor(t, cfg, mempoolTx);
  }

  // Under a validated policy, a template accepted at one mempool size is
  // accepted at every smaller one, and one accepted with the mempool unknown
  // and read as high is accepted at every measured size.
  lemma AcceptanceAntitone(rnd: real -> real, t: Template, cfg: Config, snapshot: Option<Snapshot>,
                           larger: Option<nat>, smaller: nat, nowMs: nat)
    requires Validate(cfg)
    requires larger.Some? ==> smaller <= larger.value
    requires larger.None? ==> cfg.unknownMempoolAsHigh
    requires EvaluateTemplate(rnd, t, cfg, snapshot, larger, nowMs).reason.None?
    ensures EvaluateTemplate(rnd, t, cfg, snapshot, Some(smaller), nowMs).reason.None?
  {
    AcceptedExactly(rnd, t, cfg, snapshot, larger, nowMs);
    AcceptedExactly(rnd, t, cfg, snapshot, Some(smaller), nowMs);
    hide EvaluateTemplate, PassesApartFromFees;
    MulMonotone(cfg.minAvgFeeLo, cfg.minAvgFeeMid, t.txCount);
    MulMonotone(cfg.minAvgFeeMid, cfg.minAvgFeeHi, t.txCount);
  }

  // ---- What each reason means ----

  predicate Reported(f: BlockFacts, v: Violation)
  {
    || f.coinbaseValue == Err(v) || f.merkleRoot == Some(v) || f.witnessCommitment == Some(v)
    || f.bip34Present == Some(v) || f.bip34Height == Err(v) || Some(v) in f.tier3
  }

  // The claim a reason makes about a parsed block.
  predicate BlockBreaks(t: Template, f: BlockFacts, r: VerdictReason)
  {
    match r
    case CoinbaseValueMismatch => f.coinbaseValue.Ok? && f.coinbaseValue.value != t.coinbaseValue
    case TemplateWeightMismatch => t.templateWeight.Some? && t.templateWeight.value != f.nonCoinbaseWeight
    case TxCountMismatch => if f.txCount == 0 then t.txCount != 0 else t.txCount + 1 != f.txCount
    case SigopsMismatch => t.totalSigops.Some? && t.totalSigops.value < 4 * f.nonCoinbaseSigops
    case CoinbaseSigopsMismatch => t.coinbaseSigops.Some? && t.coinbaseSigops.value < 4 * f.coinbaseSigops
    case CoinbaseHeightMismatch => f.bip34Height.Ok? && f.bip34Height.value != t.blockHeight
    case Consensus(v) => Reported(f, v)
    case _ => false
  }

  predicate ShieldBreaks(rnd: real -> real, t: Template, s: Option<Snapshot>, tolerance: real, r: VerdictReason)
  {
    match t.rawBlock
    case None => false
    case Some(BadHex) => r == DecodeFailed
    case Some(Unparsable(v)) => r == Consensus(v)
    case Some(Parsed(f)) =>
      || BlockBreaks(t, f, r)
      || (r == MempoolToleranceExceeded && s.Some? && Serving(s.value)
          && ExceedsTolerance(rnd, Sat32(|UnknownTo(s.value.txids, f.txids)|), Sat32(|f.txids|), tolerance))
  }

  predicate TooHeavy(t: Template, cfg: Config)
  {
    || (t.templateWeight.Some? && t.templateWeight.value as real > cfg.safety.maxWeightRatio * MAX_BLOCK_WEIGHT)
    || (t.templateWeight.None? && t.observedWeight.Some?
        && t.observedWeight.value as real > cfg.safety.maxWeightRatio * MAX_BLOCK_WEIGHT)
  }

  predicate TooOld(t: Template, cfg: Config, nowMs: nat)
  {
    && t.createdAtUnixMs.Some? && cfg.safety.maxTemplateAgeMs.Some?
    && nowMs > t.createdAtUnixMs.value + cfg.safety.maxTemplateAgeMs.value
  }

  predicate PolicyBreaks(t: Template, cfg: Config, mempoolTx: Option<nat>, nowMs: nat, r: VerdictReason)
  {
    match r
    case ProtocolVersionMismatch => t.version != cfg.protocolVersion
    case PrevHashLenMismatch => |t.prevHash| != cfg.requiredPrevhashLen
    case InvalidPrevHash => exists i :: 0 <= i < |t.prevHash| && !IsHexByte(t.prevHash[i])
    case EmptyTemplateRejected => cfg.rejectEmptyTemplates && t.txCount == 0
    case CoinbaseValueZeroRejected => cfg.rejectCoinbaseZero && t.coinbaseValue == 0 && t.txCount > 0
    case TxCountExceeded => t.txCount > cfg.maxTxCount
    case TotalFeesBelowMinimum => t.totalFees < cfg.minTotalFees
    case AvgFeeBelowMinimum => Underpays(t, cfg, mempoolTx)
    case WeightRatioExceeded => cfg.safety.enforceWeightRatio && TooHeavy(t, cfg)
    case TemplateStale => cfg.safety.enforceTemplateAge && TooOld(t, cfg, nowMs)
    case _ => false
  }

  lemma {:induction false} FirstViolationIs(checks: seq<Option<Violation>>)
    ensures FirstViolation(checks).Some? ==> FirstViolation(checks) in checks
    ensures FirstViolation(checks).None? ==> forall v :: Some(v) !in checks
  {
    if checks != [] {
      FirstViolationIs(checks[1..]);
      assert checks == [checks[0]] + checks[1..];
    }
  }

  lemma BlockReason(t: Template, f: BlockFacts)
    ensures BlockViolation(t, f).Some? ==> BlockBreaks(t, f, BlockViolation(t, f).value)
    ensures BlockViolation(t, f).None? ==> forall r :: !BlockBreaks(t, f, r)
  {
    FirstViolationIs(f.tier3);
  }

  lemma ShieldReason(rnd: real -> real, t: Template, s: Option<Snapshot>, tolerance: real)
    ensures var o := Shield(rnd, t, s, tolerance).0;
            && (o.ShieldRejected? ==> ShieldBreaks(rnd, t, s, tolerance, o.reason))
            && (!o.ShieldRejected? ==> forall r :: !ShieldBreaks(rnd, t, s, tolerance, r))
  {
    if t.rawBlock.Some? && t.rawBlock.value.Parsed? {
      BlockReason(t, t.rawBlock.value.facts);
    }
  }

  lemma PolicyReason(t: Template, cfg: Config, mempoolTx: Option<nat>, nowMs: nat)
    ensures var basic, constraint, safety := CheckBasicValidity(t, cfg),
                                             CheckTemplateConstraints(t, cfg, EffectiveMinAvgFee(cfg, mempoolTx).0),
                                             CheckSafetyConstraints(t, cfg, nowMs).0;
            && (basic.Some? ==> PolicyBreaks(t, cfg, mempoolTx, nowMs, basic.value))
            && (constraint.Some? ==> PolicyBreaks(t, cfg, mempoolTx, nowMs, constraint.value))
            && (safety.Some? ==> PolicyBreaks(t, cfg, mempoolTx, nowMs, safety.value))
            && (basic.None? && constraint.None? && safety.None? ==>
                  forall r :: !PolicyBreaks(t, cfg, mempoolTx, nowMs, r))
  {
    hide EffectiveMinAvgFee, Underpays;
    BelowFloor(t, cfg, mempoolTx);
  }

  // A rejection's reason is true of the template, and an accepted template
  // breaks no rule at all: every check has its own condition, stated apart
  // from the order the checks run in.
  lemma ReasonsSoundAndComplete(rnd: real -> real, t: Template, cfg: Config, snapshot: Option<Snapshot>,
                                mempoolTx: Option<nat>, nowMs: nat)
    ensures var reason := EvaluateTemplate(rnd, t, cfg, snapshot, mempoolTx, nowMs).reason;
            && (reason.Some? ==> PolicyBreaks(t, cfg, mempoolTx, nowMs, reason.value)
                                 || ShieldBreaks(rnd, t, snapshot, cfg.tolerancePct, reason.value))
            && (reason.None? <==> forall r :: !PolicyBreaks(t, cfg, mempoolTx, nowMs, r)
                                              && !ShieldBreaks(rnd, t, snapshot, cfg.tolerancePct, r))
  {
    hide CheckBasicValidity, CheckTemplateConstraints, CheckSafetyConstraints, Shield, PolicyBreaks, ShieldBreaks,
         EffectiveMinAvgFee;
    PolicyReason(t, cfg, mempoolTx, nowMs);
    ShieldReason(rnd, t, snapshot, cfg.tolerancePct);
  }

  // The finding a warning stands for, observed and not enforced.
  predicate Observed(t: Template, cfg: Config, nowMs: nat, w: VerdictReason)
  {
    match w
    case WeightRatioExceeded => TooHeavy(t, cfg) && !cfg.safety.enforceWeightRatio
    case TemplateStale => TooOld(t, cfg, nowMs) && !cfg.safety.enforceTemplateAge
    case SigopsBudgetWarning =>
      t.totalSigops.Some? && t.totalSigops.value as real > cfg.safety.warnSigopsRatio * MAX_BLOCK_SIGOPS
    case CoinbaseSigopsAbnormal =>
      t.coinbaseSigops.Some? && t.coinbaseSigops.value > cfg.safety.warnCoinbaseSigopsMax
    case _ => false
  }

  // The findings in the order they are looked for.
  function Findings(): seq<VerdictReason>
  {
    [WeightRatioExceeded, TemplateStale, SigopsBudgetWarning, CoinbaseSigopsAbnormal]
  }

  function IsObserved(t: Template, cfg: Config, nowMs: nat): VerdictReason -> bool
  {
    (w: VerdictReason) => Observed(t, cfg, nowMs, w)
  }

  function If(b: bool, r: VerdictReason): seq<VerdictReason> { if b then [r] else [] }

  lemma {:induction false} ObservedFindings(t: Template, cfg: Config, nowMs: nat)
    ensures Filter(Findings(), IsObserved(t, cfg, nowMs)) ==
            If(Observed(t, cfg, nowMs, WeightRatioExceeded), WeightRatioExceeded)
            + If(Observed(t, cfg, nowMs, TemplateStale), TemplateStale)
            + If(Observed(t, cfg, nowMs, SigopsBudgetWarning), SigopsBudgetWarning)
            + If(Observed(t, cfg, nowMs, CoinbaseSigopsAbnormal), CoinbaseSigopsAbnormal)
    ensures Filter(Findings()[..1], IsObserved(t, cfg, nowMs)) ==
            If(Observed(t, cfg, nowMs, WeightRatioExceeded), WeightRatioExceeded)
  {
    hide Observed;
    var p := IsObserved(t, cfg, nowMs);
    FilterAppend([], WeightRatioExceeded, p);
    FilterAppend([WeightRatioExceeded], TemplateStale, p);
    FilterAppend([WeightRatioExceeded, TemplateStale], SigopsBudgetWarning, p);
    FilterAppend([WeightRatioExceeded, TemplateStale, SigopsBudgetWarning], CoinbaseSigopsAbnormal, p);
    assert [] + [WeightRatioExceeded] == [WeightRatioExceeded];
    assert [WeightRatioExceeded] + [TemplateStale] == [WeightRatioExceeded, TemplateStale];
    assert [WeightRatioExceeded, TemplateStale] + [SigopsBudgetWarning]
        == [WeightRatioExceeded, TemplateStale, SigopsBudgetWarning];
    assert [WeightRatioExceeded, TemplateStale, SigopsBudgetWarning] + [CoinbaseSigopsAbnormal] == Findings();
    assert Findings()[..1] == [WeightRatioExceeded];
  }

  lemma {:induction false} SafetyWarnings(t: Template, cfg: Config, nowMs: nat)
    ensures var (r, warnings) := CheckSafetyConstraints(t, cfg, nowMs);
            warnings == match r
                        case Some(WeightRatioExceeded) => []
                        case Some(_) => Filter(Findings()[..1], IsObserved(t, cfg, nowMs))
                        case None => Filter(Findings(), IsObserved(t, cfg, nowMs))
  {
    hide Filter;
    ObservedFindings(t, cfg, nowMs);
  }

  // A result's warnings are exactly the findings that were only observed, in
  // the order they are looked for, as far as the checks got: all of them for
  // a template that reached the shield, none for one refused before.
  lemma {:induction false} WarningsAreObserved(rnd: real -> real, t: Template, cfg: Config, snapshot: Option<Snapshot>,
                                               mempoolTx: Option<nat>, nowMs: nat)
    ensures var r := EvaluateTemplate(rnd, t, cfg, snapshot, mempoolTx, nowMs);
            r.warnings ==
            if r.reason.Some? && Rank(r.reason.value) < Rank(TemplateStale) then []
            else if r.reason == Some(TemplateStale) then Filter(Findings()[..1], IsObserved(t, cfg, nowMs))
            else Filter(Findings(), IsObserved(t, cfg, nowMs))
  {
    hide Filter, Observed, Shield;
    SafetyWarnings(t, cfg, nowMs);
    ShieldKind(rnd, t, snapshot, cfg.tolerancePct);
  }

  // What the shield reports is none of the policy's own reasons.
  lemma {:induction false} ShieldKind(rnd: real -> real, t: Template, snapshot: Option<Snapshot>, tolerance: real)
    ensures var o := Shield(rnd, t, snapshot, tolerance).0;
            o.ShieldRejected? ==> Rank(o.reason) == 10
  {
    hide FirstViolation, Checked;
  }

  // ---- Which reason is reported when several apply ----

  // Where a reason stands among the policy's own rules; the shield comes after them.
  function Rank(r: VerdictReason): nat
  {
    match r
    case ProtocolVersionMismatch => 0
    case PrevHashLenMismatch => 1
    case InvalidPrevHash => 2
    case EmptyTemplateRejected => 3
    case CoinbaseValueZeroRejected => 4
    case TxCountExceeded => 5
    case TotalFeesBelowMinimum => 6
    case AvgFeeBelowMinimum => 7
    case WeightRatioExceeded => 8
    case TemplateStale => 9
    case _ => 10
  }

  function Raise(v: Option<Violation>): Option<VerdictReason>
  {
    match v case Some(x) => Some(Consensus(x)) case None => None
  }

  function Unless(broken: bool, r: VerdictReason): Option<VerdictReason> { if broken then Some(r) else None }

  function Refusal<T>(r: Result<T, Violation>): Option<Violation>
  {
    match r case Err(v) => Some(v) case Ok(_) => None
  }

  // The shield's checks of a parsed block, in the order they are applied,
  // each with what it finds.
  function BlockRules(t: Template, f: BlockFacts): seq<Option<VerdictReason>>
  {
    [Raise(Refusal(f.coinbaseValue)),
     Unless(BlockBreaks(t, f, CoinbaseValueMismatch), CoinbaseValueMismatch),
     Unless(BlockBreaks(t, f, TemplateWeightMismatch), TemplateWeightMismatch),
     Raise(f.merkleRoot), Raise(f.witnessCommitment), Raise(f.bip34Present),
     Unless(BlockBreaks(t, f, TxCountMismatch), TxCountMismatch),
     Unless(BlockBreaks(t, f, SigopsMismatch), SigopsMismatch),
     Unless(BlockBreaks(t, f, CoinbaseSigopsMismatch), CoinbaseSigopsMismatch),
     Raise(Refusal(f.bip34Height)),
     Unless(BlockBreaks(t, f, CoinbaseHeightMismatch), CoinbaseHeightMismatch)]
    + TierRules(f)
  }

  // The first finding of a list.
  ghost predicate FirstFound(rules: seq<Option<VerdictReason>>, r: Option<VerdictReason>)
  {
    if r.Some? then exists k: nat :: FoundAt(rules, k) && rules[k] == r
    else forall k :: 0 <= k < |rules| ==> rules[k].None?
  }

  ghost predicate FoundAt(rules: seq<Option<VerdictReason>>, k: nat)
  {
    k < |rules| && rules[k].Some? && forall j :: 0 <= j < k ==> rules[j].None?
  }

  lemma {:induction false} FirstViolationAt(checks: seq<Option<Violation>>) returns (k: nat)
    ensures FirstViolation(checks).Some? ==>
              k < |checks| && checks[k] == FirstViolation(checks) && forall j :: 0 <= j < k ==> checks[j].None?
    ensures FirstViolation(checks).None? ==> forall j :: 0 <= j < |checks| ==> checks[j].None?
  {
    k := 0;
    if checks != [] && checks[0].None? {
      var i := FirstViolationAt(checks[1..]);
      k := i + 1;
    }
  }

  lemma {:induction false} LaterFound(x: Option<VerdictReason>, rest: seq<Option<VerdictReason>>,
                                      r: Option<VerdictReason>)
    requires FirstFound(rest, r)
    ensures FirstFound([x] + rest, if x.Some? then x else r)
  {
    var all := [x] + rest;
    assert forall k :: 1 <= k < |all| ==> all[k] == rest[k - 1];
    if x.Some? {
      assert FoundAt(all, 0);
    } else if r.Some? {
      var k: nat :| FoundAt(rest, k) && rest[k] == r;
      assert FoundAt(all, k + 1);
    }
  }

  function TierRules(f: BlockFacts): seq<Option<VerdictReason>>
  {
    seq(|f.tier3|, i requires 0 <= i < |f.tier3| => Raise(f.tier3[i]))
  }

  lemma {:induction false} TierFirst(f: BlockFacts)
    ensures FirstFound(TierRules(f), Raise(FirstViolation(f.tier3)))
  {
    var i := FirstViolationAt(f.tier3);
    if FirstViolation(f.tier3).Some? {
      assert FoundAt(TierRules(f), i);
    }
  }

  // A block's violation is the first finding of its checks.
  lemma {:induction false} BlockFirst(t: Template, f: BlockFacts)
    ensures FirstFound(BlockRules(t, f), BlockViolation(t, f))
  {
    hide FirstFound, FirstViolation;
    var rules := BlockRules(t, f);
    var r := Raise(FirstViolation(f.tier3));
    TierFirst(f);
    assert rules[11..] == TierRules(f);
    var k := 11;
    while k > 0
      invariant 0 <= k <= 11 && FirstFound(rules[k..], r)
      invariant r == FoundFrom(rules, k, Raise(FirstViolation(f.tier3)))
    {
      LaterFound(rules[k - 1], rules[k..], r);
      assert [rules[k - 1]] + rules[k..] == rules[k - 1..];
      k, r := k - 1, if rules[k - 1].Some? then rules[k - 1] else r;
    }
    assert rules[0..] == rules;
    FoundInBlock(t, f);
  }

  // The first finding of rules k to 10, or `last`.
  function FoundFrom(rules: seq<Option<VerdictReason>>, k: nat, last: Option<VerdictReason>): Option<VerdictReason>
    requires k <= 11 <= |rules|
    decreases 11 - k
  {
    if k == 11 then last else if rules[k].Some? then rules[k] else FoundFrom(rules, k + 1, last)
  }

  lemma {:induction false} FoundInBlock(t: Template, f: BlockFacts)
    ensures FoundFrom(BlockRules(t, f), 0, Raise(FirstViolation(f.tier3))) == BlockViolation(t, f)
  {
    hide FirstViolation;
    var rules, last := BlockRules(t, f), Raise(FirstViolation(f.tier3));
    assert FoundFrom(rules, 10, last) == if rules[10].Some? then rules[10] else last;
    assert FoundFrom(rules, 8, last) ==
           if rules[8].Some? then rules[8] else if rules[9].Some? then rules[9] else FoundFrom(rules, 10, last);
    assert FoundFrom(rules, 6, last) ==
           if rules[6].Some? then rules[6] else if rules[7].Some? then rules[7] else FoundFrom(rules, 8, last);
    assert FoundFrom(rules, 4, last) ==
           if rules[4].Some? then rules[4] else if rules[5].Some? then rules[5] else FoundFrom(rules, 6, last);
    assert FoundFrom(rules, 2, last) ==
           if rules[2].Some? then rules[2] else if rules[3].Some? then rules[3] else FoundFrom(rules, 4, last);
    assert FoundFrom(rules, 0, last) ==
           if rules[0].Some? then rules[0] else if rules[1].Some? then rules[1] else FoundFrom(rules, 2, last);
  }

  // The whole order: policy first, then the raw block itself, then the
  // block's checks, then the mempool.
  function ShieldRules(rnd: real -> real, t: Template, s: Option<Snapshot>, tolerance: real)
    : seq<Option<VerdictReason>>
  {
    match t.rawBlock
    case None => []
    case Some(BadHex) => [Some(DecodeFailed)]
    case Some(Unparsable(v)) => [Some(Consensus(v))]
    case Some(Parsed(f)) =>
      BlockRules(t, f)
      + [Unless(ShieldBreaks(rnd, t, s, tolerance, MempoolToleranceExceeded), MempoolToleranceExceeded)]
  }

  lemma {:induction false} ShieldFirst(rnd: real -> real, t: Template, s: Option<Snapshot>, tolerance: real)
    ensures var o := Shield(rnd, t, s, tolerance).0;
            FirstFound(ShieldRules(rnd, t, s, tolerance), if o.ShieldRejected? then Some(o.reason) else None)
  {
    hide BlockRules, BlockViolation;
    match t.rawBlock {
      case Some(Parsed(f)) =>
        BlockFirst(t, f);
        var block, rules := BlockRules(t, f), ShieldRules(rnd, t, s, tolerance);
        assert rules[..|block|] == block;
        assert forall j :: 0 <= j < |block| ==> rules[j] == block[j];
        if BlockViolation(t, f).Some? {
          var k: nat :| FoundAt(block, k) && block[k] == BlockViolation(t, f);
          assert FoundAt(rules, k);
        } else {
          assert rules[|block|].Some? ==> FoundAt(rules, |block|);
        }
      case Some(BadHex) => assert FoundAt(ShieldRules(rnd, t, s, tolerance), 0);
      case Some(Unparsable(_)) => assert FoundAt(ShieldRules(rnd, t, s, tolerance), 0);
      case None =>
    }
  }

  // r is broken, and no policy rule before it is.
  ghost predicate FirstBroken(t: Template, cfg: Config, mempoolTx: Option<nat>, nowMs: nat, r: VerdictReason)
  {
    && PolicyBreaks(t, cfg, mempoolTx, nowMs, r)
    && forall other :: PolicyBreaks(t, cfg, mempoolTx, nowMs, other) ==> Rank(r) <= Rank(other)
  }

  lemma {:induction false} PolicyFirst(t: Template, cfg: Config, mempoolTx: Option<nat>, nowMs: nat)
    ensures var basic, constraint, safety := CheckBasicValidity(t, cfg),
                                             CheckTemplateConstraints(t, cfg, EffectiveMinAvgFee(cfg, mempoolTx).0),
                                             CheckSafetyConstraints(t, cfg, nowMs).0;
            var r := if basic.Some? then basic else if constraint.Some? then constraint else safety;
            if r.Some? then FirstBroken(t, cfg, mempoolTx, nowMs, r.value)
            else forall other :: !PolicyBreaks(t, cfg, mempoolTx, nowMs, other)
  {
    hide EffectiveMinAvgFee, Underpays;
    BelowFloor(t, cfg, mempoolTx);
  }

  // Which of several reasons is reported: the first broken rule, in the
  // order policy, raw block, block checks, mempool.
  lemma {:induction false} FirstReasonReported(rnd: real -> real, t: Template, cfg: Config,
                                               snapshot: Option<Snapshot>, mempoolTx: Option<nat>, nowMs: nat)
    ensures var reason := EvaluateTemplate(rnd, t, cfg, snapshot, mempoolTx, nowMs).reason;
            if exists r :: PolicyBreaks(t, cfg, mempoolTx, nowMs, r)
            then reason.Some? && FirstBroken(t, cfg, mempoolTx, nowMs, reason.value)
            else FirstFound(ShieldRules(rnd, t, snapshot, cfg.tolerancePct), reason)
  {
    hide CheckBasicValidity, CheckTemplateConstraints, CheckSafetyConstraints, Shield, PolicyBreaks, ShieldRules,
         EffectiveMinAvgFee, FirstFound;
    PolicyFirst(t, cfg, mempoolTx, nowMs);
    ShieldFirst(rnd, t, snapshot, cfg.tolerancePct);
  }

  // ---- What Phase 2 is attributed to ----

  // Whether Class M ran, and what it made of the view, is told apart from
  // the verdict: it runs on a parsed block that Phase 1 accepts, and a view
  // too old or never filled is named as such.
  lemma {:induction false} AttributionExactly(rnd: real -> real, t: Template, cfg: Config, snapshot: Option<Snapshot>,
                                              mempoolTx: Option<nat>, nowMs: nat)
    ensures var one, two := Phase1(rnd, t, cfg, mempoolTx, nowMs),
                            EvaluateTemplate(rnd, t, cfg, snapshot, mempoolTx, nowMs);
            && (two.shieldSkipped <==> one.reason.None? && t.rawBlock.None?)
            && two.phase2 ==
               if snapshot.None? || one.reason.Some? || t.rawBlock.None? then NotRun
               else
                 match snapshot.value.state
                 case Unprimed => SkippedUnprimed
                 case Degraded => SkippedDegraded
                 case _ =>
                   var txids := t.rawBlock.value.facts.txids;
                   var unknown := UnknownTo(snapshot.value.txids, txids);
                   if ExceedsTolerance(rnd, Sat32(|unknown|), Sat32(|txids|), cfg.tolerancePct)
                   then Rejected(unknown, Sat32(|txids|))
                   else if snapshot.value.state == Stale then ViewStale else ViewAgreed
  {
    hide CheckBasicValidity, CheckTemplateConstraints, CheckSafetyConstraints, BlockViolation, ExceedsTolerance,
         UnknownTo, EffectiveMinAvgFee;
  }

  // ---- The demonstration policy ----

  // config/demo-strict-policy.toml, with the default mempool tolerance.
  function StrictDemo(): Config
  {
    Config(2, 64, 0, 12, 5, 20, 900, 1900, 4200, false, false, true,
           Safety(0.95, true, Some(30_000), true, 0.9, 300), 4.0)
  }

  // It is valid, and two transactions paying 2000 between them pay the floor
  // of a mempool of four and not of one of ten or of thirty.
  lemma StrictDemoFloors(rnd: real -> real, t: Template, mempoolTx: nat, nowMs: nat)
    requires t.version == 2 && |t.prevHash| == 64 && (forall i :: 0 <= i < 64 ==> IsHexByte(t.prevHash[i]))
    requires t.txCount == 2 && t.totalFees == 2000
    ensures Validate(StrictDemo())
    ensures var r := EvaluateTemplate(rnd, t, StrictDemo(), None, Some(mempoolTx), nowMs);
            && (mempoolTx == 4 ==> r.feeTier == Low && r.reason != Some(AvgFeeBelowMinimum))
            && (mempoolTx == 10 ==> r.feeTier == Mid && r.reason == Some(AvgFeeBelowMinimum))
            && (mempoolTx == 30 ==> r.feeTier == High && r.reason == Some(AvgFeeBelowMinimum))
  {
    hide Shield, CheckSafetyConstraints;
    ShieldKind(rnd, t, None, StrictDemo().tolerancePct);
    SafetyKind(t, StrictDemo(), nowMs);
  }

  lemma SafetyKind(t: Template, cfg: Config, nowMs: nat)
    ensures CheckSafetyConstraints(t, cfg, nowMs).0 != Some(AvgFeeBelowMinimum)
  {
  }
}
