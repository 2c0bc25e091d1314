/** The verifier's polled mempool view and the Class M check against it
    (services/pool-verifier/src/mempool_view.rs). */
module MempoolView {
  import opened Base
  import opened BitcoindRpc
  import opened SecondChance

  datatype MempoolState = Fresh | Stale | Degraded | Unprimed

  datatype Snapshot = Snapshot(state: MempoolState, txids: set<Txid>, ageSecs: nat, size: nat)

  // ---- History: every set ever offered to the view ----

  datatype Offer = Offer(txids: set<Txid>, at: nat)

  predicate Installable(o: Offer) { |o.txids| >= MIN_INSTALLABLE_MEMPOOL_SIZE }

  // The last offer that was large enough to be served.
  function LastInstalled(history: seq<Offer>): Option<Offer>
  {
    if history == [] then None
    else
      var last := history[|history| - 1];
      if Installable(last) then Some(last) else LastInstalled(history[..|history| - 1])
  }

  function Refusals(history: seq<Offer>): nat
  {
    |Filter(history, IsRefused())|
  }

  function IsRefused(): Offer -> bool { (o: Offer) => !Installable(o) }

  lemma HistoryNext(history: seq<Offer>, o: Offer)
    ensures LastInstalled(history + [o]) == if Installable(o) then Some(o) else LastInstalled(history)
    ensures Refusals(history + [o]) == Refusals(history) + if Installable(o) then 0 else 1
  {
    FilterAppend(history, o, IsRefused());
    assert (history + [o])[..|history|] == history;
  }

  lemma {:induction false} LastInstalledIs(history: seq<Offer>)
    ensures LastInstalled(history).None? <==> forall k :: 0 <= k < |history| ==> !Installable(history[k])
    ensures LastInstalled(history).Some? ==>
              exists k :: 0 <= k < |history| && Installable(history[k]) && LastInstalled(history) == Some(history[k])
                          && forall j :: k < j < |history| ==> !Installable(history[j])
  {
    if history != [] && !Installable(history[|history| - 1]) {
      LastInstalledIs(history[..|history| - 1]);
    }
  }

  // How old a view refreshed at `last` is at `now`, and what that makes it.
  function AgeSecs(last: nat, now: nat): nat { SatSub(now, last) / 1000 }

  function StateAtAge(ageSecs: nat, maxStaleSecs: nat): MempoolState
  {
    if ageSecs > Min(2 * maxStaleSecs, U64_MAX) then Degraded
    else if ageSecs > maxStaleSecs then Stale
    else Fresh
  }

  // The snapshot a reader is owed at `now`, from the history alone.
  function SnapshotAt(history: seq<Offer>, maxStaleSecs: nat, now: nat): Snapshot
  {
    match LastInstalled(history)
    case None => Snapshot(Unprimed, {}, 0, 0)
    case Some(o) =>
      var age := AgeSecs(o.at, now);
      Snapshot(StateAtAge(age, maxStaleSecs), o.txids, age, |o.txids|)
  }

  class View {
    var txids: set<Txid>
    var lastRefreshUnixMs: Option<nat>
    const maxStaleSecs: nat
    var primed: bool
    var emptyResponses: nat
    ghost var history: seq<Offer>

    // The fields are what the history says they should be. The refusal
    // counter is a u64 that wraps.
    ghost predicate Valid()
      reads this
    {
      var last := LastInstalled(history);
      && primed == last.Some?
      && (last.None? ==> txids == {} && lastRefreshUnixMs.None?)
      && (last.Some? ==> txids == last.value.txids && lastRefreshUnixMs == Some(last.value.at))
      && emptyResponses == Refusals(history) % (U64_MAX + 1)
    }

    constructor (maxStaleSecs: nat)
      ensures Valid() && history == [] && this.maxStaleSecs == maxStaleSecs
    {
      this.txids, this.lastRefreshUnixMs, this.primed, this.emptyResponses := {}, None, false, 0;
      this.maxStaleSecs := maxStaleSecs;
      this.history := [];
    }

    method InstallAt(newTxids: set<Txid>, at: nat) returns (installed: bool)
      requires Valid()
      modifies this
      ensures Valid() && history == old(history) + [Offer(newTxids, at)]
      ensures installed == (newTxids != {})
      ensures installed ==>
                txids == newTxids && lastRefreshUnixMs == Some(at) && primed && unchanged(`emptyResponses)
      ensures !installed ==>
                && unchanged(`txids, `lastRefreshUnixMs, `primed)
                && emptyResponses == (old(emptyResponses) + 1) % (U64_MAX + 1)
    {
      hide LastInstalled, Refusals;
      HistoryNext(history, Offer(newTxids, at));
      history := history + [Offer(newTxids, at)];
      if |newTxids| < MIN_INSTALLABLE_MEMPOOL_SIZE {
        emptyResponses := (emptyResponses + 1) % (U64_MAX + 1);
        return false;
      }
      txids := newTxids;
      lastRefreshUnixMs := Some(at);
      primed := true;
      return true;
    }

    method TakeSnapshot(now: nat) returns (s: Snapshot)
      requires Valid()
      ensures s == SnapshotAt(history, maxStaleSecs, now)
    {
      var state, age := Unprimed, 0;
      if lastRefreshUnixMs.Some? && primed {
        age := SatSub(now, lastRefreshUnixMs.value) / 1000;
        if age > Min(maxStaleSecs * 2, U64_MAX) {
          state := Degraded;
        } else if age > maxStaleSecs {
          state := Stale;
        } else {
          state := Fresh;
        }
      }
      s := Snapshot(state, txids, age, |txids|);
    }
  }

  // ageSecs whole seconds have passed since `at`, none if the clock went back.
  predicate WholeSeconds(ageSecs: nat, at: nat, now: nat)
  {
    if now < at then ageSecs == 0 else 1000 * ageSecs <= now - at < 1000 * (ageSecs + 1)
  }

  // Unprimed exactly while nothing non-empty was ever offered; every served
  // snapshot is non-empty, is the last non-empty offer and tells its age.
  lemma SnapshotServes(history: seq<Offer>, maxStaleSecs: nat, now: nat)
    ensures var s := SnapshotAt(history, maxStaleSecs, now);
            && (s.state == Unprimed <==> forall k :: 0 <= k < |history| ==> history[k].txids == {})
            && s.size == |s.txids| && (s.state == Unprimed ==> s.txids == {} && s.ageSecs == 0)
            && (s.state != Unprimed ==>
                  && s.txids != {}
                  && exists k :: 0 <= k < |history| && history[k].txids == s.txids
                                 && WholeSeconds(s.ageSecs, history[k].at, now)
                                 && forall j :: k < j < |history| ==> history[j].txids == {})
  {
    LastInstalledIs(history);
    forall k | 0 <= k < |history| ensures Installable(history[k]) <==> history[k].txids != {} {}
  }

  // Where the states change, in milliseconds since the last install: an age
  // is counted in whole seconds, and each state lasts through its last second.
  // Twice the budget is a u64 that saturates.
  lemma StateBoundaries(history: seq<Offer>, maxStaleSecs: nat, now: nat)
    requires LastInstalled(history).Some? && maxStaleSecs <= U64_MAX
    ensures var at := LastInstalled(history).value.at;
            var s := SnapshotAt(history, maxStaleSecs, now);
            && (s.state == Fresh <==> now < at + 1000 * (maxStaleSecs + 1))
            && (s.state == Degraded <==> now >= at + 1000 * (Min(2 * maxStaleSecs, U64_MAX) + 1))
  {
  }

  function Rank(s: MempoolState): int
  {
    match s case Unprimed => 0 case Fresh => 1 case Stale => 2 case Degraded => 3
  }

  // With nothing new installed, whatever was refused in between, time only
  // moves a primed view from Fresh to Stale to Degraded.
  lemma {:induction false} AgesOneWay(history: seq<Offer>, refused: seq<Offer>, maxStaleSecs: nat, now: nat, later: nat)
    requires now <= later
    requires forall k :: 0 <= k < |refused| ==> refused[k].txids == {}
    ensures var a, b := SnapshotAt(history, maxStaleSecs, now), SnapshotAt(history + refused, maxStaleSecs, later);
            && a.txids == b.txids
            && Rank(a.state) <= Rank(b.state)
            && (a.state == Unprimed <==> b.state == Unprimed)
  {
    if refused == [] {
      assert history + refused == history;
    } else {
      var n := |refused| - 1;
      AgesOneWay(history, refused[..n], maxStaleSecs, now, later);
      assert (history + refused)[..|history| + n] == history + refused[..n];
    }
  }

  // ---- The Class M check ----

  datatype CheckOutcome =
    | Agreed(unknownCount: nat, total: nat)
    | ToleranceExceeded(unknown: seq<Txid>, total: nat)
    | StaleView(ageSecs: nat)
    | Skipped

  function NotIn(view: set<Txid>): Txid -> bool { (t: Txid) => t !in view }

  // Every template txid the view does not hold, in template order.
  function UnknownTo(view: set<Txid>, template: seq<Txid>): seq<Txid>
  {
    Filter(template, NotIn(view))
  }

  predicate Serving(s: Snapshot) { s.state == Fresh || s.state == Stale }

  function Checked(rnd: real -> real, s: Snapshot, template: seq<Txid>, tolerance: real): CheckOutcome
  {
    var unknown, total := UnknownTo(s.txids, template), Sat32(|template|);
    if !Serving(s) then Skipped
    else if ExceedsTolerance(rnd, Sat32(|unknown|), total, tolerance) then ToleranceExceeded(unknown, total)
    else if s.state == Stale then StaleView(s.ageSecs)
    else Agreed(Sat32(|unknown|), total)
  }

  // The unknowns keep the template's order and its repetitions.
  lemma {:induction false} UnknownInOrder(view: set<Txid>, a: seq<Txid>, t: Txid, b: seq<Txid>)
    ensures UnknownTo(view, []) == []
    ensures UnknownTo(view, a + [t] + b) ==
            UnknownTo(view, a) + (if t in view then [] else [t]) + UnknownTo(view, b)
  {
    FilterConcat(a + [t], b, NotIn(view));
    FilterAppend(a, t, NotIn(view));
  }

  // The check in plain arithmetic: a served view rejects exactly when more
  // than `tolerance` percent of the template is not in it, and otherwise
  // reports the count, or its age when it is stale.
  lemma CheckedExactly(s: Snapshot, template: seq<Txid>, tolerance: real)
    ensures var unknown := UnknownTo(s.txids, template);
            var n, total := Sat32(|unknown|), Sat32(|template|);
            var over := total > 0 && 100.0 * n as real > tolerance * total as real;
            Checked(Exact(), s, template, tolerance) ==
            match s.state
            case Unprimed => Skipped
            case Degraded => Skipped
            case Stale => if over then ToleranceExceeded(unknown, total) else StaleView(s.ageSecs)
            case Fresh => if over then ToleranceExceeded(unknown, total) else Agreed(n, total)
  {
    ExceedsExactly(Sat32(|UnknownTo(s.txids, template)|), Sat32(|template|), tolerance);
  }

  method Evaluate(rnd: real -> real, s: Snapshot, template: seq<Txid>, tolerance: real) returns (r: CheckOutcome)
    ensures r == Checked(rnd, s, template, tolerance)
  {
    if s.state == Degraded || s.state == Unprimed {
      return Skipped;
    }
    var total := Sat32(|template|);
    if total == 0 {
      return if s.state == Stale then StaleView(s.ageSecs) else Agreed(0, 0);
    }
    var unknown: seq<Txid> := [];
    for k := 0 to |template|
      invariant unknown == UnknownTo(s.txids, template[..k])
    {
      assert template[..k + 1] == template[..k] + [template[k]];
      FilterAppend(template[..k], template[k], NotIn(s.txids));
      if template[k] !in s.txids {
        unknown := unknown + [template[k]];
      }
    }
    assert template[..|template|] == template;
    var unknownCount := Sat32(|unknown|);
    if ExceedsTolerance(rnd, unknownCount, total, tolerance) {
      return ToleranceExceeded(unknown, total);
    }
    r := if s.state == Stale then StaleView(s.ageSecs) else Agreed(unknownCount, total);
  }
}
