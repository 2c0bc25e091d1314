/** The rate limiter as it runs: deques pruned from the front, stale entries
    cleaned up, the least recently used IP evicted. Every decision is the one
    the plain log calls for. */
module RateLimiterImpl {
  import opened Base
  import opened RateLimiter

  // `kept` is what is left of `full`: a suffix, and all that was dropped had
  // expired by `at`.
  ghost predicate Remembers(kept: seq<nat>, full: seq<nat>, at: nat, window: nat)
  {
    && |kept| <= |full| && kept == full[|full| - |kept|..]
    && forall i :: 0 <= i < |full| - |kept| ==> SatSub(at, full[i]) >= window
  }

  lemma {:induction false} YoungSuffix(ts: seq<nat>, k: nat, now: nat, window: nat)
    requires k <= |ts|
    requires forall i :: 0 <= i < k ==> SatSub(now, ts[i]) >= window
    ensures Young(ts, now, window) == Young(ts[k..], now, window)
  {
    assert ts == ts[..k] + ts[k..];
    FilterConcat(ts[..k], ts[k..], IsYoung(now, window));
    FilterAllOrNone(ts[..k], IsYoung(now, window));
  }

  // Forgetting what had expired changes no later count.
  lemma {:induction false} RemembersYoung(kept: seq<nat>, full: seq<nat>, at: nat, now: nat, window: nat)
    requires Remembers(kept, full, at, window) && at <= now
    ensures Young(kept, now, window) == Young(full, now, window)
    ensures Remembers(kept, full, now, window)
  {
    YoungSuffix(full, |full| - |kept|, now, window);
  }

  lemma {:induction false} RemembersTail(kept: seq<nat>, full: seq<nat>, now: nat, window: nat)
    requires Remembers(kept, full, now, window) && kept != [] && SatSub(now, kept[0]) >= window
    ensures Remembers(kept[1..], full, now, window)
  {
    assert full[|full| - |kept|] == kept[0];
  }

  // Pruning keeps a suffix, and what it drops has expired.
  lemma {:induction false} YoungRemembers(kept: seq<nat>, full: seq<nat>, now: nat, window: nat, bound: nat)
    requires Remembers(kept, full, now, window) && Sorted(kept, bound)
    ensures Remembers(Young(kept, now, window), full, now, window)
    decreases |kept|
  {
    if kept == [] || SatSub(now, kept[0]) < window {
      FilterAllOrNone(kept, IsYoung(now, window));
    } else {
      YoungSuffix(kept, 1, now, window);
      RemembersTail(kept, full, now, window);
      YoungRemembers(kept[1..], full, now, window, bound);
    }
  }

  method PruneWindow(deque: seq<nat>, now: nat, window: nat, ghost bound: nat) returns (rest: seq<nat>)
    requires Sorted(deque, bound)
    ensures rest == Young(deque, now, window)
  {
    rest := deque;
    while rest != [] && SatSub(now, rest[0]) >= window
      invariant Sorted(rest, bound) && Young(rest, now, window) == Young(deque, now, window)
      decreases |rest|
    {
      YoungSuffix(rest, 1, now, window);
      rest := rest[1..];
    }
    FilterAllOrNone(rest, IsYoung(now, window));
  }

  function Kept(ips: map<Ip, seq<nat>>, ip: Ip): seq<nat>
  {
    if ip in ips then ips[ip] else []
  }

  function Last(ts: seq<nat>): nat
    requires ts != []
  {
    ts[|ts| - 1]
  }

  // v's latest request is as old as any tracked IP's.
  ghost predicate LeastRecent(ips: map<Ip, seq<nat>>, v: Ip)
  {
    && v in ips && ips[v] != []
    && forall w :: w in ips && ips[w] != [] ==> Last(ips[v]) <= Last(ips[w])
  }

  method EvictOldest(ips: map<Ip, seq<nat>>) returns (rest: map<Ip, seq<nat>>, ghost victim: Option<Ip>)
    ensures victim.None? ==> rest == ips && forall w :: w in ips ==> ips[w] == []
    ensures victim.Some? ==> LeastRecent(ips, victim.value) && rest == ips - {victim.value}
  {
    var oldest: Option<(Ip, nat)> := None;
    var todo := ips.Keys;
    while todo != {}
      invariant todo <= ips.Keys
      invariant oldest.None? ==> forall w :: w in ips.Keys - todo ==> ips[w] == []
      invariant oldest.Some? ==>
                  && oldest.value.0 in ips && ips[oldest.value.0] != []
                  && oldest.value.1 == Last(ips[oldest.value.0])
                  && forall w :: w in ips.Keys - todo && ips[w] != [] ==> oldest.value.1 <= Last(ips[w])
      decreases todo
    {
      var ip :| ip in todo;
      todo := todo - {ip};
      if ips[ip] != [] && (oldest.None? || Last(ips[ip]) < oldest.value.1) {
        oldest := Some((ip, Last(ips[ip])));
      }
    }
    if oldest.Some? {
      rest := ips - {oldest.value.0};
      victim := Some(oldest.value.0);
    } else {
      rest, victim := ips, None;
    }
  }

  // ---- What the deques remember of the log ----

  // One deque stands for one list of the log.
  ghost predicate StandsFor(kept: seq<nat>, full: seq<nat>, window: nat, at: nat)
  {
    Remembers(kept, full, at, window) && Sorted(full, at)
  }

  ghost predicate FaithfulIps(ips: map<Ip, seq<nat>>, window: nat, log: seq<Item>, at: nat)
  {
    forall ip :: StandsFor(Kept(ips, ip), Times(log, ip), window, at)
  }

  ghost predicate FaithfulGlobal(global: seq<nat>, ceiling: Option<nat>, window: nat, log: seq<Item>, at: nat)
  {
    if ceiling.Some? then StandsFor(global, AllTimes(log), window, at) else global == []
  }

  ghost predicate Faithful(ips: map<Ip, seq<nat>>, global: seq<nat>, ceiling: Option<nat>, window: nat,
                           log: seq<Item>, at: nat)
  {
    FaithfulIps(ips, window, log, at) && FaithfulGlobal(global, ceiling, window, log, at)
  }

  lemma {:induction false} StandsLater(kept: seq<nat>, full: seq<nat>, window: nat, at: nat, now: nat)
    requires StandsFor(kept, full, window, at) && at <= now
    ensures StandsFor(kept, full, window, now)
  {
    RemembersYoung(kept, full, at, now, window);
  }

  lemma {:induction false} StandsPruned(kept: seq<nat>, full: seq<nat>, window: nat, now: nat)
    requires StandsFor(kept, full, window, now)
    ensures Sorted(kept, now)
    ensures Young(kept, now, window) == Young(full, now, window)
    ensures StandsFor(Young(kept, now, window), full, window, now)
  {
    RemembersYoung(kept, full, now, now, window);
    assert Sorted(kept, now);
    YoungRemembers(kept, full, now, window, now);
  }

  lemma {:induction false} StandsNext(kept: seq<nat>, full: seq<nat>, window: nat, now: nat)
    requires StandsFor(kept, full, window, now)
    ensures StandsFor(kept + [now], full + [now], window, now)
  {
  }

  // A deque that a clean-up drops had nothing young in it.
  lemma {:induction false} StandsDropped(kept: seq<nat>, full: seq<nat>, window: nat, now: nat)
    requires StandsFor(kept, full, window, now) && !Recent(kept, now, window)
    ensures StandsFor([], full, window, now)
  {
    if kept != [] {
      assert Last(kept) == full[|full| - 1];
      forall i | 0 <= i < |full| ensures SatSub(now, full[i]) >= window {
        assert full[i] <= full[|full| - 1];
      }
    }
  }

  lemma {:induction false} FaithfulLater(ips: map<Ip, seq<nat>>, global: seq<nat>, ceiling: Option<nat>, window: nat,
                                         log: seq<Item>, at: nat, now: nat)
    requires Faithful(ips, global, ceiling, window, log, at) && at <= now
    ensures Faithful(ips, global, ceiling, window, log, now)
  {
    forall ip ensures StandsFor(Kept(ips, ip), Times(log, ip), window, now) {
      StandsLater(Kept(ips, ip), Times(log, ip), window, at, now);
    }
    if ceiling.Some? {
      StandsLater(global, AllTimes(log), window, at, now);
    }
  }

  lemma {:induction false} FaithfulPruneGlobal(global: seq<nat>, ceiling: Option<nat>, window: nat, log: seq<Item>,
                                               now: nat)
    requires FaithfulGlobal(global, ceiling, window, log, now)
    ensures Sorted(global, now)
    ensures ceiling.Some? ==> Young(global, now, window) == Young(AllTimes(log), now, window)
    ensures FaithfulGlobal(Young(global, now, window), ceiling, window, log, now)
  {
    if ceiling.Some? {
      StandsPruned(global, AllTimes(log), window, now);
    }
  }

  lemma {:induction false} FaithfulPrune(ips: map<Ip, seq<nat>>, window: nat, log: seq<Item>, now: nat, ip: Ip)
    requires FaithfulIps(ips, window, log, now)
    ensures Sorted(Kept(ips, ip), now)
    ensures Young(Kept(ips, ip), now, window) == Young(Times(log, ip), now, window)
    ensures FaithfulIps(ips[ip := Young(Kept(ips, ip), now, window)], window, log, now)
  {
    StandsPruned(Kept(ips, ip), Times(log, ip), window, now);
    var pruned := ips[ip := Young(Kept(ips, ip), now, window)];
    forall w ensures StandsFor(Kept(pruned, w), Times(log, w), window, now) {
      assert StandsFor(Kept(ips, w), Times(log, w), window, now);
    }
  }

  lemma {:induction false} FaithfulAdmit(ips: map<Ip, seq<nat>>, window: nat, log: seq<Item>, now: nat, ip: Ip)
    requires FaithfulIps(ips, window, log, now)
    ensures FaithfulIps(ips[ip := Kept(ips, ip) + [now]], window, log + [Admitted(ip, now)], now)
  {
    var ips', log' := ips[ip := Kept(ips, ip) + [now]], log + [Admitted(ip, now)];
    forall w ensures StandsFor(Kept(ips', w), Times(log', w), window, now) {
      assert StandsFor(Kept(ips, w), Times(log, w), window, now);
      LogNext(log, Admitted(ip, now), w);
      StandsNext(Kept(ips, w), Times(log, w), window, now);
    }
  }

  lemma {:induction false} FaithfulAdmitGlobal(global: seq<nat>, ceiling: Option<nat>, window: nat, log: seq<Item>,
                                               now: nat, ip: Ip)
    requires FaithfulGlobal(global, ceiling, window, log, now)
    ensures FaithfulGlobal(if ceiling.Some? then global + [now] else global, ceiling, window,
                           log + [Admitted(ip, now)], now)
  {
    LogNext(log, Admitted(ip, now), ip);
    if ceiling.Some? {
      StandsNext(global, AllTimes(log), window, now);
    }
  }

  // The three steps of an admission, on all the state at once.
  lemma {:induction false} PruneGlobalStep(ips: map<Ip, seq<nat>>, global: seq<nat>, ceiling: Option<nat>, window: nat,
                                           log: seq<Item>, now: nat)
    requires Faithful(ips, global, ceiling, window, log, now)
    ensures Sorted(global, now)
    ensures ceiling.Some? ==> Young(global, now, window) == Young(AllTimes(log), now, window)
    ensures Faithful(ips, Young(global, now, window), ceiling, window, log, now)
  {
    FaithfulPruneGlobal(global, ceiling, window, log, now);
  }

  lemma {:induction false} PruneStep(ips: map<Ip, seq<nat>>, global: seq<nat>, ceiling: Option<nat>, window: nat,
                                     log: seq<Item>, now: nat, ip: Ip)
    requires Faithful(ips, global, ceiling, window, log, now)
    ensures Sorted(Kept(ips, ip), now)
    ensures Young(Kept(ips, ip), now, window) == Young(Times(log, ip), now, window)
    ensures Faithful(ips[ip := Young(Kept(ips, ip), now, window)], global, ceiling, window, log, now)
  {
    FaithfulPrune(ips, window, log, now, ip);
  }

  lemma {:induction false} AdmitStep(ips: map<Ip, seq<nat>>, global: seq<nat>, ceiling: Option<nat>, window: nat,
                                     log: seq<Item>, now: nat, ip: Ip)
    requires Faithful(ips, global, ceiling, window, log, now) && ip in ips
    ensures Faithful(ips[ip := ips[ip] + [now]], if ceiling.Some? then global + [now] else global,
                     ceiling, window, log + [Admitted(ip, now)], now)
  {
    FaithfulAdmit(ips, window, log, now, ip);
    FaithfulAdmitGlobal(global, ceiling, window, log, now, ip);
  }

  lemma {:induction false} FaithfulEvict(ips: map<Ip, seq<nat>>, global: seq<nat>, ceiling: Option<nat>, window: nat,
                                         log: seq<Item>, now: nat, v: Ip)
    requires Faithful(ips, global, ceiling, window, log, now)
    ensures Faithful(ips - {v}, global, ceiling, window, log + [Evicted(v)], now)
  {
    var ips', log' := ips - {v}, log + [Evicted(v)];
    forall w ensures StandsFor(Kept(ips', w), Times(log', w), window, now) {
      assert StandsFor(Kept(ips, w), Times(log, w), window, now);
      LogNext(log, Evicted(v), w);
    }
    LogNext(log, Evicted(v), v);
  }

  // Kept by a clean-up: some request on file, the latest under two windows old.
  predicate Recent(ts: seq<nat>, now: nat, window: nat)
  {
    ts != [] && SatSub(now, Last(ts)) < 2 * window
  }

  lemma {:induction false} FaithfulCleanup(ips: map<Ip, seq<nat>>, window: nat, log: seq<Item>, now: nat,
                                           ips': map<Ip, seq<nat>>)
    requires FaithfulIps(ips, window, log, now)
    requires forall ip :: ip in ips' <==> ip in ips && Recent(ips[ip], now, window)
    requires forall ip :: ip in ips' ==> ips'[ip] == ips[ip]
    ensures FaithfulIps(ips', window, log, now)
  {
    forall w ensures StandsFor(Kept(ips', w), Times(log, w), window, now) {
      assert StandsFor(Kept(ips, w), Times(log, w), window, now);
      if w !in ips' {
        StandsDropped(Kept(ips, w), Times(log, w), window, now);
      }
    }
  }

  lemma {:induction false} OrderedNext(trace: seq<Event>, at: nat, e: Event, now: nat)
    requires Ordered(trace, at) && at <= now && (e.Try? ==> e.at == now)
    ensures Ordered(trace + [e], now) && Ordered(trace, now)
  {
    assert (trace + [e])[..|trace|] == trace;
    OrderedLater(trace, at, now);
  }

  lemma {:induction false} OrderedLater(trace: seq<Event>, at: nat, now: nat)
    requires Ordered(trace, at) && at <= now
    ensures Ordered(trace, now)
  {
    if trace != [] && trace[|trace| - 1].Forget? {
      OrderedLater(trace[..|trace| - 1], at, now);
    }
  }

  lemma SubmapSize(a: map<Ip, seq<nat>>, b: map<Ip, seq<nat>>)
    requires a.Keys <= b.Keys
    ensures |a| <= |b|
  {
    assert b.Keys == a.Keys + (b.Keys - a.Keys);
  }

  // The whole effect of an admission on the tracked IPs.
  ghost predicate Recorded(maxTracked: nat, filled: map<Ip, seq<nat>>, ips: map<Ip, seq<nat>>, victim: Option<Ip>)
  {
    match victim
    case None => |filled| <= maxTracked && ips == filled
    case Some(v) => |filled| > maxTracked && LeastRecent(filled, v) && ips == filled - {v}
  }

  function Eviction(victim: Option<Ip>): seq<Item>
  {
    match victim case None => [] case Some(v) => [Evicted(v)]
  }

  function EventsOf(e: Event, victim: Option<Ip>): seq<Event>
  {
    match victim case None => [e] case Some(v) => [e, Forget(v)]
  }

  ghost predicate TidyMap(ips: map<Ip, seq<nat>>, maxTracked: nat)
  {
    (forall ip :: ip in ips ==> ips[ip] != []) && |ips| <= maxTracked
  }

  lemma {:induction false} RecordedTidy(maxTracked: nat, ips: map<Ip, seq<nat>>, ip: Ip, own: seq<nat>,
                                        ips': map<Ip, seq<nat>>, victim: Option<Ip>)
    requires TidyMap(ips, maxTracked) && own != [] && Recorded(maxTracked, ips[ip := own], ips', victim)
    ensures TidyMap(ips', maxTracked)
  {
    RecordedSize(maxTracked, ips, ip, own, ips', victim);
  }

  // An admission never takes the tracked IPs past the cap, or further past it.
  lemma {:induction false} RecordedSize(maxTracked: nat, ips: map<Ip, seq<nat>>, ip: Ip, own: seq<nat>,
                                        ips': map<Ip, seq<nat>>, victim: Option<Ip>)
    requires Recorded(maxTracked, ips[ip := own], ips', victim)
    ensures |ips'| <= Max(|ips|, maxTracked)
  {
    var filled := ips[ip := own];
    assert filled.Keys == ips.Keys + {ip};
    if victim.Some? {
      assert ips'.Keys == filled.Keys - {victim.value};
      assert |ips'| == |ips'.Keys| == |filled.Keys| - 1;
    }
  }

  // A denial by the IP's own limit tracks one more IP exactly when it was not tracked,
  // and then the limit was zero.
  lemma {:induction false} DeniedSize(ips: map<Ip, seq<nat>>, ip: Ip, own: seq<nat>, limit: nat, now: nat, window: nat)
    requires own == Young(Kept(ips, ip), now, window) && |own| >= limit
    ensures |ips[ip := own]| == |ips| + if ip in ips then 0 else 1
    ensures ip !in ips ==> limit == 0
  {
    assert ips[ip := own].Keys == ips.Keys + {ip};
  }

  class Limiter {
    const maxTrackedIps: nat
    const globalCeiling: Option<nat>
    const window: nat
    var ips: map<Ip, seq<nat>>
    var globalTimestamps: seq<nat>
    // The run so far, tries and evictions; and the log it replays to.
    // Clean-ups leave no trace.
    ghost var trace: seq<Event>
    ghost var log: seq<Item>
    // The last clock reading.
    ghost var latest: nat

    ghost predicate Traced()
      reads this`trace, this`log, this`latest
    {
      Ordered(trace, latest) && log == Replay(globalCeiling, window, trace)
    }

    ghost predicate Valid()
      reads this`ips, this`globalTimestamps, this`log, this`latest
    {
      window > 0 && Faithful(ips, globalTimestamps, globalCeiling, window, log, latest)
    }

    // Every tracked IP has a request on file, and no more are tracked than allowed.
    ghost predicate Tidy()
      reads this`ips
    {
      TidyMap(ips, maxTrackedIps)
    }

    constructor (maxTrackedIps: nat, globalCeiling: Option<nat>)
      ensures Valid() && Traced() && Tidy() && trace == [] && latest == 0 && ips == map[]
      ensures this.maxTrackedIps == maxTrackedIps && this.globalCeiling == globalCeiling
      ensures window == 60_000_000_000
    {
      this.maxTrackedIps, this.globalCeiling, this.window := maxTrackedIps, globalCeiling, 60_000_000_000;
      ips, globalTimestamps, trace, log, latest := map[], [], [], [], 0;
    }

    // What the laws of the log say of this limiter, whatever was called so far.
    lemma WindowHolds(before: seq<Event>, recent: seq<Event>, ip: Ip, L: nat, from: int)
      requires Traced() && trace == before + recent && Earlier(before, from) && LimitedTo(recent, ip, L)
      ensures |OwnSpan(log, ip, from, window)| <= L * (ForgetsOf(recent, ip) + 1)
      ensures globalCeiling.Some? ==> |AnySpan(log, from, window)| <= globalCeiling.value
    {
      IpWindowBound(globalCeiling, window, before, recent, ip, L, latest, from);
      if globalCeiling.Some? {
        GlobalWindowBound(globalCeiling.value, window, trace, latest, from);
      }
    }

    // Clean-up changes no decision: the run it has to be faithful to is the same.
    method Cleanup(now: nat)
      requires Valid() && Traced() && latest <= now
      modifies this
      ensures Valid() && Traced() && latest == now && trace == old(trace) && log == old(log)
      ensures old(Tidy()) ==> Tidy()
      ensures forall ip :: ip in ips <==>
                ip in old(ips) && old(ips)[ip] != [] && SatSub(now, Last(old(ips)[ip])) < 2 * window
      ensures forall ip :: ip in ips ==> ips[ip] == old(ips)[ip]
    {
      hide FaithfulIps, FaithfulGlobal, Traced, Young;
      Advance(now);
      var kept := map ip | ip in ips && Recent(ips[ip], now, window) :: ips[ip];
      FaithfulCleanup(ips, window, log, now, kept);
      SubmapSize(kept, ips);
      ips := kept;
      PruneGlobalStep(ips, globalTimestamps, globalCeiling, window, log, now);
      globalTimestamps := PruneWindow(globalTimestamps, now, window, now);
    }

    // One request. The decision is the plain log's; a denial records
    // nothing; an admission is recorded and may cost the least recent IP its
    // history. From any state, a call takes the tracked IPs past the cap, or
    // further past it, exactly when a limit of zero refuses an untracked IP
    // at the cap, the ceiling not having refused first. No window is left empty by any limit but zero, and by zero
    // exactly when the ceiling refuses first or the IP has a young request.
    method TryAdmit(ip: Ip, limit: nat, now: nat) returns (r: Decision, ghost victim: Option<Ip>)
      requires Valid() && Traced() && latest <= now
      modifies this
      ensures Valid() && Traced() && latest == now
      ensures r == Decide(globalCeiling, window, old(log), ip, limit, now)
      ensures trace == old(trace) + EventsOf(Try(ip, limit, now), victim)
      ensures r.Deny? ==>
                && victim.None? && log == old(log)
                && ips == if AtCeiling(globalCeiling, window, old(log), now) then old(ips)
                          else old(ips)[ip := Young(Kept(old(ips), ip), now, window)]
      ensures r.Admit? ==>
                log == old(log) + [Item.Admitted(ip, now)] + Eviction(victim)
      ensures r.Admit? ==>
                Recorded(maxTrackedIps, old(ips)[ip := Young(Kept(old(ips), ip), now, window) + [now]], ips, victim)
      ensures |ips| <= Max(|old(ips)|, maxTrackedIps) <==>
              !(limit == 0 && !AtCeiling(globalCeiling, window, old(log), now)
                && ip !in old(ips) && |old(ips)| >= maxTrackedIps)
      ensures old(Tidy()) && limit >= 1 ==> Tidy()
      ensures old(Tidy()) && limit == 0 ==>
                (Tidy() <==> AtCeiling(globalCeiling, window, old(log), now)
                             || Young(Kept(old(ips), ip), now, window) != [])
    {
      hide Valid, Traced, Young, Times, Kept, AtCeiling;
      victim := None;
      Advance(now);
      var refused := CheckCeiling(now);
      if refused.Some? {
        r := Deny(refused.value);
        Denied(Try(ip, limit, now));
        return;
      }
      var own := PruneOwn(ip, now);
      if |own| >= limit {
        r := Deny(UntilFrontExpires(own, now, window));
        Denied(Try(ip, limit, now));
        DeniedTidy(old(ips), ip, Kept(old(ips), ip), own, maxTrackedIps, now, window);
        DeniedSize(old(ips), ip, own, limit, now, window);
        return;
      }
      r := Admit;
      victim := Record(ip, limit, now);
      assert old(ips)[ip := own][ip := own + [now]] == old(ips)[ip := own + [now]];
      RecordedSize(maxTrackedIps, old(ips), ip, own + [now], ips, victim);
      if TidyMap(old(ips), maxTrackedIps) {
        RecordedTidy(maxTrackedIps, old(ips), ip, own + [now], ips, victim);
      }
    }

    // The clock has been read again.
    ghost method Advance(now: nat)
      requires Valid() && Traced() && latest <= now
      modifies this`latest
      ensures Valid() && Traced() && latest == now
    {
      FaithfulLater(ips, globalTimestamps, globalCeiling, window, log, latest, now);
      OrderedLater(trace, latest, now);
      latest := now;
    }

    // A denied try leaves the log as it was.
    ghost method Denied(e: Event)
      requires Traced() && e.Try? && e.at == latest
      requires Decide(globalCeiling, window, log, e.ip, e.limit, e.at).Deny?
      modifies this`trace
      ensures Traced() && trace == old(trace) + [e]
    {
      ReplayNext(globalCeiling, window, trace, e);
      OrderedNext(trace, latest, e, latest);
      trace := trace + [e];
    }

    // Prune the global window and hold it against the ceiling.
    method CheckCeiling(now: nat) returns (refused: Option<nat>)
      requires Valid() && latest == now
      modifies this`globalTimestamps
      ensures Valid()
      ensures refused.Some? <==> AtCeiling(globalCeiling, window, log, now)
      ensures refused.Some? ==> refused.value == UntilFrontExpires(Young(AllTimes(log), now, window), now, window)
    {
      refused := None;
      if globalCeiling.Some? {
        PruneGlobalStep(ips, globalTimestamps, globalCeiling, window, log, now);
        globalTimestamps := PruneWindow(globalTimestamps, now, window, now);
        if |globalTimestamps| >= globalCeiling.value {
          refused := Some(UntilFrontExpires(globalTimestamps, now, window));
        }
      }
    }

    // Get or create this IP's window, pruned.
    method PruneOwn(ip: Ip, now: nat) returns (own: seq<nat>)
      requires Valid() && latest == now
      modifies this`ips
      ensures Valid()
      ensures own == Young(Times(log, ip), now, window) == Young(Kept(old(ips), ip), now, window)
      ensures ips == old(ips)[ip := own]
    {
      hide Faithful, Young, Times, Kept, Sorted;
      PruneStep(ips, globalTimestamps, globalCeiling, window, log, now, ip);
      own := PruneWindow(Kept(ips, ip), now, window, now);
      ips := ips[ip := own];
    }

    // Record an admission once both limits have passed, evicting if need be.
    method Record(ip: Ip, limit: nat, now: nat) returns (ghost victim: Option<Ip>)
      requires Valid() && Traced() && latest == now && ip in ips
      requires Decide(globalCeiling, window, log, ip, limit, now).Admit?
      modifies this`ips, this`globalTimestamps, this`trace, this`log
      ensures Valid() && Traced()
      ensures trace == old(trace) + EventsOf(Try(ip, limit, now), victim)
      ensures log == old(log) + [Item.Admitted(ip, now)] + Eviction(victim)
      ensures Recorded(maxTrackedIps, old(ips)[ip := old(ips)[ip] + [now]], ips, victim)
    {
      hide Faithful, Decide, Traced;
      AdmitStep(ips, globalTimestamps, globalCeiling, window, log, now, ip);
      Admitted(ip, limit, now);
      victim := None;
      ips := ips[ip := ips[ip] + [now]];
      if globalCeiling.Some? {
        globalTimestamps := globalTimestamps + [now];
      }
      if |ips| > maxTrackedIps {
        victim := Evict(ip);
      }
    }

    ghost method Admitted(ip: Ip, limit: nat, now: nat)
      requires Traced() && latest == now && Decide(globalCeiling, window, log, ip, limit, now).Admit?
      modifies this`trace, this`log
      ensures Traced() && trace == old(trace) + [Try(ip, limit, now)]
      ensures log == old(log) + [Item.Admitted(ip, now)]
    {
      var e := Try(ip, limit, now);
      ReplayNext(globalCeiling, window, trace, e);
      OrderedNext(trace, latest, e, latest);
      trace, log := trace + [e], log + [Item.Admitted(ip, now)];
    }

    method Evict(ghost newest: Ip) returns (ghost victim: Option<Ip>)
      requires Valid() && Traced() && newest in ips && ips[newest] != []
      modifies this`ips, this`trace, this`log
      ensures Valid() && Traced() && victim.Some?
      ensures LeastRecent(old(ips), victim.value) && ips == old(ips) - {victim.value}
      ensures trace == old(trace) + [Forget(victim.value)] && log == old(log) + [Evicted(victim.value)]
    {
      var rest;
      rest, victim := EvictOldest(ips);
      ghost var e := Forget(victim.value);
      FaithfulEvict(ips, globalTimestamps, globalCeiling, window, log, latest, victim.value);
      OrderedNext(trace, latest, e, latest);
      ReplayNext(globalCeiling, window, trace, e);
      ips, trace, log := rest, trace + [e], log + [Evicted(victim.value)];
    }
  }

  lemma {:induction false} DeniedTidy(ips: map<Ip, seq<nat>>, ip: Ip, kept: seq<nat>, own: seq<nat>, maxTracked: nat,
                                      now: nat, window: nat)
    requires kept == Kept(ips, ip) && own == Young(kept, now, window)
    ensures TidyMap(ips, maxTracked) ==> (TidyMap(ips[ip := own], maxTracked) <==> own != [])
  {
    if own != [] {
      FilterImplies(kept, IsYoung(now, window), IsYoung(now, window));
      assert ips[ip := own].Keys == ips.Keys;
    } else {
      assert ips[ip := own][ip] == [];
    }
  }

  // The zero-limit gap is real and unbounded: n refused addresses leave n
  // tracked, whatever the cap.
  method ZeroLimitTracksAll(n: nat, cap: nat) returns (l: Limiter)
    ensures l.Valid() && l.Traced() && l.maxTrackedIps == cap && |l.ips| == n
  {
    l := new Limiter(cap, None);
    for i := 0 to n
      invariant l.Valid() && l.Traced() && fresh(l)
      invariant l.maxTrackedIps == cap && l.globalCeiling == None && l.latest == 0
      invariant forall k :: k in l.ips ==> k < i
      invariant |l.ips| == i
    {
      ghost var before := l.ips;
      var r;
      ghost var victim;
      r, victim := l.TryAdmit(i, 0, 0);
      assert i !in before;
      assert l.ips.Keys == before.Keys + {i};
    }
  }
}
