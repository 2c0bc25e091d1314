/** The per-IP sliding-window rate limiter
    (services/reservegrid-common/src/rate_limit.rs): a plain log of admitted
    requests and the laws of that log. Times are nanoseconds. */
module RateLimiter {
  import opened Base

  // ---- The plain history ----

  datatype Item = Admitted(ip: Ip, at: nat) | Evicted(ip: Ip)

  datatype Decision = Admit | Deny(wait: nat)

  // When ip was admitted, since it was last evicted.
  function Times(log: seq<Item>, ip: Ip): seq<nat>
  {
    if log == [] then []
    else
      var front, last := log[..|log| - 1], log[|log| - 1];
      if last.ip != ip then Times(front, ip)
      else if last.Evicted? then []
      else Times(front, ip) + [last.at]
  }

  // When anyone was admitted.
  function AllTimes(log: seq<Item>): seq<nat>
  {
    if log == [] then []
    else
      var front, last := log[..|log| - 1], log[|log| - 1];
      if last.Evicted? then AllTimes(front) else AllTimes(front) + [last.at]
  }

  function IsYoung(now: nat, window: nat): nat -> bool
  {
    (t: nat) => SatSub(now, t) < window
  }

  // The requests younger than the window at `now`.
  function Young(ts: seq<nat>, now: nat, window: nat): seq<nat>
  {
    Filter(ts, IsYoung(now, window))
  }

  // How long until the oldest of them leaves the window; a full window when there is none.
  function UntilFrontExpires(young: seq<nat>, now: nat, window: nat): nat
  {
    if young == [] then window else SatSub(window, SatSub(now, young[0]))
  }

  predicate AtCeiling(ceiling: Option<nat>, window: nat, log: seq<Item>, now: nat)
  {
    ceiling.Some? && |Young(AllTimes(log), now, window)| >= ceiling.value
  }

  // The decision the log calls for.
  function Decide(ceiling: Option<nat>, window: nat, log: seq<Item>, ip: Ip, limit: nat, now: nat): Decision
  {
    var all, own := Young(AllTimes(log), now, window), Young(Times(log, ip), now, window);
    if AtCeiling(ceiling, window, log, now) then Deny(UntilFrontExpires(all, now, window))
    else if |own| >= limit then Deny(UntilFrontExpires(own, now, window))
    else Admit
  }

  // ---- The decision by positions in the log ----

  // ip's admissions since its last eviction that are younger than the window.
  ghost function OwnYoung(log: seq<Item>, ip: Ip, now: nat, window: nat): set<nat>
  {
    set k | 0 <= k < |log| && log[k].Admitted? && log[k].ip == ip && now < log[k].at + window
            && KeptSince(log, ip, k)
  }

  ghost predicate KeptSince(log: seq<Item>, ip: Ip, k: int)
  {
    forall j :: k < j < |log| && 0 <= j ==> log[j] != Evicted(ip)
  }

  lemma {:induction false} KeptNext(log: seq<Item>, x: Item, ip: Ip, k: nat)
    requires k <= |log|
    ensures KeptSince(log + [x], ip, k) <==> KeptSince(log, ip, k) && (k < |log| ==> x != Evicted(ip))
  {
    var all := log + [x];
    assert all[|log|] == x && forall j :: 0 <= j < |log| ==> all[j] == log[j];
  }

  // Anyone's admissions that are younger than the window.
  ghost function AnyYoung(log: seq<Item>, now: nat, window: nat): set<nat>
  {
    set k | 0 <= k < |log| && log[k].Admitted? && now < log[k].at + window
  }

  function At(k: nat, here: bool): set<nat> { if here then {k} else {} }

  lemma {:induction false} OwnYoungNext(log: seq<Item>, x: Item, ip: Ip, now: nat, window: nat)
    ensures OwnYoung(log + [x], ip, now, window) ==
            if x == Evicted(ip) then {}
            else OwnYoung(log, ip, now, window) + At(|log|, x.Admitted? && x.ip == ip && now < x.at + window)
  {
    var all := log + [x];
    assert all[|log|] == x && forall k :: 0 <= k < |log| ==> all[k] == log[k];
    hide KeptSince;
    forall k | 0 <= k <= |log|
      ensures KeptSince(all, ip, k) <==> KeptSince(log, ip, k) && (k < |log| ==> x != Evicted(ip))
    {
      KeptNext(log, x, ip, k);
    }
    NoneSince(log, ip);
  }

  lemma NoneSince(log: seq<Item>, ip: Ip)
    ensures KeptSince(log, ip, |log|)
  {
  }

  lemma {:induction false} AnyYoungNext(log: seq<Item>, x: Item, now: nat, window: nat)
    ensures AnyYoung(log + [x], now, window) ==
            AnyYoung(log, now, window) + At(|log|, x.Admitted? && now < x.at + window)
  {
    assert forall k :: 0 <= k < |log| ==> (log + [x])[k] == log[k];
  }

  lemma {:induction false} OwnYoungCounts(log: seq<Item>, ip: Ip, now: nat, window: nat)
    requires window > 0
    ensures |Young(Times(log, ip), now, window)| == |OwnYoung(log, ip, now, window)|
  {
    if log == [] {
      assert OwnYoung(log, ip, now, window) == {};
    } else {
      var n := |log| - 1;
      OwnYoungCounts(log[..n], ip, now, window);
      assert log == log[..n] + [log[n]];
      OwnYoungStep(log[..n], log[n], ip, now, window);
    }
  }

  lemma {:induction false} OwnYoungStep(log: seq<Item>, x: Item, ip: Ip, now: nat, window: nat)
    requires window > 0 && |Young(Times(log, ip), now, window)| == |OwnYoung(log, ip, now, window)|
    ensures |Young(Times(log + [x], ip), now, window)| == |OwnYoung(log + [x], ip, now, window)|
  {
    assert |log| !in OwnYoung(log, ip, now, window);
    hide Times, OwnYoung;
    LogNext(log, x, ip);
    OwnYoungNext(log, x, ip, now, window);
    if x.Admitted? {
      FilterAppend(Times(log, ip), x.at, IsYoung(now, window));
    }
  }

  lemma {:induction false} AnyYoungCounts(log: seq<Item>, now: nat, window: nat)
    requires window > 0
    ensures |Young(AllTimes(log), now, window)| == |AnyYoung(log, now, window)|
  {
    if log == [] {
      assert AnyYoung(log, now, window) == {};
    } else {
      var n := |log| - 1;
      AnyYoungCounts(log[..n], now, window);
      assert log == log[..n] + [log[n]];
      AnyYoungStep(log[..n], log[n], now, window);
    }
  }

  lemma {:induction false} AnyYoungStep(log: seq<Item>, x: Item, now: nat, window: nat)
    requires window > 0 && |Young(AllTimes(log), now, window)| == |AnyYoung(log, now, window)|
    ensures |Young(AllTimes(log + [x]), now, window)| == |AnyYoung(log + [x], now, window)|
  {
    assert |log| !in AnyYoung(log, now, window);
    hide AllTimes, AnyYoung;
    LogNext(log, x, x.ip);
    AnyYoungNext(log, x, now, window);
    if x.Admitted? {
      FilterAppend(AllTimes(log), x.at, IsYoung(now, window));
    }
  }

  // Admission is counting: a request is admitted exactly when fewer than the
  // ceiling of anyone's, and fewer than the limit of its own since its last
  // eviction, were admitted within the window.
  lemma {:induction false} AdmittedExactly(ceiling: Option<nat>, window: nat, log: seq<Item>, ip: Ip, limit: nat,
                                           now: nat)
    requires window > 0
    ensures Decide(ceiling, window, log, ip, limit, now) == Admit <==>
            && (ceiling.Some? ==> |AnyYoung(log, now, window)| < ceiling.value)
            && |OwnYoung(log, ip, now, window)| < limit
  {
    hide OwnYoung, AnyYoung, Young, Times, AllTimes;
    OwnYoungCounts(log, ip, now, window);
    AnyYoungCounts(log, now, window);
  }

  datatype Event = Try(ip: Ip, limit: nat, at: nat) | Forget(ip: Ip)

  // What one event does to the log: nothing, or one more item.
  function Adds(ceiling: Option<nat>, window: nat, log: seq<Item>, e: Event): Option<Item>
  {
    match e
    case Forget(ip) => Some(Evicted(ip))
    case Try(ip, limit, at) =>
      if Decide(ceiling, window, log, ip, limit, at).Admit? then Some(Admitted(ip, at)) else None
  }

  function Next(ceiling: Option<nat>, window: nat, log: seq<Item>, e: Event): seq<Item>
  {
    match Adds(ceiling, window, log, e)
    case Some(x) => log + [x]
    case None => log
  }

  // The log after a run.
  function Replay(ceiling: Option<nat>, window: nat, trace: seq<Event>): seq<Item>
  {
    if trace == [] then []
    else Next(ceiling, window, Replay(ceiling, window, trace[..|trace| - 1]), trace[|trace| - 1])
  }

  lemma ReplayNext(ceiling: Option<nat>, window: nat, trace: seq<Event>, e: Event)
    ensures Replay(ceiling, window, trace + [e]) == Next(ceiling, window, Replay(ceiling, window, trace), e)
  {
    assert (trace + [e])[..|trace|] == trace;
  }

  lemma LogNext(log: seq<Item>, x: Item, ip: Ip)
    ensures Times(log + [x], ip) ==
            if x.ip != ip then Times(log, ip) else if x.Evicted? then [] else Times(log, ip) + [x.at]
    ensures AllTimes(log + [x]) == if x.Evicted? then AllTimes(log) else AllTimes(log) + [x.at]
  {
    assert (log + [x])[..|log|] == log;
  }

  // Requests are tried at non-decreasing times, none after `now`.
  ghost predicate Ordered(trace: seq<Event>, now: nat)
  {
    trace != [] ==>
      var last := trace[|trace| - 1];
      if last.Forget? then Ordered(trace[..|trace| - 1], now)
      else last.at <= now && Ordered(trace[..|trace| - 1], last.at)
  }

  ghost predicate Sorted(ts: seq<nat>, now: nat)
  {
    && (forall i, j :: 0 <= i < j < |ts| ==> ts[i] <= ts[j])
    && forall i :: 0 <= i < |ts| ==> ts[i] <= now
  }

  lemma {:induction false} SortedPush(ts: seq<nat>, t: nat, before: nat, now: nat)
    requires Sorted(ts, before) && before <= t <= now
    ensures Sorted(ts + [t], now)
  {
    forall i, j | 0 <= i < j < |ts + [t]|
      ensures (ts + [t])[i] <= (ts + [t])[j]
    {
    }
  }

  lemma {:induction false} SortedLater(ts: seq<nat>, before: nat, now: nat)
    requires Sorted(ts, before) && before <= now
    ensures Sorted(ts, now)
  {
  }

  lemma {:induction false} SortedNext(log: seq<Item>, x: Item, ip: Ip, before: nat, now: nat)
    requires Sorted(Times(log, ip), before) && Sorted(AllTimes(log), before) && before <= now
    requires x.Admitted? ==> before <= x.at <= now
    ensures Sorted(Times(log + [x], ip), now) && Sorted(AllTimes(log + [x]), now)
  {
    hide Times, AllTimes, Sorted;
    LogNext(log, x, ip);
    SortedLater(Times(log, ip), before, now);
    SortedLater(AllTimes(log), before, now);
    SortedEmpty(now);
    if x.Admitted? {
      SortedPush(Times(log, ip), x.at, before, now);
      SortedPush(AllTimes(log), x.at, before, now);
    }
  }

  lemma SortedEmpty(now: nat)
    ensures Sorted([], now)
  {
  }

  lemma {:induction false} ReplaySorted(ceiling: Option<nat>, window: nat, trace: seq<Event>, ip: Ip, now: nat)
    requires Ordered(trace, now)
    ensures Sorted(Times(Replay(ceiling, window, trace), ip), now)
    ensures Sorted(AllTimes(Replay(ceiling, window, trace)), now)
  {
    if trace != [] {
      var front, last := trace[..|trace| - 1], trace[|trace| - 1];
      var log := Replay(ceiling, window, front);
      var before := if last.Forget? then now else last.at;
      ReplaySorted(ceiling, window, front, ip, before);
      var x := Adds(ceiling, window, log, last);
      if x.Some? {
        SortedNext(log, x.value, ip, before, now);
      }
    }
  }

  // ---- No window holds more than the limit ----

  function InSpan(from: int, window: nat): nat -> bool
  {
    (t: nat) => from <= t < from + window
  }

  // Everything in a span that has not yet closed at `now` is still young.
  lemma SpanIsYoung(ts: seq<nat>, from: int, now: nat, window: nat)
    requires Sorted(ts, now) && from <= now < from + window
    ensures |Filter(ts, InSpan(from, window))| <= |Young(ts, now, window)|
  {
    FilterImplies(ts, InSpan(from, window), IsYoung(now, window));
  }

  // Every try of ip runs under a limit of at most L.
  ghost predicate LimitedTo(trace: seq<Event>, ip: Ip, L: nat)
  {
    forall k :: 0 <= k < |trace| && trace[k].Try? && trace[k].ip == ip ==> trace[k].limit <= L
  }

  lemma {:induction false} SpanNext(log: seq<Item>, x: Item, ip: Ip, L: nat, window: nat, from: int)
    requires |Filter(Times(log, ip), InSpan(from, window))| <= L
    requires x.Admitted? && x.ip == ip ==>
               Sorted(Times(log, ip), x.at) && |Young(Times(log, ip), x.at, window)| < L
    ensures |Filter(Times(log + [x], ip), InSpan(from, window))| <= L
  {
    LogNext(log, x, ip);
    if x.Admitted? && x.ip == ip {
      FilterAppend(Times(log, ip), x.at, InSpan(from, window));
      if from <= x.at < from + window {
        SpanIsYoung(Times(log, ip), from, x.at, window);
      }
    }
  }

  function IsForget(ip: Ip): Event -> bool { (e: Event) => e == Forget(ip) }

  function ForgetsOf(trace: seq<Event>, ip: Ip): nat
  {
    |Filter(trace, IsForget(ip))|
  }

  // All of ip's admissions, across evictions.
  function EveryTime(log: seq<Item>, ip: Ip): seq<nat>
  {
    if log == [] then []
    else
      var front, last := log[..|log| - 1], log[|log| - 1];
      EveryTime(front, ip) + (if last.Admitted? && last.ip == ip then [last.at] else [])
  }

  // The span count across n evictions: at most L for each, plus what came since the last.
  ghost predicate Within(log: seq<Item>, ip: Ip, L: nat, n: nat, window: nat, from: int)
  {
    && |Filter(Times(log, ip), InSpan(from, window))| <= L
    && |Filter(EveryTime(log, ip), InSpan(from, window))|
       <= L * n + |Filter(Times(log, ip), InSpan(from, window))|
  }

  lemma {:induction false} WithinNext(log: seq<Item>, x: Item, ip: Ip, L: nat, n: nat, window: nat, from: int)
    requires Within(log, ip, L, n, window, from)
    requires x.Admitted? && x.ip == ip ==>
               Sorted(Times(log, ip), x.at) && |Young(Times(log, ip), x.at, window)| < L
    ensures Within(log + [x], ip, L, if x == Evicted(ip) then n + 1 else n, window, from)
  {
    SpanNext(log, x, ip, L, window, from);
    LogNext(log, x, ip);
    assert (log + [x])[..|log|] == log;
    if x.Admitted? && x.ip == ip {
      FilterAppend(Times(log, ip), x.at, InSpan(from, window));
      FilterAppend(EveryTime(log, ip), x.at, InSpan(from, window));
    } else {
      assert EveryTime(log + [x], ip) == EveryTime(log, ip);
      assert L * (n + 1) == L * n + L;
    }
  }

  lemma ForgetsNext(trace: seq<Event>, e: Event, ip: Ip)
    ensures ForgetsOf(trace + [e], ip) == ForgetsOf(trace, ip) + if e == Forget(ip) then 1 else 0
  {
    FilterAppend(trace, e, IsForget(ip));
  }

  // A try that is admitted was under the limit.
  lemma AddsUnderLimit(ceiling: Option<nat>, window: nat, log: seq<Item>, e: Event)
    requires Adds(ceiling, window, log, e).Some?
    ensures var x := Adds(ceiling, window, log, e).value;
            && x.ip == e.ip && (x.Evicted? <==> e.Forget?)
            && (x.Admitted? ==> x.at == e.at && |Young(Times(log, x.ip), x.at, window)| < e.limit)
  {
  }

  // Nobody was tried at or after `from`.
  ghost predicate Earlier(trace: seq<Event>, from: int)
  {
    forall k :: 0 <= k < |trace| && trace[k].Try? ==> trace[k].at < from
  }

  lemma {:induction false} EveryTimeNext(log: seq<Item>, x: Item, ip: Ip)
    ensures EveryTime(log + [x], ip) ==
            if x.Admitted? && x.ip == ip then EveryTime(log, ip) + [x.at] else EveryTime(log, ip)
  {
    assert (log + [x])[..|log|] == log;
  }

  // Nothing of ip falls in the span that starts at `from`.
  ghost predicate SpanEmpty(log: seq<Item>, ip: Ip, window: nat, from: int)
  {
    && Filter(Times(log, ip), InSpan(from, window)) == []
    && Filter(EveryTime(log, ip), InSpan(from, window)) == []
  }

  lemma {:induction false} SpanEmptyNext(log: seq<Item>, x: Item, ip: Ip, window: nat, from: int)
    requires SpanEmpty(log, ip, window, from) && (x.Admitted? ==> x.at < from)
    ensures SpanEmpty(log + [x], ip, window, from)
  {
    hide Times, EveryTime;
    LogNext(log, x, ip);
    EveryTimeNext(log, x, ip);
    if x.Admitted? {
      FilterAppend(Times(log, ip), x.at, InSpan(from, window));
      FilterAppend(EveryTime(log, ip), x.at, InSpan(from, window));
    }
  }

  lemma {:induction false} EarlierLeavesNone(ceiling: Option<nat>, window: nat, trace: seq<Event>, ip: Ip, from: int)
    requires Earlier(trace, from)
    ensures SpanEmpty(Replay(ceiling, window, trace), ip, window, from)
  {
    hide Decide;
    if trace != [] {
      var front, last := trace[..|trace| - 1], trace[|trace| - 1];
      var log := Replay(ceiling, window, front);
      EarlierLeavesNone(ceiling, window, front, ip, from);
      var x := Adds(ceiling, window, log, last);
      if x.Some? {
        SpanEmptyNext(log, x.value, ip, window, from);
      }
    }
  }

  lemma {:induction false} EmptyWithin(log: seq<Item>, ip: Ip, L: nat, window: nat, from: int)
    requires SpanEmpty(log, ip, window, from)
    ensures Within(log, ip, L, ForgetsOf([], ip), window, from)
  {
    hide Times, EveryTime;
  }

  lemma {:induction false} SpanAcrossEvictions(ceiling: Option<nat>, window: nat, before: seq<Event>,
                                               recent: seq<Event>, ip: Ip, L: nat, now: nat, from: int)
    requires Ordered(before + recent, now) && Earlier(before, from) && LimitedTo(recent, ip, L)
    ensures Within(Replay(ceiling, window, before + recent), ip, L, ForgetsOf(recent, ip), window, from)
  {
    hide Within, SpanEmpty, Decide, ForgetsOf, Sorted, Young;
    if recent == [] {
      assert before + recent == before;
      EarlierLeavesNone(ceiling, window, before, ip, from);
      EmptyWithin(Replay(ceiling, window, before), ip, L, window, from);
    } else {
      var front, last := recent[..|recent| - 1], recent[|recent| - 1];
      assert (before + recent)[..|before + recent| - 1] == before + front;
      assert recent == front + [last];
      var log := Replay(ceiling, window, before + front);
      var at := if last.Forget? then now else last.at;
      SpanAcrossEvictions(ceiling, window, before, front, ip, L, at, from);
      ReplaySorted(ceiling, window, before + front, ip, at);
      ForgetsNext(front, last, ip);
      var x := Adds(ceiling, window, log, last);
      if x.Some? {
        AddsUnderLimit(ceiling, window, log, last);
        WithinNext(log, x.value, ip, L, ForgetsOf(front, ip), window, from);
      }
    }
  }

  // The admissions of ip, and of anyone, within the span, by their positions.
  ghost function OwnSpan(log: seq<Item>, ip: Ip, from: int, window: nat): set<nat>
  {
    set k | 0 <= k < |log| && log[k].Admitted? && log[k].ip == ip && from <= log[k].at < from + window
  }

  ghost function AnySpan(log: seq<Item>, from: int, window: nat): set<nat>
  {
    set k | 0 <= k < |log| && log[k].Admitted? && from <= log[k].at < from + window
  }

  lemma {:induction false} SpanNextAt(log: seq<Item>, x: Item, ip: Ip, from: int, window: nat)
    ensures OwnSpan(log + [x], ip, from, window) ==
            OwnSpan(log, ip, from, window) + At(|log|, x.Admitted? && x.ip == ip && from <= x.at < from + window)
    ensures AnySpan(log + [x], from, window) ==
            AnySpan(log, from, window) + At(|log|, x.Admitted? && from <= x.at < from + window)
  {
    assert forall k :: 0 <= k < |log| ==> (log + [x])[k] == log[k];
  }

  lemma {:induction false} OwnSpanStep(log: seq<Item>, x: Item, ip: Ip, from: int, window: nat)
    requires |OwnSpan(log, ip, from, window)| == |Filter(EveryTime(log, ip), InSpan(from, window))|
    ensures |OwnSpan(log + [x], ip, from, window)| == |Filter(EveryTime(log + [x], ip), InSpan(from, window))|
  {
    assert |log| !in OwnSpan(log, ip, from, window);
    hide OwnSpan, EveryTime, Filter;
    SpanNextAt(log, x, ip, from, window);
    EveryTimeNext(log, x, ip);
    if x.Admitted? {
      FilterAppend(EveryTime(log, ip), x.at, InSpan(from, window));
    }
  }

  lemma {:induction false} AnySpanStep(log: seq<Item>, x: Item, from: int, window: nat)
    requires |AnySpan(log, from, window)| == |Filter(AllTimes(log), InSpan(from, window))|
    ensures |AnySpan(log + [x], from, window)| == |Filter(AllTimes(log + [x]), InSpan(from, window))|
  {
    assert |log| !in AnySpan(log, from, window);
    hide AnySpan, AllTimes, Filter;
    SpanNextAt(log, x, x.ip, from, window);
    LogNext(log, x, x.ip);
    if x.Admitted? {
      FilterAppend(AllTimes(log), x.at, InSpan(from, window));
    }
  }

  lemma {:induction false} SpanCounts(log: seq<Item>, ip: Ip, from: int, window: nat)
    ensures |OwnSpan(log, ip, from, window)| == |Filter(EveryTime(log, ip), InSpan(from, window))|
    ensures |AnySpan(log, from, window)| == |Filter(AllTimes(log), InSpan(from, window))|
  {
    if log == [] {
      assert OwnSpan(log, ip, from, window) == {} && AnySpan(log, from, window) == {};
    } else {
      var n := |log| - 1;
      SpanCounts(log[..n], ip, from, window);
      assert log == log[..n] + [log[n]];
      OwnSpanStep(log[..n], log[n], ip, from, window);
      AnySpanStep(log[..n], log[n], from, window);
    }
  }

  // Sliding-window safety. However an IP's requests fall, no half-open span
  // of one window holds more than its limit, once more per eviction of that
  // IP; with no eviction, exactly the limit. What happened before the span
  // began, evictions and limits included, does not matter.
  lemma {:induction false} IpWindowBound(ceiling: Option<nat>, window: nat, before: seq<Event>, recent: seq<Event>,
                                         ip: Ip, L: nat, now: nat, from: int)
    requires Ordered(before + recent, now) && Earlier(before, from) && LimitedTo(recent, ip, L)
    ensures |OwnSpan(Replay(ceiling, window, before + recent), ip, from, window)| <= L * (ForgetsOf(recent, ip) + 1)
  {
    hide Replay, OwnSpan, EveryTime, Times, Ordered, Earlier, ForgetsOf;
    SpanCounts(Replay(ceiling, window, before + recent), ip, from, window);
    SpanAcrossEvictions(ceiling, window, before, recent, ip, L, now, from);
    assert L * (ForgetsOf(recent, ip) + 1) == L * ForgetsOf(recent, ip) + L;
  }

  lemma {:induction false} GlobalNext(log: seq<Item>, x: Item, ceiling: nat, window: nat, from: int)
    requires |Filter(AllTimes(log), InSpan(from, window))| <= ceiling
    requires x.Admitted? ==> Sorted(AllTimes(log), x.at) && |Young(AllTimes(log), x.at, window)| < ceiling
    ensures |Filter(AllTimes(log + [x]), InSpan(from, window))| <= ceiling
  {
    LogNext(log, x, x.ip);
    if x.Admitted? {
      FilterAppend(AllTimes(log), x.at, InSpan(from, window));
      if from <= x.at < from + window {
        SpanIsYoung(AllTimes(log), from, x.at, window);
      }
    }
  }

  // The global ceiling holds on every run, evictions included.
  lemma {:induction false} GlobalWindowBound(ceiling: nat, window: nat, trace: seq<Event>, now: nat, from: int)
    requires Ordered(trace, now)
    ensures |AnySpan(Replay(Some(ceiling), window, trace), from, window)| <= ceiling
  {
    SpanCounts(Replay(Some(ceiling), window, trace), 0, from, window);
    GlobalTimesBound(ceiling, window, trace, now, from);
  }

  lemma {:induction false} GlobalTimesBound(ceiling: nat, window: nat, trace: seq<Event>, now: nat, from: int)
    requires Ordered(trace, now)
    ensures |Filter(AllTimes(Replay(Some(ceiling), window, trace)), InSpan(from, window))| <= ceiling
  {
    if trace != [] {
      var front, last := trace[..|trace| - 1], trace[|trace| - 1];
      var log := Replay(Some(ceiling), window, front);
      var before := if last.Forget? then now else last.at;
      GlobalTimesBound(ceiling, window, front, before, from);
      ReplaySorted(Some(ceiling), window, front, last.ip, before);
      var x := Adds(Some(ceiling), window, log, last);
      if x.Some? {
        GlobalNext(log, x.value, ceiling, window, from);
      }
    }
  }

  // Why the per-IP bound must count evictions: right after one, an IP is
  // admitted again at any limit but zero, however full its window was, unless
  // the ceiling refuses, which no eviction moves.
  lemma EvictionForgets(ceiling: Option<nat>, window: nat, log: seq<Item>, ip: Ip, limit: nat, now: nat)
    ensures Decide(ceiling, window, log + [Evicted(ip)], ip, limit, now) == Admit
            <==> limit >= 1 && !AtCeiling(ceiling, window, log, now)
  {
    LogNext(log, Evicted(ip), ip);
  }

  // ---- The retry wait is exact ----

  // Every denial, by the IP's limit or by the ceiling, on any log at all,
  // names a wait that is positive and at most a window.
  lemma WaitInRange(ceiling: Option<nat>, window: nat, log: seq<Item>, ip: Ip, limit: nat, now: nat)
    requires window > 0 && Decide(ceiling, window, log, ip, limit, now).Deny?
    ensures 0 < Decide(ceiling, window, log, ip, limit, now).wait <= window
  {
    FilterMembers(AllTimes(log), IsYoung(now, window));
    FilterMembers(Times(log, ip), IsYoung(now, window));
    var all, own := Young(AllTimes(log), now, window), Young(Times(log, ip), now, window);
    assert (all != [] ==> all[0] in all) && (own != [] ==> own[0] in own);
  }

  // With one fixed limit, no ceiling, and neither an admission nor an
  // eviction of the IP since: a retry is admitted exactly when the wait has
  // run out, and never at a limit of zero.
  lemma {:induction false} RetryExact(window: nat, trace: seq<Event>, ip: Ip, limit: nat, now: nat, log: seq<Item>,
                                      retry: nat)
    requires window > 0
    requires Ordered(trace, now) && LimitedTo(trace, ip, limit)
    requires Decide(None, window, Replay(None, window, trace), ip, limit, now).Deny?
    requires Times(log, ip) == Times(Replay(None, window, trace), ip) && now <= retry
    ensures var wait := Decide(None, window, Replay(None, window, trace), ip, limit, now).wait;
            && 0 < wait <= window
            && (Decide(None, window, log, ip, limit, retry) == Admit <==> limit >= 1 && retry >= now + wait)
  {
    hide Replay, AllTimes, Times, Young, Ordered, EveryTime, ForgetsOf;
    var ts := Times(log, ip);
    WaitInRange(None, window, Replay(None, window, trace), ip, limit, now);
    if limit >= 1 {
      ReplaySorted(None, window, trace, ip, now);
      assert [] + trace == trace;
      SpanAcrossEvictions(None, window, [], trace, ip, limit, now, now - window + 1);
      YoungAtMost(ts, now, window, limit);
      RetryOnTimes(ts, window, limit, now, retry);
    }
  }

  // A denial by the ceiling is as exact: with no admission of anyone since,
  // the ceiling goes on refusing until the wait has run out, and no longer;
  // a ceiling of zero refuses for good.
  lemma {:induction false} CeilingRetryExact(ceiling: nat, window: nat, trace: seq<Event>, ip: Ip, limit: nat,
                                             now: nat, log: seq<Item>, retry: nat)
    requires window > 0 && Ordered(trace, now)
    requires AtCeiling(Some(ceiling), window, Replay(Some(ceiling), window, trace), now)
    requires AllTimes(log) == AllTimes(Replay(Some(ceiling), window, trace)) && now <= retry
    ensures var denied := Decide(Some(ceiling), window, Replay(Some(ceiling), window, trace), ip, limit, now);
            && denied.Deny? && 0 < denied.wait <= window
            && (AtCeiling(Some(ceiling), window, log, retry) <==> ceiling == 0 || retry < now + denied.wait)
  {
    hide Replay, AllTimes, Times, Young, Ordered;
    var ts := AllTimes(log);
    WaitInRange(Some(ceiling), window, Replay(Some(ceiling), window, trace), ip, limit, now);
    if ceiling >= 1 {
      ReplaySorted(Some(ceiling), window, trace, ip, now);
      GlobalTimesBound(ceiling, window, trace, now, now - window + 1);
      YoungAtMost(ts, now, window, ceiling);
      RetryOnTimes(ts, window, ceiling, now, retry);
    }
  }

  // What is young now fits in the span that ends now.
  lemma {:induction false} YoungAtMost(ts: seq<nat>, now: nat, window: nat, n: nat)
    requires Sorted(ts, now) && |Filter(ts, InSpan(now - window + 1, window))| <= n
    ensures |Young(ts, now, window)| <= n
  {
    FilterImplies(ts, IsYoung(now, window), InSpan(now - window + 1, window));
  }

  // The same, of a full window of timestamps.
  lemma {:induction false} RetryOnTimes(ts: seq<nat>, window: nat, limit: nat, now: nat, retry: nat)
    requires window > 0 && limit >= 1 && now <= retry
    requires Sorted(ts, now) && |Young(ts, now, window)| == limit
    ensures var wait := UntilFrontExpires(Young(ts, now, window), now, window);
            && 0 < wait <= window
            && (|Young(ts, retry, window)| < limit <==> retry >= now + wait)
  {
    FilterMembers(ts, IsYoung(now, window));
    FirstIsLeast(ts, now, window, now);
    var first := Young(ts, now, window)[0];
    assert first in Young(ts, now, window);
    if retry < first + window {
      forall x | x in ts && IsYoung(now, window)(x) ensures IsYoung(retry, window)(x) {
        assert x in Young(ts, now, window);
      }
      FilterImplies(ts, IsYoung(now, window), IsYoung(retry, window));
    } else {
      FilterStrict<nat>(ts, IsYoung(retry, window), IsYoung(now, window), first);
    }
  }

  lemma {:induction false} FirstIsLeast(ts: seq<nat>, now: nat, window: nat, bound: nat)
    requires Sorted(ts, bound)
    ensures forall x :: x in Young(ts, now, window) ==> Young(ts, now, window)[0] <= x
  {
    if ts != [] {
      var front, last := ts[..|ts| - 1], ts[|ts| - 1];
      FirstIsLeast(front, now, window, bound);
      FilterMembers(front, IsYoung(now, window));
      var young := Young(front, now, window);
      if young != [] {
        assert young[0] in young && young[0] in front;
        assert young[0] <= last;
        assert Young(ts, now, window)[0] == young[0];
      }
    }
  }
}
