/** The no-progress deadline of one ingress socket, its shed-at-cap rule and
    the heartbeat cadence that sets the shed threshold
    (services/pool-verifier/src/idle_stream.rs). Instants and durations are
    nanoseconds; the shared threshold cell holds milliseconds. */
module IdleStream {
  import opened Base
  import opened PerIp

  const SHED_FLOOR: nat := 3_000_000_000
  const SHED_FALLBACK_FLOOR: nat := 10_000_000_000
  const SHED_RECHECK: nat := 500_000_000
  const CADENCE_LEARN_AFTER: nat := 4

  function Ms(n: nat): nat { n * 1_000_000 }

  function ShedFallback(idle: nat): nat { Max(idle / 4, SHED_FALLBACK_FLOOR) }

  // Duration::as_millis held in a u64.
  function ToMillis(d: nat): nat { Min(d / 1_000_000, U64_MAX) }

  // ---- The stream as a value ----

  datatype Stream = Stream(
    idle: nat,
    lastProgress: nat,
    deadline: nat,
    sheds: bool,    // the ingress enforces a per-IP ceiling
    afterMs: nat,
    shed: bool,
    reaped: bool)

  predicate Ended(s: Stream) { s.shed || s.reaped }

  function After(s: Stream): nat { Ms(s.afterMs) }

  function IdleAt(s: Stream): nat { s.lastProgress + s.idle }

  function FirstLook(s: Stream): nat
  {
    if s.sheds then Min(s.lastProgress + After(s), IdleAt(s)) else IdleAt(s)
  }

  function MadeProgress(s: Stream, now: nat): Stream
  {
    var moved := s.(lastProgress := now);
    moved.(deadline := FirstLook(moved))
  }

  function Silent(s: Stream, now: nat): nat { SatSub(now, s.lastProgress) }

  // Where a deadline that fired at `now` without ending the stream is armed next.
  function NextLook(s: Stream, now: nat): nat
  {
    if !s.sheds then IdleAt(s)
    else if Silent(s, now) < After(s) then Min(s.lastProgress + After(s), IdleAt(s))
    else Min(now + SHED_RECHECK, IdleAt(s))
  }

  // The stream after its socket was found not ready at `now`.
  function Polled(s: Stream, now: nat, full: bool): Stream
  {
    if now < s.deadline then s
    else if Silent(s, now) >= s.idle then s.(reaped := true)
    else if s.sheds && Silent(s, now) >= After(s) && full then s.(shed := true)
    else s.(deadline := NextLook(s, now))
  }

  // ---- The cadence as a value ----

  datatype Cadence = Cadence(started: nat, heartbeats: nat)

  // The threshold, in milliseconds, that the n-th heartbeat at `now` teaches.
  function LearnedMs(started: nat, n: nat, now: nat): nat
    requires n >= 2
  {
    ToMillis(Max(SatSub(now, started) / (n - 1) * 2, SHED_FLOOR))
  }

  function Observed(c: Cadence, afterMs: nat, now: nat): (Cadence, nat)
  {
    var n := Min(c.heartbeats + 1, U32_MAX);
    (c.(heartbeats := n), if n < CADENCE_LEARN_AFTER then afterMs else LearnedMs(c.started, n, now))
  }

  // ---- In the source's form ----

  // The atomics a connection's stream and cadence share with its owner.
  class Cells {
    var afterMs: nat
    var shed: bool
    var reaped: bool

    constructor (afterMs: nat)
      ensures this.afterMs == afterMs && !shed && !reaped
    {
      this.afterMs, this.shed, this.reaped := afterMs, false, false;
    }
  }

  class HeartbeatCadence {
    const cells: Cells
    const started: nat
    var heartbeats: nat

    constructor (cells: Cells, started: nat)
      ensures this.cells == cells && Abs() == Cadence(started, 0)
    {
      this.cells, this.started, this.heartbeats := cells, started, 0;
    }

    ghost function Abs(): Cadence
      reads this
    {
      Cadence(started, heartbeats)
    }

    method Observe(now: nat)
      requires heartbeats <= U32_MAX
      modifies this, cells`afterMs
      ensures (Abs(), cells.afterMs) == Observed(old(Abs()), old(cells.afterMs), now)
      ensures heartbeats <= U32_MAX
    {
      heartbeats := Min(heartbeats + 1, U32_MAX);
      if heartbeats < CADENCE_LEARN_AFTER {
        return;
      }
      var perInterval := SatSub(now, started) / (heartbeats - 1);
      var after := Max(perInterval * 2, SHED_FLOOR);
      cells.afterMs := ToMillis(after);
    }
  }

  class IdleTimeout {
    const idle: nat
    const cells: Cells
    const sheds: bool
    const perIp: Tracker
    const ip: Ip
    var deadline: nat
    var lastProgress: nat

    ghost function Abs(): Stream
      reads this, cells
    {
      Stream(idle, lastProgress, deadline, sheds, cells.afterMs, cells.shed, cells.reaped)
    }

    // Wrapped at `now`; the shed rule applies unless the ceiling is disabled.
    constructor (idle: nat, cells: Cells, perIp: Tracker, ip: Ip, now: nat)
      ensures this.idle == idle && this.cells == cells && this.perIp == perIp && this.ip == ip
      ensures sheds == (perIp.maxPerIp != 0) && lastProgress == now && deadline == FirstLook(Abs())
    {
      this.idle, this.cells, this.perIp, this.ip := idle, cells, perIp, ip;
      this.sheds := perIp.maxPerIp != 0;
      this.lastProgress := now;
      this.deadline := now + idle;
      new;
      if sheds {
        deadline := Min(lastProgress + Ms(cells.afterMs), lastProgress + idle);
      }
    }

    method Progress(now: nat)
      modifies this
      ensures Abs() == MadeProgress(old(Abs()), now)
    {
      lastProgress := now;
      deadline := if sheds then Min(lastProgress + Ms(cells.afterMs), lastProgress + idle) else lastProgress + idle;
    }

    // The re-arming loop. It ends because every re-arm is in the future.
    method PollNoProgress(now: nat) returns (ended: bool)
      requires !Ended(Abs())
      modifies this`deadline, cells`shed, cells`reaped
      ensures Abs() == Polled(old(Abs()), now, AddressFull(perIp.maxPerIp, perIp.counts, ip))
      ensures ended == Ended(Abs())
      ensures !ended ==> deadline > now
    {
      while true
        invariant !Ended(Abs())
        invariant || Abs() == old(Abs())
                  || (deadline > now
                      && Abs() == Polled(old(Abs()), now, AddressFull(perIp.maxPerIp, perIp.counts, ip)))
        decreases if deadline <= now then 1 else 0
      {
        if deadline > now {
          return false;
        }
        var silent := SatSub(now, lastProgress);
        if silent >= idle {
          cells.reaped := true;
          return true;
        }
        var idleAt := lastProgress + idle;
        var next := idleAt;
        if sheds {
          var after := Ms(cells.afterMs);
          var full := perIp.maxPerIp != 0 && CountFor(perIp.counts, ip) >= perIp.maxPerIp;
          if silent >= after && full {
            cells.shed := true;
            return true;
          }
          var at := if silent < after then lastProgress + after else now + SHED_RECHECK;
          next := Min(at, idleAt);
        }
        deadline := next;
      }
    }
  }

  // ---- Runs of one connection ----

  datatype Event = Bytes(at: nat) | Wake(at: nat, full: bool) | Heartbeat(at: nat)

  datatype Conn = Conn(stream: Stream, cadence: Cadence)

  function Step(c: Conn, e: Event): Conn
  {
    match e
    case Bytes(at) => c.(stream := MadeProgress(c.stream, at))
    case Wake(at, full) => c.(stream := Polled(c.stream, at, full))
    case Heartbeat(at) =>
      var (cadence, afterMs) := Observed(c.cadence, c.stream.afterMs, at);
      Conn(c.stream.(afterMs := afterMs), cadence)
  }

  function Exec(c: Conn, events: seq<Event>): Conn
  {
    if events == [] then c else Step(Exec(c, events[..|events| - 1]), events[|events| - 1])
  }

  // A connection admitted at `accepted`, its cadence started at `started`.
  function Opened(idleSecs: nat, ceiling: bool, accepted: nat, started: nat): Conn
  {
    var idle := idleSecs * 1_000_000_000;
    var s := Stream(idle, accepted, accepted + idle, ceiling, ToMillis(ShedFallback(idle)), false, false);
    Conn(s.(deadline := FirstLook(s)), Cadence(started, 0))
  }

  // ---- Deadline bounds ----

  lemma StepNeverPastIdle(c: Conn, e: Event)
    requires c.stream.deadline <= IdleAt(c.stream)
    ensures var s := Step(c, e).stream;
            s.deadline <= IdleAt(s) && s.idle == c.stream.idle && s.sheds == c.stream.sheds
  {
  }

  // Over any run the armed deadline never passes the idle budget.
  lemma {:induction false} NeverPastIdle(c: Conn, events: seq<Event>)
    requires c.stream.deadline <= IdleAt(c.stream)
    ensures Exec(c, events).stream.deadline <= IdleAt(Exec(c, events).stream)
    ensures Exec(c, events).stream.idle == c.stream.idle && Exec(c, events).stream.sheds == c.stream.sheds
  {
    if events != [] {
      var front := events[..|events| - 1];
      NeverPastIdle(c, front);
      StepNeverPastIdle(Exec(c, front), events[|events| - 1]);
    }
  }

  // What one wake does, by the clock: nothing before the deadline; at it, a
  // reap once the idle budget is spent, else a shed once the threshold is
  // and the address is full, else another look, at the threshold if that is
  // still ahead and otherwise half a second on, never past the budget.
  lemma PollExactly(s: Stream, at: nat, full: bool)
    ensures var p := Polled(s, at, full);
            var due := at >= s.deadline;
            var silent := SatSub(at, s.lastProgress);
            var over, quiet := silent >= s.idle, silent >= 1_000_000 * s.afterMs;
            && (p.reaped <==> s.reaped || (due && over))
            && (p.shed <==> s.shed || (due && !over && s.sheds && quiet && full))
            && p == s.(reaped := p.reaped, shed := p.shed, deadline := p.deadline)
            && p.deadline ==
               if !due || over || (s.sheds && quiet && full) then s.deadline
               else if !s.sheds then s.lastProgress + s.idle
               else Min(if quiet then at + 500_000_000 else s.lastProgress + 1_000_000 * s.afterMs,
                        s.lastProgress + s.idle)
  {
  }

  // So, after any run, a wake that finds the idle budget spent ends the
  // connection, and one that ends nothing re-arms strictly in the future.
  lemma WakeEndsOrReArms(idleSecs: nat, ceiling: bool, accepted: nat, started: nat, events: seq<Event>,
                         at: nat, full: bool)
    ensures var s := Exec(Opened(idleSecs, ceiling, accepted, started), events).stream;
            && (at >= IdleAt(s) ==> Polled(s, at, full).reaped)
            && (!Ended(Polled(s, at, full)) ==> Polled(s, at, full).deadline > at && at < IdleAt(s))
  {
    var c := Opened(idleSecs, ceiling, accepted, started);
    NeverPastIdle(c, events);
  }

  // ---- How late a silent connection at a full address can end ----

  // Nothing moves, and the timer wakes the connection promptly, n times.
  function Woken(s: Stream, full: nat -> bool, n: nat): Stream
  {
    if n == 0 then s
    else
      var p := Woken(s, full, n - 1);
      if Ended(p) then p else Polled(p, p.deadline, full(p.deadline))
  }

  lemma {:induction false} WokenFirst(s: Stream, full: nat -> bool, n: nat)
    requires !Ended(s)
    ensures Woken(s, full, n + 1) == Woken(Polled(s, s.deadline, full(s.deadline)), full, n)
  {
    if n > 0 {
      WokenFirst(s, full, n - 1);
    }
  }

  lemma {:induction false} SilentEndsWithin(s: Stream, full: nat -> bool, filled: nat, bound: nat) returns (n: nat)
    requires s.sheds && !Ended(s) && forall t :: t >= filled ==> full(t)
    requires s.deadline <= bound && s.lastProgress + After(s) <= bound && filled + SHED_RECHECK <= bound
    ensures Ended(Woken(s, full, n)) && Woken(s, full, n).deadline <= bound
    decreases bound - s.deadline
  {
    var next := Polled(s, s.deadline, full(s.deadline));
    if Ended(next) {
      n := 1;
      assert Woken(s, full, 0) == s;
    } else {
      var m := SilentEndsWithin(next, full, filled, bound);
      WokenFirst(s, full, m);
      n := m + 1;
    }
  }

  // A silent connection at an address full from `filled` on ends by the time
  // its threshold passes, or half a second after the address fills; if the
  // threshold was lowered after the deadline was armed, no later than that
  // deadline. (`deadline` of an ended stream is when it ended.)
  lemma SilentEnds(s: Stream, full: nat -> bool, filled: nat)
    requires s.sheds && !Ended(s) && forall t :: t >= filled ==> full(t)
    ensures exists n :: Ended(Woken(s, full, n)) &&
              Woken(s, full, n).deadline
                <= Max(s.deadline, Max(s.lastProgress + After(s), filled + SHED_RECHECK))
  {
    var n := SilentEndsWithin(s, full, filled,
                              Max(s.deadline, Max(s.lastProgress + After(s), filled + SHED_RECHECK)));
  }

  // With a threshold not lowered since the bytes that armed the deadline.
  lemma SilentEndsUnlowered(s: Stream, full: nat -> bool, filled: nat, moved: nat, afterMs: nat)
    requires s.sheds && !Ended(s) && s.afterMs <= afterMs && forall t :: t >= filled ==> full(t)
    ensures var armed := MadeProgress(s, moved).(afterMs := afterMs);
            exists n :: Ended(Woken(armed, full, n)) &&
              Woken(armed, full, n).deadline <= Max(moved + Ms(afterMs), filled) + SHED_RECHECK
  {
    var armed := MadeProgress(s, moved).(afterMs := afterMs);
    SilentEnds(armed, full, filled);
    var n :| Ended(Woken(armed, full, n)) &&
             Woken(armed, full, n).deadline
               <= Max(armed.deadline, Max(moved + After(armed), filled + SHED_RECHECK));
  }

  // ---- The heartbeat estimate ----

  lemma DivideAtLeast(x: nat, d: nat, k: nat)
    requires d > 0 && x >= d * k
    ensures x / d >= k
  {
    var q, r := x / d, x % d;
    assert x == q * d + r && r < d;
    if q < k {
      MulMonotone(q + 1, k, d);
    }
  }

  // The least threshold that a gateway beating every `interval` ms can teach
  // a cadence that starts up to `late` after the gateway's own clock.
  function LearnedFloorMs(interval: nat, late: nat): nat
  {
    ToMillis(Max(SatSub(3 * Ms(interval), late) / 3 * 2, SHED_FLOOR))
  }

  // The n-th heartbeat of such a gateway may be read at `now`: it is sent
  // n-1 intervals after the gateway's own start or later.
  ghost predicate MayRead(started: nat, n: nat, interval: nat, late: nat, now: nat)
  {
    n >= 1 && now + late >= started + (n - 1) * Ms(interval)
  }

  lemma {:induction false} PerInterval(elapsed: nat, d: nat, h: nat, late: nat)
    requires d >= 3 && elapsed + late >= d * h
    ensures elapsed / d >= SatSub(3 * h, late) / 3
  {
    var k := SatSub(3 * h, late) / 3;
    if k > 0 {
      MulMonotone(3, d, h - k);
      assert d * (h - k) == d * h - d * k;
      DivideAtLeast(elapsed, d, k);
    }
  }

  // However late the n-th heartbeat is read, counting with a u32 that
  // saturates and rounding down twice, the learned threshold is at least the floor.
  lemma {:induction false} EstimateIsUpperBound(started: nat, n: nat, interval: nat, late: nat, now: nat)
    requires n >= CADENCE_LEARN_AFTER && MayRead(started, n, interval, late, now)
    ensures LearnedMs(started, Min(n, U32_MAX), now) >= LearnedFloorMs(interval, late)
  {
    var d := Min(n, U32_MAX) - 1;
    MulMonotone(d, n - 1, Ms(interval));
    PerInterval(SatSub(now, started), d, Ms(interval), late);
    MillisMonotone(Max(SatSub(3 * Ms(interval), late) / 3 * 2, SHED_FLOOR),
                   Max(SatSub(now, started) / d * 2, SHED_FLOOR));
  }

  lemma MillisMonotone(a: nat, b: nat)
    requires a <= b
    ensures ToMillis(a) <= ToMillis(b)
  {
  }

  // And some heartbeat teaches exactly that: the fourth, read as it is sent.
  function FourthBeat(started: nat, interval: nat, late: nat): nat { started + SatSub(3 * Ms(interval), late) }

  lemma FloorIsTaught(started: nat, interval: nat, late: nat)
    ensures var now := FourthBeat(started, interval, late);
            && MayRead(started, CADENCE_LEARN_AFTER, interval, late, now)
            && LearnedMs(started, CADENCE_LEARN_AFTER, now) == LearnedFloorMs(interval, late)
  {
  }

  // A cadence that starts with the gateway's own clock, as over TLS, learns
  // at least twice the interval and at least three seconds.
  lemma PunctualFloor(interval: nat)
    ensures LearnedFloorMs(interval, 0) == Min(Max(2 * interval, 3000), U64_MAX)
  {
    assert 3 * Ms(interval) / 3 == Ms(interval);
    assert Ms(interval) * 2 == 2 * interval * 1_000_000;
  }

  // Over plaintext the gateway's clock starts at TCP connect, so an accept
  // `late` after it shortens the estimate. The threshold stays no shorter
  // than the interval, whatever is read when, exactly when the interval is
  // within the three-second floor or the accept is at most one and a half
  // intervals late: always at 2 s, up to 7.5 s late at 5 s.
  lemma {:induction false} LateAcceptExactly(interval: nat, late: nat)
    requires interval <= U64_MAX
    ensures (forall started, n, now :: n >= CADENCE_LEARN_AFTER && MayRead(started, n, interval, late, now) ==>
               LearnedMs(started, Min(n, U32_MAX), now) >= interval)
            <==> interval <= 3000 || 2 * late <= 3 * Ms(interval)
  {
    FloorCovers(interval, late);
    if LearnedFloorMs(interval, late) >= interval {
      forall started, n, now | n >= CADENCE_LEARN_AFTER && MayRead(started, n, interval, late, now)
        ensures LearnedMs(started, Min(n, U32_MAX), now) >= interval
      {
        EstimateIsUpperBound(started, n, interval, late, now);
      }
    } else {
      FloorIsTaught(0, interval, late);
      assert MayRead(0, CADENCE_LEARN_AFTER, interval, late, FourthBeat(0, interval, late));
    }
  }

  lemma {:induction false} FloorCovers(interval: nat, late: nat)
    requires interval <= U64_MAX
    ensures LearnedFloorMs(interval, late) >= interval <==> interval <= 3000 || 2 * late <= 3 * Ms(interval)
  {
  }

  // ---- The threshold is no longer than it has to be ----

  lemma {:induction false} DivideSum(d: nat, h: nat, extra: nat)
    requires d > 0
    ensures (d * h + extra) / d == h + extra / d
  {
    var q, r := extra / d, extra % d;
    assert extra == q * d + r && r < d;
    assert d * h + extra == (h + q) * d + r;
    DivideAtLeast(d * h + extra, d, h + q);
    if (d * h + extra) / d > h + q {
      var k := (d * h + extra) / d;
      assert k * d <= d * h + extra;
      MulMonotone(h + q + 1, k, d);
    }
  }

  // What the n-th heartbeat teaches, read `extra` after n - 1 intervals:
  // twice the interval and the share of the delay that falls on each, or
  // three seconds, in whole milliseconds.
  lemma {:induction false} LearnedExactly(started: nat, n: nat, interval: nat, extra: nat)
    requires CADENCE_LEARN_AFTER <= n
    ensures LearnedMs(started, n, started + (n - 1) * Ms(interval) + extra)
         == Min(Max(2 * (Ms(interval) + extra / (n - 1)), 3_000_000_000) / 1_000_000, U64_MAX)
  {
    DivideSum(n - 1, Ms(interval), extra);
  }

  lemma {:induction false} LearnedMonotone(started: nat, n: nat, a: nat, b: nat)
    requires n >= 2 && a <= b
    ensures LearnedMs(started, n, a) <= LearnedMs(started, n, b)
  {
    var d, x, y := n - 1, SatSub(a, started), SatSub(b, started);
    var q := x / d;
    assert x == q * d + x % d;
    DivideAtLeast(y, d, q);
    MillisMonotone(Max(x / d * 2, SHED_FLOOR), Max(y / d * 2, SHED_FLOOR));
  }

  // When the last heartbeat of a run was read.
  function LastBeat(events: seq<Event>): Option<nat>
  {
    if events == [] then None
    else
      var last := events[|events| - 1];
      if last.Heartbeat? then Some(last.at) else LastBeat(events[..|events| - 1])
  }

  // The threshold after any run: the fallback until the fourth heartbeat,
  // then what the last one taught.
  lemma {:induction false} ThresholdIs(c: Conn, events: seq<Event>)
    requires c.cadence.heartbeats == 0
    ensures var n := HeartbeatsIn(events);
            && Exec(c, events).cadence == Cadence(c.cadence.started, Min(n, U32_MAX))
            && (n < CADENCE_LEARN_AFTER ==> Exec(c, events).stream.afterMs == c.stream.afterMs)
            && (n >= CADENCE_LEARN_AFTER ==>
                  && LastBeat(events).Some?
                  && Exec(c, events).stream.afterMs
                     == LearnedMs(c.cadence.started, Min(n, U32_MAX), LastBeat(events).value))
  {
    hide LearnedMs;
    if events != [] {
      ThresholdIs(c, events[..|events| - 1]);
    }
  }

  // The longest threshold a gateway can teach whose n-th heartbeat is read
  // at most `delay` after its n - 1 intervals.
  function LearnedCap(interval: nat, n: nat, delay: nat): nat
    requires n >= 2
  {
    Max(2 * Ms(interval) + 2 * (delay / (n - 1)), 3_000_000_000)
  }

  // So over any run a punctual gateway's threshold is close to twice its
  // interval: a read delay of `delay` adds its share only.
  lemma {:induction false} EstimateIsTight(c: Conn, events: seq<Event>, interval: nat, delay: nat)
    requires c.cadence.heartbeats == 0 && CADENCE_LEARN_AFTER <= HeartbeatsIn(events) <= U32_MAX
    requires LastBeat(events).Some?
    requires LastBeat(events).value <= c.cadence.started + (HeartbeatsIn(events) - 1) * Ms(interval) + delay
    ensures 1_000_000 * Exec(c, events).stream.afterMs <= LearnedCap(interval, HeartbeatsIn(events), delay)
  {
    hide LearnedMs;
    var n := HeartbeatsIn(events);
    ThresholdIs(c, events);
    LearnedExactly(c.cadence.started, n, interval, delay);
    LearnedMonotone(c.cadence.started, n, LastBeat(events).value, c.cadence.started + (n - 1) * Ms(interval) + delay);
  }

  // A gateway that has beaten n >= 4 times, then sends its last bytes at
  // `moved` (a heartbeat or not) and goes silent at an address full from
  // `filled` on, is ended by the cap its delays allow, or half a second
  // after the address fills.
  lemma {:induction false} LearnedGatewayEnds(c: Conn, events: seq<Event>, moved: nat, beat: Option<nat>,
                                              interval: nat, delay: nat, full: nat -> bool, filled: nat)
    requires c.stream.sheds && c.stream.deadline <= IdleAt(c.stream) && c.cadence.heartbeats == 0
    requires CADENCE_LEARN_AFTER <= HeartbeatsIn(events) < U32_MAX && LastBeat(events).Some?
    requires LastBeat(events).value <= c.cadence.started + (HeartbeatsIn(events) - 1) * Ms(interval) + delay
    requires beat.Some? ==> beat.value <= c.cadence.started + HeartbeatsIn(events) * Ms(interval) + delay
    requires !Ended(Exec(c, events + LastWords(moved, beat)).stream) && forall t :: t >= filled ==> full(t)
    ensures var s := Exec(c, events + LastWords(moved, beat)).stream;
            exists k :: Ended(Woken(s, full, k)) &&
              Woken(s, full, k).deadline
                <= Max(moved + LearnedCap(interval, HeartbeatsIn(events), delay), filled + 500_000_000)
  {
    hide LearnedMs, LearnedCap;
    var all := events + LastWords(moved, beat);
    var s, cap := Exec(c, all).stream, LearnedCap(interval, HeartbeatsIn(events), delay);
    NeverPastIdle(c, all);
    NeverPastIdle(c, events);
    EstimateIsTight(c, events, interval, delay);
    SpokenLast(c, events, moved, beat);
    if beat.Some? {
      EstimateIsTight(c, all, interval, delay);
      CapShrinks(interval, HeartbeatsIn(events), delay);
    }
    assert 1_000_000 * s.afterMs <= cap;
    assert s.deadline <= moved + cap && After(s) <= cap;
    SilentEnds(s, full, filled);
    var k :| Ended(Woken(s, full, k)) &&
             Woken(s, full, k).deadline <= Max(s.deadline, Max(s.lastProgress + After(s), filled + SHED_RECHECK));
  }

  function LastWords(moved: nat, beat: Option<nat>): seq<Event>
  {
    match beat case Some(at) => [Bytes(moved), Heartbeat(at)] case None => [Bytes(moved)]
  }

  // The deadline is armed by the bytes, under the threshold known then.
  lemma {:induction false} SpokenLast(c: Conn, events: seq<Event>, moved: nat, beat: Option<nat>)
    ensures var before, s := Exec(c, events).stream, Exec(c, events + LastWords(moved, beat)).stream;
            && s.lastProgress == moved && s.deadline == FirstLook(before.(lastProgress := moved))
            && (beat.None? ==> s.afterMs == before.afterMs)
    ensures beat.Some? ==>
              && HeartbeatsIn(events + LastWords(moved, beat)) == HeartbeatsIn(events) + 1
              && LastBeat(events + LastWords(moved, beat)) == beat
  {
    hide LearnedMs;
    RunNext(c, events, Bytes(moved));
    match beat {
      case None =>
      case Some(at) =>
        RunNext(c, events + [Bytes(moved)], Heartbeat(at));
        assert events + [Bytes(moved)] + [Heartbeat(at)] == events + LastWords(moved, beat);
    }
  }

  lemma RunNext(c: Conn, events: seq<Event>, e: Event)
    ensures Exec(c, events + [e]) == Step(Exec(c, events), e)
    ensures HeartbeatsIn(events + [e]) == HeartbeatsIn(events) + if e.Heartbeat? then 1 else 0
    ensures LastBeat(events + [e]) == if e.Heartbeat? then Some(e.at) else LastBeat(events)
  {
    assert (events + [e])[..|events|] == events;
  }

  lemma {:induction false} CapShrinks(interval: nat, n: nat, delay: nat)
    requires n >= 2
    ensures LearnedCap(interval, n + 1, delay) <= LearnedCap(interval, n, delay)
  {
    var q := delay / n;
    assert q * n <= delay;
    MulMonotone(n - 1, n, q);
    DivideAtLeast(delay, n - 1, q);
  }

  // ---- A live gateway is never ended ----

  function HeartbeatsIn(events: seq<Event>): nat
  {
    |Filter(events, (e: Event) => e.Heartbeat?)|
  }

  // The silence at which a live gateway may be ended.
  function LiveGap(c: Conn, interval: nat, late: nat): nat
  {
    if c.stream.sheds then Min(c.stream.idle, Min(After(c.stream), Ms(LearnedFloorMs(interval, late))))
    else c.stream.idle
  }

  // A gateway that beats every `interval` ms on a clock started at most
  // `late` before the connection's: its n-th heartbeat is sent no earlier
  // than n-1 intervals after that and read any time after it is sent, and
  // its socket is never silent for `gap`.
  ghost predicate Lively(c: Conn, events: seq<Event>, interval: nat, late: nat, gap: nat)
  {
    events != [] ==>
      var front, last := events[..|events| - 1], events[|events| - 1];
      && Lively(c, front, interval, late, gap)
      && (last.Heartbeat? ==> MayRead(c.cadence.started, HeartbeatsIn(front) + 1, interval, late, last.at))
      && (last.Wake? ==> Silent(Exec(c, front).stream, last.at) < gap)
  }

  ghost predicate Thriving(c: Conn, now: Conn, beats: nat, interval: nat, late: nat)
  {
    && !Ended(now.stream) && now.stream.idle == c.stream.idle && now.stream.sheds == c.stream.sheds
    && now.cadence == Cadence(c.cadence.started, Min(beats, U32_MAX))
    && After(now.stream) >= Min(After(c.stream), Ms(LearnedFloorMs(interval, late)))
  }

  lemma {:induction false} BeatThrives(c: Conn, now: Conn, beats: nat, interval: nat, late: nat, at: nat)
    requires Thriving(c, now, beats, interval, late)
    requires MayRead(c.cadence.started, beats + 1, interval, late, at)
    ensures Thriving(c, Step(now, Heartbeat(at)), beats + 1, interval, late)
  {
    var n := beats + 1;
    assert Min(Min(beats, U32_MAX) + 1, U32_MAX) == Min(n, U32_MAX);
    if n >= CADENCE_LEARN_AFTER {
      EstimateIsUpperBound(c.cadence.started, n, interval, late, at);
    }
  }

  // Safety over whole runs: neither flag is ever set on a live gateway,
  // however long its address stays full and however its reads are delayed.
  lemma {:induction false} LiveGatewayNeverEnded(c: Conn, events: seq<Event>, interval: nat, late: nat, gap: nat)
    requires !Ended(c.stream) && c.cadence.heartbeats == 0
    requires Lively(c, events, interval, late, gap) && gap <= LiveGap(c, interval, late)
    ensures !Ended(Exec(c, events).stream)
    ensures Thriving(c, Exec(c, events), HeartbeatsIn(events), interval, late)
  {
    if events != [] {
      var front, last := events[..|events| - 1], events[|events| - 1];
      LiveGatewayNeverEnded(c, front, interval, late, gap);
      if last.Heartbeat? {
        BeatThrives(c, Exec(c, front), HeartbeatsIn(front), interval, late, last.at);
      }
    }
  }

  // The gap is sharp: whatever the budgets, there is a run that is silent
  // for exactly that long, once, and is ended.
  lemma {:induction false} LivelyNext(c: Conn, events: seq<Event>, e: Event, interval: nat, late: nat, gap: nat)
    requires Lively(c, events, interval, late, gap)
    requires e.Heartbeat? ==> MayRead(c.cadence.started, HeartbeatsIn(events) + 1, interval, late, e.at)
    requires e.Wake? ==> Silent(Exec(c, events).stream, e.at) < gap
    ensures Lively(c, events + [e], interval, late, gap)
    ensures Exec(c, events + [e]) == Step(Exec(c, events), e)
    ensures HeartbeatsIn(events + [e]) == HeartbeatsIn(events) + if e.Heartbeat? then 1 else 0
  {
    assert (events + [e])[..|events|] == events;
  }

  lemma LivelyNone(c: Conn, interval: nat, late: nat, gap: nat)
    ensures Lively(c, [], interval, late, gap) && Exec(c, []) == c && HeartbeatsIn([]) == 0
  {
  }

  function Beats(n: nat, at: nat): seq<Event>
  {
    if n == 0 then [] else Beats(n - 1, at) + [Heartbeat(at)]
  }

  lemma {:induction false} BeatsTeach(c: Conn, n: nat, interval: nat, late: nat, gap: nat)
    requires c.cadence.heartbeats == 0 && n <= CADENCE_LEARN_AFTER
    ensures var at := FourthBeat(c.cadence.started, interval, late);
            var now := Exec(c, Beats(n, at));
            && Lively(c, Beats(n, at), interval, late, gap) && HeartbeatsIn(Beats(n, at)) == n
            && now.cadence == c.cadence.(heartbeats := n)
            && now.stream == (if n < CADENCE_LEARN_AFTER then c.stream
                              else c.stream.(afterMs := LearnedFloorMs(interval, late)))
  {
    hide LearnedFloorMs, LearnedMs, Exec, Lively, HeartbeatsIn;
    var at := FourthBeat(c.cadence.started, interval, late);
    FloorIsTaught(c.cadence.started, interval, late);
    if n == 0 {
      LivelyNone(c, interval, late, gap);
    } else {
      BeatsTeach(c, n - 1, interval, late, gap);
      MulMonotone(n - 1, 3, Ms(interval));
      LivelyNext(c, Beats(n - 1, at), Heartbeat(at), interval, late, gap);
    }
  }

  // Unlearned: silent from the start until the idle budget or the fallback.
  lemma {:induction false} GapEndsUnlearned(c: Conn, interval: nat, late: nat, gap: nat) returns (events: seq<Event>)
    requires !Ended(c.stream) && c.stream.deadline == FirstLook(c.stream)
    requires LiveGap(c, interval, late) < gap
    requires c.stream.sheds ==> LiveGap(c, interval, late) == Min(c.stream.idle, After(c.stream))
    ensures Lively(c, events, interval, late, gap) && Ended(Exec(c, events).stream)
  {
    var wake := Wake(c.stream.lastProgress + LiveGap(c, interval, late), true);
    LivelyNext(c, [], wake, interval, late, gap);
    assert [] + [wake] == [wake];
    events := [wake];
  }

  // Learned: four heartbeats, then bytes, then silent for the floor.
  lemma {:induction false} GapEndsLearned(c: Conn, interval: nat, late: nat, gap: nat) returns (events: seq<Event>)
    requires !Ended(c.stream) && c.stream.sheds && c.cadence.heartbeats == 0
    requires LiveGap(c, interval, late) == Ms(LearnedFloorMs(interval, late)) < gap
    ensures Lively(c, events, interval, late, gap) && Ended(Exec(c, events).stream)
  {
    hide LearnedFloorMs;
    var at := FourthBeat(c.cadence.started, interval, late);
    var beats := Beats(CADENCE_LEARN_AFTER, at);
    BeatsTeach(c, CADENCE_LEARN_AFTER, interval, late, gap);
    LivelyNext(c, beats, Bytes(at), interval, late, gap);
    var wake := Wake(at + LiveGap(c, interval, late), true);
    LivelyNext(c, beats + [Bytes(at)], wake, interval, late, gap);
    events := beats + [Bytes(at)] + [wake];
  }

  // So for an admitted connection the live gap is exact: the gaps that are
  // safe in every run, however late the reads and however full the address,
  // are those up to it.
  lemma {:induction false} LiveGapExactly(idleSecs: nat, ceiling: bool, accepted: nat, started: nat,
                                          interval: nat, late: nat, gap: nat)
    ensures var c := Opened(idleSecs, ceiling, accepted, started);
            (forall events :: Lively(c, events, interval, late, gap) ==> !Ended(Exec(c, events).stream))
            <==> gap <= LiveGap(c, interval, late)
  {
    hide LearnedFloorMs, Exec, Lively;
    var c := Opened(idleSecs, ceiling, accepted, started);
    if gap <= LiveGap(c, interval, late) {
      forall events | Lively(c, events, interval, late, gap) ensures !Ended(Exec(c, events).stream) {
        LiveGatewayNeverEnded(c, events, interval, late, gap);
      }
    } else {
      var events;
      if ceiling && LiveGap(c, interval, late) == Ms(LearnedFloorMs(interval, late)) {
        events := GapEndsLearned(c, interval, late, gap);
      } else {
        events := GapEndsUnlearned(c, interval, late, gap);
      }
      assert Lively(c, events, interval, late, gap) && Ended(Exec(c, events).stream);
    }
  }

  // The gap of an admitted connection is min(idle, fallback, learned floor),
  // to the nanosecond, although the cell holds a u64 of milliseconds; with
  // the per-IP ceiling disabled it is the idle budget.
  lemma OpenedGap(idleSecs: nat, ceiling: bool, accepted: nat, started: nat, interval: nat, late: nat)
    ensures var c := Opened(idleSecs, ceiling, accepted, started);
            var idle := idleSecs * 1_000_000_000;
            LiveGap(c, interval, late) ==
            if !ceiling then idle
            else Min(idle, Min(Max(idleSecs * 250_000_000, 10_000_000_000), Ms(LearnedFloorMs(interval, late))))
  {
    FallbackMillis(idleSecs);
  }

  lemma FallbackMillis(idleSecs: nat)
    ensures Ms(ToMillis(ShedFallback(idleSecs * 1_000_000_000)))
         == Min(ShedFallback(idleSecs * 1_000_000_000), Ms(U64_MAX))
  {
    var ms := Max(idleSecs * 250, 10_000);
    assert ShedFallback(idleSecs * 1_000_000_000) == ms * 1_000_000;
    assert ms * 1_000_000 / 1_000_000 == ms;
  }

  // Before four heartbeats the threshold is untouched.
  lemma UnlearnedUntilFour(c: Conn, events: seq<Event>)
    requires c.cadence.heartbeats == 0 && HeartbeatsIn(events) < CADENCE_LEARN_AFTER
    ensures Exec(c, events).stream.afterMs == c.stream.afterMs
    ensures Exec(c, events).cadence.heartbeats == HeartbeatsIn(events)
  {
    if events != [] {
      UnlearnedUntilFour(c, events[..|events| - 1]);
    }
  }

  // At an idle budget of ten seconds or less, a connection whose cadence is
  // not learned is never shed: the idle reap comes first in every run.
  lemma {:induction false} ShortIdleNeverSheds(idleSecs: nat, ceiling: bool, accepted: nat, started: nat,
                                               events: seq<Event>)
    requires idleSecs <= 10 && HeartbeatsIn(events) < CADENCE_LEARN_AFTER
    ensures !Exec(Opened(idleSecs, ceiling, accepted, started), events).stream.shed
  {
    var c := Opened(idleSecs, ceiling, accepted, started);
    if events != [] {
      var front := events[..|events| - 1];
      ShortIdleNeverSheds(idleSecs, ceiling, accepted, started, front);
      UnlearnedUntilFour(c, front);
      NeverPastIdle(c, front);
      assert After(c.stream) >= c.stream.idle;
    }
  }
}
