/** The ingress accept loop and the slots it hands out, one atomic action at
    a time so that every interleaving of accepts, refusals, sheds and drops
    is a run (services/pool-verifier/src/ingress.rs). */
module Admission {
  import opened Base
  import opened PerIp

  // What a connection holds. The slot's Drop lowers the gauge first, then
  // its fields go in order: the global permit, then the per-IP one.
  datatype Phase =
    | Permitted   // global permit taken, the address not yet counted
    | Counted     // counted, the gauge not yet raised
    | Live        // admitted and served
    | Ending      // it has decided to end, its slot is still held
    | GaugeDown   // gauge lowered, both permits still held
    | PermitBack  // global permit returned, still counted

  datatype Conn = Conn(ip: Ip, phase: Phase)

  type Conns = map<nat, Conn>

  datatype State = State(cap: nat, maxPerIp: nat, free: nat, counts: Counts, gauge: int, conns: Conns)

  datatype Step =
    | Take(id: nat, ip: Ip)  // accept() returned and a global permit was free
    | Count(id: nat)         // the address had room
    | Refuse(id: nat)        // it had not: the global permit goes back
    | Raise(id: nat)
    | Close(id: nat)         // EOF, error or idle reap
    | Shed(id: nat)          // silent at a full address
    | Lower(id: nat)
    | Return(id: nat)
    | Uncount(id: nat)

  predicate At(s: State, id: nat, phase: Phase)
  {
    id in s.conns && s.conns[id].phase == phase
  }

  predicate Enabled(s: State, step: Step)
  {
    match step
    case Take(id, ip) => id !in s.conns && s.free > 0
    case Count(id) => At(s, id, Permitted) && Admits(s.maxPerIp, s.counts, s.conns[id].ip)
    case Refuse(id) => At(s, id, Permitted) && !Admits(s.maxPerIp, s.counts, s.conns[id].ip)
    case Raise(id) => At(s, id, Counted)
    case Close(id) => At(s, id, Live)
    case Shed(id) => At(s, id, Live) && AddressFull(s.maxPerIp, s.counts, s.conns[id].ip)
    case Lower(id) => At(s, id, Ending)
    case Return(id) => At(s, id, GaugeDown)
    case Uncount(id) => At(s, id, PermitBack)
  }

  // The connection a step leaves behind, if any.
  function Becomes(s: State, step: Step): Option<Conn>
    requires Enabled(s, step)
  {
    match step
    case Take(_, ip) => Some(Conn(ip, Permitted))
    case Count(id) => Some(s.conns[id].(phase := Counted))
    case Refuse(_) => None
    case Raise(id) => Some(s.conns[id].(phase := Live))
    case Close(id) => Some(s.conns[id].(phase := Ending))
    case Shed(id) => Some(s.conns[id].(phase := Ending))
    case Lower(id) => Some(s.conns[id].(phase := GaugeDown))
    case Return(id) => Some(s.conns[id].(phase := PermitBack))
    case Uncount(_) => None
  }

  function Moved(conns: Conns, id: nat, c: Option<Conn>): Conns
  {
    match c case Some(conn) => conns[id := conn] case None => conns - {id}
  }

  // A step that is not enabled does not happen.
  function Apply(s: State, step: Step): State
  {
    if !Enabled(s, step) then s
    else
      var s' := s.(conns := Moved(s.conns, step.id, Becomes(s, step)));
      match step
      case Take(_, _) => s'.(free := s.free - 1)
      case Count(id) => s'.(counts := Accepted(s.maxPerIp, s.counts, s.conns[id].ip))
      case Refuse(_) => s'.(free := s.free + 1)
      case Raise(_) => s'.(gauge := s.gauge + 1)
      case Close(_) => s'
      case Shed(_) => s'
      case Lower(_) => s'.(gauge := s.gauge - 1)
      case Return(_) => s'.(free := s.free + 1)
      case Uncount(id) => s'.(counts := Dropped(s.counts, s.conns[id].ip))
  }

  function Exec(s: State, steps: seq<Step>): State
  {
    if steps == [] then s
    else Apply(Exec(s, steps[..|steps| - 1]), steps[|steps| - 1])
  }

  function Initial(cap: nat, maxPerIp: nat): State
  {
    State(cap, maxPerIp, cap, map[], 0, map[])
  }

  // ---- Counting connections ----

  function Holders(conns: Conns, p: Conn -> bool): set<nat>
  {
    set id | id in conns && p(conns[id])
  }

  function One(b: bool): int { if b then 1 else 0 }

  lemma {:induction false} HoldersUpdate(conns: Conns, id: nat, c: Conn, p: Conn -> bool)
    ensures |Holders(conns[id := c], p)| == |Holders(conns, p)| - One(id in conns && p(conns[id])) + One(p(c))
  {
    HoldersRemove(conns, id, p);
    HoldersRemove(conns[id := c], id, p);
    assert conns[id := c] - {id} == conns - {id};
  }

  lemma {:induction false} HoldersRemove(conns: Conns, id: nat, p: Conn -> bool)
    ensures |Holders(conns - {id}, p)| == |Holders(conns, p)| - One(id in conns && p(conns[id]))
  {
    var before := Holders(conns, p);
    assert Holders(conns - {id}, p) == before - {id};
    if id in conns && p(conns[id]) {
      assert before == (before - {id}) + {id};
    } else {
      assert before == before - {id};
    }
  }

  lemma {:induction false} SubsetSize(a: set<nat>, b: set<nat>)
    requires a <= b
    ensures |a| <= |b|
  {
    assert b == a + (b - a);
  }

  function HasPermit(): Conn -> bool { (c: Conn) => c.phase != PermitBack }

  function HasGauge(): Conn -> bool { (c: Conn) => c.phase == Live || c.phase == Ending }

  function IsCounted(ip: Ip): Conn -> bool { (c: Conn) => c.ip == ip && c.phase != Permitted }

  // ---- Conservation ----

  // Permits, the gauge and every address's count account for exactly the
  // connections that hold them.
  ghost predicate Conserved(s: State)
  {
    && s.free + |Holders(s.conns, HasPermit())| == s.cap
    && s.gauge == |Holders(s.conns, HasGauge())|
    && WellCounted(s.maxPerIp, s.counts)
    && (s.maxPerIp != 0 ==> forall ip :: CountFor(s.counts, ip) == |Holders(s.conns, IsCounted(ip))|)
  }

  // The effect of one step on any tally of connections.
  lemma {:induction false} StepTally(s: State, step: Step, p: Conn -> bool)
    requires Enabled(s, step)
    ensures var c := Becomes(s, step);
            |Holders(Apply(s, step).conns, p)| ==
            |Holders(s.conns, p)| - One(step.id in s.conns && p(s.conns[step.id])) + One(c.Some? && p(c.value))
  {
    match Becomes(s, step) {
      case Some(c) => HoldersUpdate(s.conns, step.id, c, p);
      case None => HoldersRemove(s.conns, step.id, p);
    }
  }

  lemma {:induction false} StepPermits(s: State, step: Step)
    requires Enabled(s, step)
    requires s.free + |Holders(s.conns, HasPermit())| == s.cap && s.gauge == |Holders(s.conns, HasGauge())|
    ensures var s' := Apply(s, step);
            s'.free + |Holders(s'.conns, HasPermit())| == s'.cap && s'.gauge == |Holders(s'.conns, HasGauge())|
  {
    StepTally(s, step, HasPermit());
    StepTally(s, step, HasGauge());
  }

  lemma {:induction false} StepCounts(s: State, step: Step, ip: Ip)
    requires Enabled(s, step) && s.maxPerIp != 0 && WellCounted(s.maxPerIp, s.counts)
    requires CountFor(s.counts, ip) == |Holders(s.conns, IsCounted(ip))|
    ensures CountFor(Apply(s, step).counts, ip) == |Holders(Apply(s, step).conns, IsCounted(ip))|
  {
    StepTally(s, step, IsCounted(ip));
    if step.Count? {
      DropUndoesAccept(s.maxPerIp, s.counts, s.conns[step.id].ip);
    }
  }

  lemma {:induction false} StepWellCounted(s: State, step: Step)
    requires Enabled(s, step) && WellCounted(s.maxPerIp, s.counts)
    ensures WellCounted(s.maxPerIp, Apply(s, step).counts)
  {
    if step.Count? {
      DropUndoesAccept(s.maxPerIp, s.counts, s.conns[step.id].ip);
    }
  }

  lemma {:induction false} StepConserves(s: State, step: Step)
    requires Conserved(s)
    ensures Conserved(Apply(s, step))
  {
    hide Holders, CountFor, WellCounted, HasPermit, HasGauge, IsCounted;
    if Enabled(s, step) {
      var s' := Apply(s, step);
      StepPermits(s, step);
      StepWellCounted(s, step);
      if s.maxPerIp != 0 {
        forall ip ensures CountFor(s'.counts, ip) == |Holders(s'.conns, IsCounted(ip))| {
          StepCounts(s, step, ip);
        }
      }
    }
  }

  lemma InitialConserved(cap: nat, maxPerIp: nat)
    ensures Conserved(Initial(cap, maxPerIp))
  {
    assert Holders(map[], HasPermit()) == {} && Holders(map[], HasGauge()) == {};
    forall ip ensures Holders(map[], IsCounted(ip)) == {} {}
  }

  lemma {:induction false} ExecConserves(s: State, steps: seq<Step>)
    requires Conserved(s)
    ensures Conserved(Exec(s, steps)) && Exec(s, steps).cap == s.cap && Exec(s, steps).maxPerIp == s.maxPerIp
  {
    hide Conserved;
    if steps != [] {
      ExecConserves(s, steps[..|steps| - 1]);
      StepConserves(Exec(s, steps[..|steps| - 1]), steps[|steps| - 1]);
    }
  }

  // Conservation under every interleaving.
  lemma {:induction false} RunConserves(cap: nat, maxPerIp: nat, steps: seq<Step>)
    ensures Conserved(Exec(Initial(cap, maxPerIp), steps))
    ensures var s := Exec(Initial(cap, maxPerIp), steps); s.cap == cap && s.maxPerIp == maxPerIp
  {
    hide Conserved;
    InitialConserved(cap, maxPerIp);
    ExecConserves(Initial(cap, maxPerIp), steps);
  }

  ghost predicate Quiescent(s: State)
  {
    forall id :: id in s.conns ==> s.conns[id].phase == Live
  }

  function From(conns: Conns, ip: Ip): set<nat>
  {
    set id | id in conns && conns[id].ip == ip
  }

  // Between accepts and drops, after any run: free permits and live slots
  // make up the cap, the gauge is the live slots, each address's count is
  // its live slots and within the ceiling, and it has an entry iff it has one.
  lemma QuiescentAccounts(cap: nat, maxPerIp: nat, steps: seq<Step>)
    requires Quiescent(Exec(Initial(cap, maxPerIp), steps))
    ensures var s := Exec(Initial(cap, maxPerIp), steps);
            && s.free + |s.conns| == cap && s.gauge == |s.conns|
            && (maxPerIp == 0 ==> s.counts == map[])
            && (maxPerIp != 0 ==> forall ip ::
                  && CountFor(s.counts, ip) == |From(s.conns, ip)| <= maxPerIp
                  && (ip in s.counts <==> From(s.conns, ip) != {}))
  {
    var s := Exec(Initial(cap, maxPerIp), steps);
    RunConserves(cap, maxPerIp, steps);
    assert Holders(s.conns, HasPermit()) == s.conns.Keys && Holders(s.conns, HasGauge()) == s.conns.Keys;
    forall ip ensures From(s.conns, ip) == Holders(s.conns, IsCounted(ip)) {}
  }

  // ---- How large the per-IP map gets ----

  lemma {:induction false} ImageSize(ids: set<nat>, conns: Conns, ips: set<Ip>)
    requires forall id :: id in ids ==> id in conns
    requires forall ip :: ip in ips ==> exists id :: id in ids && conns[id].ip == ip
    ensures |ips| <= |ids|
    decreases |ips|
  {
    if ips != {} {
      var ip :| ip in ips;
      var id :| id in ids && conns[id].ip == ip;
      assert forall x :: x in ips - {ip} ==> exists i :: i in ids - {id} && conns[i].ip == x;
      ImageSize(ids - {id}, conns, ips - {ip});
    }
  }

  function InPhase(phase: Phase): Conn -> bool { (c: Conn) => c.phase == phase }

  function CountedIn(s: State): nat { |Holders(s.conns, (c: Conn) => c.phase != Permitted)| }

  // Every entry of the map has a counted connection of its own.
  lemma {:induction false} MapSize(s: State)
    requires Conserved(s)
    ensures |s.counts| <= CountedIn(s)
  {
    var counted := Holders(s.conns, (c: Conn) => c.phase != Permitted);
    forall ip | ip in s.counts.Keys ensures exists id :: id in counted && s.conns[id].ip == ip {
      assert CountFor(s.counts, ip) == |Holders(s.conns, IsCounted(ip))|;
      var id :| id in Holders(s.conns, IsCounted(ip));
      assert id in counted;
    }
    ImageSize(counted, s.conns, s.counts.Keys);
  }

  // A counted connection holds a permit or has returned it.
  lemma {:induction false} CountedHolds(s: State)
    requires Conserved(s)
    ensures CountedIn(s) <= s.cap + |Holders(s.conns, InPhase(PermitBack))|
  {
    var counted := Holders(s.conns, (c: Conn) => c.phase != Permitted);
    var with, without := Holders(s.conns, HasPermit()), Holders(s.conns, InPhase(PermitBack));
    SubsetSize(counted, with + without);
  }

  // The map has at most one entry per permit, plus one for each connection
  // that has returned its permit but is still counted.
  lemma MapBound(cap: nat, maxPerIp: nat, steps: seq<Step>)
    ensures var s := Exec(Initial(cap, maxPerIp), steps);
            |s.counts| <= cap + |Holders(s.conns, InPhase(PermitBack))|
  {
    hide Conserved, Exec;
    var s := Exec(Initial(cap, maxPerIp), steps);
    RunConserves(cap, maxPerIp, steps);
    MapSize(s);
    CountedHolds(s);
  }

  // ---- Runs on a given number of workers ----

  // A task that is accepting or releasing a slot never awaits in between: it
  // stays on one runtime worker until it is done. The accept loop is one task.
  function Busy(): Conn -> bool { (c: Conn) => c.phase != Live }

  function Accepting(): Conn -> bool { (c: Conn) => c.phase == Permitted || c.phase == Counted }

  ghost predicate Fits(s: State, workers: nat)
  {
    |Holders(s.conns, Busy())| <= workers && |Holders(s.conns, Accepting())| <= 1
  }

  // Every state of the run, from its first to its last, fits on the workers.
  ghost predicate Within(s: State, steps: seq<Step>, workers: nat)
  {
    forall k :: 0 <= k <= |steps| ==> Fits(Exec(s, steps[..k]), workers)
  }

  lemma {:induction false} WithinEnds(s: State, steps: seq<Step>, workers: nat)
    requires Within(s, steps, workers)
    ensures Fits(s, workers) && Fits(Exec(s, steps), workers)
    ensures steps != [] ==> Within(s, steps[..|steps| - 1], workers)
  {
    assert steps[..0] == [] && steps[..|steps|] == steps;
    if steps != [] {
      var n := |steps| - 1;
      assert forall k :: 0 <= k <= n ==> steps[..n][..k] == steps[..k];
    }
  }

  lemma {:induction false} WithinNone(s: State, workers: nat)
    requires Fits(s, workers)
    ensures Within(s, [], workers)
  {
  }

  lemma {:induction false} WithinNext(s: State, steps: seq<Step>, step: Step, workers: nat)
    requires Within(s, steps, workers) && Fits(Apply(Exec(s, steps), step), workers)
    ensures Within(s, steps + [step], workers)
  {
    hide Fits, Apply;
    var all := steps + [step];
    ExecNext(s, steps, step);
    forall k | 0 <= k <= |all| ensures Fits(Exec(s, all[..k]), workers) {
      if k <= |steps| {
        assert all[..k] == steps[..k];
      } else {
        assert all[..k] == all;
      }
    }
  }

  lemma {:induction false} WithinConcat(s: State, steps: seq<Step>, more: seq<Step>, workers: nat)
    requires Within(s, steps, workers) && Within(Exec(s, steps), more, workers)
    ensures Within(s, steps + more, workers)
  {
    hide Fits, Exec;
    var all := steps + more;
    forall k | 0 <= k <= |all| ensures Fits(Exec(s, all[..k]), workers) {
      if k <= |steps| {
        assert all[..k] == steps[..k];
      } else {
        assert all[..k] == steps + more[..k - |steps|];
        ExecConcat(s, steps, more[..k - |steps|]);
      }
    }
  }

  lemma {:induction false} WithinThree(s: State, x: Step, y: Step, z: Step, workers: nat)
    requires Fits(s, workers) && Fits(Apply(s, x), workers) && Fits(Apply(Apply(s, x), y), workers)
    requires Fits(Apply(Apply(Apply(s, x), y), z), workers)
    ensures Within(s, [x, y, z], workers)
  {
    hide Fits, Apply, Exec, Within;
    assert [] + [x] == [x] && [x] + [y] == [x, y] && [x, y] + [z] == [x, y, z];
    WithinNone(s, workers);
    ExecNone(s);
    WithinNext(s, [], x, workers);
    ExecNext(s, [], x);
    WithinNext(s, [x], y, workers);
    ExecNext(s, [x], y);
    WithinNext(s, [x, y], z, workers);
  }

  // Connections are counted by the accept loop, which is on a worker itself:
  // whenever one is, at least one permit drop fewer is under way.
  lemma {:induction false} StepCountedWithin(s: State, step: Step, workers: nat)
    requires Conserved(s) && workers >= 1 && CountedIn(s) <= s.cap + workers - 1 && Fits(Apply(s, step), workers)
    ensures CountedIn(Apply(s, step)) <= s.cap + workers - 1
  {
    hide Conserved, Holders;
    if Enabled(s, step) {
      StepTally(s, step, (c: Conn) => c.phase != Permitted);
      if step.Count? {
        var s' := Apply(s, step);
        StepConserves(s, step);
        CountedHolds(s');
        OneMoreBusy(s', step.id);
      }
    }
  }

  lemma {:induction false} OneMoreBusy(s: State, id: nat)
    requires At(s, id, Counted)
    ensures |Holders(s.conns, InPhase(PermitBack))| < |Holders(s.conns, Busy())|
  {
    var back := Holders(s.conns, InPhase(PermitBack));
    SubsetSize(back + {id}, Holders(s.conns, Busy()));
    assert id !in back;
  }

  lemma {:induction false} CountedWithin(s: State, steps: seq<Step>, workers: nat)
    requires Conserved(s) && workers >= 1 && CountedIn(s) <= s.cap + workers - 1 && Within(s, steps, workers)
    ensures CountedIn(Exec(s, steps)) <= s.cap + workers - 1
  {
    hide Conserved, CountedIn, Within, Fits, Apply;
    if steps != [] {
      var n := |steps| - 1;
      WithinEnds(s, steps, workers);
      CountedWithin(s, steps[..n], workers);
      ExecConserves(s, steps[..n]);
      StepCountedWithin(Exec(s, steps[..n]), steps[n], workers);
    }
  }

  lemma {:induction false} RunCountedWithin(cap: nat, maxPerIp: nat, steps: seq<Step>, workers: nat)
    requires workers >= 1 && Within(Initial(cap, maxPerIp), steps, workers)
    ensures CountedIn(Exec(Initial(cap, maxPerIp), steps)) <= cap + workers - 1
  {
    hide Conserved, Within, Exec;
    InitialConserved(cap, maxPerIp);
    CountedWithin(Initial(cap, maxPerIp), steps, workers);
  }

  // ---- Runs that were built ----

  lemma ExecNone(s: State)
    ensures Exec(s, []) == s
  {
  }

  lemma ExecNext(s: State, steps: seq<Step>, step: Step)
    ensures Exec(s, steps + [step]) == Apply(Exec(s, steps), step)
  {
    hide Apply;
    assert (steps + [step])[..|steps|] == steps;
  }

  lemma {:induction false} ExecConcat(s: State, steps: seq<Step>, more: seq<Step>)
    ensures Exec(s, steps + more) == Exec(Exec(s, steps), more)
  {
    hide Apply;
    if more == [] {
      assert steps + more == steps;
    } else {
      var n := |more| - 1;
      ExecConcat(s, steps, more[..n]);
      assert (steps + more)[..|steps| + n] == steps + more[..n];
    }
  }

  lemma {:induction false} ExecThree(s: State, x: Step, y: Step, z: Step)
    ensures Exec(s, [x, y, z]) == Apply(Apply(Apply(s, x), y), z)
  {
    hide Apply, Exec;
    ExecNone(s);
    ExecNext(s, [], x);
    ExecNext(s, [x], y);
    ExecNext(s, [x, y], z);
    assert [] + [x] == [x] && [x] + [y] == [x, y] && [x, y] + [z] == [x, y, z];
  }

  // A connection accepted in one turn of the loop.
  function Open(id: nat, ip: Ip): seq<Step> { [Take(id, ip), Count(id), Raise(id)] }

  // A connection that ends and has just returned its global permit.
  function HalfDrop(id: nat): seq<Step> { [Close(id), Lower(id), Return(id)] }

  lemma {:induction false} OpenEffect(s: State, id: nat, ip: Ip)
    requires id !in s.conns && s.free > 0 && s.maxPerIp != 0 && Admits(s.maxPerIp, s.counts, ip)
    ensures Exec(s, Open(id, ip)) == s.(free := s.free - 1, counts := Accepted(s.maxPerIp, s.counts, ip),
                                        gauge := s.gauge + 1, conns := s.conns[id := Conn(ip, Live)])
  {
    hide Exec;
    ExecThree(s, Take(id, ip), Count(id), Raise(id));
    var s1 := Apply(s, Take(id, ip));
    assert s1 == s.(free := s.free - 1, conns := s.conns[id := Conn(ip, Permitted)]);
    var s2 := Apply(s1, Count(id));
    assert s2 == s1.(counts := Accepted(s.maxPerIp, s.counts, ip), conns := s.conns[id := Conn(ip, Counted)]);
  }

  lemma {:induction false} HalfDropEffect(s: State, id: nat)
    requires At(s, id, Live)
    ensures Exec(s, HalfDrop(id)) == s.(free := s.free + 1, gauge := s.gauge - 1,
                                        conns := s.conns[id := s.conns[id].(phase := PermitBack)])
  {
    hide Exec;
    ExecThree(s, Close(id), Lower(id), Return(id));
    var s1 := Apply(s, Close(id));
    assert s1 == s.(conns := s.conns[id := s.conns[id].(phase := Ending)]);
    var s2 := Apply(s1, Lower(id));
    assert s2 == s.(gauge := s.gauge - 1, conns := s.conns[id := s.conns[id].(phase := GaugeDown)]);
  }

  lemma {:induction false} OpenWithin(s: State, id: nat, ip: Ip, workers: nat)
    requires id !in s.conns && s.free > 0 && s.maxPerIp != 0 && Admits(s.maxPerIp, s.counts, ip)
    requires |Holders(s.conns, Busy())| < workers && |Holders(s.conns, Accepting())| == 0
    ensures Within(s, Open(id, ip), workers)
    ensures |Holders(Exec(s, Open(id, ip)).conns, Busy())| == |Holders(s.conns, Busy())|
    ensures |Holders(Exec(s, Open(id, ip)).conns, Accepting())| == 0
  {
    hide Exec, Holders, Within;
    var s1 := Apply(s, Take(id, ip));
    var s2 := Apply(s1, Count(id));
    StepTally(s, Take(id, ip), Busy());
    StepTally(s, Take(id, ip), Accepting());
    StepTally(s1, Count(id), Busy());
    StepTally(s1, Count(id), Accepting());
    StepTally(s2, Raise(id), Busy());
    StepTally(s2, Raise(id), Accepting());
    WithinThree(s, Take(id, ip), Count(id), Raise(id), workers);
    ExecThree(s, Take(id, ip), Count(id), Raise(id));
  }

  lemma {:induction false} HalfDropWithin(s: State, id: nat, workers: nat)
    requires At(s, id, Live) && |Holders(s.conns, Busy())| < workers && |Holders(s.conns, Accepting())| == 0
    ensures Within(s, HalfDrop(id), workers)
    ensures |Holders(Exec(s, HalfDrop(id)).conns, Busy())| == |Holders(s.conns, Busy())| + 1
    ensures |Holders(Exec(s, HalfDrop(id)).conns, Accepting())| == 0
  {
    hide Exec, Holders, Within;
    var s1 := Apply(s, Close(id));
    var s2 := Apply(s1, Lower(id));
    StepTally(s, Close(id), Busy());
    StepTally(s, Close(id), Accepting());
    StepTally(s1, Lower(id), Busy());
    StepTally(s1, Lower(id), Accepting());
    StepTally(s2, Return(id), Busy());
    StepTally(s2, Return(id), Accepting());
    WithinThree(s, Close(id), Lower(id), Return(id), workers);
    ExecThree(s, Close(id), Lower(id), Return(id));
  }

  // n connections come and go, each overtaken between its two permit drops.
  function Visits(n: nat, address: nat -> Ip): seq<Step>
  {
    if n == 0 then []
    else Visits(n - 1, address) + (Open(n - 1, address(n - 1)) + HalfDrop(n - 1))
  }

  // Connections `from` up to `from + n` come and stay.
  function Fill(from: nat, n: nat, address: nat -> Ip): seq<Step>
  {
    if n == 0 then []
    else Fill(from, n - 1, address) + Open(from + n - 1, address(from + n - 1))
  }

  // The counts after connections 0 to n - 1 were counted in turn.
  function Tallied(maxPerIp: nat, address: nat -> Ip, n: nat): Counts
  {
    if n == 0 then map[] else Accepted(maxPerIp, Tallied(maxPerIp, address, n - 1), address(n - 1))
  }

  ghost predicate Roomy(maxPerIp: nat, address: nat -> Ip, n: nat)
  {
    maxPerIp != 0 && forall i :: 0 <= i < n ==> Admits(maxPerIp, Tallied(maxPerIp, address, i), address(i))
  }

  // `gone` connections between their two permit drops, then `live` ones.
  function Stacked(gone: nat, live: nat, address: nat -> Ip): Conns
  {
    map id | 0 <= id < gone + live :: Conn(address(id), if id < gone then PermitBack else Live)
  }

  function StackedState(cap: nat, maxPerIp: nat, gone: nat, live: nat, address: nat -> Ip): State
    requires live <= cap
  {
    State(cap, maxPerIp, cap - live, Tallied(maxPerIp, address, gone + live), live, Stacked(gone, live, address))
  }

  function Below(n: nat): set<nat>
  {
    if n == 0 then {} else Below(n - 1) + {n - 1}
  }

  lemma {:induction false} BelowIs(n: nat)
    ensures |Below(n)| == n && forall i :: i in Below(n) <==> 0 <= i < n
  {
    if n > 0 {
      BelowIs(n - 1);
    }
  }

  lemma {:induction false} StackedBusy(gone: nat, live: nat, address: nat -> Ip)
    ensures |Holders(Stacked(gone, live, address), Busy())| == gone
    ensures |Holders(Stacked(gone, live, address), Accepting())| == 0
  {
    BelowIs(gone);
    assert Holders(Stacked(gone, live, address), Busy()) == Below(gone);
    assert Holders(Stacked(gone, live, address), Accepting()) == {};
  }

  lemma {:induction false} RoomyAt(maxPerIp: nat, address: nat -> Ip, n: nat, i: nat)
    requires Roomy(maxPerIp, address, n) && i < n
    ensures Roomy(maxPerIp, address, i) && maxPerIp != 0
    ensures Admits(maxPerIp, Tallied(maxPerIp, address, i), address(i))
  {
    hide Tallied, Admits;
  }

  lemma {:induction false} StackedOpen(cap: nat, maxPerIp: nat, gone: nat, live: nat, address: nat -> Ip, workers: nat)
    requires live < cap && gone < workers && Roomy(maxPerIp, address, gone + live + 1)
    ensures var s, id := StackedState(cap, maxPerIp, gone, live, address), gone + live;
            && Exec(s, Open(id, address(id))) == StackedState(cap, maxPerIp, gone, live + 1, address)
            && Within(s, Open(id, address(id)), workers)
  {
    hide Exec, Within, Holders, Busy, Accepting, Roomy, Admits, Accepted, Open;
    var s, id := StackedState(cap, maxPerIp, gone, live, address), gone + live;
    RoomyAt(maxPerIp, address, id + 1, id);
    StackedBusy(gone, live, address);
    OpenWithin(s, id, address(id), workers);
    OpenEffect(s, id, address(id));
    assert Stacked(gone, live, address)[id := Conn(address(id), Live)] == Stacked(gone, live + 1, address);
  }

  lemma {:induction false} StackedVisit(cap: nat, maxPerIp: nat, n: nat, address: nat -> Ip, workers: nat)
    requires cap >= 1 && n < workers && Roomy(maxPerIp, address, n + 1)
    ensures var s := StackedState(cap, maxPerIp, n, 0, address);
            && Exec(s, Open(n, address(n)) + HalfDrop(n)) == StackedState(cap, maxPerIp, n + 1, 0, address)
            && Within(s, Open(n, address(n)) + HalfDrop(n), workers)
  {
    hide Exec, Within, Holders, Busy, Accepting, Roomy, Tallied, Open, HalfDrop;
    var s, t := StackedState(cap, maxPerIp, n, 0, address), StackedState(cap, maxPerIp, n, 1, address);
    StackedOpen(cap, maxPerIp, n, 0, address, workers);
    ExecConcat(s, Open(n, address(n)), HalfDrop(n));
    StackedBusy(n, 1, address);
    HalfDropWithin(t, n, workers);
    HalfDropEffect(t, n);
    assert Stacked(n, 1, address)[n := Conn(address(n), PermitBack)] == Stacked(n + 1, 0, address);
    WithinConcat(s, Open(n, address(n)), HalfDrop(n), workers);
  }

  lemma {:induction false} VisitsEffect(cap: nat, maxPerIp: nat, n: nat, address: nat -> Ip, workers: nat)
    requires cap >= 1 && n <= workers && Roomy(maxPerIp, address, n)
    ensures Exec(Initial(cap, maxPerIp), Visits(n, address)) == StackedState(cap, maxPerIp, n, 0, address)
    ensures Within(Initial(cap, maxPerIp), Visits(n, address), workers)
  {
    hide Exec, Within, StackedState, Roomy, Open, HalfDrop;
    if n == 0 {
      StackedNone(cap, maxPerIp, address, workers);
    } else {
      RoomyAt(maxPerIp, address, n, n - 1);
      VisitsEffect(cap, maxPerIp, n - 1, address, workers);
      StackedVisit(cap, maxPerIp, n - 1, address, workers);
      var more := Open(n - 1, address(n - 1)) + HalfDrop(n - 1);
      ExecConcat(Initial(cap, maxPerIp), Visits(n - 1, address), more);
      WithinConcat(Initial(cap, maxPerIp), Visits(n - 1, address), more, workers);
    }
  }

  lemma {:induction false} StackedNone(cap: nat, maxPerIp: nat, address: nat -> Ip, workers: nat)
    ensures Initial(cap, maxPerIp) == StackedState(cap, maxPerIp, 0, 0, address)
    ensures Exec(Initial(cap, maxPerIp), []) == Initial(cap, maxPerIp)
    ensures Within(Initial(cap, maxPerIp), [], workers)
  {
    assert Stacked(0, 0, address) == map[];
    StackedBusy(0, 0, address);
    WithinNone(Initial(cap, maxPerIp), workers);
  }

  lemma {:induction false} FillEffect(cap: nat, maxPerIp: nat, gone: nat, n: nat, address: nat -> Ip, workers: nat)
    requires n <= cap && gone < workers && Roomy(maxPerIp, address, gone + n)
    ensures var s := StackedState(cap, maxPerIp, gone, 0, address);
            && Exec(s, Fill(gone, n, address)) == StackedState(cap, maxPerIp, gone, n, address)
            && Within(s, Fill(gone, n, address), workers)
  {
    hide Exec, Within, Roomy, Tallied, Open, Holders;
    var s := StackedState(cap, maxPerIp, gone, 0, address);
    if n == 0 {
      ExecNone(s);
      StackedBusy(gone, 0, address);
      WithinNone(s, workers);
    } else {
      RoomyAt(maxPerIp, address, gone + n, gone + n - 1);
      FillEffect(cap, maxPerIp, gone, n - 1, address, workers);
      StackedOpen(cap, maxPerIp, gone, n - 1, address, workers);
      var id := gone + n - 1;
      ExecConcat(s, Fill(gone, n - 1, address), Open(id, address(id)));
      WithinConcat(s, Fill(gone, n - 1, address), Open(id, address(id)), workers);
    }
  }

  lemma {:induction false} RoomyUpTo(maxPerIp: nat, address: nat -> Ip, n: nat, i: nat)
    requires Roomy(maxPerIp, address, n) && i <= n
    ensures Roomy(maxPerIp, address, i)
  {
    hide Tallied, Admits;
  }

  // Some visit and are overtaken, then others come and stay.
  function Stack(gone: nat, live: nat, address: nat -> Ip): seq<Step>
  {
    Visits(gone, address) + Fill(gone, live, address)
  }

  lemma {:induction false} StackEffect(cap: nat, maxPerIp: nat, gone: nat, live: nat, address: nat -> Ip, workers: nat)
    requires 1 <= cap && live <= cap && gone < workers && Roomy(maxPerIp, address, gone + live)
    ensures Exec(Initial(cap, maxPerIp), Stack(gone, live, address))
         == StackedState(cap, maxPerIp, gone, live, address)
    ensures Within(Initial(cap, maxPerIp), Stack(gone, live, address), workers)
  {
    hide Exec, Within, StackedState, Roomy, Visits, Fill;
    RoomyUpTo(maxPerIp, address, gone + live, gone);
    VisitsEffect(cap, maxPerIp, gone, address, workers);
    FillEffect(cap, maxPerIp, gone, live, address, workers);
    ExecConcat(Initial(cap, maxPerIp), Visits(gone, address), Fill(gone, live, address));
    WithinConcat(Initial(cap, maxPerIp), Visits(gone, address), Fill(gone, live, address), workers);
  }

  // ---- Exactly how large the map gets ----

  function Own(): nat -> Ip { (i: nat) => i }

  function Always(ip: Ip): nat -> Ip { (i: nat) => ip }

  lemma {:induction false} TalliedOwn(maxPerIp: nat, n: nat)
    requires maxPerIp >= 1
    ensures Tallied(maxPerIp, Own(), n).Keys == Below(n)
  {
    if n > 0 {
      TalliedOwn(maxPerIp, n - 1);
      assert Tallied(maxPerIp, Own(), n).Keys == Tallied(maxPerIp, Own(), n - 1).Keys + {n - 1};
    }
  }

  lemma {:induction false} RoomyOwn(maxPerIp: nat, n: nat)
    requires maxPerIp >= 1
    ensures |Tallied(maxPerIp, Own(), n)| == n && Roomy(maxPerIp, Own(), n)
  {
    hide Tallied, Below;
    TalliedOwn(maxPerIp, n);
    BelowIs(n);
    forall i | 0 <= i < n ensures Admits(maxPerIp, Tallied(maxPerIp, Own(), i), Own()(i)) {
      TalliedOwn(maxPerIp, i);
      BelowIs(i);
    }
  }

  lemma {:induction false} TalliedAlways(maxPerIp: nat, ip: Ip, n: nat)
    requires maxPerIp >= 1
    ensures CountFor(Tallied(maxPerIp, Always(ip), n), ip) == n
  {
    if n > 0 {
      TalliedAlways(maxPerIp, ip, n - 1);
    }
  }

  lemma {:induction false} RoomyAlways(maxPerIp: nat, ip: Ip, n: nat)
    requires n <= maxPerIp && maxPerIp >= 1
    ensures CountFor(Tallied(maxPerIp, Always(ip), n), ip) == n && Roomy(maxPerIp, Always(ip), n)
  {
    hide Tallied, CountFor;
    TalliedAlways(maxPerIp, ip, n);
    forall i | 0 <= i < n ensures Admits(maxPerIp, Tallied(maxPerIp, Always(ip), i), Always(ip)(i)) {
      TalliedAlways(maxPerIp, ip, i);
    }
  }

  // A slot gives its permit back before it is uncounted, and newcomers can
  // be counted between, so the connection cap alone does not bound the map.
  // What does is the cap plus the workers but one: that many of the drops can
  // be overtaken at once, and the accept loop needs a worker to overtake on.
  // In particular the cap itself is a bound exactly on a single worker, or
  // where nothing is ever counted.
  lemma {:induction false} MapBoundedExactly(cap: nat, maxPerIp: nat, workers: nat, bound: nat)
    requires workers >= 1
    ensures (forall steps :: Within(Initial(cap, maxPerIp), steps, workers) ==>
                             |Exec(Initial(cap, maxPerIp), steps).counts| <= bound)
            <==> cap == 0 || maxPerIp == 0 || bound >= cap + workers - 1
  {
    hide Exec, Initial, Within, Conserved, CountedIn, Roomy, Tallied, Stacked, Stack;
    if cap == 0 || maxPerIp == 0 {
      forall steps ensures |Exec(Initial(cap, maxPerIp), steps).counts| <= bound {
        NothingCounted(cap, maxPerIp, steps);
      }
    } else if bound >= cap + workers - 1 {
      forall steps | Within(Initial(cap, maxPerIp), steps, workers)
        ensures |Exec(Initial(cap, maxPerIp), steps).counts| <= bound
      {
        RunCountedWithin(cap, maxPerIp, steps, workers);
        RunConserves(cap, maxPerIp, steps);
        MapSize(Exec(Initial(cap, maxPerIp), steps));
      }
    } else {
      RoomyOwn(maxPerIp, workers - 1 + cap);
      StackEffect(cap, maxPerIp, workers - 1, cap, Own(), workers);
      assert |Exec(Initial(cap, maxPerIp), Stack(workers - 1, cap, Own())).counts| > bound;
    }
  }

  lemma {:induction false} NothingCounted(cap: nat, maxPerIp: nat, steps: seq<Step>)
    requires cap == 0 || maxPerIp == 0
    ensures Exec(Initial(cap, maxPerIp), steps).counts == map[]
    ensures cap == 0 ==> Exec(Initial(cap, maxPerIp), steps).conns == map[]
    ensures cap == 0 ==> Exec(Initial(cap, maxPerIp), steps).free == 0
  {
    RunConserves(cap, maxPerIp, steps);
    if cap == 0 && steps != [] {
      NothingCounted(cap, maxPerIp, steps[..|steps| - 1]);
    }
  }

  // ---- Shedding at a full address ----

  // A shed is only ever decided at an address exactly at its ceiling.
  lemma ShedAtCeiling(cap: nat, maxPerIp: nat, steps: seq<Step>, id: nat)
    requires Enabled(Exec(Initial(cap, maxPerIp), steps), Shed(id))
    ensures var s := Exec(Initial(cap, maxPerIp), steps);
            maxPerIp != 0 && CountFor(s.counts, s.conns[id].ip) == maxPerIp
  {
    RunConserves(cap, maxPerIp, steps);
  }

  // The step counts a connection of ip, or uncounts one.
  predicate Joins(s: State, step: Step, ip: Ip)
  {
    Enabled(s, step) && step.Count? && s.conns[step.id].ip == ip
  }

  predicate Leaves(s: State, step: Step, ip: Ip)
  {
    Enabled(s, step) && step.Uncount? && s.conns[step.id].ip == ip
  }

  // How many connections of ip a run counts, and how many it uncounts.
  function Joined(s: State, more: seq<Step>, ip: Ip): nat
  {
    if more == [] then 0
    else
      var n := |more| - 1;
      Joined(s, more[..n], ip) + One(Joins(Exec(s, more[..n]), more[n], ip))
  }

  function Left(s: State, more: seq<Step>, ip: Ip): nat
  {
    if more == [] then 0
    else
      var n := |more| - 1;
      Left(s, more[..n], ip) + One(Leaves(Exec(s, more[..n]), more[n], ip))
  }

  lemma {:induction false} StepMoves(s: State, step: Step, ip: Ip)
    requires Conserved(s) && s.maxPerIp != 0
    ensures CountFor(Apply(s, step).counts, ip)
         == CountFor(s.counts, ip) + One(Joins(s, step, ip)) - One(Leaves(s, step, ip))
  {
    hide Holders;
    if Enabled(s, step) {
      StepConserves(s, step);
      StepTally(s, step, IsCounted(ip));
    }
  }

  lemma {:induction false} RunMoves(s: State, more: seq<Step>, ip: Ip)
    requires Conserved(s) && s.maxPerIp != 0
    ensures CountFor(Exec(s, more).counts, ip) == CountFor(s.counts, ip) + Joined(s, more, ip) - Left(s, more, ip)
  {
    hide Conserved, CountFor, Joins, Leaves, Apply;
    if more != [] {
      var n := |more| - 1;
      RunMoves(s, more[..n], ip);
      ExecConserves(s, more[..n]);
      StepMoves(Exec(s, more[..n]), more[n], ip);
    }
  }

  // When the next shed may come. From any reachable state in which a
  // connection could shed, along every interleaving that follows: a live
  // connection of the address can shed exactly when as many newcomers have
  // been counted there since as connections have been uncounted.
  lemma {:induction false} NextShedExactly(cap: nat, maxPerIp: nat, steps: seq<Step>, more: seq<Step>,
                                           id: nat, other: nat)
    requires Enabled(Exec(Initial(cap, maxPerIp), steps), Shed(id))
    requires var s := Exec(Initial(cap, maxPerIp), steps);
             At(Exec(s, more), other, Live) && Exec(s, more).conns[other].ip == s.conns[id].ip
    ensures var s := Exec(Initial(cap, maxPerIp), steps);
            var ip := s.conns[id].ip;
            && Left(s, more, ip) >= Joined(s, more, ip)
            && (Enabled(Exec(s, more), Shed(other)) <==> Joined(s, more, ip) == Left(s, more, ip))
  {
    hide Exec, Initial, Joined, Left;
    var s := Exec(Initial(cap, maxPerIp), steps);
    ShedAtCeiling(cap, maxPerIp, steps, id);
    RunConserves(cap, maxPerIp, steps);
    ExecConserves(s, more);
    RunMoves(s, more, s.conns[id].ip);
  }

  // One at a time holds while a release is not made good: once some
  // connection of the address has been uncounted and none counted since,
  // whatever else is interleaved, nobody there can shed.
  lemma {:induction false} ReleasedBeforeNext(cap: nat, maxPerIp: nat, steps: seq<Step>, more: seq<Step>,
                                              id: nat, other: nat)
    requires Enabled(Exec(Initial(cap, maxPerIp), steps), Shed(id))
    requires var s := Exec(Initial(cap, maxPerIp), steps);
             && (other in Exec(s, more).conns ==> Exec(s, more).conns[other].ip == s.conns[id].ip)
             && Left(s, more, s.conns[id].ip) > Joined(s, more, s.conns[id].ip) == 0
    ensures !Enabled(Exec(Exec(Initial(cap, maxPerIp), steps), more), Shed(other))
  {
    hide Exec, Initial, Joined, Left;
    var s := Exec(Initial(cap, maxPerIp), steps);
    if At(Exec(s, more), other, Live) {
      NextShedExactly(cap, maxPerIp, steps, more, id, other);
    }
  }

  // ---- Whether sheds overlap ----

  function Sheds(n: nat): seq<Step>
  {
    if n == 0 then [] else Sheds(n - 1) + [Shed(n - 1)]
  }

  lemma {:induction false} ShedsKeep(s: State, n: nat, ip: Ip, k: nat, workers: nat)
    requires n <= k && AddressFull(s.maxPerIp, s.counts, ip)
    requires forall id :: 0 <= id < k ==> id in s.conns && s.conns[id] == Conn(ip, Live)
    requires |Holders(s.conns, Busy())| + n <= workers && |Holders(s.conns, Accepting())| == 0
    ensures var s' := Exec(s, Sheds(n));
            && s'.counts == s.counts && s'.maxPerIp == s.maxPerIp
            && (forall id :: 0 <= id < k ==>
                  id in s'.conns && s'.conns[id] == Conn(ip, if id < n then Ending else Live))
            && Within(s, Sheds(n), workers)
            && |Holders(s'.conns, Busy())| == |Holders(s.conns, Busy())| + n
            && |Holders(s'.conns, Accepting())| == 0
  {
    hide Exec, Within, Holders;
    if n == 0 {
      ExecNone(s);
      WithinNone(s, workers);
    } else {
      ShedsKeep(s, n - 1, ip, k, workers);
      var before := Exec(s, Sheds(n - 1));
      ExecNext(s, Sheds(n - 1), Shed(n - 1));
      StepTally(before, Shed(n - 1), Busy());
      StepTally(before, Shed(n - 1), Accepting());
      WithinNext(s, Sheds(n - 1), Shed(n - 1), workers);
    }
  }

  // As many connections of one address as there are workers can decide to
  // shed before the first of them releases its slot: a run from the start.
  lemma {:induction false} ShedsTogether(cap: nat, maxPerIp: nat, workers: nat, n: nat, ip: Ip)
    requires 1 <= n <= workers && n <= maxPerIp <= cap
    ensures var s := Exec(Initial(cap, maxPerIp), Stack(0, maxPerIp, Always(ip)) + Sheds(n));
            forall id :: 0 <= id < n ==> id in s.conns && s.conns[id] == Conn(ip, Ending)
    ensures forall k :: 0 <= k < n ==>
              Enabled(Exec(Initial(cap, maxPerIp), Stack(0, maxPerIp, Always(ip)) + Sheds(k)), Shed(k))
    ensures Within(Initial(cap, maxPerIp), Stack(0, maxPerIp, Always(ip)) + Sheds(n), workers)
  {
    hide Exec, Initial, Within, Holders, Roomy, Tallied, Stack, Sheds;
    var init, crowd := Initial(cap, maxPerIp), Stack(0, maxPerIp, Always(ip));
    RoomyAlways(maxPerIp, ip, maxPerIp);
    StackEffect(cap, maxPerIp, 0, maxPerIp, Always(ip), workers);
    StackedBusy(0, maxPerIp, Always(ip));
    forall k | 0 <= k <= n
      ensures k < n ==> Enabled(Exec(init, crowd + Sheds(k)), Shed(k))
      ensures k == n ==> Within(init, crowd + Sheds(k), workers)
      ensures forall id :: 0 <= id < k ==> id in Exec(init, crowd + Sheds(k)).conns
                                           && Exec(init, crowd + Sheds(k)).conns[id] == Conn(ip, Ending)
    {
      ExecConcat(init, crowd, Sheds(k));
      ShedsKeep(Exec(init, crowd), k, ip, maxPerIp, workers);
      WithinConcat(init, crowd, Sheds(k), workers);
    }
  }

  // On so many workers: id sheds, and before its slot is released another
  // connection of the same address sheds too.
  ghost predicate Overlap(cap: nat, maxPerIp: nat, workers: nat, steps: seq<Step>, id: nat, more: seq<Step>,
                          other: nat)
  {
    var s := Exec(Initial(cap, maxPerIp), steps);
    && Within(Initial(cap, maxPerIp), steps, workers)
    && Enabled(s, Shed(id)) && other != id
    && var s1 := Apply(s, Shed(id));
       && Within(s1, more, workers) && Unreleased(s1, more, id)
       && Enabled(Exec(s1, more), Shed(other)) && Exec(s1, more).conns[other].ip == s.conns[id].ip
       && Fits(Apply(Exec(s1, more), Shed(other)), workers)
  }

  // id's slot is still held after every step of `more`.
  ghost predicate Unreleased(s: State, more: seq<Step>, id: nat)
  {
    forall k :: 0 <= k <= |more| ==> id in Exec(s, more[..k]).conns
  }

  predicate EndingSlot(conns: Conns, id: nat, ip: Ip)
  {
    id in conns && conns[id].ip == ip && conns[id].phase in {Ending, GaugeDown, PermitBack}
  }

  lemma {:induction false} StepStaysCounted(s: State, step: Step, id: nat, ip: Ip)
    requires EndingSlot(s.conns, id, ip) && id in Apply(s, step).conns
    ensures EndingSlot(Apply(s, step).conns, id, ip)
  {
  }

  // A slot that is ending keeps its address and stays counted until released.
  lemma {:induction false} StaysCounted(s: State, more: seq<Step>, id: nat, ip: Ip)
    requires EndingSlot(s.conns, id, ip) && Unreleased(s, more, id)
    ensures EndingSlot(Exec(s, more).conns, id, ip)
  {
    hide Apply, EndingSlot;
    if more != [] {
      var n := |more| - 1;
      assert forall k :: 0 <= k <= n ==> more[..n][..k] == more[..k];
      StaysCounted(s, more[..n], id, ip);
      assert more[..|more|] == more;
      StepStaysCounted(Exec(s, more[..n]), more[n], id, ip);
    }
  }

  lemma {:induction false} TwoCounted(s: State, a: nat, b: nat, ip: Ip)
    requires Conserved(s) && s.maxPerIp != 0 && a != b && a in s.conns && b in s.conns
    requires IsCounted(ip)(s.conns[a]) && IsCounted(ip)(s.conns[b])
    ensures s.maxPerIp >= 2
  {
    var both := {a, b};
    assert both <= Holders(s.conns, IsCounted(ip));
    SubsetSize(both, Holders(s.conns, IsCounted(ip)));
    assert |both| == 2;
  }

  lemma {:induction false} CountedAll(s: State, ip: Ip)
    requires Conserved(s) && s.maxPerIp != 0
    ensures CountFor(s.counts, ip) <= CountedIn(s)
  {
    SubsetSize(Holders(s.conns, IsCounted(ip)), Holders(s.conns, (c: Conn) => c.phase != Permitted));
  }

  lemma {:induction false} TwoBusy(s: State, a: nat, b: nat, workers: nat)
    requires Fits(s, workers) && a != b && a in s.conns && b in s.conns
    requires s.conns[a].phase != Live && s.conns[b].phase != Live
    ensures workers >= 2
  {
    var both := {a, b};
    SubsetSize(both, Holders(s.conns, Busy()));
    assert |both| == 2;
  }

  // Shedding counts nobody in or out.
  lemma {:induction false} ShedCountsNone(s: State, id: nat)
    requires Enabled(s, Shed(id))
    ensures CountedIn(Apply(s, Shed(id))) == CountedIn(s)
  {
    StepTally(s, Shed(id), (c: Conn) => c.phase != Permitted);
  }

  lemma {:induction false} OverlapNeeds(cap: nat, maxPerIp: nat, workers: nat, steps: seq<Step>, id: nat,
                                        more: seq<Step>, other: nat)
    requires Overlap(cap, maxPerIp, workers, steps, id, more, other)
    ensures cap >= 1 && maxPerIp >= 2 && workers >= 2 && maxPerIp <= cap + workers - 1
  {
    hide Exec, Initial, Conserved, IsCounted, Unreleased, CountedIn, Within, Fits;
    var s := Exec(Initial(cap, maxPerIp), steps);
    var s1 := Apply(s, Shed(id));
    var s2 := Exec(s1, more);
    RunConserves(cap, maxPerIp, steps);
    if cap == 0 {
      NothingCounted(cap, maxPerIp, steps);
    }
    StepConserves(s, Shed(id));
    ExecConserves(s1, more);
    StaysCounted(s1, more, id, s.conns[id].ip);
    CountedIs(s.conns[id].ip);
    TwoCounted(s2, id, other, s.conns[id].ip);
    TwoBusy(Apply(s2, Shed(other)), id, other, workers);
    RunCountedWithin(cap, maxPerIp, steps, workers);
    ShedCountsNone(s, id);
    CountedWithin(s1, more, workers);
    CountedAll(s2, s.conns[id].ip);
  }

  lemma CountedIs(ip: Ip)
    ensures forall c :: IsCounted(ip)(c) <==> c.ip == ip && c.phase != Permitted
  {
  }

  // The overtaking run: the address is full with some connections between
  // their permit drops, the last live one sheds and returns its permit, the
  // first is uncounted, and the newcomer that takes its place sheds too.
  function Overtaken(maxPerIp: nat, ip: Ip): seq<Step>
    requires maxPerIp >= 2
  {
    [Lower(maxPerIp - 1), Return(maxPerIp - 1), Uncount(0)] + Open(maxPerIp, ip)
  }

  lemma {:induction false} StepStaysInside(s: State, step: Step, id: nat)
    requires id in s.conns && step != Uncount(id) && step != Refuse(id)
    ensures id in Apply(s, step).conns
  {
  }

  lemma {:induction false} StaysInside(s: State, more: seq<Step>, id: nat)
    requires id in s.conns && Uncount(id) !in more && Refuse(id) !in more
    ensures id in Exec(s, more).conns
  {
    hide Apply;
    if more != [] {
      var n := |more| - 1;
      StaysInside(s, more[..n], id);
      StepStaysInside(Exec(s, more[..n]), more[n], id);
    }
  }

  lemma {:induction false} ReturnAfterShed(s: State, id: nat, first: nat)
    requires At(s, id, Ending) && At(s, first, PermitBack) && first != id
    ensures Exec(s, [Lower(id), Return(id), Uncount(first)])
         == s.(free := s.free + 1, gauge := s.gauge - 1, counts := Dropped(s.counts, s.conns[first].ip),
               conns := s.conns[id := s.conns[id].(phase := PermitBack)] - {first})
  {
    hide Exec;
    ExecThree(s, Lower(id), Return(id), Uncount(first));
    var s1 := Apply(s, Lower(id));
    assert s1 == s.(gauge := s.gauge - 1, conns := s.conns[id := s.conns[id].(phase := GaugeDown)]);
    var s2 := Apply(s1, Return(id));
    assert s2 == s1.(free := s.free + 1, conns := s.conns[id := s.conns[id].(phase := PermitBack)]);
  }

  lemma {:induction false} ReturnWithin(s: State, id: nat, first: nat, workers: nat)
    requires At(s, id, Ending) && At(s, first, PermitBack) && first != id
    requires |Holders(s.conns, Busy())| <= workers && |Holders(s.conns, Accepting())| == 0
    ensures Within(s, [Lower(id), Return(id), Uncount(first)], workers)
    ensures var t := Exec(s, [Lower(id), Return(id), Uncount(first)]);
            |Holders(t.conns, Busy())| == |Holders(s.conns, Busy())| - 1 && |Holders(t.conns, Accepting())| == 0
  {
    hide Exec, Holders, Within;
    var s1 := Apply(s, Lower(id));
    var s2 := Apply(s1, Return(id));
    StepTally(s, Lower(id), Busy());
    StepTally(s, Lower(id), Accepting());
    StepTally(s1, Return(id), Busy());
    StepTally(s1, Return(id), Accepting());
    StepTally(s2, Uncount(first), Busy());
    StepTally(s2, Uncount(first), Accepting());
    WithinThree(s, Lower(id), Return(id), Uncount(first), workers);
    ExecThree(s, Lower(id), Return(id), Uncount(first));
  }

  // Within the cap, two of a full address simply shed.
  lemma {:induction false} OverlapWithinCap(cap: nat, maxPerIp: nat, workers: nat, ip: Ip)
    requires 2 <= maxPerIp <= cap && workers >= 2
    ensures Overlap(cap, maxPerIp, workers, Stack(0, maxPerIp, Always(ip)), 0, [], 1)
  {
    hide Exec, Initial, Within, Holders, Stack, Tallied, Roomy;
    var full := Stack(0, maxPerIp, Always(ip));
    RoomyAlways(maxPerIp, ip, maxPerIp);
    StackEffect(cap, maxPerIp, 0, maxPerIp, Always(ip), workers);
    StackedBusy(0, maxPerIp, Always(ip));
    var s := Exec(Initial(cap, maxPerIp), full);
    var s1 := Apply(s, Shed(0));
    StepTally(s, Shed(0), Busy());
    StepTally(s, Shed(0), Accepting());
    StepTally(s1, Shed(1), Busy());
    StepTally(s1, Shed(1), Accepting());
    WithinNone(s1, workers);
    ExecNone(s1);
    assert Unreleased(s1, [], 0);
  }

  // Beyond the cap, the rest of the address is between its permit drops.
  lemma {:induction false} OverlapBeyondCap(cap: nat, maxPerIp: nat, workers: nat, ip: Ip)
    requires 1 <= cap < maxPerIp <= cap + workers - 1
    ensures Overlap(cap, maxPerIp, workers, Stack(maxPerIp - cap, cap, Always(ip)), maxPerIp - 1,
                    Overtaken(maxPerIp, ip), maxPerIp)
  {
    hide Exec, Initial, Within, Holders, Stack, Tallied, Roomy, Unreleased;
    var gone, id, more := maxPerIp - cap, maxPerIp - 1, Overtaken(maxPerIp, ip);
    RoomyAlways(maxPerIp, ip, maxPerIp);
    StackEffect(cap, maxPerIp, gone, cap, Always(ip), workers);
    StackedBusy(gone, cap, Always(ip));
    var s := Exec(Initial(cap, maxPerIp), Stack(gone, cap, Always(ip)));
    var s1 := Apply(s, Shed(id));
    StepTally(s, Shed(id), Busy());
    StepTally(s, Shed(id), Accepting());
    StaysUnreleased(s1, more, id);
    Overtake(s1, id, maxPerIp, ip, workers);
  }

  lemma {:induction false} StaysUnreleased(s: State, more: seq<Step>, id: nat)
    requires id in s.conns && Uncount(id) !in more && Refuse(id) !in more
    ensures Unreleased(s, more, id)
  {
    forall k | 0 <= k <= |more| ensures id in Exec(s, more[..k]).conns {
      StaysInside(s, more[..k], id);
    }
  }

  // The newcomer takes the place of the first, and the address is full again.
  lemma {:induction false} Overtake(s: State, id: nat, newcomer: nat, ip: Ip, workers: nat)
    requires At(s, id, Ending) && At(s, 0, PermitBack) && id != 0 && s.conns[0].ip == ip
    requires newcomer !in s.conns && s.maxPerIp >= 2 && CountFor(s.counts, ip) == s.maxPerIp
    requires |Holders(s.conns, Busy())| <= workers && |Holders(s.conns, Accepting())| == 0
    ensures var more := [Lower(id), Return(id), Uncount(0)] + Open(newcomer, ip);
            && Within(s, more, workers)
            && Enabled(Exec(s, more), Shed(newcomer)) && Exec(s, more).conns[newcomer].ip == ip
            && Fits(Apply(Exec(s, more), Shed(newcomer)), workers)
  {
    hide Exec, Within, Holders;
    var back := [Lower(id), Return(id), Uncount(0)];
    ReturnAfterShed(s, id, 0);
    ReturnWithin(s, id, 0, workers);
    var t := Exec(s, back);
    OpenEffect(t, newcomer, ip);
    OpenWithin(t, newcomer, ip, workers);
    ExecConcat(s, back, Open(newcomer, ip));
    WithinConcat(s, back, Open(newcomer, ip), workers);
    var u := Exec(t, Open(newcomer, ip));
    StepTally(u, Shed(newcomer), Busy());
    StepTally(u, Shed(newcomer), Accepting());
  }

  // Sheds at one address come one at a time, each only after the one before
  // has released its slot, in every run exactly when no connection is ever
  // admitted, or there is but one worker, or the ceiling is one connection or
  // none, or it is out of reach of the cap and the workers together.
  lemma {:induction false} OneAtATimeExactly(cap: nat, maxPerIp: nat, workers: nat)
    ensures (forall steps, id, more, other :: !Overlap(cap, maxPerIp, workers, steps, id, more, other))
            <==> cap == 0 || workers <= 1 || maxPerIp <= 1 || maxPerIp > cap + workers - 1
  {
    hide Overlap, Stack, Overtaken;
    if cap >= 1 && workers >= 2 && 2 <= maxPerIp <= cap + workers - 1 {
      if maxPerIp <= cap {
        OverlapWithinCap(cap, maxPerIp, workers, 0);
      } else {
        OverlapBeyondCap(cap, maxPerIp, workers, 0);
      }
    } else {
      forall steps, id, more, other ensures !Overlap(cap, maxPerIp, workers, steps, id, more, other) {
        if Overlap(cap, maxPerIp, workers, steps, id, more, other) {
          OverlapNeeds(cap, maxPerIp, workers, steps, id, more, other);
        }
      }
    }
  }

  // ---- The accept loop, in its own form ----

  datatype Admitted = Slot | RefusedGlobal | RefusedPerIp

  class Ingress {
    const cap: nat
    const perIp: Tracker
    var free: nat
    var gauge: int
    // Who holds what; the accept loop itself keeps no such table.
    ghost var conns: Conns

    ghost function Abs(): State
      reads this, perIp
    {
      State(cap, perIp.maxPerIp, free, perIp.counts, gauge, conns)
    }

    ghost predicate Valid()
      reads this, perIp
    {
      perIp.Valid() && Conserved(Abs())
    }

    constructor (cap: nat, maxPerIp: nat)
      ensures Valid() && fresh(perIp) && Abs() == Initial(cap, maxPerIp)
    {
      this.cap, this.free, this.gauge, this.conns := cap, cap, 0, map[];
      this.perIp := new Tracker(maxPerIp);
      new;
      RunConserves(cap, maxPerIp, []);
    }

    // One turn of the accept loop. A refusal of either kind changes nothing.
    method Accept(ghost id: nat, ip: Ip) returns (r: Admitted)
      requires Valid() && id !in conns
      modifies this, perIp
      ensures Valid()
      ensures r == RefusedGlobal <==> old(free) == 0
      ensures r == RefusedPerIp <==> old(free) > 0 && !Admits(perIp.maxPerIp, old(perIp.counts), ip)
      ensures r != Slot ==> Abs() == old(Abs())
      ensures r == Slot ==>
                Abs() == Apply(Apply(Apply(old(Abs()), Take(id, ip)), Count(id)), Raise(id)) && At(Abs(), id, Live)
    {
      hide Conserved;
      if free == 0 {
        return RefusedGlobal;
      }
      ghost var s := Abs();
      ghost var s1 := Apply(s, Take(id, ip));
      StepConserves(s, Take(id, ip));
      free := free - 1;
      var counted := perIp.TryAccept(ip);
      if !counted {
        free := free + 1;
        return RefusedPerIp;
      }
      ghost var s2 := Apply(s1, Count(id));
      StepConserves(s1, Count(id));
      StepConserves(s2, Raise(id));
      gauge := gauge + 1;
      conns := Apply(s2, Raise(id)).conns;
      return Slot;
    }

    // A slot drops: gauge, permit and per-IP count, in that order.
    method Drop(ghost id: nat, ip: Ip)
      requires Valid() && At(Abs(), id, Live) && conns[id].ip == ip
      modifies this, perIp
      ensures Valid() && id !in conns
      ensures Abs() == Apply(Apply(Apply(Apply(old(Abs()), Close(id)), Lower(id)), Return(id)), Uncount(id))
    {
      hide Conserved;
      ghost var s := Abs();
      ghost var s1 := Apply(s, Close(id));
      ghost var s2 := Apply(s1, Lower(id));
      ghost var s3 := Apply(s2, Return(id));
      StepConserves(s, Close(id));
      StepConserves(s1, Lower(id));
      StepConserves(s2, Return(id));
      StepConserves(s3, Uncount(id));
      gauge := gauge - 1;
      free := free + 1;
      perIp.Release(ip);
      conns := Apply(s3, Uncount(id)).conns;
    }
  }
}
