/** AcquireLease, run by any number of processes against one Lease object that is never
    deleted. Every API call is a separate step, so other processes and the clock move
    between any two of them. Reads may return any older version, a write may be applied
    and still be reported as failed, and Update succeeds only on the newest version, which
    stays the newest if nothing in it changes. */
module Lease {
  import opened GoInt

  type Identity = string

  /** Nanoseconds on the one clock all processes read. */
  type Time = int

  const LEASE_SECONDS := 1
  const SECOND: Time := 1_000_000_000
  const MICROSECOND: Time := 1_000

  /** A MicroTime as the API stores it: NowMicro keeps the clock's nanoseconds, the
      serialised form does not. */
  function Stored(t: Time): Time {
    t - t % MICROSECOND
  }

  datatype LeaseSpec = LeaseSpec(
    holder: Option<Identity>, durationSeconds: Option<int>, acquireTime: Option<Time>, renewTime: Option<Time>)

  /** The spec that getLease and the takeover both write. */
  function NewSpec(me: Identity, now: Time): LeaseSpec {
    LeaseSpec(Some(me), Some(LEASE_SECONDS), Some(now), Some(now))
  }

  function StoredSpec(l: LeaseSpec): LeaseSpec {
    l.(acquireTime := if l.acquireTime == None then None else Some(Stored(l.acquireTime.value)),
       renewTime := if l.renewTime == None then None else Some(Stored(l.renewTime.value)))
  }

  datatype Decision = NilHolder | NilDuration | HeldByOther | Take(spec: LeaseSpec)

  /** The branch AcquireLease takes on the lease it read, at time `now`. NilDuration is
      the nil pointer dereference of LeaseDurationSeconds. */
  function Decide(read: LeaseSpec, me: Identity, now: Time): Decision {
    if read.holder == None then NilHolder
    else if read.holder.value != me && read.renewTime != None then
      if read.durationSeconds == None then NilDuration
      else if !(read.renewTime.value + read.durationSeconds.value * SECOND < now) then HeldByOther
      else Take(NewSpec(me, now))
    else Take(NewSpec(me, now))
  }

  datatype Outcome = Acquired(version: nat) | Failed

  datatype Pc =
    | Idle
    | Creating(spec: LeaseSpec)
    | Rereading
    | Deciding(seen: nat)
    | Updating(seen: nat, spec: LeaseSpec)
    | Done(outcome: Outcome)

  datatype Process = Process(me: Identity, pc: Pc)

  /** One version of the object. `decidedAt` is not stored: it is the clock its writer read. */
  datatype Version = Version(lease: LeaseSpec, decidedAt: Time)

  /** `versions` is every version the object has had; the index is its resourceVersion. */
  datatype State = State(clock: Time, versions: seq<Version>, processes: seq<Process>)

  datatype Action =
    | Tick(until: Time)
    | FirstGet(p: nat, view: Option<nat>)
    | Create(p: nat, reported: bool)
    | Reread(p: nat, version: nat)
    | CheckExpiry(p: nat)
    | Update(p: nat, reported: bool)
    | CallFails(p: nat)
    | CallAgain(p: nat)

  predicate Init(s: State) {
    s.versions == [] && forall q <- s.processes :: q.pc == Idle
  }

  predicate Enabled(s: State, a: Action) {
    match a
    case Tick(until) => s.clock <= until
    case FirstGet(p, view) =>
      p < |s.processes| && s.processes[p].pc.Idle? && (view == None || view.value < |s.versions|)
    case Create(p, _) =>
      p < |s.processes| && s.processes[p].pc.Creating? && s.processes[p].pc.spec.renewTime != None
    case Reread(p, view) => p < |s.processes| && s.processes[p].pc.Rereading? && view < |s.versions|
    case CheckExpiry(p) => p < |s.processes| && s.processes[p].pc.Deciding? && s.processes[p].pc.seen < |s.versions|
    case Update(p, _) =>
      p < |s.processes| && s.processes[p].pc.Updating? && s.processes[p].pc.spec.renewTime != None
    case CallFails(p) => p < |s.processes| && !s.processes[p].pc.Done?
    case CallAgain(p) => p < |s.processes| && s.processes[p].pc.Done?
  }

  /** What a write of `spec`, as NewSpec made it, leaves in the object. */
  function Written(spec: LeaseSpec): Version
    requires spec.renewTime != None
  {
    Version(StoredSpec(spec), spec.renewTime.value)
  }

  function Goto(s: State, p: nat, pc: Pc): State
    requires p < |s.processes|
  {
    s.(processes := s.processes[p := s.processes[p].(pc := pc)])
  }

  function Step(s: State, a: Action): State
    requires Enabled(s, a)
  {
    match a
    case Tick(until) => s.(clock := until)
    case FirstGet(p, view) =>
      if view == None then Goto(s, p, Creating(NewSpec(s.processes[p].me, s.clock))) else Goto(s, p, Rereading)
    case Create(p, reported) =>
      if s.versions != [] then Goto(s, p, Done(Failed))
      else Goto(s.(versions := [Written(s.processes[p].pc.spec)]), p, if reported then Rereading else Done(Failed))
    case Reread(p, view) => Goto(s, p, Deciding(view))
    case CheckExpiry(p) =>
      var seen := s.processes[p].pc.seen;
      (match Decide(s.versions[seen].lease, s.processes[p].me, s.clock)
       case Take(spec) => Goto(s, p, Updating(seen, spec))
       case _ => Goto(s, p, Done(Failed)))
    case Update(p, reported) =>
      var pc := s.processes[p].pc;
      if pc.seen + 1 != |s.versions| then Goto(s, p, Done(Failed))
      else if s.versions[pc.seen].lease == StoredSpec(pc.spec) then
        // The API server leaves the object and its resourceVersion alone.
        Goto(s, p, Done(if reported then Acquired(pc.seen) else Failed))
      else
        var outcome := if reported then Acquired(|s.versions|) else Failed;
        Goto(s.(versions := s.versions + [Written(pc.spec)]), p, Done(outcome))
    case CallFails(p) => Goto(s, p, Done(Failed))
    case CallAgain(p) => Goto(s, p, Idle)
  }

  /** A run: each state follows from the one before by some enabled action. */
  ghost predicate Run(run: seq<State>) {
    && run != []
    && Init(run[0])
    && forall i :: 0 <= i < |run| - 1 ==> Next(run[i], run[i + 1])
  }

  ghost predicate Next(s: State, t: State) {
    exists a :: Takes(s, a, t)
  }

  predicate Takes(s: State, a: Action, t: State) {
    Enabled(s, a) && t == Step(s, a)
  }

  // ----- What every step keeps

  /** A version AcquireLease wrote. */
  predicate Complete(v: Version) {
    && v.lease.holder != None
    && v.lease.durationSeconds == Some(LEASE_SECONDS)
    && v.lease.renewTime == Some(Stored(v.decidedAt))
  }

  function Renewed(v: Version): Time
    requires Complete(v)
  {
    v.lease.renewTime.value
  }

  function Expires(v: Version): Time
    requires Complete(v)
  {
    v.lease.renewTime.value + LEASE_SECONDS * SECOND
  }

  /** `next` may follow `v`: the writers' clocks do not go back, and another holder only
      decides after the lease ran out. */
  predicate Follows(v: Version, next: Version)
    requires Complete(v) && Complete(next)
  {
    v.decidedAt <= next.decidedAt && (v.lease.holder != next.lease.holder ==> Expires(v) < next.decidedAt)
  }

  predicate HistoryOk(versions: seq<Version>, clock: Time) {
    && (forall v <- versions :: Complete(v) && v.decidedAt <= clock)
    && (forall i :: 0 <= i < |versions| - 1 ==> Follows(versions[i], versions[i + 1]))
  }

  /** A write that process `me` is about to make. */
  predicate PendingOk(spec: LeaseSpec, me: Identity, clock: Time) {
    spec.renewTime != None && spec.renewTime.value <= clock && Complete(Written(spec)) && spec.holder == Some(me)
  }

  predicate ProcessOk(q: Process, versions: seq<Version>, clock: Time)
    requires HistoryOk(versions, clock)
  {
    match q.pc
    case Creating(spec) => PendingOk(spec, q.me, clock)
    case Deciding(seen) => seen < |versions|
    case Updating(seen, spec) =>
      && seen < |versions|
      && PendingOk(spec, q.me, clock)
      && Follows(versions[seen], Written(spec))
    case Done(Acquired(v)) => v < |versions| && versions[v].lease.holder == Some(q.me)
    case _ => true
  }

  predicate Inv(s: State) {
    HistoryOk(s.versions, s.clock) && forall q <- s.processes :: ProcessOk(q, s.versions, s.clock)
  }

  lemma ProcessStays(q: Process, versions: seq<Version>, versions': seq<Version>, clock: Time, clock': Time)
    requires HistoryOk(versions, clock) && HistoryOk(versions', clock')
    requires versions <= versions' && clock <= clock' && ProcessOk(q, versions, clock)
    ensures ProcessOk(q, versions', clock')
  {
  }

  lemma HistoryGrows(versions: seq<Version>, clock: Time, v: Version)
    requires HistoryOk(versions, clock)
    requires Complete(v) && v.decidedAt <= clock
    requires versions != [] ==> Follows(versions[|versions| - 1], v)
    ensures HistoryOk(versions + [v], clock)
  {
  }

  lemma InvStep(s: State, a: Action)
    requires Inv(s) && Enabled(s, a)
    ensures Inv(Step(s, a)) && s.versions <= Step(s, a).versions && s.clock <= Step(s, a).clock
  {
    hide Stored;
    var t := Step(s, a);
    assert HistoryOk(t.versions, t.clock) by {
      match a {
        case Create(p, _) =>
          assert ProcessOk(s.processes[p], s.versions, s.clock);
          if s.versions == [] { HistoryGrows([], s.clock, Written(s.processes[p].pc.spec)); }
        case Update(p, _) =>
          var pc := s.processes[p].pc;
          assert ProcessOk(s.processes[p], s.versions, s.clock);
          if t.versions != s.versions { HistoryGrows(s.versions, s.clock, Written(pc.spec)); }
        case _ =>
      }
    }
    forall i | 0 <= i < |t.processes|
      ensures ProcessOk(t.processes[i], t.versions, t.clock)
    {
      assert ProcessOk(s.processes[i], s.versions, s.clock);
      if t.processes[i] == s.processes[i] {
        ProcessStays(s.processes[i], s.versions, t.versions, s.clock, t.clock);
      }
    }
  }

  lemma {:induction false} InvRun(run: seq<State>, i: nat)
    requires Run(run) && i < |run|
    ensures Inv(run[i])
  {
    if i > 0 {
      InvRun(run, i - 1);
      assert Next(run[i - 1], run[i - 1 + 1]);
      var a :| Takes(run[i - 1], a, run[i]);
      InvStep(run[i - 1], a);
    }
  }

  // ----- Results over whole runs

  /** The object's history is append-only and time moves forward. */
  lemma {:induction false} HistoryPrefix(run: seq<State>, i: nat, j: nat)
    requires Run(run) && i <= j < |run|
    ensures run[i].versions <= run[j].versions && run[i].clock <= run[j].clock
  {
    if i < j {
      HistoryPrefix(run, i, j - 1);
      InvRun(run, j - 1);
      assert Next(run[j - 1], run[j - 1 + 1]);
      var a :| Takes(run[j - 1], a, run[j]);
      InvStep(run[j - 1], a);
    }
  }

  /** Storing is monotone, and a stored time is past a whole microsecond m exactly when the
      clock was a full microsecond past it. */
  lemma StoredOrder(t: Time, u: Time, m: Time)
    requires m % MICROSECOND == 0
    ensures t <= u ==> Stored(t) <= Stored(u)
    ensures m <= t <==> m <= Stored(t)
    ensures m < Stored(t) <==> m + MICROSECOND <= t
  {
  }

  /** In every history: the writers' clocks never go back, and a later version with another
      holder was decided after every earlier one had run out. */
  lemma {:induction false} Ordered(versions: seq<Version>, clock: Time, i: nat, j: nat)
    requires HistoryOk(versions, clock) && i < j < |versions|
    ensures versions[i].decidedAt <= versions[j].decidedAt
    ensures versions[i].lease.holder != versions[j].lease.holder ==> Expires(versions[i]) < versions[j].decidedAt
    decreases j - i
  {
    assert Follows(versions[j - 1], versions[j]);
    if i < j - 1 {
      Ordered(versions, clock, i, j - 1);
      StoredOrder(versions[i].decidedAt, versions[j - 1].decidedAt, 0);
    }
  }

  /** Recorded renew times never decrease. A later version with another holder was renewed
      no earlier than the instant at which the earlier one ran out, and strictly later
      exactly when its writer's clock was at least a microsecond past that instant. */
  lemma LeaseOrder(run: seq<State>, n: nat, i: nat, j: nat)
    requires Run(run) && n < |run| && i < j < |run[n].versions|
    ensures var vs := run[n].versions;
            && Complete(vs[i]) && Complete(vs[j])
            && Renewed(vs[i]) <= Renewed(vs[j])
            && (vs[i].lease.holder != vs[j].lease.holder ==>
                  && Expires(vs[i]) < vs[j].decidedAt
                  && Expires(vs[i]) <= Renewed(vs[j])
                  && (Expires(vs[i]) < Renewed(vs[j]) <==> Expires(vs[i]) + MICROSECOND <= vs[j].decidedAt))
  {
    InvRun(run, n);
    var vs := run[n].versions;
    Ordered(vs, run[n].clock, i, j);
    assert vs[i] in vs && vs[j] in vs;
    WholeMicroseconds(vs[i]);
    StoredOrder(vs[i].decidedAt, vs[j].decidedAt, Expires(vs[i]));
    StoredOrder(vs[j].decidedAt, vs[j].decidedAt, Expires(vs[i]));
  }

  lemma WholeMicroseconds(v: Version)
    requires Complete(v)
    ensures Expires(v) % MICROSECOND == 0
  {
  }

  /** Mutual exclusion: an instant that lies in the lease intervals of two different
      holders, whichever versions of the history they come from, is the one instant at
      which the earlier ends and the later begins. Half-open intervals never overlap. */
  lemma NoOverlap(run: seq<State>, n: nat, i: nat, j: nat, t: Time)
    requires Run(run) && n < |run| && i < j < |run[n].versions|
    requires Complete(run[n].versions[i]) && Complete(run[n].versions[j])
    requires Renewed(run[n].versions[i]) <= t <= Expires(run[n].versions[i])
    requires Renewed(run[n].versions[j]) <= t <= Expires(run[n].versions[j])
    requires run[n].versions[i].lease.holder != run[n].versions[j].lease.holder
    ensures t == Expires(run[n].versions[i]) == Renewed(run[n].versions[j])
    ensures run[n].versions[j].decidedAt < Expires(run[n].versions[i]) + MICROSECOND
  {
    LeaseOrder(run, n, i, j);
  }

  /** The last call of process p returned no error, and the lease it recorded has not run out. */
  predicate HoldsLease(s: State, p: nat)
    requires p < |s.processes|
  {
    match s.processes[p].pc
    case Done(Acquired(v)) => v < |s.versions| && Complete(s.versions[v]) && s.clock <= Expires(s.versions[v])
    case _ => false
  }

  /** At any moment of any run, to the nanosecond, all processes that hold the lease have
      one identity: a taker always decides after the instant at which the lease ran out. */
  lemma OneHolder(run: seq<State>, n: nat, p: nat, q: nat)
    requires Run(run) && n < |run| && p < |run[n].processes| && q < |run[n].processes|
    requires HoldsLease(run[n], p) && HoldsLease(run[n], q)
    ensures run[n].processes[p].me == run[n].processes[q].me
  {
    InvRun(run, n);
    var s := run[n];
    assert ProcessOk(s.processes[p], s.versions, s.clock) && ProcessOk(s.processes[q], s.versions, s.clock);
    var v, w := s.processes[p].pc.outcome.version, s.processes[q].pc.outcome.version;
    assert s.versions[v] in s.versions && s.versions[w] in s.versions;
    if v < w {
      LeaseOrder(run, n, v, w);
    } else if w < v {
      LeaseOrder(run, n, w, v);
    }
  }

  /** On an object that only AcquireLease writes, whatever version is read, the nil-holder
      error and the nil dereference are never reached. */
  lemma NeverNil(run: seq<State>, n: nat, v: nat, me: Identity, now: Time)
    requires Run(run) && n < |run| && v < |run[n].versions|
    ensures var d := Decide(run[n].versions[v].lease, me, now); d.HeldByOther? || d.Take?
  {
    InvRun(run, n);
    assert run[n].versions[v] in run[n].versions;
  }

  // ----- When AcquireLease succeeds

  /** Whatever version of a run's history is read: it may be taken exactly by its holder, or by
      anyone once a second has passed since it was renewed; what is then written is a lease of
      one second from now. */
  lemma TakeIff(run: seq<State>, n: nat, v: nat, me: Identity, now: Time)
    requires Run(run) && n < |run| && v < |run[n].versions|
    ensures var version, d := run[n].versions[v], Decide(run[n].versions[v].lease, me, now);
            && Complete(version) && Expires(version) == Renewed(version) + 1_000_000_000
            && (d.Take? <==> version.lease.holder == Some(me) || Expires(version) < now)
            && (d.Take? ==> d.spec == LeaseSpec(Some(me), Some(1), Some(now), Some(now)))
            && (!d.Take? ==> d == HeldByOther)
  {
    InvRun(run, n);
    assert run[n].versions[v] in run[n].versions;
  }

  /** Process p stays where it is, whatever the others do. */
  ghost predicate Waits(run: seq<State>, p: nat, from: nat, to: nat) {
    && from <= to < |run|
    && forall j :: from <= j <= to ==>
         && p < |run[j].processes| && p < |run[from].processes|
         && run[j].processes[p] == run[from].processes[p]
  }

  /** A process rereads the newest version at h, checks it at i and updates at k, with other
      processes' steps in between that write nothing. */
  ghost predicate Attempt(run: seq<State>, p: nat, h: nat, i: nat, k: nat) {
    && h < i < k < |run| - 1
    && run[h].versions != []
    && Takes(run[h], Reread(p, |run[h].versions| - 1), run[h + 1]) && Waits(run, p, h + 1, i)
    && Takes(run[i], CheckExpiry(p), run[i + 1])
    && run[i].versions == run[h].versions
  }

  /** The check passes exactly if the newest version is the process's own or has run out. An
      update that is reported, with no other write in between, then ends the call without an
      error, and the newest version is a lease of the process from the time it checked. */
  lemma Acquires(run: seq<State>, p: nat, h: nat, i: nat, k: nat)
    requires Run(run) && Attempt(run, p, h, i, k)
    ensures p < |run[i].processes| && p < |run[i + 1].processes|
    ensures run[i].versions[|run[i].versions| - 1].lease.renewTime != None
    ensures var newest, me, now := run[i].versions[|run[i].versions| - 1], run[i].processes[p].me, run[i].clock;
            var free := newest.lease.holder == Some(me) || newest.lease.renewTime.value + 1_000_000_000 < now;
            && (free ==> run[i + 1].processes[p].pc.Updating?)
            && (!free ==> run[i + 1].processes[p].pc == Done(Failed))
            && (Waits(run, p, i + 1, k) && run[k].versions == run[h].versions
                && Takes(run[k], Update(p, true), run[k + 1])
                ==> var s := run[k + 1];
                    && free && p < |s.processes| && s.versions != []
                    && s.processes[p] == Process(me, Done(Acquired(|s.versions| - 1)))
                    && s.versions[|s.versions| - 1].lease
                       == LeaseSpec(Some(me), Some(1), Some(Stored(now)), Some(Stored(now))))
  {
    hide Run, Stored;
    var seen := |run[h].versions| - 1;
    assert run[i].processes[p] == run[h + 1].processes[p];
    assert run[i].processes[p].pc == Deciding(seen);
    TakeIff(run, i, seen, run[i].processes[p].me, run[i].clock);
    if Waits(run, p, i + 1, k) && run[k].versions == run[h].versions && Takes(run[k], Update(p, true), run[k + 1]) {
      assert run[k].processes[p] == run[i + 1].processes[p];
    }
  }

  /** A write that comes too late - a Create of an object that exists, an Update of a version
      that is not the newest - changes nothing and fails the call. */
  lemma LateWrites(s: State, p: nat, reported: bool)
    requires p < |s.processes|
    ensures var failed := s.(processes := s.processes[p := Process(s.processes[p].me, Done(Failed))]);
            && (Enabled(s, Create(p, reported)) && s.versions != [] ==> Step(s, Create(p, reported)) == failed)
            && (Enabled(s, Update(p, reported)) && s.processes[p].pc.seen != |s.versions| - 1 ==>
                  Step(s, Update(p, reported)) == failed)
  {
  }

  // ----- Concrete runs

  lemma Extend(run: seq<State>, a: Action) returns (longer: seq<State>)
    requires Run(run) && Enabled(run[|run| - 1], a)
    ensures longer == run + [Step(run[|run| - 1], a)] && Run(longer)
  {
    longer := run + [Step(run[|run| - 1], a)];
    forall i | 0 <= i < |longer| - 1
      ensures Next(longer[i], longer[i + 1])
    {
      if i < |run| - 1 {
        assert Next(run[i], run[i + 1]);
      } else {
        assert Takes(longer[i], a, longer[i + 1]);
      }
    }
  }

  lemma FirstLease() returns (run: seq<State>)
    ensures Run(run)
    ensures run[|run| - 1]
         == State(0, [Version(NewSpec("a", 0), 0)], [Process("a", Rereading), Process("b", Idle)])
  {
    run := [State(0, [], [Process("a", Idle), Process("b", Idle)])];
    run := Extend(run, FirstGet(0, None));
    run := Extend(run, Create(0, true));
  }

  /** The first call, on no object: "a" creates the lease, reads it back and has it. */
  lemma FirstAcquired() returns (run: seq<State>)
    ensures Run(run)
    ensures var s := run[|run| - 1];
            && |s.processes| == 2 && s.processes[0] == Process("a", Done(Acquired(0))) && |s.versions| == 1
            && s.versions[0].lease == LeaseSpec(Some("a"), Some(1), Some(0), Some(0))
  {
    hide Run;
    run := FirstLease();
    run := Extend(run, Reread(0, 0));
    run := Extend(run, CheckExpiry(0));
    run := Extend(run, Update(0, true));
  }

  /** "b" decides 500 ns after the lease of "a" ran out. The renew time it records is the
      very instant at which that lease ended. */
  lemma SharedInstant() returns (run: seq<State>)
    ensures Run(run)
    ensures var vs := run[|run| - 1].versions;
            && |vs| == 2 && Complete(vs[0]) && Complete(vs[1])
            && vs[0].lease.holder == Some("a") && vs[1].lease.holder == Some("b")
            && Expires(vs[0]) == Renewed(vs[1]) && vs[1].decidedAt == Expires(vs[0]) + 500
  {
    hide Run;
    var end := LEASE_SECONDS * SECOND;
    run := FirstLease();
    run := Extend(run, Tick(end + 500));
    run := Extend(run, FirstGet(1, Some(0)));
    run := Extend(run, Reread(1, 0));
    run := Extend(run, CheckExpiry(1));
    run := Extend(run, Update(1, true));
  }
}
