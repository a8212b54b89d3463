/** The watcher manager: a weighted semaphore beside a map of live watchers. Goroutines and
    Add calls are threads whose every access to the map, the semaphore or a watcher is one
    step, so they may interleave in any way. */
module WatcherManager {
  import opened GoInt

  /** The uuid Add allocates for a watcher. */
  type Key = nat

  datatype Thread =
    | Visiting(key: Key)                              // a goroutine of Start, before isDone
    | Reaping(todo: seq<Key>)                         // Add's loop over list()
    | Deleting(key: Key, next: Option<seq<Key>>)      // about to call watchers.del
    | Releasing(next: Option<seq<Key>>)               // about to call sem.Release
    | Inserting                                       // TryAcquire succeeded
    | Finished

  /** `held` is the semaphore's count. `excess` is not in the program: it counts the calls
      of watchers.del that found their key already gone. */
  datatype State = State(
    max: nat, held: nat, cache: set<Key>, done: set<Key>, issued: set<Key>, threads: seq<Thread>,
    crashed: bool, excess: nat)

  datatype Action =
    | Expire(key: Key)
    | BeginRound(order: seq<Key>)
    | CallAdd(order: seq<Key>)
    | Check(t: nat, keepGoing: bool)
    | Delete(t: nat)
    | Release(t: nat)
    | TryAcquire(t: nat)
    | Insert(t: nat, key: Key)

  predicate Init(s: State) {
    s == State(s.max, 0, {}, {}, {}, [], false, 0)
  }

  predicate Distinct(keys: seq<Key>) {
    forall i, j :: 0 <= i < j < |keys| ==> keys[i] != keys[j]
  }

  /** What list() may return: map iteration order is unspecified. */
  predicate Lists(order: seq<Key>, cache: set<Key>) {
    Distinct(order) && (set k <- order) == cache
  }

  predicate Quiet(threads: seq<Thread>) {
    forall t <- threads :: t == Finished
  }

  /** A goroutine of a round, rather than an Add. */
  predicate IsVisit(t: Thread) {
    t.Visiting? || (t.Deleting? && t.next == None) || (t.Releasing? && t.next == None)
  }

  /** wg.Wait: no goroutine of an earlier round is left. */
  predicate NoGoroutine(threads: seq<Thread>) {
    forall t <- threads :: !IsVisit(t)
  }

  predicate Enabled(s: State, a: Action) {
    && !s.crashed
    && match a
       case Expire(_) => true
       case BeginRound(order) => Lists(order, s.cache) && NoGoroutine(s.threads)
       case CallAdd(order) => Lists(order, s.cache)
       case Check(t, _) =>
         t < |s.threads| && (s.threads[t].Visiting? || (s.threads[t].Reaping? && s.threads[t].todo != []))
       case Delete(t) => t < |s.threads| && s.threads[t].Deleting?
       case Release(t) => t < |s.threads| && s.threads[t].Releasing?
       case TryAcquire(t) => t < |s.threads| && s.threads[t] == Reaping([])
       case Insert(t, key) => t < |s.threads| && s.threads[t].Inserting? && key !in s.issued
  }

  function Visitors(order: seq<Key>): (ts: seq<Thread>)
    ensures |ts| == |order| && forall i :: 0 <= i < |order| ==> ts[i] == Visiting(order[i])
  {
    seq(|order|, i requires 0 <= i < |order| => Visiting(order[i]))
  }

  function AfterCheck(t: Thread, done: set<Key>, keepGoing: bool): Thread
    requires t.Visiting? || (t.Reaping? && t.todo != [])
  {
    match t
    case Visiting(key) => if key in done || !keepGoing then Deleting(key, None) else Finished
    case Reaping(todo) => if todo[0] in done then Deleting(todo[0], Some(todo[1..])) else Reaping(todo[1..])
  }

  function Step(s: State, a: Action): State
    requires Enabled(s, a)
  {
    match a
    case Expire(key) => s.(done := s.done + {key})
    case BeginRound(order) => s.(threads := s.threads + Visitors(order))
    case CallAdd(order) => s.(threads := s.threads + [Reaping(order)])
    case Check(t, keepGoing) => s.(threads := s.threads[t := AfterCheck(s.threads[t], s.done, keepGoing)])
    case Delete(t) =>
      var Deleting(key, next) := s.threads[t];
      s.(cache := s.cache - {key},
         excess := s.excess + if key in s.cache then 0 else 1,
         threads := s.threads[t := Releasing(next)])
    case Release(t) =>
      var next := s.threads[t].next;
      if s.held == 0 then s.(crashed := true)
      else s.(held := s.held - 1, threads := s.threads[t := if next == None then Finished else Reaping(next.value)])
    case TryAcquire(t) =>
      if s.held < s.max then s.(held := s.held + 1, threads := s.threads[t := Inserting])
      else s.(threads := s.threads[t := Finished])
    case Insert(t, key) =>
      s.(cache := s.cache + {key}, issued := s.issued + {key}, threads := s.threads[t := Finished])
  }

  predicate Takes(s: State, a: Action, s': State) {
    Enabled(s, a) && s' == Step(s, a)
  }

  /** states[i + 1] follows states[i] by actions[i]. */
  predicate Run(states: seq<State>, actions: seq<Action>) {
    && |states| == |actions| + 1
    && Init(states[0])
    && forall i :: 0 <= i < |actions| ==> Takes(states[i], actions[i], states[i + 1])
  }

  // ----- Every interleaving: permits are conserved

  /** Threads that hold a permit for which the map has no entry (any more, or yet). */
  function Owing(threads: seq<Thread>): nat {
    if threads == [] then 0
    else Owes(threads[0]) + Owing(threads[1..])
  }

  function Owes(t: Thread): nat {
    if t.Releasing? || t.Inserting? then 1 else 0
  }

  lemma {:induction false} OwingUpdate(threads: seq<Thread>, i: nat, t: Thread)
    requires i < |threads|
    ensures Owing(threads[i := t]) == Owing(threads) - Owes(threads[i]) + Owes(t)
    ensures Owing(threads) >= Owes(threads[i])
  {
    if i == 0 {
      assert threads[0 := t][1..] == threads[1..];
    } else {
      OwingUpdate(threads[1..], i - 1, t);
      assert threads[i := t][1..] == threads[1..][i - 1 := t];
    }
  }

  lemma {:induction false} OwingAppend(threads: seq<Thread>, more: seq<Thread>)
    requires forall t <- more :: Owes(t) == 0
    ensures Owing(threads + more) == Owing(threads)
  {
    if threads != [] {
      assert (threads + more)[1..] == threads[1..] + more;
      OwingAppend(threads[1..], more);
    } else if more != [] {
      assert threads + more == more;
      OwingAppend([], more[1..]);
      assert [] + more[1..] == more[1..];
    }
  }

  predicate Conserved(s: State) {
    && s.held <= s.max
    && s.cache <= s.issued
    && s.held + s.excess == |s.cache| + Owing(s.threads)
    && (s.crashed ==> s.excess > 0)
  }

  lemma Removed(cache: set<Key>, key: Key)
    ensures |cache - {key}| == |cache| - if key in cache then 1 else 0
  {
    if key !in cache { assert cache - {key} == cache; }
  }

  lemma ConservedStep(s: State, a: Action)
    requires Conserved(s) && Enabled(s, a)
    ensures Conserved(Step(s, a))
  {
    match a
    case Expire(_) =>
    case BeginRound(order) => OwingAppend(s.threads, Visitors(order));
    case CallAdd(order) => OwingAppend(s.threads, [Reaping(order)]);
    case Check(t, _) => ConservedCheck(s, a);
    case Delete(t) => ConservedDelete(s, a);
    case Release(t) => ConservedRelease(s, a);
    case TryAcquire(t) => ConservedAcquire(s, a);
    case Insert(t, _) => ConservedInsert(s, a);
  }

  lemma ConservedCheck(s: State, a: Action)
    requires Conserved(s) && a.Check? && Enabled(s, a)
    ensures Conserved(Step(s, a))
  {
    hide Lists, Owing;
    OwingUpdate(s.threads, a.t, AfterCheck(s.threads[a.t], s.done, a.keepGoing));
  }

  lemma ConservedDelete(s: State, a: Action)
    requires Conserved(s) && a.Delete? && Enabled(s, a)
    ensures Conserved(Step(s, a))
  {
    hide Lists, Owing;
    OwingUpdate(s.threads, a.t, Releasing(s.threads[a.t].next));
    Removed(s.cache, s.threads[a.t].key);
  }

  lemma ConservedRelease(s: State, a: Action)
    requires Conserved(s) && a.Release? && Enabled(s, a)
    ensures Conserved(Step(s, a))
  {
    hide Lists, Owing;
    var next := s.threads[a.t].next;
    OwingUpdate(s.threads, a.t, if next == None then Finished else Reaping(next.value));
  }

  lemma ConservedAcquire(s: State, a: Action)
    requires Conserved(s) && a.TryAcquire? && Enabled(s, a)
    ensures Conserved(Step(s, a))
  {
    hide Lists, Owing;
    OwingUpdate(s.threads, a.t, if s.held < s.max then Inserting else Finished);
  }

  lemma ConservedInsert(s: State, a: Action)
    requires Conserved(s) && a.Insert? && Enabled(s, a)
    ensures Conserved(Step(s, a))
  {
    hide Lists, Owing;
    OwingUpdate(s.threads, a.t, Finished);
  }

  /** In every run, however goroutines and Add calls overlap: the permits held, plus the
      deletions that found nothing, are the cached watchers plus the permits on their way
      into or out of the map; and the semaphore panics only after such a deletion. */
  lemma {:induction false} PermitsConserved(states: seq<State>, actions: seq<Action>, n: nat)
    requires Run(states, actions) && n < |states|
    ensures Conserved(states[n])
  {
    if n > 0 {
      PermitsConserved(states, actions, n - 1);
      assert Takes(states[n - 1], actions[n - 1], states[n - 1 + 1]);
      ConservedStep(states[n - 1], actions[n - 1]);
    }
  }

  /** Semaphore and map agree exactly as long as every deletion found its key. */
  lemma AgreeIff(states: seq<State>, actions: seq<Action>, n: nat)
    requires Run(states, actions) && n < |states|
    ensures var s := states[n];
            s.held == |s.cache| + Owing(s.threads)
            <==> forall i :: 0 <= i < n ==> FindsKey(states[i], actions[i])
  {
    PermitsConserved(states, actions, n);
    ExcessCounts(states, actions, n);
  }

  /** The guard of the branch that goes wrong: del is called on a key that is in the map. */
  predicate FindsKey(s: State, a: Action) {
    match a
    case Delete(t) => t < |s.threads| && s.threads[t].Deleting? ==> s.threads[t].key in s.cache
    case _ => true
  }

  lemma {:induction false} ExcessCounts(states: seq<State>, actions: seq<Action>, n: nat)
    requires Run(states, actions) && n < |states|
    ensures states[n].excess == 0 <==> forall i :: 0 <= i < n ==> FindsKey(states[i], actions[i])
  {
    if n > 0 {
      ExcessCounts(states, actions, n - 1);
      assert Takes(states[n - 1], actions[n - 1], states[n - 1 + 1]);
    }
  }

  /** What the excess costs. Release panics exactly when the deletions that found nothing have
      used up every permit that the map and the threads in transit should hold; and they let
      in at most as many watchers beyond the maximum. */
  lemma ExcessPrice(states: seq<State>, actions: seq<Action>, n: nat, t: nat)
    requires Run(states, actions) && n < |states|
    ensures var s := states[n];
            && |s.cache| + Owing(s.threads) <= s.max + s.excess
            && (Enabled(s, Release(t)) ==>
                  (Step(s, Release(t)).crashed <==> s.excess == |s.cache| + Owing(s.threads)))
  {
    PermitsConserved(states, actions, n);
  }

  // ----- No Add overlaps anything: no deletion misses

  /** Rounds and Add calls do not overlap, nor do Add calls each other. */
  predicate Serial(s: State, a: Action) {
    a.BeginRound? || a.CallAdd? ==> Quiet(s.threads)
  }

  /** The keys a thread may still delete, in order. */
  function Targets(t: Thread): seq<Key> {
    match t
    case Visiting(key) => [key]
    case Reaping(todo) => todo
    case Deleting(key, next) => [key] + if next == None then [] else next.value
    case Releasing(next) => if next == None then [] else next.value
    case _ => []
  }

  predicate OwnTargets(s: State) {
    && s.cache <= s.issued
    && (forall t <- s.threads :: Distinct(Targets(t)))
    && (forall t <- s.threads, k <- Targets(t) :: k in s.cache)
    && (forall i, j :: 0 <= i < j < |s.threads| ==> Apart(s.threads[i], s.threads[j]))
  }

  predicate Apart(t: Thread, t': Thread) {
    forall k <- Targets(t) :: k !in Targets(t')
  }

  lemma OwnTargetsStep(s: State, a: Action)
    requires OwnTargets(s) && Enabled(s, a) && Serial(s, a)
    ensures OwnTargets(Step(s, a)) && FindsKey(s, a)
  {
    match a
    case Expire(_) =>
    case BeginRound(order) => NewThreads(s, order, Visitors(order));
    case CallAdd(order) => NewThreads(s, order, [Reaping(order)]);
    case _ =>
      hide OwnTargets;
      TargetsShrink(s, a);
      Narrowed(s, Step(s, a), a.t, TargetsDropped(s, a));
  }

  /** The first threads after a quiet moment have the keys of the map, one each or all in one. */
  lemma NewThreads(s: State, order: seq<Key>, more: seq<Thread>)
    requires OwnTargets(s) && Quiet(s.threads) && Lists(order, s.cache)
    requires more == Visitors(order) || more == [Reaping(order)]
    ensures OwnTargets(s.(threads := s.threads + more))
  {
    forall i | 0 <= i < |s.threads| ensures s.threads[i] == Finished { assert s.threads[i] in s.threads; }
    forall k | k in order ensures k in s.cache { assert k in (set x <- order); }
  }

  /** How many of its targets the acting thread drops from the front. */
  function TargetsDropped(s: State, a: Action): nat
    requires Enabled(s, a) && !a.Expire? && !a.BeginRound? && !a.CallAdd?
  {
    if a.Check? then if AfterCheck(s.threads[a.t], s.done, a.keepGoing).Deleting? then 0 else 1
    else if a.Delete? then 1
    else 0
  }

  lemma TargetsShrink(s: State, a: Action)
    requires OwnTargets(s) && Enabled(s, a) && !a.Expire? && !a.BeginRound? && !a.CallAdd?
    ensures var s', n := Step(s, a), TargetsDropped(s, a);
            && |s'.threads| == |s.threads| && s'.threads == s.threads[a.t := s'.threads[a.t]]
            && s'.cache <= s'.issued
            && n <= |Targets(s.threads[a.t])| && TargetsFrom(s, s', a.t, n)
    ensures FindsKey(s, a)
  {
    var t := s.threads[a.t];
    assert t in s.threads;
    if a.Delete? { assert t.key in Targets(t); }
  }

  /** Thread t moved on, keeping a suffix of its targets; the map lost at most keys that
      were t's own and are no longer among its targets. */
  lemma Narrowed(s: State, s': State, t: nat, n: nat)
    requires OwnTargets(s) && t < |s.threads| == |s'.threads| && s'.cache <= s'.issued
    requires s'.threads == s.threads[t := s'.threads[t]]
    requires n <= |Targets(s.threads[t])| && TargetsFrom(s, s', t, n)
    ensures OwnTargets(s')
  {
    var all := Targets(s.threads[t]);
    assert s.threads[t] in s.threads;
    forall u, k | u in s'.threads && k in Targets(u)
      ensures k in s'.cache
    {
      var i :| 0 <= i < |s.threads| && s'.threads[i] == u;
      if i == t {
        assert k in all[n..];
      } else {
        assert u in s.threads && (if i < t then Apart(u, s.threads[t]) else Apart(s.threads[t], u));
      }
    }
    forall i, j | 0 <= i < j < |s'.threads|
      ensures Apart(s'.threads[i], s'.threads[j])
    {
      assert Apart(s.threads[i], s.threads[j]);
    }
    forall u | u in s'.threads
      ensures Distinct(Targets(u))
    {
      var i :| 0 <= i < |s.threads| && s'.threads[i] == u;
      assert s.threads[i] in s.threads;
    }
  }

  predicate TargetsFrom(s: State, s': State, t: nat, n: nat)
    requires t < |s.threads| && t < |s'.threads| && n <= |Targets(s.threads[t])|
  {
    && Targets(s'.threads[t]) == Targets(s.threads[t])[n..]
    && forall k :: k in s.cache && k !in s'.cache ==> k in Targets(s.threads[t])[..n]
  }

  lemma {:induction false} SerialRunOwns(states: seq<State>, actions: seq<Action>, n: nat)
    requires Run(states, actions) && n < |states|
    requires forall i :: 0 <= i < |actions| ==> Serial(states[i], actions[i])
    ensures OwnTargets(states[n])
    ensures forall i :: 0 <= i < n ==> FindsKey(states[i], actions[i])
  {
    if n > 0 {
      SerialRunOwns(states, actions, n - 1);
      assert Takes(states[n - 1], actions[n - 1], states[n - 1 + 1]);
      OwnTargetsStep(states[n - 1], actions[n - 1]);
    }
  }

  /** When no Add overlaps a round or another Add, in every interleaving of a round's goroutines: permits
      held = cached watchers + watchers deleted but not yet released (+ an Add between
      TryAcquire and add), never above the maximum, and Release never panics. */
  lemma SerialRunAgrees(states: seq<State>, actions: seq<Action>, n: nat)
    requires Run(states, actions) && n < |states|
    requires forall i :: 0 <= i < |actions| ==> Serial(states[i], actions[i])
    ensures var s := states[n];
            && s.held == |s.cache| + Owing(s.threads) <= s.max
            && !s.crashed
  {
    SerialRunOwns(states, actions, n);
    PermitsConserved(states, actions, n);
    AgreeIff(states, actions, n);
  }

  // ----- Which watchers go, and which stay

  /** At step j the callback of a round's goroutine for key answered that it is done. */
  predicate Stopped(s: State, a: Action, key: Key) {
    a.Check? && a.t < |s.threads| && s.threads[a.t] == Visiting(key) && !a.keepGoing
  }

  /** Before step n, key's watcher had expired, or had told a round to stop. */
  predicate Cause(states: seq<State>, actions: seq<Action>, n: nat, key: Key)
    requires n <= |states| && n <= |actions| + 1
  {
    exists j :: 0 <= j < n && j < |actions| && (key in states[j].done || Stopped(states[j], actions[j], key))
  }

  /** Every key that a thread is about to delete, and every issued key no longer in the map,
      has a cause. */
  lemma {:induction false} Causes(states: seq<State>, actions: seq<Action>, n: nat)
    requires Run(states, actions) && n < |states|
    ensures forall t :: t in states[n].threads && t.Deleting? ==> Cause(states, actions, n, t.key)
    ensures forall key :: key in states[n].issued && key !in states[n].cache ==> Cause(states, actions, n, key)
  {
    if n > 0 {
      var s, a, s' := states[n - 1], actions[n - 1], states[n];
      Causes(states, actions, n - 1);
      assert Takes(states[n - 1], actions[n - 1], states[n - 1 + 1]);
      forall key | Cause(states, actions, n - 1, key)
        ensures Cause(states, actions, n, key)
      {
        var j :| 0 <= j < n - 1 && (key in states[j].done || Stopped(states[j], actions[j], key));
      }
      forall t | t in s'.threads && t.Deleting?
        ensures Cause(states, actions, n, t.key)
      {
        if t !in s.threads { NewlyDeleting(s, a, t); }
      }
      forall key | key in s'.issued && key !in s'.cache
        ensures Cause(states, actions, n, key)
      {
        if key in s.cache || key !in s.issued { assert a.Delete? && s.threads[a.t] in s.threads; }
      }
    }
  }

  /** A thread starts to delete a key when it finds it expired or is told to stop. */
  lemma NewlyDeleting(s: State, a: Action, t: Thread)
    requires Enabled(s, a) && t in Step(s, a).threads && t.Deleting? && t !in s.threads
    ensures t.key in s.done || Stopped(s, a, t.key)
  {
  }

  /** In every run: a watcher leaves the map only after it expired or its callback answered stop. */
  lemma LeavesForCause(states: seq<State>, actions: seq<Action>, i: nat, n: nat, key: Key)
    requires Run(states, actions) && i <= n < |states|
    requires key in states[i].cache && key !in states[n].cache
    ensures exists j :: 0 <= j < n && (key in states[j].done || Stopped(states[j], actions[j], key))
  {
    IssuedStays(states, actions, i, n);
    PermitsConserved(states, actions, i);
    Causes(states, actions, n);
    var j :| 0 <= j < n && j < |actions| && (key in states[j].done || Stopped(states[j], actions[j], key));
  }

  lemma {:induction false} IssuedStays(states: seq<State>, actions: seq<Action>, i: nat, n: nat)
    requires Run(states, actions) && i <= n < |states|
    ensures states[i].issued <= states[n].issued && states[i].done <= states[n].done
    ensures |states[i].threads| <= |states[n].threads|
  {
    if i < n {
      IssuedStays(states, actions, i, n - 1);
      assert Takes(states[n - 1], actions[n - 1], states[n - 1 + 1]);
    }
  }

  /** Threads visit, reap and delete only keys that were issued. */
  predicate TargetsIssued(s: State) {
    s.cache <= s.issued && forall t <- s.threads, k <- Targets(t) :: k in s.issued
  }

  lemma {:induction false} RunTargetsIssued(states: seq<State>, actions: seq<Action>, n: nat)
    requires Run(states, actions) && n < |states|
    ensures TargetsIssued(states[n])
  {
    if n > 0 {
      var s, a, s' := states[n - 1], actions[n - 1], states[n];
      RunTargetsIssued(states, actions, n - 1);
      assert Takes(states[n - 1], actions[n - 1], states[n - 1 + 1]);
      TargetsIssuedStep(s, a);
    }
  }

  lemma TargetsIssuedStep(s: State, a: Action)
    requires TargetsIssued(s) && Enabled(s, a)
    ensures TargetsIssued(Step(s, a))
  {
    var s' := Step(s, a);
    if a.Check? || a.Delete? || a.Release? { assert s.threads[a.t] in s.threads; }
    forall t, k | t in s'.threads && k in Targets(t)
      ensures k in s'.issued
    {
      if t !in s.threads {
        match a
        case BeginRound(order) => assert t.key in order && t.key in (set x <- order);
        case CallAdd(order) => assert k in order && k in (set x <- order);
        case _ =>
      }
    }
  }

  /** The key a Check step looks at. */
  function Checked(s: State, a: Action): Key
    requires a.Check? && Enabled(s, a)
  {
    if s.threads[a.t].Visiting? then s.threads[a.t].key else s.threads[a.t].todo[0]
  }

  /** A watcher that a thread found expired, or that told its goroutine to stop, is gone from
      the map as soon as that thread is past deleting it, and never comes back. */
  lemma {:induction false} CheckedGoes(states: seq<State>, actions: seq<Action>, j: nat, n: nat)
    requires Run(states, actions) && j < n < |states|
    requires actions[j].Check? && Enabled(states[j], actions[j])
    requires Checked(states[j], actions[j]) in states[j].done
             || Stopped(states[j], actions[j], Checked(states[j], actions[j]))
    ensures var t, key := actions[j].t, Checked(states[j], actions[j]);
            && key in states[n].issued && t < |states[n].threads|
            && (key in states[n].cache ==> states[n].threads[t].Deleting? && states[n].threads[t].key == key)
    ensures var t := actions[j].t;
            states[j].threads[t].Visiting? ==>
              states[n].threads[t] == Finished || (IsVisit(states[n].threads[t]) && !states[n].threads[t].Visiting?)
    decreases n
  {
    var t, key := actions[j].t, Checked(states[j], actions[j]);
    assert Takes(states[n - 1], actions[n - 1], states[n - 1 + 1]);
    if n - 1 == j {
      RunTargetsIssued(states, actions, j);
      assert states[j].threads[t] in states[j].threads && key in Targets(states[j].threads[t]);
    } else {
      CheckedGoes(states, actions, j, n - 1);
    }
  }

  // ----- A whole round

  /** The goroutine of a round stays where it is until it checks its watcher. */
  lemma {:induction false} VisitorChecks(states: seq<State>, actions: seq<Action>, i: nat, t: nat, key: Key, n: nat)
    returns (j: nat)
    requires Run(states, actions) && i <= n < |states|
    requires t < |states[i].threads| && states[i].threads[t] == Visiting(key)
    requires t < |states[n].threads| && states[n].threads[t] != Visiting(key)
    ensures i <= j < n && actions[j].Check? && actions[j].t == t
    ensures t < |states[j].threads| && states[j].threads[t] == Visiting(key)
    decreases n
  {
    IssuedStays(states, actions, i, n - 1);
    assert Takes(states[n - 1], actions[n - 1], states[n - 1 + 1]);
    if states[n - 1].threads[t] == Visiting(key) {
      j := n - 1;
    } else {
      j := VisitorChecks(states, actions, i, t, key, n - 1);
    }
  }

  /** A round visits every watcher in the map when it begins. When no goroutine is left, those
      that had expired when they were visited, or answered stop, are gone from the map. */
  lemma RoundCleans(states: seq<State>, actions: seq<Action>, i: nat, n: nat, key: Key) returns (j: nat)
    requires Run(states, actions) && i < n < |states| && i < |actions|
    requires actions[i].BeginRound? && key in states[i].cache && NoGoroutine(states[n].threads)
    ensures i < j < n && actions[j].Check? && actions[j].t < |states[j].threads|
    ensures states[j].threads[actions[j].t] == Visiting(key)
    ensures key in states[j].done || !actions[j].keepGoing ==> key !in states[n].cache
  {
    assert Takes(states[i], actions[i], states[i + 1]);
    var order := actions[i].order;
    assert key in (set k <- order);
    var k :| 0 <= k < |order| && order[k] == key;
    var t := |states[i].threads| + k;
    assert states[i + 1].threads[t] == Visiting(key);
    IssuedStays(states, actions, i + 1, n);
    assert states[n].threads[t] in states[n].threads;
    j := VisitorChecks(states, actions, i + 1, t, key, n);
    assert Takes(states[j], actions[j], states[j + 1]);
    if key in states[j].done || !actions[j].keepGoing {
      CheckedGoes(states, actions, j, n);
    }
  }

  // ----- A whole Add

  /** The keys an Add still has to check. */
  function Todo(t: Thread): seq<Key> {
    match t
    case Reaping(todo) => todo
    case Deleting(_, Some(todo)) => todo
    case Releasing(Some(todo)) => todo
    case _ => []
  }

  predicate IsCheckOf(s: State, a: Action, t: nat, key: Key) {
    a == Check(t, a.Check? && a.keepGoing) && t < |s.threads| && s.threads[t].Reaping?
    && s.threads[t].todo != [] && s.threads[t].todo[0] == key
  }

  /** An Add that listed the map at step i has, at n, checked or still to check every watcher
      it listed. */
  lemma {:induction false} AddChecks(states: seq<State>, actions: seq<Action>, i: nat, n: nat, key: Key)
    requires Run(states, actions) && i < n < |states| && actions[i].CallAdd? && key in states[i].cache
    ensures |states[i].threads| < |states[n].threads|
    ensures var t := |states[i].threads|;
            || key in Todo(states[n].threads[t])
            || exists j :: i < j < n && IsCheckOf(states[j], actions[j], t, key)
    decreases n
  {
    var t := |states[i].threads|;
    assert Takes(states[n - 1], actions[n - 1], states[n - 1 + 1]);
    if n - 1 == i {
      assert key in (set k <- actions[i].order);
    } else {
      AddChecks(states, actions, i, n - 1, key);
      var s, a := states[n - 1], actions[n - 1];
      if key in Todo(s.threads[t]) && key !in Todo(states[n].threads[t]) {
        AddMoves(s, a, t, key);
        assert IsCheckOf(states[n - 1], actions[n - 1], t, key);
      } else if key !in Todo(s.threads[t]) {
        var j :| i < j < n - 1 && IsCheckOf(states[j], actions[j], t, key);
      }
    }
  }

  lemma AddMoves(s: State, a: Action, t: nat, key: Key)
    requires Enabled(s, a) && t < |s.threads| && key in Todo(s.threads[t]) && key !in Todo(Step(s, a).threads[t])
    ensures IsCheckOf(s, a, t, key)
  {
  }

  /** When an Add comes to TryAcquire, it has checked every watcher it listed, and those that
      had expired when it did are gone from the map. */
  lemma AddCleans(states: seq<State>, actions: seq<Action>, i: nat, n: nat, key: Key) returns (j: nat)
    requires Run(states, actions) && i < n < |actions| && actions[i].CallAdd? && key in states[i].cache
    requires actions[n] == TryAcquire(|states[i].threads|)
    ensures i < j < n && IsCheckOf(states[j], actions[j], |states[i].threads|, key)
    ensures key in states[j].done ==> key !in states[n].cache
  {
    assert Takes(states[n], actions[n], states[n + 1]);
    AddChecks(states, actions, i, n, key);
    j :| i < j < n && IsCheckOf(states[j], actions[j], |states[i].threads|, key);
    assert Takes(states[j], actions[j], states[j + 1]);
    if key in states[j].done { CheckedGoes(states, actions, j, n); }
  }

  /** While an Add is at work in a serial run, no other thread is. */
  predicate OneAdd(s: State) {
    forall t, u :: 0 <= t < |s.threads| && 0 <= u < |s.threads| && t != u ==>
      s.threads[t] == Finished || s.threads[u] == Finished || (IsVisit(s.threads[t]) && IsVisit(s.threads[u]))
  }

  lemma {:induction false} SerialOneAdd(states: seq<State>, actions: seq<Action>, n: nat)
    requires Run(states, actions) && n < |states|
    requires forall i :: 0 <= i < |actions| ==> Serial(states[i], actions[i])
    ensures OneAdd(states[n])
  {
    if n > 0 {
      SerialOneAdd(states, actions, n - 1);
      assert Takes(states[n - 1], actions[n - 1], states[n - 1 + 1]);
      var s := states[n - 1];
      forall t | 0 <= t < |s.threads| ensures s.threads[t] in s.threads {}
    }
  }

  lemma {:induction false} NothingOwed(threads: seq<Thread>)
    requires forall t <- threads :: Owes(t) == 0
    ensures Owing(threads) == 0
  {
    if threads != [] { NothingOwed(threads[1..]); }
  }

  /** In a serial run an Add admits its watcher exactly if fewer than the maximum are in the map. */
  lemma AdmitsIff(states: seq<State>, actions: seq<Action>, n: nat, t: nat)
    requires Run(states, actions) && n < |actions| && actions[n] == TryAcquire(t)
    requires forall i :: 0 <= i < |actions| ==> Serial(states[i], actions[i])
    ensures t < |states[n + 1].threads|
    ensures states[n + 1].threads[t] == (if |states[n].cache| < states[n].max then Inserting else Finished)
  {
    assert Takes(states[n], actions[n], states[n + 1]);
    SerialOneAdd(states, actions, n);
    SerialRunAgrees(states, actions, n);
    var s := states[n];
    forall u | u in s.threads
      ensures Owes(u) == 0
    {
      var k :| 0 <= k < |s.threads| && s.threads[k] == u;
    }
    NothingOwed(s.threads);
  }

  // ----- Why Add must not overlap a round or another Add

  lemma Extend(states: seq<State>, actions: seq<Action>, a: Action)
    returns (states': seq<State>, actions': seq<Action>)
    requires Run(states, actions) && Enabled(states[|states| - 1], a)
    ensures states' == states + [Step(states[|states| - 1], a)] && actions' == actions + [a]
    ensures Run(states', actions')
  {
    states', actions' := states + [Step(states[|states| - 1], a)], actions + [a];
    forall i | 0 <= i < |actions'|
      ensures Takes(states'[i], actions'[i], states'[i + 1])
    {
      if i < |actions| { assert Takes(states[i], actions[i], states[i + 1]); }
    }
  }

  lemma OneWatcher() returns (states: seq<State>, actions: seq<Action>)
    ensures Run(states, actions) && forall a <- actions :: !a.BeginRound?
    ensures states[|states| - 1] == State(1, 1, {7}, {}, {7}, [Finished], false, 0)
  {
    states, actions := [State(1, 0, {}, {}, {}, [], false, 0)], [];
    states, actions := Extend(states, actions, CallAdd([]));
    states, actions := Extend(states, actions, TryAcquire(0));
    states, actions := Extend(states, actions, Insert(0, 7));
  }

  /** A round visits the one watcher while an Add cleans up, and the watcher ends. */
  lemma Overlap() returns (states: seq<State>, actions: seq<Action>)
    ensures Run(states, actions)
    ensures states[|states| - 1] == State(1, 1, {7}, {7}, {7}, [Finished, Visiting(7), Reaping([7])], false, 0)
  {
    hide Run;
    states, actions := OneWatcher();
    states, actions := Extend(states, actions, BeginRound([7]));
    states, actions := Extend(states, actions, CallAdd([7]));
    states, actions := Extend(states, actions, Expire(7));
  }

  /** Both the goroutine and the Add delete it. */
  lemma DeletedTwice() returns (states: seq<State>, actions: seq<Action>)
    ensures Run(states, actions)
    ensures states[|states| - 1]
         == State(1, 1, {}, {7}, {7}, [Finished, Releasing(None), Releasing(Some([]))], false, 1)
  {
    hide Run;
    states, actions := Overlap();
    states, actions := Extend(states, actions, Check(1, true));
    states, actions := Extend(states, actions, Check(2, true));
    assert [7][1..] == [];
    assert states[|states| - 1].threads == [Finished, Deleting(7, None), Deleting(7, Some([]))];
    states, actions := Extend(states, actions, Delete(1));
    states, actions := Extend(states, actions, Delete(2));
  }

  /** From there the second Release can panic, ... */
  lemma OverlapPanics() returns (states: seq<State>, actions: seq<Action>)
    ensures Run(states, actions) && states[|states| - 1].crashed
  {
    hide Run;
    states, actions := DeletedTwice();
    states, actions := Extend(states, actions, Release(1));
    states, actions := Extend(states, actions, Release(2));
  }

  lemma ReleasedTwice() returns (states: seq<State>, actions: seq<Action>)
    ensures Run(states, actions)
    ensures states[|states| - 1] == State(1, 0, {8}, {7}, {7, 8}, [Finished, Finished, Finished], false, 1)
  {
    hide Run;
    states, actions := DeletedTwice();
    states, actions := Extend(states, actions, Release(2));
    states, actions := Extend(states, actions, TryAcquire(2));
    states, actions := Extend(states, actions, Insert(2, 8));
    states, actions := Extend(states, actions, Release(1));
  }

  /** ... or two live watchers get in where one is allowed. */
  lemma OverlapAdmitsTooMany() returns (states: seq<State>, actions: seq<Action>)
    ensures Run(states, actions)
    ensures var s := states[|states| - 1];
            !s.crashed && s.max == 1 && s.cache == {8, 9} && 8 !in s.done && 9 !in s.done
  {
    hide Run;
    states, actions := ReleasedTwice();
    states, actions := Extend(states, actions, CallAdd([8]));
    states, actions := Extend(states, actions, Check(3, true));
    states, actions := Extend(states, actions, TryAcquire(3));
    states, actions := Extend(states, actions, Insert(3, 9));
  }

  /** Two Adds alone, without any round, both clean up the one watcher that has ended. */
  lemma TwoAdds() returns (states: seq<State>, actions: seq<Action>)
    ensures Run(states, actions) && forall a <- actions :: !a.BeginRound?
    ensures states[|states| - 1]
         == State(1, 1, {7}, {7}, {7}, [Finished, Deleting(7, Some([])), Deleting(7, Some([]))], false, 0)
  {
    states, actions := OneWatcher();
    hide Run;
    states, actions := Extend(states, actions, Expire(7));
    states, actions := Extend(states, actions, CallAdd([7]));
    states, actions := Extend(states, actions, CallAdd([7]));
    assert states[|states| - 1].threads == [Finished, Reaping([7]), Reaping([7])];
    states, actions := Extend(states, actions, Check(1, true));
    states, actions := Extend(states, actions, Check(2, true));
    assert [7][1..] == [];
  }

  /** Then the second of them to release panics. */
  lemma AddsOverlapPanic() returns (states: seq<State>, actions: seq<Action>)
    ensures Run(states, actions) && states[|states| - 1].crashed
    ensures forall a <- actions :: !a.BeginRound?
  {
    hide Run;
    states, actions := TwoAdds();
    states, actions := Extend(states, actions, Delete(1));
    states, actions := Extend(states, actions, Delete(2));
    assert states[|states| - 1].threads == [Finished, Releasing(Some([])), Releasing(Some([]))];
    states, actions := Extend(states, actions, Release(1));
    states, actions := Extend(states, actions, Release(2));
  }

  // ----- Add itself, called while nothing else runs

  class Manager {
    var max: nat
    var held: nat
    var watchers: set<Key>

    predicate Valid()
      reads this
    {
      held == |watchers| <= max
    }

    constructor (maxWatchers: nat)
      ensures Valid() && max == maxWatchers && watchers == {}
    {
      max, held, watchers := maxWatchers, 0, {};
    }

    /** `done` holds the watchers whose isDone returns an error, `uuid` is the new key. */
    method Add(done: set<Key>, uuid: Key) returns (ok: bool)
      requires Valid() && uuid !in watchers
      modifies this
      ensures Valid() && max == old(max)
      ensures ok <==> |old(watchers) - done| < max
      ensures watchers == old(watchers) - done + if ok then {uuid} else {}
    {
      var list := watchers;
      while list != {}
        invariant list <= old(watchers) && watchers == old(watchers) - done + list
        invariant Valid() && max == old(max)
        decreases list
      {
        var key :| key in list;
        if key in done {
          Removed(watchers, key);
          watchers := watchers - {key};
          held := held - 1;
        }
        list := list - {key};
      }
      ok := held < max;
      if !ok { return; }
      held := held + 1;
      watchers := watchers + {uuid};
    }
  }
}
