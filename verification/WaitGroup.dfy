/** WaitGroup as an interleaved system. */
module WaitGroup {
  // Any number of threads run Add, Done and Wait on one shared counter, mutex and condition
  // variable. Done changes the counter before it takes the mutex, so a waiter may look at the
  // counter, or fall asleep, between the two.

  /** Where a thread is inside a call. */
  datatype Pc =
    | Idle
    | Decremented            // Done: counter decremented, not yet read back
    | WantNotify             // Done: read a counter <= 0, has still to take the mutex
    | Notifying              // Done: holds the mutex, has still to notify
    | Notified               // Done: holds the mutex, has notified
    | WantMutex              // Wait: has still to take the mutex
    | Checking               // Wait: holds the mutex, has still to test the counter
    | FallingAsleep          // Wait: holds the mutex, has read a counter > 0
    | Asleep                 // Wait: released the mutex, waits for a notification
    | Leaving                // Wait: holds the mutex, has read a counter <= 0

  /** What one step of one thread does. */
  datatype Action =
    | AddCall(n: int)
    | DoneCall(n: int)
    | WaitCall
    | Internal               // the next step inside the thread's call
    | Spurious               // wake up without a notification

  /** Thread t is at pcs[t]; holder is the set of threads that hold the mutex. */
  datatype State = State(count: int, holder: set<nat>, pcs: seq<Pc>)

  predicate Holds(pc: Pc) {
    pc.Notifying? || pc.Notified? || pc.Checking? || pc.FallingAsleep? || pc.Leaving?
  }

  ghost function Init(initialCount: int, threads: nat): State {
    State(initialCount, {}, seq(threads, _ => Idle))
  }

  ghost function WakeAll(pcs: seq<Pc>): (r: seq<Pc>)
    ensures |r| == |pcs|
    ensures forall t :: 0 <= t < |pcs| ==> r[t] == if pcs[t].Asleep? then WantMutex else pcs[t]
  {
    seq(|pcs|, t requires 0 <= t < |pcs| => if pcs[t].Asleep? then WantMutex else pcs[t])
  }

  /** Thread t takes one atomic step from s to s'. */
  ghost predicate Step(s: State, s': State, t: nat, a: Action) {
    t < |s.pcs| &&
    match a
    case AddCall(n) =>
      s.pcs[t].Idle? && s' == s.(count := s.count + n)
    case DoneCall(n) =>
      s.pcs[t].Idle? && s' == s.(count := s.count - n, pcs := s.pcs[t := Decremented])
    case WaitCall =>
      s.pcs[t].Idle? && s' == s.(pcs := s.pcs[t := WantMutex])
    case Spurious =>
      s.pcs[t].Asleep? && s' == s.(pcs := s.pcs[t := WantMutex])
    case Internal =>
      match s.pcs[t]
      case Idle => false
      case Asleep => false
      case Decremented => s' == s.(pcs := s.pcs[t := if s.count <= 0 then WantNotify else Idle])
      case WantNotify => s.holder == {} && s' == s.(holder := {t}, pcs := s.pcs[t := Notifying])
      case Notifying => s' == s.(pcs := WakeAll(s.pcs[t := Notified]))
      case Notified => s' == s.(holder := {}, pcs := s.pcs[t := Idle])
      case WantMutex => s.holder == {} && s' == s.(holder := {t}, pcs := s.pcs[t := Checking])
      case Checking => s' == s.(pcs := s.pcs[t := if s.count <= 0 then Leaving else FallingAsleep])
      case FallingAsleep => s' == s.(holder := {}, pcs := s.pcs[t := Asleep])
      case Leaving => s' == s.(holder := {}, pcs := s.pcs[t := Idle])
  }

  /** The argument of every call of Add is in the set allowed. */
  ghost predicate Permitted(a: Action, allowed: iset<int>) {
    a.AddCall? ==> a.n in allowed
  }

  /** A finite run through the states ss, thread ts[i] performing acts[i]. */
  ghost predicate Run(ss: seq<State>, ts: seq<nat>, acts: seq<Action>, allowed: iset<int>) {
    |ss| == |ts| + 1 && |ts| == |acts| &&
    forall i :: 0 <= i < |ts| ==> Step(ss[i], ss[i + 1], ts[i], acts[i]) && Permitted(acts[i], allowed)
  }

  ghost predicate RunFromTo(ss: seq<State>, ts: seq<nat>, acts: seq<Action>, allowed: iset<int>, s: State, s': State) {
    Run(ss, ts, acts, allowed) && ss[0] == s && ss[|ss| - 1] == s'
  }

  ghost predicate Reachable(s: State, initialCount: int, threads: nat, allowed: iset<int>) {
    exists ss, ts, acts :: RunFromTo(ss, ts, acts, allowed, Init(initialCount, threads), s)
  }

  // ----------------------------------------------------------- what must never happen

  /** A waiter that will not look at the counter again unless it is notified. */
  predicate Blocked(pc: Pc) { pc.FallingAsleep? || pc.Asleep? }

  /** A Done caller that has decremented and has not yet notified. */
  predicate Pending(pc: Pc) { pc.Decremented? || pc.WantNotify? || pc.Notifying? }

  ghost predicate SomeBlocked(s: State) { exists t :: 0 <= t < |s.pcs| && Blocked(s.pcs[t]) }

  ghost predicate SomePending(s: State) { exists t :: 0 <= t < |s.pcs| && Pending(s.pcs[t]) }

  /** A waiter sleeps although the counter has run out, and nobody is on the way to wake it. */
  ghost predicate LostWakeUp(s: State) {
    s.count <= 0 && SomeBlocked(s) && !SomePending(s)
  }

  /** Exactly the thread that is inside a critical section holds the mutex. */
  ghost predicate MutexInv(s: State) {
    (forall t :: t in s.holder ==> t < |s.pcs|) &&
    (forall t :: 0 <= t < |s.pcs| ==> (t in s.holder <==> Holds(s.pcs[t]))) &&
    (forall t, u :: t in s.holder && u in s.holder ==> t == u)
  }

  ghost predicate Inv(s: State) {
    MutexInv(s) && !LostWakeUp(s)
  }

  ghost const NonNegative: iset<int> := iset n | 0 <= n

  // ------------------------------------------------------------------------- safety

  lemma MutexStep(s: State, s': State, t: nat, a: Action)
    requires MutexInv(s) && Step(s, s', t, a)
    ensures MutexInv(s')
  {
    if Holds(s.pcs[t]) {
      assert forall u :: u in s.holder ==> u == t;
    }
  }

  /** If a waiter is blocked on a counter that has run out, some Done caller has still to notify. */
  lemma NoLostWakeUpStep(s: State, s': State, t: nat, a: Action)
    requires Inv(s) && Step(s, s', t, a) && Permitted(a, NonNegative)
    ensures !LostWakeUp(s')
  {
    if s'.count <= 0 && SomeBlocked(s') {
      var w :| 0 <= w < |s'.pcs| && Blocked(s'.pcs[w]);
      if a.DoneCall? {
        assert Pending(s'.pcs[t]);
      } else if !(a.Internal? && s.pcs[t].Notifying?) {
        assert Blocked(s.pcs[w]);
        var d :| 0 <= d < |s.pcs| && Pending(s.pcs[d]);
        assert Pending(s'.pcs[d]);
      }
    }
  }

  lemma {:induction false} RunKeepsInv(ss: seq<State>, ts: seq<nat>, acts: seq<Action>, i: nat)
    requires Run(ss, ts, acts, NonNegative) && Inv(ss[0])
    requires i < |ss|
    ensures Inv(ss[i]) && |ss[i].pcs| == |ss[0].pcs|
  {
    if i > 0 {
      RunKeepsInv(ss, ts, acts, i - 1);
      MutexStep(ss[i - 1], ss[i], ts[i - 1], acts[i - 1]);
      NoLostWakeUpStep(ss[i - 1], ss[i], ts[i - 1], acts[i - 1]);
    }
  }

  /** Every reachable state has mutual exclusion and no lost wake-up, whatever the interleaving. */
  lemma ReachableInv(s: State, initialCount: int, threads: nat)
    requires Reachable(s, initialCount, threads, NonNegative)
    ensures Inv(s) && |s.pcs| == threads
  {
    var ss, ts, acts :| RunFromTo(ss, ts, acts, NonNegative, Init(initialCount, threads), s);
    RunKeepsInv(ss, ts, acts, |ss| - 1);
  }

  // ------------------------------------------------------ exactly which Add arguments

  /** No run over these Add arguments loses a wake-up. */
  ghost predicate AddArgumentsSafe(allowed: iset<int>) {
    forall s, initialCount, threads :: Reachable(s, initialCount, threads, allowed) ==> !LostWakeUp(s)
  }

  /** Add never notifies, so it is safe exactly for arguments that cannot bring the counter down. */
  lemma AddSafeIffNonNegative(allowed: iset<int>)
    ensures AddArgumentsSafe(allowed) <==> forall n :: n in allowed ==> 0 <= n
  {
    if forall n :: n in allowed ==> 0 <= n {
      forall s, initialCount, threads | Reachable(s, initialCount, threads, allowed)
        ensures !LostWakeUp(s)
      {
        var ss, ts, acts :| RunFromTo(ss, ts, acts, allowed, Init(initialCount, threads), s);
        assert RunFromTo(ss, ts, acts, NonNegative, Init(initialCount, threads), s);
        ReachableInv(s, initialCount, threads);
      }
    } else {
      var n :| n in allowed && n < 0;
      var s := NegativeAddLosesWakeUp(n, allowed);
    }
  }

  /** A waiter falls asleep on a counter of -n; adding n brings it to zero and wakes nobody. */
  lemma NegativeAddLosesWakeUp(n: int, allowed: iset<int>) returns (s: State)
    requires n < 0 && n in allowed
    ensures Reachable(s, -n, 2, allowed) && LostWakeUp(s)
  {
    var s0 := State(-n, {}, [Idle, Idle]);
    assert Init(-n, 2) == s0;
    assert RunFromTo([s0], [], [], allowed, s0, s0);
    var s1 := State(-n, {}, [WantMutex, Idle]);
    ReachableStep(s0, s1, 0, WaitCall, -n, 2, allowed);
    var s2 := State(-n, {0}, [Checking, Idle]);
    ReachableStep(s1, s2, 0, Internal, -n, 2, allowed);
    var s3 := State(-n, {0}, [FallingAsleep, Idle]);
    ReachableStep(s2, s3, 0, Internal, -n, 2, allowed);
    var s4 := State(-n, {}, [Asleep, Idle]);
    ReachableStep(s3, s4, 0, Internal, -n, 2, allowed);
    s := State(0, {}, [Asleep, Idle]);
    ReachableStep(s4, s, 1, AddCall(n), -n, 2, allowed);
    assert Blocked(s.pcs[0]);
  }

  lemma ReachableStep(s: State, s': State, t: nat, a: Action, initialCount: int, threads: nat, allowed: iset<int>)
    requires Reachable(s, initialCount, threads, allowed) && Step(s, s', t, a) && Permitted(a, allowed)
    ensures Reachable(s', initialCount, threads, allowed)
  {
    var ss, ts, acts :| RunFromTo(ss, ts, acts, allowed, Init(initialCount, threads), s);
    assert RunFromTo(ss + [s'], ts + [t], acts + [a], allowed, Init(initialCount, threads), s');
  }

  // ----------------------------------------------------------------------- progress

  /** No thread can take the next step inside its call. */
  ghost predicate Quiescent(s: State) {
    forall t, s' :: !Step(s, s', t, Internal)
  }

  lemma StepExists(s: State, t: nat) returns (s': State)
    requires t < |s.pcs| && !s.pcs[t].Idle? && !s.pcs[t].Asleep?
    requires s.pcs[t].WantMutex? || s.pcs[t].WantNotify? ==> s.holder == {}
    ensures Step(s, s', t, Internal)
  {
    match s.pcs[t]
    case Decremented => s' := s.(pcs := s.pcs[t := if s.count <= 0 then WantNotify else Idle]);
    case WantNotify => s' := s.(holder := {t}, pcs := s.pcs[t := Notifying]);
    case Notifying => s' := s.(pcs := WakeAll(s.pcs[t := Notified]));
    case Notified => s' := s.(holder := {}, pcs := s.pcs[t := Idle]);
    case WantMutex => s' := s.(holder := {t}, pcs := s.pcs[t := Checking]);
    case Checking => s' := s.(pcs := s.pcs[t := if s.count <= 0 then Leaving else FallingAsleep]);
    case FallingAsleep => s' := s.(holder := {}, pcs := s.pcs[t := Asleep]);
    case Leaving => s' := s.(holder := {}, pcs := s.pcs[t := Idle]);
  }

  /** Nobody is stuck: when no thread can go on and the counter has run out, every call has returned. */
  lemma QuiescentMeansReturned(s: State)
    requires Inv(s) && Quiescent(s)
    ensures forall t :: 0 <= t < |s.pcs| ==> s.pcs[t].Idle? || (s.count > 0 && s.pcs[t].Asleep?)
  {
    assert s.holder == {} by {
      forall t | t in s.holder ensures false {
        var s' := StepExists(s, t);
      }
    }
    forall t | 0 <= t < |s.pcs|
      ensures s.pcs[t].Idle? || s.pcs[t].Asleep?
    {
      if !s.pcs[t].Idle? && !s.pcs[t].Asleep? {
        var s' := StepExists(s, t);
      }
    }
    assert !SomePending(s);
    forall t | 0 <= t < |s.pcs| && s.pcs[t].Asleep?
      ensures SomeBlocked(s)
    {
      assert Blocked(s.pcs[t]);
    }
  }

  /** An upper bound on the steps a thread still takes once the counter has run out. */
  function Weight(pc: Pc): nat {
    match pc
    case Idle => 0
    case Leaving => 1
    case Checking => 2
    case WantMutex => 3
    case Asleep => 4
    case FallingAsleep => 5
    case Notified => 1
    case Notifying => 2
    case WantNotify => 3
    case Decremented => 4
  }

  function Work(pcs: seq<Pc>): nat {
    if pcs == [] then 0 else Weight(pcs[0]) + Work(pcs[1..])
  }

  lemma {:induction false} WorkUpdate(pcs: seq<Pc>, t: nat, pc: Pc)
    requires t < |pcs|
    ensures Work(pcs[t := pc]) == Work(pcs) - Weight(pcs[t]) + Weight(pc)
  {
    if t > 0 {
      WorkUpdate(pcs[1..], t - 1, pc);
      assert pcs[t := pc][1..] == pcs[1..][t - 1 := pc];
    } else {
      assert pcs[t := pc][1..] == pcs[1..];
    }
  }

  lemma {:induction false} WorkMonotone(pcs: seq<Pc>, pcs': seq<Pc>)
    requires |pcs| == |pcs'| && forall t :: 0 <= t < |pcs| ==> Weight(pcs'[t]) <= Weight(pcs[t])
    ensures Work(pcs') <= Work(pcs)
  {
    if pcs != [] {
      WorkMonotone(pcs[1..], pcs'[1..]);
    }
  }

  lemma {:induction false} WorkBound(pcs: seq<Pc>)
    ensures Work(pcs) <= 5 * |pcs|
  {
    if pcs != [] {
      WorkBound(pcs[1..]);
    }
  }

  lemma StepDoesWork(s: State, s': State, t: nat, a: Action)
    requires Step(s, s', t, a) && (a.Internal? || a.Spurious?) && s.count <= 0
    ensures s'.count == s.count && Work(s'.pcs) < Work(s.pcs)
  {
    if a.Spurious? {
      WorkUpdate(s.pcs, t, WantMutex);
    } else if s.pcs[t].Notifying? {
      WorkUpdate(s.pcs, t, Notified);
      WorkMonotone(s.pcs[t := Notified], s'.pcs);
    } else {
      WorkUpdate(s.pcs, t, s'.pcs[t]);
    }
  }

  /**
    Once the counter has run out and no new call is made, at most five steps a thread are
    taken, spurious wake-ups included; a run that cannot be prolonged leaves every call returned.
   */
  lemma {:induction false} EveryCallReturns(ss: seq<State>, ts: seq<nat>, acts: seq<Action>)
    requires Run(ss, ts, acts, NonNegative) && Inv(ss[0]) && ss[0].count <= 0
    requires forall a :: a in acts ==> a.Internal? || a.Spurious?
    ensures |acts| + Work(ss[|acts|].pcs) <= Work(ss[0].pcs) <= 5 * |ss[0].pcs|
    ensures |ss[|acts|].pcs| == |ss[0].pcs|
    ensures Quiescent(ss[|acts|]) ==> forall t :: 0 <= t < |ss[|acts|].pcs| ==> ss[|acts|].pcs[t].Idle?
  {
    var n := |acts|;
    WorkBound(ss[0].pcs);
    RunDoesWork(ss, ts, acts, n);
    RunKeepsInv(ss, ts, acts, n);
    if Quiescent(ss[n]) {
      QuiescentMeansReturned(ss[n]);
    }
  }

  lemma {:induction false} RunDoesWork(ss: seq<State>, ts: seq<nat>, acts: seq<Action>, n: nat)
    requires Run(ss, ts, acts, NonNegative) && ss[0].count <= 0 && n <= |acts|
    requires forall a :: a in acts ==> a.Internal? || a.Spurious?
    ensures ss[n].count == ss[0].count && n + Work(ss[n].pcs) <= Work(ss[0].pcs)
  {
    if n > 0 {
      RunDoesWork(ss, ts, acts, n - 1);
      assert acts[n - 1] in acts;
      StepDoesWork(ss[n - 1], ss[n], ts[n - 1], acts[n - 1]);
    }
  }

  // ------------------------------------------------------------ what the calls are for

  /** What an action adds to the counter. */
  function Added(a: Action): int {
    match a
    case AddCall(n) => n
    case DoneCall(n) => -n
    case _ => 0
  }

  function Sum(acts: seq<Action>): int { if acts == [] then 0 else Sum(acts[..|acts| - 1]) + Added(acts[|acts| - 1]) }

  /** The counter is the initial count, plus what Add has added, minus what Done has taken. */
  lemma {:induction false} CounterLaw(ss: seq<State>, ts: seq<nat>, acts: seq<Action>, allowed: iset<int>, i: nat)
    requires Run(ss, ts, acts, allowed) && i <= |acts|
    ensures ss[i].count == ss[0].count + Sum(acts[..i])
  {
    if i > 0 {
      CounterLaw(ss, ts, acts, allowed, i - 1);
      assert acts[..i][..i - 1] == acts[..i - 1];
    }
  }

  /** Thread t makes the call a at step i and is back from it, for the first time, in state j. */
  ghost predicate CallReturns(ss: seq<State>, ts: seq<nat>, acts: seq<Action>, t: nat, a: Action, i: nat, j: nat) {
    |ss| == |ts| + 1 && |ts| == |acts| && i < j < |ss| && ts[i] == t && acts[i] == a &&
    (forall k :: i < k <= j ==> t < |ss[k].pcs|) && ss[j].pcs[t].Idle? &&
    forall k :: i < k < j ==> !ss[k].pcs[t].Idle?
  }

  /** Inside Wait. */
  predicate Waits(pc: Pc) {
    pc.WantMutex? || pc.Checking? || pc.FallingAsleep? || pc.Asleep? || pc.Leaving?
  }

  lemma WaitStep(s: State, s': State, u: nat, a: Action, t: nat)
    requires Step(s, s', u, a) && t < |s.pcs| && Waits(s.pcs[t])
    ensures |s'.pcs| == |s.pcs| && (Waits(s'.pcs[t]) || (s.pcs[t].Leaving? && s'.pcs[t].Idle?))
    ensures s'.pcs[t].Leaving? ==> s.pcs[t].Leaving? || s.count <= 0
  {
  }

  /** A thread inside a call of Wait is about to leave it only if the counter has been seen run out since. */
  lemma {:induction false} WaitSoFar(ss: seq<State>, ts: seq<nat>, acts: seq<Action>, allowed: iset<int>, t: nat,
    i: nat, j: nat, m: nat)
    requires Run(ss, ts, acts, allowed) && CallReturns(ss, ts, acts, t, WaitCall, i, j) && i < m < j
    ensures Waits(ss[m].pcs[t]) && (ss[m].pcs[t].Leaving? ==> exists k :: i < k < m && ss[k].count <= 0)
  {
    assert Step(ss[m - 1], ss[m], ts[m - 1], acts[m - 1]);
    if m > i + 1 {
      WaitSoFar(ss, ts, acts, allowed, t, i, j, m - 1);
      WaitStep(ss[m - 1], ss[m], ts[m - 1], acts[m - 1], t);
    }
  }

  /** Wait waits: it returns only after the counter has been zero or less during the call. */
  lemma WaitWaits(ss: seq<State>, ts: seq<nat>, acts: seq<Action>, allowed: iset<int>, t: nat, i: nat, j: nat)
    requires Run(ss, ts, acts, allowed) && CallReturns(ss, ts, acts, t, WaitCall, i, j)
    ensures exists k :: i < k < j && ss[k].count <= 0
  {
    assert Step(ss[j - 1], ss[j], ts[j - 1], acts[j - 1]);
    if j > i + 1 {
      WaitSoFar(ss, ts, acts, allowed, t, i, j, j - 1);
      WaitStep(ss[j - 1], ss[j], ts[j - 1], acts[j - 1], t);
    }
  }

  /** A waiter falls asleep only on a counter that it has seen above zero. */
  lemma SleepsOnPositive(s: State, s': State, u: nat, a: Action, t: nat)
    requires Step(s, s', u, a) && t < |s.pcs| && Blocked(s'.pcs[t]) && !Blocked(s.pcs[t])
    ensures t == u && s.count > 0 && s'.count == s.count
  {
  }

  /** All sleepers are woken, and nothing else happens to another thread. */
  ghost predicate WakesAll(s: State, s': State, t: nat) {
    |s'.pcs| == |s.pcs| && forall u :: 0 <= u < |s.pcs| && u != t ==>
      !s'.pcs[u].Asleep? && (s'.pcs[u] == s.pcs[u] || (s.pcs[u].Asleep? && s'.pcs[u].WantMutex?))
  }

  /** No other thread is touched, nor the mutex. */
  ghost predicate Quiet(s: State, s': State, t: nat) {
    s'.holder == s.holder && |s'.pcs| == |s.pcs| && forall u :: 0 <= u < |s.pcs| && u != t ==> s'.pcs[u] == s.pcs[u]
  }

  predicate Finishes(pc: Pc) { Pending(pc) || pc.Notified? }

  /** How far a call of Done has come, with the step at which it has read the counter. */
  ghost predicate DoneSoFar(ss: seq<State>, ts: seq<nat>, t: nat, i: nat, m: nat, read: nat) {
    |ss| == |ts| + 1 && i < m < |ss| && t < |ss[m].pcs| && Finishes(ss[m].pcs[t]) &&
    (ss[m].pcs[t].Decremented? ==> forall k :: i < k < m ==> ts[k] != t) &&
    (!ss[m].pcs[t].Decremented? ==>
       i < read < m && ts[read] == t && ss[read].count <= 0 && forall k :: i < k < read ==> ts[k] != t) &&
    (ss[m].pcs[t].Notified? ==> exists k :: read < k < m && ts[k] == t && WakesAll(ss[k], ss[k + 1], t))
  }

  lemma DoneStep(s: State, s': State, u: nat, a: Action, t: nat)
    requires Step(s, s', u, a) && t < |s.pcs| && Finishes(s.pcs[t])
    ensures |s'.pcs| == |s.pcs| && (u != t ==> s'.pcs[t] == s.pcs[t])
    ensures u == t && s.pcs[t].Decremented? ==>
      Quiet(s, s', t) && (if s.count <= 0 then s'.pcs[t].WantNotify? else s'.pcs[t].Idle?)
    ensures u == t && s.pcs[t].WantNotify? ==> s'.pcs[t].Notifying?
    ensures u == t && s.pcs[t].Notifying? ==> s'.pcs[t].Notified? && WakesAll(s, s', t)
    ensures u == t && s.pcs[t].Notified? ==> s'.pcs[t].Idle?
  {
  }

  lemma {:induction false} DoneReaches(ss: seq<State>, ts: seq<nat>, acts: seq<Action>, allowed: iset<int>, t: nat,
    n: int, i: nat, j: nat, m: nat) returns (read: nat)
    requires Run(ss, ts, acts, allowed) && CallReturns(ss, ts, acts, t, DoneCall(n), i, j) && i < m < j
    ensures DoneSoFar(ss, ts, t, i, m, read)
  {
    assert Step(ss[m - 1], ss[m], ts[m - 1], acts[m - 1]);
    if m == i + 1 {
      read := 0;
    } else {
      read := DoneReaches(ss, ts, acts, allowed, t, n, i, j, m - 1);
      DoneStep(ss[m - 1], ss[m], ts[m - 1], acts[m - 1], t);
      if ts[m - 1] == t && ss[m - 1].pcs[t].Decremented? { read := m - 1; }
    }
  }

  /**
    Done reads the counter once, after it has taken its share off: if the counter has run out it wakes
    every sleeper before it returns, and otherwise it returns at once and touches nothing else.
   */
  lemma DoneNotifies(ss: seq<State>, ts: seq<nat>, acts: seq<Action>, allowed: iset<int>, t: nat, n: int, i: nat,
    j: nat) returns (read: nat)
    requires Run(ss, ts, acts, allowed) && CallReturns(ss, ts, acts, t, DoneCall(n), i, j)
    ensures i < read < j && ts[read] == t && forall k :: i < k < read ==> ts[k] != t
    ensures ss[read].count <= 0 ==> exists k :: read < k < j && ts[k] == t && WakesAll(ss[k], ss[k + 1], t)
    ensures ss[read].count > 0 ==> read == j - 1 && Quiet(ss[read], ss[j], t)
  {
    assert Step(ss[j - 1], ss[j], ts[j - 1], acts[j - 1]);
    if j == i + 1 {
      assert false;
    } else {
      read := DoneReaches(ss, ts, acts, allowed, t, n, i, j, j - 1);
      DoneStep(ss[j - 1], ss[j], ts[j - 1], acts[j - 1], t);
      if ss[j - 1].pcs[t].Decremented? { read := j - 1; }
    }
  }
}
