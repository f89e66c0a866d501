/**
 * criticalsection.cc, the branch for Mac without native mutexes: a recursive lock out of a counter, a semaphore and
 * compare-and-swap. Every access to a shared variable is a step of its own, so that any number of threads may be
 * interleaved in any way.
 */
module CriticalSections {

  /** Where a thread is. The step it takes next is the one named. */
  datatype Pc =
    | Outside              // of the three methods
    | EnterTestOwner       // Enter: is owning_thread_ the current thread?
    | EnterLoadQueue       //   is lock_queue_ zero?
    | EnterSwap            //   compare-and-swap of lock_queue_ from 0 to 1
    | EnterNested          //   the owner increments lock_queue_
    | EnterQueue           //   the spinning is over: lock_queue_ is incremented
    | EnterCheckNotOwner   //   RTC_DCHECK before the wait
    | EnterWait            //   dispatch_semaphore_wait
    | EnterCheckNoOwner    //   the RTC_DCHECKs after the wait
    | EnterCheckNoDepth
    | EnterSetOwner        //   owning_thread_ is assigned
    | LoadRecursion        // the two halves of ++recursion_, in Enter and in TryEnter
    | StoreRecursion
    | TryTestOwner         // TryEnter: is owning_thread_ the current thread?
    | TrySwap              //   compare-and-swap of lock_queue_ from 0 to 1
    | TrySetOwner          //   owning_thread_ is assigned
    | TryCheckNoDepth      //   RTC_DCHECK
    | TryNested            //   the owner increments lock_queue_
    | LeaveCheckOwner      // Leave: RTC_DCHECK
    | LeaveCheckDepth      //   RTC_DCHECK
    | LeaveLoad            //   the two halves of --recursion_
    | LeaveStore
    | LeaveTestDepth       //   is recursion_ zero?
    | LeaveClearOwner      //   owning_thread_ is cleared
    | LeaveQueue           //   lock_queue_ is decremented; is it still positive?
    | LeaveTestSignal      //   is recursion_ zero?
    | LeaveSignal          //   dispatch_semaphore_signal

  /**
   * The variables of a thread: `depth` is how often it has entered and not left, `register` what it has loaded of
   * recursion_, `spin` how often it will still try to get the lock without waiting, `result` what TryEnter returned last.
   */
  datatype Thread = Thread(pc: Pc, depth: nat, register: int, spin: int, result: bool)

  /** The fields. Thread t is referred to as t + 1, nobody as 0; the semaphore is the number of its tokens. */
  datatype Lock = Lock(lockQueue: int, owningThread: nat, recursion: int, semaphore: nat)

  datatype State = State(lock: Lock, threads: seq<Thread>)

  /** What a thread outside the methods may do. */
  datatype Call = CallEnter | CallTryEnter | CallLeave

  const SPINS: int := 3000

  /** Only the wait can block, and only a thread that has the lock may call Leave. */
  predicate Enabled(lock: Lock, thread: Thread, call: Call) {
    match thread.pc
    case Outside => call.CallLeave? ==> thread.depth > 0
    case EnterWait => lock.semaphore > 0
    case _ => true
  }

  /** The end of the body of Enter's loop. */
  function SpinAgain(thread: Thread): Thread {
    thread.(spin := thread.spin - 1, pc := if thread.spin - 1 != 0 then EnterTestOwner else EnterQueue)
  }

  /** One step of the thread referred to as `self`. */
  function Act(lock: Lock, self: nat, thread: Thread, call: Call): (Lock, Thread)
    requires Enabled(lock, thread, call)
  {
    match thread.pc
    case Outside =>
      (lock, match call
             case CallEnter => thread.(pc := EnterTestOwner, spin := SPINS)
             case CallTryEnter => thread.(pc := TryTestOwner)
             case CallLeave => thread.(pc := LeaveCheckOwner))
    case EnterTestOwner =>
      (lock, thread.(pc := if lock.owningThread != self then EnterLoadQueue else EnterNested))
    case EnterLoadQueue =>
      (lock, if lock.lockQueue == 0 then thread.(pc := EnterSwap) else SpinAgain(thread))
    case EnterSwap =>
      if lock.lockQueue == 0 then (lock.(lockQueue := 1), thread.(pc := EnterSetOwner)) else (lock, SpinAgain(thread))
    case EnterNested =>
      (lock.(lockQueue := lock.lockQueue + 1), thread.(pc := EnterSetOwner))
    case EnterQueue =>
      (lock.(lockQueue := lock.lockQueue + 1),
       thread.(pc := if lock.lockQueue + 1 > 1 then EnterCheckNotOwner else EnterSetOwner))
    case EnterCheckNotOwner => (lock, thread.(pc := EnterWait))
    case EnterWait => (lock.(semaphore := lock.semaphore - 1), thread.(pc := EnterCheckNoOwner))
    case EnterCheckNoOwner => (lock, thread.(pc := EnterCheckNoDepth))
    case EnterCheckNoDepth => (lock, thread.(pc := EnterSetOwner))
    case EnterSetOwner => (lock.(owningThread := self), thread.(pc := LoadRecursion))
    case LoadRecursion => (lock, thread.(register := lock.recursion, pc := StoreRecursion))
    case StoreRecursion =>
      (lock.(recursion := thread.register + 1), thread.(pc := Outside, depth := thread.depth + 1, result := true))
    case TryTestOwner =>
      (lock, thread.(pc := if lock.owningThread != self then TrySwap else TryNested))
    case TrySwap =>
      if lock.lockQueue != 0 then (lock, thread.(pc := Outside, result := false))
      else (lock.(lockQueue := 1), thread.(pc := TrySetOwner))
    case TrySetOwner => (lock.(owningThread := self), thread.(pc := TryCheckNoDepth))
    case TryCheckNoDepth => (lock, thread.(pc := LoadRecursion))
    case TryNested => (lock.(lockQueue := lock.lockQueue + 1), thread.(pc := LoadRecursion))
    case LeaveCheckOwner => (lock, thread.(pc := LeaveCheckDepth))
    case LeaveCheckDepth => (lock, thread.(pc := LeaveLoad))
    case LeaveLoad => (lock, thread.(register := lock.recursion, pc := LeaveStore))
    case LeaveStore => (lock.(recursion := thread.register - 1), thread.(pc := LeaveTestDepth))
    case LeaveTestDepth => (lock, thread.(pc := if lock.recursion == 0 then LeaveClearOwner else LeaveQueue))
    case LeaveClearOwner => (lock.(owningThread := 0), thread.(pc := LeaveQueue))
    case LeaveQueue =>
      (lock.(lockQueue := lock.lockQueue - 1),
       thread.(depth := if thread.depth > 0 then thread.depth - 1 else 0,
               pc := if lock.lockQueue - 1 > 0 then LeaveTestSignal else Outside))
    case LeaveTestSignal => (lock, thread.(pc := if lock.recursion == 0 then LeaveSignal else Outside))
    case LeaveSignal => (lock.(semaphore := lock.semaphore + 1), thread.(pc := Outside))
  }

  /** A step of thread t; threads that cannot step stay where they are. */
  function Step(s: State, t: nat, call: Call): (s': State)
    ensures |s'.threads| == |s.threads|
  {
    if t < |s.threads| && Enabled(s.lock, s.threads[t], call) then
      var (lock, thread) := Act(s.lock, t + 1, s.threads[t], call);
      State(lock, s.threads[t := thread])
    else s
  }

  /** A new lock and n threads. */
  function Initial(n: nat): State {
    State(Lock(0, 0, 0, 0), seq(n, _ => Thread(Outside, 0, 0, 0, false)))
  }

  /** The state after an interleaving, which says for each step what thread takes it. */
  function RunFrom(s: State, schedule: seq<(nat, Call)>): (s': State)
    ensures |s'.threads| == |s.threads|
  {
    if |schedule| == 0 then s
    else
      var last := schedule[|schedule| - 1];
      Step(RunFrom(s, schedule[..|schedule| - 1]), last.0, last.1)
  }

  function Run(n: nat, schedule: seq<(nat, Call)>): (s: State)
    ensures |s.threads| == n
  {
    RunFrom(Initial(n), schedule)
  }

  lemma {:induction false} RunOn(s: State, schedule: seq<(nat, Call)>, more: seq<(nat, Call)>)
    ensures RunFrom(s, schedule + more) == RunFrom(RunFrom(s, schedule), more)
  {
    if |more| == 0 {
      assert schedule + more == schedule;
    } else {
      RunOn(s, schedule, more[..|more| - 1]);
      assert (schedule + more)[..|schedule + more| - 1] == schedule + more[..|more| - 1];
    }
  }

  lemma RunStep(s: State, t: nat, call: Call, more: seq<(nat, Call)>)
    ensures RunFrom(s, [(t, call)] + more) == RunFrom(Step(s, t, call), more)
  {
    hide Step;
    var first := [(t, call)];
    assert first[..0] == [];
    assert RunFrom(s, []) == s;
    RunOn(s, first, more);
  }

  // ---------- what every step keeps ----------

  /** The thread has the lock to itself, or must hand it on before anybody else can have it. */
  predicate Holding(thread: Thread) {
    || thread.depth > 0
    || thread.pc in {EnterCheckNoOwner, EnterCheckNoDepth, EnterSetOwner, LoadRecursion, StoreRecursion,
                     TrySetOwner, TryCheckNoDepth, LeaveTestSignal, LeaveSignal}
  }

  /** The thread waits for the lock, or is about to. */
  predicate Waiting(thread: Thread) {
    thread.pc in {EnterCheckNotOwner, EnterWait}
  }

  /** How often the thread is counted in lock_queue_. */
  function Weight(thread: Thread): nat {
    match thread.pc
    case EnterCheckNotOwner | EnterWait | EnterCheckNoOwner | EnterCheckNoDepth | TrySetOwner | TryCheckNoDepth => 1
    case EnterSetOwner | LoadRecursion | StoreRecursion => thread.depth + 1
    case _ => thread.depth
  }

  /** Whether owning_thread_ refers to the thread, if it has the lock. */
  predicate Owning(thread: Thread) {
    match thread.pc
    case LoadRecursion | StoreRecursion | TryCheckNoDepth => true
    case LeaveClearOwner => true
    case LeaveQueue => thread.depth > 1
    case _ => thread.depth > 0
  }

  /** The value of recursion_, if the thread has the lock. */
  function Recursion(thread: Thread): int {
    match thread.pc
    case LeaveTestDepth | LeaveClearOwner | LeaveQueue => thread.depth - 1
    case _ => thread.depth
  }

  /** How deep a thread can be where it is. */
  predicate DepthFits(thread: Thread) {
    match thread.pc
    case EnterLoadQueue | EnterSwap | EnterQueue | EnterCheckNotOwner | EnterWait | EnterCheckNoOwner | EnterCheckNoDepth
       | TrySwap | TrySetOwner | TryCheckNoDepth | LeaveSignal => thread.depth == 0
    case EnterNested | TryNested => thread.depth > 0
    case LeaveCheckOwner | LeaveCheckDepth | LeaveLoad | LeaveStore | LeaveTestDepth | LeaveQueue => thread.depth > 0
    case LeaveClearOwner => thread.depth == 1
    case _ => true
  }

  /** What the fields say about a thread that has the lock. */
  predicate Agrees(lock: Lock, self: nat, thread: Thread) {
    && lock.owningThread == (if Owning(thread) then self else 0)
    && lock.recursion == Recursion(thread)
    && (thread.pc in {StoreRecursion, LeaveStore} ==> thread.register == lock.recursion)
  }

  function Weights(threads: seq<Thread>): nat {
    if |threads| == 0 then 0 else Weights(threads[..|threads| - 1]) + Weight(threads[|threads| - 1])
  }

  function Holders(threads: seq<Thread>): nat {
    if |threads| == 0 then 0
    else Holders(threads[..|threads| - 1]) + (if Holding(threads[|threads| - 1]) then 1 else 0)
  }

  ghost predicate Invariant(s: State) {
    && s.lock.lockQueue == Weights(s.threads)
    && s.lock.semaphore + Holders(s.threads) == (if s.lock.lockQueue > 0 then 1 else 0)
    && (Holders(s.threads) == 0 ==> s.lock.owningThread == 0 && s.lock.recursion == 0)
    && forall t: nat | t < |s.threads| ::
         DepthFits(s.threads[t]) && (Holding(s.threads[t]) ==> Agrees(s.lock, t + 1, s.threads[t]))
  }

  lemma {:induction false} Update(threads: seq<Thread>, t: nat, thread: Thread)
    requires t < |threads|
    ensures Weights(threads[t := thread]) == Weights(threads) - Weight(threads[t]) + Weight(thread)
    ensures Weight(threads[t]) <= Weights(threads)
    ensures Holders(threads[t := thread])
            == Holders(threads) - (if Holding(threads[t]) then 1 else 0) + (if Holding(thread) then 1 else 0)
    ensures Holding(threads[t]) ==> Holders(threads) > 0
  {
    hide Weight, Holding;
    var n := |threads| - 1;
    if t < n {
      Update(threads[..n], t, thread);
      assert threads[t := thread][..n] == threads[..n][t := thread];
    } else {
      assert threads[t := thread][..n] == threads[..n];
    }
  }

  lemma Two(threads: seq<Thread>, t: nat, u: nat)
    requires t < |threads| && u < |threads| && t != u && Holding(threads[t]) && Holding(threads[u])
    ensures Holders(threads) >= 2
  {
    hide Weight;
    var idle := Thread(Outside, 0, 0, 0, false);
    Update(threads, t, idle);
    Update(threads[t := idle], u, idle);
  }

  lemma {:induction false} NobodyYet(n: nat)
    ensures Invariant(Initial(n))
  {
    var threads := Initial(n).threads;
    Nothing(threads);
  }

  lemma {:induction false} Nothing(threads: seq<Thread>)
    requires forall t | 0 <= t < |threads| :: threads[t] == Thread(Outside, 0, 0, 0, false)
    ensures Weights(threads) == 0 && Holders(threads) == 0
  {
    if |threads| > 0 {
      Nothing(threads[..|threads| - 1]);
    }
  }

  /** Somebody has the lock if anybody is counted to have it. */
  lemma {:induction false} FindHolder(threads: seq<Thread>) returns (h: nat)
    requires Holders(threads) > 0
    ensures h < |threads| && Holding(threads[h])
  {
    hide Holding;
    h := |threads| - 1;
    if !Holding(threads[h]) {
      h := FindHolder(threads[..h]);
    }
  }

  /** What a thread can rely on when it takes a step. */
  ghost predicate Local(lock: Lock, self: nat, thread: Thread) {
    && self > 0 && DepthFits(thread) && (Holding(thread) ==> Agrees(lock, self, thread))
    && Weight(thread) <= lock.lockQueue
    && lock.semaphore + (if Holding(thread) then 1 else 0) <= (if lock.lockQueue > 0 then 1 else 0)
    && (lock.owningThread == self ==> Holding(thread) && Owning(thread))
    && (!Holding(thread) && (lock.lockQueue == 0 || lock.semaphore > 0) ==>
          lock.owningThread == 0 && lock.recursion == 0)
  }

  lemma InvariantIsLocal(s: State, t: nat)
    requires Invariant(s) && t < |s.threads|
    ensures Local(s.lock, t + 1, s.threads[t])
  {
    hide Weight, Holding, Recursion, DepthFits;
    Update(s.threads, t, s.threads[t]);
    if Holders(s.threads) > 0 {
      var h := FindHolder(s.threads);
    }
  }

  /** In Enter, or in the part of TryEnter that is the same. */
  predicate InEnter(thread: Thread) {
    thread.pc in {EnterTestOwner, EnterLoadQueue, EnterSwap, EnterNested, EnterQueue, EnterCheckNotOwner, EnterWait,
                  EnterCheckNoOwner, EnterCheckNoDepth, EnterSetOwner, LoadRecursion, StoreRecursion}
  }

  /** What a step does to the thread that takes it and to the fields; from Enter it returns one level deeper. */
  ghost predicate Sound(lock: Lock, self: nat, thread: Thread, lock': Lock, thread': Thread) {
    && DepthFits(thread')
    && (InEnter(thread) && !InEnter(thread') ==> thread'.pc.Outside? && thread'.depth == thread.depth + 1)
    && lock'.lockQueue == lock.lockQueue - Weight(thread) + Weight(thread')
    && (Holding(thread') ==> Agrees(lock', self, thread'))
    && (!Holding(thread) && !Holding(thread') ==>
          lock'.owningThread == lock.owningThread && lock'.recursion == lock.recursion)
    && (Holding(thread) && !Holding(thread') ==> lock'.owningThread == 0 && lock'.recursion == 0)
    && lock'.semaphore + (if Holding(thread') then 1 else 0) - (if lock'.lockQueue > 0 then 1 else 0)
       == lock.semaphore + (if Holding(thread) then 1 else 0) - (if lock.lockQueue > 0 then 1 else 0)
  }

  lemma StepOfEnter(lock: Lock, self: nat, thread: Thread, call: Call)
    requires Local(lock, self, thread) && Enabled(lock, thread, call)
    requires thread.pc in {Outside, EnterTestOwner, EnterLoadQueue, EnterSwap, EnterNested, EnterQueue,
                           EnterCheckNotOwner, EnterWait, EnterCheckNoOwner, EnterCheckNoDepth, EnterSetOwner}
    ensures var (lock', thread') := Act(lock, self, thread, call); Sound(lock, self, thread, lock', thread')
  {
    hide Waiting;
  }

  lemma StepOfTryEnter(lock: Lock, self: nat, thread: Thread, call: Call)
    requires Local(lock, self, thread) && Enabled(lock, thread, call)
    requires thread.pc in {LoadRecursion, StoreRecursion, TryTestOwner, TrySwap, TrySetOwner, TryCheckNoDepth, TryNested}
    ensures var (lock', thread') := Act(lock, self, thread, call); Sound(lock, self, thread, lock', thread')
  {
    hide Waiting, SpinAgain;
  }

  lemma StepOfLeave(lock: Lock, self: nat, thread: Thread, call: Call)
    requires Local(lock, self, thread) && Enabled(lock, thread, call)
    requires thread.pc in {LeaveCheckOwner, LeaveCheckDepth, LeaveLoad, LeaveStore, LeaveTestDepth, LeaveClearOwner}
    ensures var (lock', thread') := Act(lock, self, thread, call); Sound(lock, self, thread, lock', thread')
  {
    hide Waiting, SpinAgain;
  }

  lemma StepOfHandingOn(lock: Lock, self: nat, thread: Thread, call: Call)
    requires Local(lock, self, thread) && Enabled(lock, thread, call)
    requires thread.pc in {LeaveQueue, LeaveTestSignal, LeaveSignal}
    ensures var (lock', thread') := Act(lock, self, thread, call); Sound(lock, self, thread, lock', thread')
  {
    hide Waiting, SpinAgain;
  }

  lemma StepIsSound(lock: Lock, self: nat, thread: Thread, call: Call)
    requires Local(lock, self, thread) && Enabled(lock, thread, call)
    ensures var (lock', thread') := Act(lock, self, thread, call); Sound(lock, self, thread, lock', thread')
  {
    hide Local, Enabled, Act, Sound;
    match thread.pc
    case Outside | EnterTestOwner | EnterLoadQueue | EnterSwap | EnterNested | EnterQueue | EnterCheckNotOwner
       | EnterWait | EnterCheckNoOwner | EnterCheckNoDepth | EnterSetOwner => StepOfEnter(lock, self, thread, call);
    case LoadRecursion | StoreRecursion | TryTestOwner | TrySwap | TrySetOwner | TryCheckNoDepth | TryNested =>
      StepOfTryEnter(lock, self, thread, call);
    case LeaveQueue | LeaveTestSignal | LeaveSignal => StepOfHandingOn(lock, self, thread, call);
    case _ => StepOfLeave(lock, self, thread, call);
  }

  lemma Preserved(s: State, t: nat, call: Call)
    requires Invariant(s)
    ensures Invariant(Step(s, t, call))
  {
    hide Act, DepthFits, Agrees, Weight, Holding, Enabled, InEnter;
    if t < |s.threads| && Enabled(s.lock, s.threads[t], call) {
      InvariantIsLocal(s, t);
      StepIsSound(s.lock, t + 1, s.threads[t], call);
      var (lock, thread) := Act(s.lock, t + 1, s.threads[t], call);
      Update(s.threads, t, thread);
      var threads := s.threads[t := thread];
      forall u: nat | u < |threads|
        ensures DepthFits(threads[u]) && (Holding(threads[u]) ==> Agrees(lock, u + 1, threads[u]))
      {
        if u != t && Holding(threads[u]) {
          Others(s, t, u, lock, thread);
        }
      }
    }
  }

  /** While another thread has the lock, a step leaves the two fields alone that speak about the owner. */
  lemma Others(s: State, t: nat, u: nat, lock: Lock, thread: Thread)
    requires Invariant(s) && t < |s.threads| && u < |s.threads| && t != u && Holding(s.threads[u])
    requires !Holding(s.threads[t]) && !Holding(thread) ==>
               lock.owningThread == s.lock.owningThread && lock.recursion == s.lock.recursion
    requires lock.semaphore + (if Holding(thread) then 1 else 0) - (if lock.lockQueue > 0 then 1 else 0)
             == s.lock.semaphore + (if Holding(s.threads[t]) then 1 else 0) - (if s.lock.lockQueue > 0 then 1 else 0)
    ensures Agrees(lock, u + 1, s.threads[u])
  {
    hide Weight, Holding;
    if Holding(s.threads[t]) {
      Two(s.threads, t, u);
    }
    Update(s.threads, u, s.threads[u]);
  }

  lemma {:induction false} RunKeeps(s: State, schedule: seq<(nat, Call)>)
    requires Invariant(s)
    ensures Invariant(RunFrom(s, schedule))
  {
    hide Invariant, Step;
    if |schedule| > 0 {
      var before, last := schedule[..|schedule| - 1], schedule[|schedule| - 1];
      RunKeeps(s, before);
      Preserved(RunFrom(s, before), last.0, last.1);
    }
  }

  /** Every interleaving of any number of threads keeps the invariant. */
  lemma Reachable(n: nat, schedule: seq<(nat, Call)>)
    ensures Invariant(Run(n, schedule))
  {
    NobodyYet(n);
    RunKeeps(Initial(n), schedule);
  }

  // ---------- the calls and returns of a thread ----------

  /**
   * What somebody knows about a thread who sees when it makes a call and when that returns, and the fields: how often it
   * has got the lock and not given it back (`held`, counted at the returns), the call it is in or was in last, and about
   * that call whether the thread owned the lock before, whether it has changed lock_queue_ from 0 to 1 since, and how
   * many steps it has taken.
   */
  datatype History = History(held: int, call: Call, owned: bool, took: bool, steps: nat)

  /** What a call that returns adds to the number of times the lock is held. */
  function Effect(call: Call, result: bool): int {
    match call
    case CallEnter => 1
    case CallTryEnter => if result then 1 else 0
    case CallLeave => -1
  }

  /** One more step of the thread. */
  function Observe(past: History, self: nat, call: Call, lock: Lock, thread: Thread,
                   lock': Lock, thread': Thread): History
  {
    if thread.pc.Outside? then History(past.held, call, lock.owningThread == self, false, 1)
    else
      past.(held := past.held + if thread'.pc.Outside? then Effect(past.call, thread'.result) else 0,
            took := past.took || (lock.lockQueue == 0 && lock'.lockQueue == 1),
            steps := past.steps + 1)
  }

  function Past(n: nat, schedule: seq<(nat, Call)>, t: nat): History
    requires t < n
  {
    if |schedule| == 0 then History(0, CallEnter, false, false, 0)
    else
      var before, last := schedule[..|schedule| - 1], schedule[|schedule| - 1];
      var s, s', past := Run(n, before), Run(n, schedule), Past(n, before, t);
      if last.0 == t && Enabled(s.lock, s.threads[t], last.1) then
        Observe(past, t + 1, last.1, s.lock, s.threads[t], s'.lock, s'.threads[t])
      else past
  }

  /** What a thread's place says about the call it is in. */
  predicate InCall(thread: Thread, past: History) {
    match thread.pc
    case Outside => past.call.CallTryEnter? ==> (thread.result <==> past.took || past.owned)
    case EnterTestOwner | EnterLoadQueue | EnterSwap | EnterNested | EnterQueue | EnterCheckNotOwner | EnterWait
       | EnterCheckNoOwner | EnterCheckNoDepth | EnterSetOwner => past.call.CallEnter?
    case LoadRecursion | StoreRecursion =>
      past.call.CallEnter? || (past.call.CallTryEnter? && (past.took || past.owned))
    case TryTestOwner => past.call.CallTryEnter? && !past.took && (past.owned <==> thread.depth > 0)
    case TrySwap => past.call.CallTryEnter? && !past.took && !past.owned
    case TrySetOwner | TryCheckNoDepth => past.call.CallTryEnter? && past.took
    case TryNested => past.call.CallTryEnter? && past.owned
    case _ => past.call.CallLeave?
  }

  /** How many steps, itself included, a call can take. */
  function MostSteps(call: Call): nat {
    match call
    case CallEnter => 9009
    case CallTryEnter => 7
    case CallLeave => 10
  }

  /** How many steps the thread can have taken since the call: up to three for every round of Enter's loop. */
  predicate StepsFit(thread: Thread, past: History) {
    var rounds := SPINS - thread.spin;
    match thread.pc
    case Outside => past.steps <= MostSteps(past.call)
    case EnterTestOwner => 0 <= rounds < SPINS && 2 * rounds < past.steps <= 3 * rounds + 1
    case EnterLoadQueue => 0 <= rounds < SPINS && 2 * rounds + 1 < past.steps <= 3 * rounds + 2
    case EnterSwap => 0 <= rounds < SPINS && 2 * rounds + 2 < past.steps <= 3 * rounds + 3
    case EnterNested => past.steps <= 9000
    case EnterQueue => 6000 < past.steps <= 9001
    case EnterCheckNotOwner => 6001 < past.steps <= 9002
    case EnterWait => 6002 < past.steps <= 9003
    case EnterCheckNoOwner => past.steps <= 9004
    case EnterCheckNoDepth => past.steps <= 9005
    case EnterSetOwner => past.steps <= 9006
    case LoadRecursion => past.steps <= if past.call.CallEnter? then 9007 else 5
    case StoreRecursion => past.steps <= if past.call.CallEnter? then 9008 else 6
    case TryTestOwner | LeaveCheckOwner => past.steps == 1
    case TrySwap | TryNested | LeaveCheckDepth => past.steps == 2
    case TrySetOwner | LeaveLoad => past.steps == 3
    case TryCheckNoDepth | LeaveStore => past.steps == 4
    case LeaveTestDepth => past.steps == 5
    case LeaveClearOwner => past.steps == 6
    case LeaveQueue => past.steps <= 7
    case LeaveTestSignal => past.steps <= 8
    case LeaveSignal => past.steps <= 9
  }

  /** What the thread's variables have to do with its calls and returns. */
  predicate Matches(thread: Thread, past: History) {
    && InCall(thread, past) && StepsFit(thread, past)
    && past.held == thread.depth + (if thread.pc in {LeaveTestSignal, LeaveSignal} then 1 else 0)
  }

  lemma SpinMatches(lock: Lock, self: nat, thread: Thread, call: Call, past: History)
    requires Local(lock, self, thread) && Enabled(lock, thread, call) && Matches(thread, past)
    requires thread.pc in {EnterTestOwner, EnterLoadQueue, EnterSwap}
    ensures var (lock', thread') := Act(lock, self, thread, call);
            Matches(thread', Observe(past, self, call, lock, thread, lock', thread'))
  {
    hide Weight, Recursion;
  }

  lemma EnterMatches(lock: Lock, self: nat, thread: Thread, call: Call, past: History)
    requires Local(lock, self, thread) && Enabled(lock, thread, call) && Matches(thread, past)
    requires thread.pc in {EnterNested, EnterQueue, EnterCheckNotOwner, EnterWait, EnterCheckNoOwner, EnterCheckNoDepth,
                           EnterSetOwner, LoadRecursion, StoreRecursion}
    ensures var (lock', thread') := Act(lock, self, thread, call);
            Matches(thread', Observe(past, self, call, lock, thread, lock', thread'))
  {
    hide Weight, Recursion, SpinAgain;
  }

  lemma TryEnterMatches(lock: Lock, self: nat, thread: Thread, call: Call, past: History)
    requires Local(lock, self, thread) && Enabled(lock, thread, call) && Matches(thread, past)
    requires thread.pc in {Outside, TryTestOwner, TrySwap, TrySetOwner, TryCheckNoDepth, TryNested}
    ensures var (lock', thread') := Act(lock, self, thread, call);
            Matches(thread', Observe(past, self, call, lock, thread, lock', thread'))
  {
    hide Weight, Recursion, SpinAgain;
  }

  lemma LeaveMatches(lock: Lock, self: nat, thread: Thread, call: Call, past: History)
    requires Local(lock, self, thread) && Enabled(lock, thread, call) && Matches(thread, past)
    requires thread.pc in {LeaveCheckOwner, LeaveCheckDepth, LeaveLoad, LeaveStore, LeaveTestDepth, LeaveClearOwner}
    ensures var (lock', thread') := Act(lock, self, thread, call);
            Matches(thread', Observe(past, self, call, lock, thread, lock', thread'))
  {
    hide Weight, Recursion, SpinAgain, Holding, Owning, Agrees;
  }

  lemma HandingOnMatches(lock: Lock, self: nat, thread: Thread, call: Call, past: History)
    requires Local(lock, self, thread) && Enabled(lock, thread, call) && Matches(thread, past)
    requires thread.pc in {LeaveQueue, LeaveTestSignal, LeaveSignal}
    ensures var (lock', thread') := Act(lock, self, thread, call);
            Matches(thread', Observe(past, self, call, lock, thread, lock', thread'))
  {
    hide Weight, Recursion, SpinAgain, Holding, Owning, Agrees;
  }

  lemma StepMatches(lock: Lock, self: nat, thread: Thread, call: Call, past: History)
    requires Local(lock, self, thread) && Enabled(lock, thread, call) && Matches(thread, past)
    ensures var (lock', thread') := Act(lock, self, thread, call);
            Matches(thread', Observe(past, self, call, lock, thread, lock', thread'))
  {
    hide Local, Enabled, Matches, Act, Observe;
    match thread.pc
    case EnterTestOwner | EnterLoadQueue | EnterSwap => SpinMatches(lock, self, thread, call, past);
    case EnterNested | EnterQueue | EnterCheckNotOwner | EnterWait | EnterCheckNoOwner | EnterCheckNoDepth
       | EnterSetOwner | LoadRecursion | StoreRecursion => EnterMatches(lock, self, thread, call, past);
    case Outside | TryTestOwner | TrySwap | TrySetOwner | TryCheckNoDepth | TryNested =>
      TryEnterMatches(lock, self, thread, call, past);
    case LeaveQueue | LeaveTestSignal | LeaveSignal => HandingOnMatches(lock, self, thread, call, past);
    case _ => LeaveMatches(lock, self, thread, call, past);
  }

  /** The step of another thread, or of none. */
  lemma OtherStep(s: State, t: nat, u: nat, call: Call)
    requires t < |s.threads| && (u != t || !Enabled(s.lock, s.threads[t], call))
    ensures Step(s, u, call).threads[t] == s.threads[t]
  {
    hide Act, Enabled;
  }

  lemma {:induction false} PastMatches(n: nat, schedule: seq<(nat, Call)>, t: nat)
    requires t < n
    ensures Matches(Run(n, schedule).threads[t], Past(n, schedule, t))
  {
    hide Act, Enabled, Observe, Matches, Invariant, Local;
    if |schedule| == 0 {
      AtFirst();
    } else {
      var before, last := schedule[..|schedule| - 1], schedule[|schedule| - 1];
      PastMatches(n, before, t);
      var s, past := Run(n, before), Past(n, before, t);
      if last.0 == t && Enabled(s.lock, s.threads[t], last.1) {
        Reachable(n, before);
        InvariantIsLocal(s, t);
        StepMatches(s.lock, t + 1, s.threads[t], last.1, past);
      } else {
        OtherStep(s, t, last.0, last.1);
      }
    }
  }

  lemma AtFirst()
    ensures Matches(Thread(Outside, 0, 0, 0, false), History(0, CallEnter, false, false, 0))
  {
  }

  // ---------- what that means ----------

  /**
   * Outside the methods, a thread's depth is how often its calls of Enter and successful calls of TryEnter have returned,
   * less its calls of Leave. While it is in a call, the depth is still what it was before, or that of Leave already what
   * it will be.
   */
  lemma DepthIsHeld(n: nat, schedule: seq<(nat, Call)>, t: nat)
    requires t < n
    ensures var thread, past := Run(n, schedule).threads[t], Past(n, schedule, t);
            && past.held >= 0
            && (thread.pc.Outside? ==> thread.depth == past.held)
            && (thread.depth == past.held || (past.call.CallLeave? && thread.depth == past.held - 1))
  {
    PastMatches(n, schedule, t);
  }

  /** How often a thread has the lock, counting a call of Leave from its start. */
  function Inside(n: nat, schedule: seq<(nat, Call)>, t: nat): int
    requires t < n
  {
    var past := Past(n, schedule, t);
    past.held - if past.call.CallLeave? && !Run(n, schedule).threads[t].pc.Outside? then 1 else 0
  }

  /** From the return of Enter to the call of the matching Leave no other thread is there, for all interleavings. */
  lemma MutualExclusion(n: nat, schedule: seq<(nat, Call)>, t: nat, u: nat)
    requires t < n && u < n && t != u
    ensures !(Run(n, schedule).threads[t].depth > 0 && Run(n, schedule).threads[u].depth > 0)
    ensures !(Inside(n, schedule, t) > 0 && Inside(n, schedule, u) > 0)
  {
    hide Act, Weight, Matches;
    var s := Run(n, schedule);
    Reachable(n, schedule);
    if Inside(n, schedule, t) > 0 && Inside(n, schedule, u) > 0 {
      InsideIsDeep(n, schedule, t);
      InsideIsDeep(n, schedule, u);
    }
    if s.threads[t].depth > 0 && s.threads[u].depth > 0 {
      Two(s.threads, t, u);
      assert false;
    }
  }

  lemma InsideIsDeep(n: nat, schedule: seq<(nat, Call)>, t: nat)
    requires t < n && Inside(n, schedule, t) > 0
    ensures Run(n, schedule).threads[t].depth > 0
  {
    PastMatches(n, schedule, t);
  }

  /** A thread outside the methods owns the lock exactly if it has entered more often than left: recursion_ times. */
  lemma OwnerIsRight(n: nat, schedule: seq<(nat, Call)>, t: nat)
    requires t < n && Run(n, schedule).threads[t].pc.Outside?
    ensures var lock, held := Run(n, schedule).lock, Past(n, schedule, t).held;
            && (lock.owningThread == t + 1 <==> held > 0)
            && (lock.owningThread == t + 1 ==> lock.recursion == held)
            && lock.lockQueue >= held
  {
    hide Matches;
    Reachable(n, schedule);
    InvariantIsLocal(Run(n, schedule), t);
    DepthIsHeld(n, schedule, t);
  }

  /**
   * What calls have done when they return, in any interleaving. Enter: the thread has the lock once more. TryEnter: the
   * same if it succeeds, which it does exactly if the thread owned the lock before or has found lock_queue_ zero; when it
   * fails, lock_queue_ is not zero and another thread, or none, owns the lock. Leave: the thread has the lock once less.
   */
  lemma Returns(n: nat, schedule: seq<(nat, Call)>, t: nat, call: Call)
    requires t < n
    requires !Run(n, schedule).threads[t].pc.Outside? && Run(n, schedule + [(t, call)]).threads[t].pc.Outside?
    ensures var s, past := Run(n, schedule + [(t, call)]), Past(n, schedule, t);
            var past' := Past(n, schedule + [(t, call)], t);
            var got := past.call.CallEnter? || (past.call.CallTryEnter? && s.threads[t].result);
            && s.threads[t].depth == past'.held
            && past'.held == past.held + (if got then 1 else if past.call.CallLeave? then -1 else 0)
            && (got ==> s.lock.owningThread == t + 1 && s.lock.recursion == past.held + 1)
            && (past.call.CallTryEnter? ==> (got <==> past'.owned || past'.took))
            && (past.call.CallTryEnter? && !got ==>
                  s.lock.lockQueue != 0 && s.lock.owningThread != t + 1 && past'.held == 0)
  {
    hide Matches, Act, Invariant, Local;
    var all := schedule + [(t, call)];
    assert all[..|all| - 1] == schedule;
    var s, past := Run(n, schedule), Past(n, schedule, t);
    PastMatches(n, schedule, t);
    PastMatches(n, all, t);
    DepthIsHeld(n, schedule, t);
    DepthIsHeld(n, all, t);
    OwnerIsRight(n, all, t);
    Reachable(n, schedule);
    InvariantIsLocal(s, t);
    if past.call.CallTryEnter? {
      StepReturns(s.lock, t + 1, s.threads[t], call, past);
    }
  }

  lemma StepReturns(lock: Lock, self: nat, thread: Thread, call: Call, past: History)
    requires Local(lock, self, thread) && Enabled(lock, thread, call) && Matches(thread, past)
    requires !thread.pc.Outside? && Act(lock, self, thread, call).1.pc.Outside? && past.call.CallTryEnter?
    ensures var (lock', thread') := Act(lock, self, thread, call);
            var past' := Observe(past, self, call, lock, thread, lock', thread');
            && (thread'.result <==> past'.owned || past'.took)
            && (!thread'.result ==> lock'.lockQueue != 0 && thread'.depth == 0)
  {
    hide Weight, SpinAgain;
  }

  /**
   * How long calls take: at no time has a call of Enter taken more than 9009 steps, one of TryEnter more than 7, one of
   * Leave more than 10, whatever the other threads do in between. So a call that does not return is one of Enter that
   * waits, and before a thread waits it has gone through all rounds of the loop.
   */
  lemma CallsAreShort(n: nat, schedule: seq<(nat, Call)>, t: nat)
    requires t < n
    ensures var thread, past := Run(n, schedule).threads[t], Past(n, schedule, t);
            && past.steps <= (if past.call.CallEnter? then 9009 else if past.call.CallTryEnter? then 7 else 10)
            && (Waiting(thread) ==> past.call.CallEnter? && past.steps > 6000 && past.held == 0)
  {
    hide Matches, Waiting, Invariant, Act;
    Reachable(n, schedule);
    InvariantIsLocal(Run(n, schedule), t);
    PastMatches(n, schedule, t);
    StepsTaken(Run(n, schedule).threads[t], Past(n, schedule, t));
  }

  lemma StepsTaken(thread: Thread, past: History)
    requires Matches(thread, past) && DepthFits(thread)
    ensures past.steps <= (if past.call.CallEnter? then 9009 else if past.call.CallTryEnter? then 7 else 10)
    ensures Waiting(thread) ==> past.call.CallEnter? && past.steps > 6000 && past.held == 0
  {
  }

  /** The thread has got the lock but has not yet counted that in recursion_. */
  predicate Acquiring(thread: Thread) {
    thread.pc in {EnterCheckNoOwner, EnterCheckNoDepth, EnterSetOwner, TrySetOwner, TryCheckNoDepth, LoadRecursion,
                  StoreRecursion}
  }

  function Waiters(threads: seq<Thread>): nat {
    if |threads| == 0 then 0
    else Waiters(threads[..|threads| - 1]) + (if Waiting(threads[|threads| - 1]) then 1 else 0)
  }

  function Acquirers(threads: seq<Thread>): nat {
    if |threads| == 0 then 0
    else Acquirers(threads[..|threads| - 1]) + (if Acquiring(threads[|threads| - 1]) then 1 else 0)
  }

  function Depths(threads: seq<Thread>): nat {
    if |threads| == 0 then 0 else Depths(threads[..|threads| - 1]) + threads[|threads| - 1].depth
  }

  lemma {:induction false} WeightsCount(threads: seq<Thread>)
    requires forall t | 0 <= t < |threads| :: DepthFits(threads[t])
    ensures Weights(threads) == Depths(threads) + Waiters(threads) + Acquirers(threads)
    ensures Acquirers(threads) <= Holders(threads)
  {
    if |threads| > 0 {
      WeightsCount(threads[..|threads| - 1]);
    }
  }

  /**
   * The comment on lock_queue_: at any time it is the number of times the lock is held, the number of threads that wait
   * for it, and one more while a thread has just got it and not yet counted that.
   */
  lemma QueueCounts(n: nat, schedule: seq<(nat, Call)>)
    ensures var s := Run(n, schedule);
            && s.lock.lockQueue == Depths(s.threads) + Waiters(s.threads) + Acquirers(s.threads)
            && Acquirers(s.threads) <= 1
  {
    Reachable(n, schedule);
    WeightsCount(Run(n, schedule).threads);
  }

  /**
   * No wakeup is lost: if a thread waits while no thread has the lock or is about to hand it on, the semaphore has
   * exactly one token, and no more than one in any case.
   */
  lemma NoLostWakeup(n: nat, schedule: seq<(nat, Call)>, t: nat)
    requires t < |Run(n, schedule).threads| && Waiting(Run(n, schedule).threads[t])
    ensures var s := Run(n, schedule);
            && s.lock.semaphore <= 1
            && (s.lock.semaphore == 1 <==> forall u: nat | u < |s.threads| :: !Holding(s.threads[u]))
            && (s.lock.owningThread == 0 && s.lock.semaphore == 0 ==>
                  exists u: nat :: u < |s.threads| && Holding(s.threads[u]) && !Owning(s.threads[u]))
  {
    hide Weights, Holding;
    var s := Run(n, schedule);
    Reachable(n, schedule);
    InvariantIsLocal(s, t);
    if s.lock.semaphore == 1 {
      forall u: nat | u < |s.threads| ensures !Holding(s.threads[u]) {
        Update(s.threads, u, s.threads[u]);
      }
    } else {
      var h := FindHolder(s.threads);
    }
  }

  /** If a thread waits, some thread can go on: a waiting one, or the one that has the lock, if need be by leaving it. */
  lemma Progress(n: nat, schedule: seq<(nat, Call)>, t: nat) returns (u: nat, call: Call)
    requires t < |Run(n, schedule).threads| && Waiting(Run(n, schedule).threads[t])
    ensures var s := Run(n, schedule);
            && u < |s.threads| && Enabled(s.lock, s.threads[u], call)
            && (Holding(s.threads[u]) || Waiting(s.threads[u]))
  {
    hide Weights, Act;
    var s := Run(n, schedule);
    Reachable(n, schedule);
    InvariantIsLocal(s, t);
    if s.lock.semaphore == 1 {
      u, call := t, CallEnter;
    } else {
      u := FindHolder(s.threads);
      call := CallLeave;
    }
  }

  /** How many steps at most a thread that has the lock is away from having given it up, if it makes straight for that. */
  function ToLeave(thread: Thread): int {
    10 * thread.depth
    + match thread.pc
      case EnterTestOwner | EnterCheckNoOwner => 15
      case EnterNested | EnterCheckNoDepth | TrySetOwner | TryTestOwner => 14
      case EnterSetOwner | TryCheckNoDepth | TryNested => 13
      case LoadRecursion => 12
      case StoreRecursion => 11
      case LeaveCheckOwner => -1
      case LeaveCheckDepth => -2
      case LeaveLoad => -3
      case LeaveStore => -4
      case LeaveTestDepth => -5
      case LeaveClearOwner => -6
      case LeaveQueue => -7
      case LeaveTestSignal => 2
      case LeaveSignal => 1
      case _ => 0
  }

  lemma StepToLeave(lock: Lock, self: nat, thread: Thread)
    requires Local(lock, self, thread) && Holding(thread)
    ensures Enabled(lock, thread, CallLeave)
    ensures 0 <= ToLeave(Act(lock, self, thread, CallLeave).1) < ToLeave(thread)
  {
    hide Waiting, Weight;
  }

  /** A thread that has the lock gives it up if it makes straight for that, and nobody else has to move. */
  lemma {:induction false} GiveUp(s: State, h: nat) returns (more: seq<(nat, Call)>)
    requires Invariant(s) && h < |s.threads| && Holding(s.threads[h])
    ensures |more| <= ToLeave(s.threads[h]) && forall i | 0 <= i < |more| :: more[i].0 == h
    ensures var s' := RunFrom(s, more);
            Invariant(s') && !Holding(s'.threads[h]) && s'.threads == s.threads[h := s'.threads[h]]
    decreases ToLeave(s.threads[h])
  {
    hide Invariant, Act, Holding, ToLeave, Local, RunFrom, Enabled;
    InvariantIsLocal(s, h);
    StepToLeave(s.lock, h + 1, s.threads[h]);
    Preserved(s, h, CallLeave);
    var next := Step(s, h, CallLeave);
    if Holding(next.threads[h]) {
      var rest := GiveUp(next, h);
      more := [(h, CallLeave)] + rest;
      RunStep(s, h, CallLeave, rest);
    } else {
      more := [(h, CallLeave)] + [];
      RunStep(s, h, CallLeave, []);
      NoSteps(next);
    }
  }

  lemma NoSteps(s: State)
    ensures RunFrom(s, []) == s
  {
  }

  /** How many steps a thread that can get the lock is away from having it. */
  function ToEnter(thread: Thread): nat {
    match thread.pc
    case EnterCheckNotOwner => 7
    case EnterWait | EnterTestOwner | TryTestOwner => 6
    case EnterLoadQueue | EnterCheckNoOwner | TrySwap => 5
    case EnterSwap | EnterNested | EnterCheckNoDepth | TrySetOwner => 4
    case EnterSetOwner | TryCheckNoDepth | TryNested => 3
    case LoadRecursion => 2
    case StoreRecursion => 1
    case _ => 0
  }

  /** In Enter or TryEnter, with nothing in the way: the lock is free or the thread's own, or it has a token to take. */
  predicate Entering(lock: Lock, self: nat, thread: Thread) {
    && ToEnter(thread) > 0 && (Waiting(thread) ==> lock.semaphore > 0)
    && (thread.pc in {EnterTestOwner, TryTestOwner} ==> lock.lockQueue == 0 || lock.owningThread == self)
    && (thread.pc in {EnterLoadQueue, EnterSwap, TrySwap} ==> lock.lockQueue == 0)
  }

  lemma StepToEnter(lock: Lock, self: nat, thread: Thread, call: Call)
    requires Entering(lock, self, thread)
    ensures Enabled(lock, thread, call)
    ensures var (lock', thread') := Act(lock, self, thread, call);
            && ToEnter(thread') < ToEnter(thread)
            && if ToEnter(thread') > 0 then Entering(lock', self, thread') && thread'.depth == thread.depth
               else thread'.pc.Outside? && thread'.depth == thread.depth + 1 && thread'.result
  {
    hide SpinAgain;
  }

  lemma {:induction false} GetIn(s: State, t: nat, call: Call) returns (more: seq<(nat, Call)>)
    requires t < |s.threads| && Entering(s.lock, t + 1, s.threads[t])
    ensures |more| <= ToEnter(s.threads[t]) && forall i | 0 <= i < |more| :: more[i].0 == t
    ensures var thread := RunFrom(s, more).threads[t];
            thread.pc.Outside? && thread.depth == s.threads[t].depth + 1 && thread.result
    decreases ToEnter(s.threads[t])
  {
    hide Act, ToEnter, Entering, RunFrom, Enabled;
    StepToEnter(s.lock, t + 1, s.threads[t], call);
    var next := Step(s, t, call);
    var rest := [];
    if ToEnter(next.threads[t]) > 0 {
      rest := GetIn(next, t, call);
    } else {
      NoSteps(next);
    }
    more := [(t, call)] + rest;
    RunStep(s, t, call, rest);
  }

  /**
   * A call of Enter or TryEnter on a lock that is free or the caller's own gets the lock in at most seven steps, if
   * nobody else moves: TryEnter succeeds and Enter does not wait.
   */
  lemma FreeLock(n: nat, schedule: seq<(nat, Call)>, t: nat, call: Call) returns (more: seq<(nat, Call)>)
    requires t < n && Run(n, schedule).threads[t].pc.Outside? && !call.CallLeave?
    requires Run(n, schedule).lock.lockQueue == 0 || Run(n, schedule).lock.owningThread == t + 1
    ensures |more| <= 7 && forall i | 0 <= i < |more| :: more[i].0 == t
    ensures var s, held := Run(n, schedule + more), Past(n, schedule, t).held;
            && s.threads[t].pc.Outside? && (call.CallTryEnter? ==> s.threads[t].result)
            && s.lock.owningThread == t + 1 && s.lock.recursion == held + 1
            && Past(n, schedule + more, t).held == held + 1
  {
    hide RunFrom, Entering, Past;
    var s := Run(n, schedule);
    CallIsEntering(s.lock, t + 1, s.threads[t], call);
    var next := Step(s, t, call);
    var rest := GetIn(next, t, call);
    more := [(t, call)] + rest;
    RunStep(s, t, call, rest);
    RunOn(Initial(n), schedule, more);
    DepthIsHeld(n, schedule, t);
    DepthIsHeld(n, schedule + more, t);
    OwnerIsRight(n, schedule + more, t);
  }

  lemma CallIsEntering(lock: Lock, self: nat, thread: Thread, call: Call)
    requires thread.pc.Outside? && !call.CallLeave? && (lock.lockQueue == 0 || lock.owningThread == self)
    ensures Enabled(lock, thread, call)
    ensures var (lock', thread') := Act(lock, self, thread, call);
            Entering(lock', self, thread') && ToEnter(thread') <= 6 && thread'.depth == thread.depth
  {
  }

  lemma {:induction false} DepthInSum(threads: seq<Thread>, t: nat)
    requires t < |threads|
    ensures threads[t].depth <= Depths(threads)
  {
    if t < |threads| - 1 {
      DepthInSum(threads[..|threads| - 1], t);
    }
  }

  /** A waiting thread gets the lock once nobody has it. */
  lemma ReadyToEnter(s: State, t: nat)
    requires Invariant(s) && t < |s.threads| && Waiting(s.threads[t]) && Holders(s.threads) == 0
    ensures Entering(s.lock, t + 1, s.threads[t]) && s.threads[t].depth == 0
  {
    hide Holding;
    Update(s.threads, t, s.threads[t]);
  }

  lemma WaitingIsNotHolding(s: State, t: nat, h: nat)
    requires Invariant(s) && t < |s.threads| && h < |s.threads| && Waiting(s.threads[t]) && Holding(s.threads[h])
    ensures t != h
  {
  }

  /** Once the thread that has the lock has given it up, nobody has it. */
  lemma OnlyHolder(s: State, t: nat, h: nat, thread: Thread)
    requires Invariant(s) && t < |s.threads| && Waiting(s.threads[t])
    requires h < |s.threads| && Holding(s.threads[h]) && !Holding(thread)
    ensures Holders(s.threads[h := thread]) == 0
  {
    hide Holding;
    Update(s.threads, t, s.threads[t]);
    Update(s.threads, h, thread);
  }

  lemma LeaveBound(s: State, h: nat)
    requires h < |s.threads|
    ensures ToLeave(s.threads[h]) <= 10 * Depths(s.threads) + 15
  {
    DepthInSum(s.threads, h);
  }

  lemma EnterBound(thread: Thread)
    ensures ToEnter(thread) <= 7
  {
  }

  /** What the invariant says about a thread outside the methods that has entered. */
  lemma OutsideOwner(lock: Lock, self: nat, thread: Thread)
    requires Local(lock, self, thread) && thread.pc.Outside? && thread.depth > 0
    ensures lock.owningThread == self
  {
  }

  /**
   * From whatever state a thread waits in, it can get the lock: in a number of steps that depends on how often the lock
   * is held, all of them taken by itself and by the thread that has the lock.
   */
  lemma WaiterGetsLock(n: nat, schedule: seq<(nat, Call)>, t: nat) returns (more: seq<(nat, Call)>)
    requires t < |Run(n, schedule).threads| && Waiting(Run(n, schedule).threads[t])
    ensures |more| <= 10 * Depths(Run(n, schedule).threads) + 22
    ensures forall i | 0 <= i < |more| ::
              more[i].0 == t || (more[i].0 < n && Holding(Run(n, schedule).threads[more[i].0]))
    ensures var s := Run(n, schedule + more);
            s.lock.owningThread == t + 1 && s.threads[t].pc.Outside? && s.threads[t].depth == 1
  {
    hide Invariant, Holding, Waiting, RunFrom, Entering;
    var s := Run(n, schedule);
    Reachable(n, schedule);
    var first, later := [], [];
    var s1 := s;
    NoSteps(s);
    if Holders(s.threads) > 0 {
      var h := FindHolder(s.threads);
      WaitingIsNotHolding(s, t, h);
      first := GiveUp(s, h);
      s1 := RunFrom(s, first);
      OnlyHolder(s, t, h, s1.threads[h]);
      LeaveBound(s, h);
    }
    ReadyToEnter(s1, t);
    later := GetIn(s1, t, CallEnter);
    EnterBound(s1.threads[t]);
    more := first + later;
    RunOn(s, first, later);
    RunOn(Initial(n), schedule, more);
    RunKeeps(s1, later);
    InvariantIsLocal(RunFrom(s1, later), t);
    OutsideOwner(RunFrom(s1, later).lock, t + 1, RunFrom(s1, later).threads[t]);
  }

  /** The condition of the RTC_DCHECK that a thread is at. */
  predicate CheckHolds(lock: Lock, self: nat, thread: Thread) {
    match thread.pc
    case EnterCheckNotOwner => lock.owningThread != self
    case EnterCheckNoOwner => lock.owningThread == 0
    case EnterCheckNoDepth => lock.recursion == 0
    case TryCheckNoDepth => lock.recursion == 0
    case LeaveCheckOwner => lock.owningThread == self
    case LeaveCheckDepth => lock.recursion >= 0
    case _ => true
  }

  lemma ChecksHold(n: nat, schedule: seq<(nat, Call)>, t: nat)
    requires t < |Run(n, schedule).threads|
    ensures CheckHolds(Run(n, schedule).lock, t + 1, Run(n, schedule).threads[t])
  {
    Reachable(n, schedule);
    InvariantIsLocal(Run(n, schedule), t);
  }
}
