// The await handshake between the worker thread and the main thread
// (mod-javascript.c, pthread build), as a state machine.
// One action is one step of one thread between two points where the other can
// see the difference. The mutex has no owner: main takes it for the worker.
module AwaitHandshake {
  import opened Wrappers

  // PG_Native_State, and the states of a promise that is being run.
  datatype NativeState = NONE | RUNNING | RESOLVED | REJECTED
  datatype PromiseState = PromiseRunning | PromiseAwaiting

  // What a native's JavaScript says in the end; the value stands for a cell or an error.
  datatype Outcome = Resolve(value: int) | Reject(value: int)

  datatype Worker =
    | Idle          // no promise in flight
    | Evaluating    // the promise's code runs
    | Called        // line 801 done
    | Announced     // line 878 done
    | InBody        // blocked in the call to main, line 880
    | Returned      // that call is back, line 893
    | Asleep        // in pthread_cond_wait, line 895
    | Woken         // signaled, must lock the mutex again
    | Answered      // line 901
    | Unlocking     // line 909
    | Collecting    // line 913
    | Fetching      // line 929, a call to main
    | Clearing      // line 972

  datatype SignalAt = Test | Lock | SetState | Sync | Retest | Notify | Unlock

  datatype Main =
    | EventLoop
    | Body                                                   // in RunNative_internal
    | TakeLock                                               // line 761
    | Replying                                               // about to let the worker go on
    | Signal(at: SignalAt, outcome: Outcome, inBody: bool)   // lines 645-667, 672-745

  datatype State = State(
    native: NativeState,
    result: Option<int>,           // PG_Native_Result; None is the end marker
    promise: Option<PromiseState>, // info->state of the head of PG_Promises
    locked: bool,                  // PG_Await_Mutex
    worker: Worker,
    main: Main,
    table: Option<int>,            // the value JavaScript stowed for the frame
    awaiter: bool,                 // the native has an async body
    owed: bool,                    // the native has called neither resolve nor reject
    sent: seq<Outcome>,            // what natives said, over the whole run
    got: seq<Outcome>)             // what their calls gave back to the worker's code

  datatype Action =
    | StartPromise
    | FinishPromise
    | CallNative(isAwaiter: bool)
    | Settle(outcome: Outcome)     // JavaScript calls resolve() or reject()
    | LeaveBody
    | WorkerStep
    | MainStep

  const START := State(NONE, None, None, false, Idle, EventLoop, None, false, false, [], [])

  // ---- steps ----------------------------------------------------------------

  predicate WorkerCanStep(s: State) {
    match s.worker
    case Announced | Fetching => s.main == EventLoop  // the call waits for main
    case Woken => !s.locked
    case Idle | Evaluating | InBody | Asleep => false
    case _ => true
  }

  predicate MainCanStep(s: State) {
    match s.main
    case EventLoop | Body => false
    case TakeLock => !s.locked
    case Replying => true
    case Signal(at, _, _) => at == Lock ==> !s.locked
  }

  // resolve() or reject() is called once; a native that is no awaiter does so in its body.
  predicate Enabled(s: State, a: Action) {
    match a
    case StartPromise => s.worker == Idle
    case FinishPromise => s.worker == Evaluating
    case CallNative(_) => s.worker == Evaluating
    case Settle(_) => s.owed && s.main in {EventLoop, Body}
    case LeaveBody => s.main == Body && (s.awaiter || !s.owed)
    case WorkerStep => WorkerCanStep(s)
    case MainStep => MainCanStep(s)
  }

  // JavaScript_Dispatcher off the main thread, lines 873-973.
  function WorkerTo(s: State): State
    requires WorkerCanStep(s)
  {
    match s.worker
    case Called => s.(promise := Some(PromiseAwaiting), worker := Announced)
    case Announced => s.(main := Body, worker := InBody, owed := true)
    case Returned => if s.native == RUNNING then s.(locked := false, worker := Asleep) else s.(worker := Answered)
    case Woken => s.(locked := true, worker := Answered)
    case Answered => s.(promise := Some(PromiseRunning), worker := Unlocking)
    case Unlocking => s.(locked := false, worker := Collecting)
    case Collecting =>
      if s.native == REJECTED then s.(native := NONE, worker := Fetching)
      else s.(got := s.got + [Resolve(ValueOr0(s.result))], result := None, worker := Clearing)
    case Fetching => s.(got := s.got + [Reject(ValueOr0(s.table))], table := None, worker := Evaluating)
    case Clearing => s.(native := NONE, worker := Evaluating)
    case _ => s
  }

  function ValueOr0(v: Option<int>): int {
    if v.Some? then v.value else 0
  }

  // The two signal functions and rebTakeAwaitLock, lines 645-762.
  function MainTo(s: State): State
    requires MainCanStep(s)
  {
    match s.main
    case TakeLock => s.(locked := true, main := Replying)
    case Replying => s.(main := EventLoop, worker := Returned)
    case Signal(Test, o, b) => s.(main := Signal(if Awaiting(s) then Lock else SetState, o, b))
    case Signal(Lock, o, b) => s.(locked := true, main := Signal(SetState, o, b))
    case Signal(SetState, o, b) =>
      s.(native := if o.Resolve? then RESOLVED else REJECTED,
         main := Signal(if o.Resolve? then Sync else Retest, o, b))
    case Signal(Sync, o, b) => s.(result := s.table, table := None, main := Signal(Retest, o, b))
    case Signal(Retest, o, b) => s.(main := if Awaiting(s) then Signal(Notify, o, b) else Back(b))
    case Signal(Notify, o, b) =>
      s.(worker := if s.worker == Asleep then Woken else s.worker, main := Signal(Unlock, o, b))
    case Signal(Unlock, o, b) => s.(locked := false, main := Back(b))
    case _ => s
  }

  // if (info and info->state == PROMISE_STATE_AWAITING)
  predicate Awaiting(s: State) {
    s.promise == Some(PromiseAwaiting)
  }

  function Back(inBody: bool): Main {
    if inBody then Body else EventLoop
  }

  function Apply(s: State, a: Action): State
    requires Enabled(s, a)
  {
    match a
    case StartPromise => s.(promise := Some(PromiseRunning), worker := Evaluating)
    case FinishPromise => s.(promise := None, worker := Idle)
    case CallNative(isAwaiter) => s.(native := RUNNING, awaiter := isAwaiter, worker := Called)
    case Settle(o) =>
      s.(table := Some(o.value), owed := false, sent := s.sent + [o], main := Signal(Test, o, s.main == Body))
    case LeaveBody => s.(main := TakeLock)
    case WorkerStep => WorkerTo(s)
    case MainStep => MainTo(s)
  }

  // ---- the invariant --------------------------------------------------------

  predicate WorkerHolds(s: State) {
    s.worker in {Returned, Answered, Unlocking}
  }

  predicate MainHolds(s: State) {
    s.main == Replying || (s.main.Signal? && s.main.at !in {Test, Lock})
  }

  // Somebody answers for the mutex exactly when it is locked, and never both.
  predicate MutexHeld(s: State) {
    && (s.locked <==> WorkerHolds(s) || MainHolds(s))
    && !(WorkerHolds(s) && MainHolds(s))
  }

  // What main can be at, for each place of the worker.
  predicate InStep(s: State) {
    match s.worker
    case InBody => s.main in {Body, TakeLock, Replying} || (s.main.Signal? && s.main.inBody)
    case Returned | Asleep => s.main == EventLoop || (s.main.Signal? && !s.main.inBody)
    case Woken => s.main == EventLoop || (s.main.Signal? && !s.main.inBody && s.main.at == Unlock)
    case _ => s.main == EventLoop
  }

  predicate PromiseFits(s: State) {
    match s.worker
    case Idle => s.promise == None
    case Evaluating | Called | Unlocking | Collecting | Fetching | Clearing => s.promise == Some(PromiseRunning)
    case _ => s.promise == Some(PromiseAwaiting)
  }

  // The worker is at a place where the native may still have to speak.
  predicate MayWait(s: State) {
    s.worker in {InBody, Returned, Asleep}
  }

  predicate Pending(s: State) {
    s.owed || (s.main.Signal? && s.main.at in {Test, Lock, SetState})
  }

  function Final(o: Outcome): NativeState {
    if o.Resolve? then RESOLVED else REJECTED
  }

  // The state of the native, by where the call is and what the native said.
  predicate NativeFits(s: State) {
    && (s.owed ==> MayWait(s) && s.main in {EventLoop, Body, TakeLock, Replying})
    && (s.main.Signal? ==> s.sent != [] && s.sent[|s.sent| - 1] == s.main.outcome)
    && (s.main.Signal? && s.main.at == Sync ==> s.main.outcome.Resolve?)
    && (s.worker == Asleep ==> Pending(s) || s.main.Signal?)
    && (s.worker == Asleep && s.main.Signal? ==> s.main.at != Unlock)
    && s.native ==
       (match s.worker
        case Idle | Evaluating | Fetching => NONE
        case Called | Announced => RUNNING
        case _ => if Pending(s) then RUNNING else if s.sent == [] then NONE else Final(s.sent[|s.sent| - 1]))
  }

  // The answers on their way: none, or the last one sent.
  predicate AnswersFit(s: State) {
    var underway := s.worker !in {Idle, Evaluating, Called, Announced, Clearing} && !s.owed;
    && |s.sent| == |s.got| + (if underway then 1 else 0)
    && s.got == s.sent[..|s.got|]
  }

  // Where the value is: in the table, then (if resolved) in PG_Native_Result.
  predicate ValueFits(s: State) {
    if s.worker in {Idle, Evaluating, Called, Announced, Clearing} || s.owed then s.table == None && s.result == None
    else if s.sent == [] then false
    else
      var o := s.sent[|s.sent| - 1];
      if o.Reject? || (s.main.Signal? && s.main.at in {Test, Lock, SetState, Sync})
      then s.table == Some(o.value) && s.result == None
      else s.table == None && s.result == Some(o.value) && s.worker != Fetching
  }

  predicate Inv(s: State) {
    && MutexHeld(s) && InStep(s) && PromiseFits(s) && NativeFits(s) && AnswersFit(s) && ValueFits(s)
    && (s.worker == Fetching ==> s.sent != [] && s.sent[|s.sent| - 1].Reject?)
    && (s.worker == Clearing ==> s.sent != [] && s.sent[|s.sent| - 1].Resolve?)
  }

  lemma WorkerKeeps(s: State)
    requires Inv(s) && WorkerCanStep(s)
    ensures Inv(WorkerTo(s))
  {
  }

  lemma TakeLockKeeps(s: State)
    requires Inv(s) && MainCanStep(s) && s.main in {TakeLock, Replying}
    ensures Inv(MainTo(s))
  {
  }

  lemma SignalLocksKeep(s: State)
    requires Inv(s) && MainCanStep(s) && s.main.Signal? && s.main.at in {Test, Lock, Retest, Notify, Unlock}
    ensures Inv(MainTo(s))
  {
  }

  lemma SignalSetsKeep(s: State)
    requires Inv(s) && MainCanStep(s) && s.main.Signal? && s.main.at in {SetState, Sync}
    ensures Inv(MainTo(s))
  {
  }

  lemma MainKeeps(s: State)
    requires Inv(s) && MainCanStep(s)
    ensures Inv(MainTo(s))
  {
    if s.main in {TakeLock, Replying} {
      TakeLockKeeps(s);
    } else if s.main.at in {SetState, Sync} {
      SignalSetsKeep(s);
    } else {
      SignalLocksKeep(s);
    }
  }

  lemma StepKeeps(s: State, a: Action)
    requires Inv(s) && Enabled(s, a)
    ensures Inv(Apply(s, a))
  {
    match a
    case WorkerStep => WorkerKeeps(s);
    case MainStep => MainKeeps(s);
    case _ =>
  }

  // ---- runs -----------------------------------------------------------------

  // Any schedule of the two threads, from a start with no promise in flight.
  predicate IsRun(states: seq<State>, actions: seq<Action>) {
    && |states| == |actions| + 1
    && states[0] == START
    && forall i :: 0 <= i < |actions| ==>
         Enabled(states[i], actions[i]) && states[i + 1] == Apply(states[i], actions[i])
  }

  lemma {:induction false} EveryRunKeeps(states: seq<State>, actions: seq<Action>, i: nat)
    requires IsRun(states, actions) && i < |states|
    ensures Inv(states[i])
  {
    if i > 0 {
      EveryRunKeeps(states, actions, i - 1);
      StepKeeps(states[i - 1], actions[i - 1]);
    }
  }

  // In no interleaving does the worker sleep through a signal: asleep with the
  // native resolved or rejected, main holds the mutex and has yet to notify.
  lemma NoLostSignal(states: seq<State>, actions: seq<Action>, i: nat)
    requires IsRun(states, actions) && i < |states|
    ensures var s := states[i];
            s.worker == Asleep && s.native != RUNNING ==>
              && s.locked && s.main.Signal? && s.main.at in {Sync, Retest, Notify}
              && Awaiting(s) && MainCanStep(s)
  {
    EveryRunKeeps(states, actions, i);
  }

  // When main waits for the mutex, the worker's next step gives it up.
  // When the worker waits for it, main's next step does.
  lemma NobodyWaitsInVain(states: seq<State>, actions: seq<Action>, i: nat)
    requires IsRun(states, actions) && i < |states|
    ensures var s := states[i];
            && (s.locked && (s.main == TakeLock || (s.main.Signal? && s.main.at == Lock)) ==>
                  s.worker == Returned && WorkerCanStep(s) && !WorkerTo(s).locked)
            && (s.locked && s.worker == Woken ==> MainCanStep(s) && !MainTo(s).locked)
            && (s.worker in {Idle, Evaluating, Called, Announced, Collecting, Fetching, Clearing} ==> !s.locked)
  {
    EveryRunKeeps(states, actions, i);
  }

  // Only one thread at a time is past a lock and not yet past its unlock.
  lemma OneHolder(states: seq<State>, actions: seq<Action>, i: nat)
    requires IsRun(states, actions) && i < |states|
    ensures !(WorkerHolds(states[i]) && MainHolds(states[i]))
    ensures states[i].locked <==> WorkerHolds(states[i]) || MainHolds(states[i])
  {
    EveryRunKeeps(states, actions, i);
  }

  // NONE -> RUNNING -> RESOLVED or REJECTED -> NONE.
  predicate NativeMay(from: NativeState, to: NativeState) {
    || from == to
    || (from == NONE && to == RUNNING)
    || (from == RUNNING && to in {RESOLVED, REJECTED})
    || (from in {RESOLVED, REJECTED} && to == NONE)
  }

  lemma NativeStateOrder(states: seq<State>, actions: seq<Action>, i: nat)
    requires IsRun(states, actions) && i < |actions|
    ensures NativeMay(states[i].native, states[i + 1].native)
  {
    EveryRunKeeps(states, actions, i);
  }

  // The assertions in the code, and the table lookups of the JavaScript side.
  predicate AssertionsHold(s: State) {
    && (s.worker == Evaluating ==>                     // lines 797-800 of the next call, and 525
          s.native == NONE && s.result == None && s.table == None && s.promise == Some(PromiseRunning))
    && (s.main.Signal? && s.main.at == SetState ==> s.native == RUNNING)              // lines 656, 683
    && (s.main.Signal? && s.main.at == Sync ==> s.result == None && s.table != None)  // line 629
    && (s.worker == Answered ==> s.native in {RESOLVED, REJECTED})                    // line 904
    && (s.worker == Collecting && s.native != REJECTED ==> s.result != None)          // line 962
    && (s.worker == Clearing ==> s.native == RESOLVED)                                // line 972
    && (s.worker == Fetching ==> s.table != None)
  }

  lemma AssertionsNeverFail(states: seq<State>, actions: seq<Action>, i: nat)
    requires IsRun(states, actions) && i < |states|
    ensures AssertionsHold(states[i])
  {
    EveryRunKeeps(states, actions, i);
  }

  // Each call gives its caller what its native said, once and in order.
  lemma EachAnswerOnce(states: seq<State>, actions: seq<Action>, i: nat)
    requires IsRun(states, actions) && i < |states|
    ensures var s := states[i];
            && s.got <= s.sent && |s.sent| <= |s.got| + 1
            && (s.worker in {Idle, Evaluating} ==> s.got == s.sent)
  {
    EveryRunKeeps(states, actions, i);
  }

  // ---- progress -------------------------------------------------------------

  predicate InCall(s: State) {
    s.worker !in {Idle, Evaluating}
  }

  // The steps left, at most, until the call returns to the promise's code,
  // not counting those of the native's own JavaScript.
  function WorkerLeft(w: Worker): nat {
    match w
    case Idle | Evaluating => 0
    case Fetching | Clearing => 1
    case Collecting => 2
    case Unlocking => 3
    case Answered => 4
    case Woken => 5
    case Asleep => 6
    case Returned => 7
    case InBody => 8
    case Announced => 9
    case Called => 10
  }

  function MainLeft(s: State): nat {
    match s.main
    case EventLoop => if s.owed || s.worker in {Called, Announced} then 20 else 0
    case Replying => if s.owed then 21 else 1
    case TakeLock => if s.owed then 22 else 2
    case Body => if s.owed then 23 else 3
    case Signal(at, _, b) => SignalLeft(at) + if b then 3 else 0
  }

  function SignalLeft(at: SignalAt): nat {
    match at
    case Test => 7
    case Lock => 6
    case SetState => 5
    case Sync => 4
    case Retest => 3
    case Notify => 2
    case Unlock => 1
  }

  function Left(s: State): nat {
    WorkerLeft(s.worker) + MainLeft(s) + (if s.worker in {Called, Announced} then 10 else 0)
  }

  // Every step within a call brings its end nearer.
  lemma StepsLeft(s: State, a: Action)
    requires Inv(s) && InCall(s) && Enabled(s, a)
    ensures Left(Apply(s, a)) < Left(s)
  {
    match a
    case WorkerStep => WorkerStepsLeft(s);
    case MainStep => MainStepsLeft(s);
    case _ =>
  }

  lemma WorkerStepsLeft(s: State)
    requires Inv(s) && InCall(s) && WorkerCanStep(s)
    ensures Left(WorkerTo(s)) < Left(s)
  {
  }

  lemma MainStepsLeft(s: State)
    requires Inv(s) && InCall(s) && MainCanStep(s)
    ensures Left(MainTo(s)) < Left(s)
  {
  }

  // Within a call some thread can move, unless the native has yet to speak.
  lemma SomebodyMoves(s: State)
    requires Inv(s) && InCall(s)
    ensures exists a :: Enabled(s, a)
    ensures s.owed || WorkerCanStep(s) || MainCanStep(s) || Enabled(s, LeaveBody)
    ensures !WorkerCanStep(s) && !MainCanStep(s) && !Enabled(s, LeaveBody) ==>
              s.owed && s.main in {Body, EventLoop} && (s.main == EventLoop ==> s.worker == Asleep && !s.locked)
  {
    assert Enabled(s, WorkerStep) <==> WorkerCanStep(s);
    assert Enabled(s, MainStep) <==> MainCanStep(s);
    assert Enabled(s, Settle(Reject(0))) <==> s.owed && s.main in {EventLoop, Body};
    assert Enabled(s, LeaveBody) <==> s.main == Body && (s.awaiter || !s.owed);
  }

  lemma LeftFalls(states: seq<State>, actions: seq<Action>, i: nat)
    requires IsRun(states, actions) && i < |actions| && InCall(states[i])
    ensures Left(states[i + 1]) < Left(states[i])
  {
    EveryRunKeeps(states, actions, i);
    StepsLeft(states[i], actions[i]);
  }

  lemma LeftBound(s: State)
    requires Inv(s)
    ensures Left(s) <= 40
  {
  }

  lemma {:induction false} LeftCounts(states: seq<State>, actions: seq<Action>, start: nat, end: nat)
    requires IsRun(states, actions) && start <= end < |states|
    requires forall i :: start <= i <= end ==> InCall(states[i])
    ensures end - start <= Left(states[start]) - Left(states[end])
    decreases end
  {
    if start < end {
      LeftFalls(states, actions, end - 1);
      LeftCounts(states, actions, start, end - 1);
    }
  }

  // No run stays in a call for more than 40 steps.
  lemma CallsEnd(states: seq<State>, actions: seq<Action>, start: nat, end: nat)
    requires IsRun(states, actions) && start <= end < |states|
    requires forall i :: start <= i <= end ==> InCall(states[i])
    ensures end - start <= 40
  {
    LeftCounts(states, actions, start, end);
    EveryRunKeeps(states, actions, start);
    LeftBound(states[start]);
  }

  // ---- what runs there are ------------------------------------------------------

  // These actions lead from one state to the other.
  predicate Leads(s: State, actions: seq<Action>, t: State)
    decreases |actions|
  {
    if actions == [] then s == t else Enabled(s, actions[0]) && Leads(Apply(s, actions[0]), actions[1..], t)
  }

  lemma {:induction false} LeadsOn(s: State, a: seq<Action>, t: State, b: seq<Action>, u: State)
    requires Leads(s, a, t) && Leads(t, b, u)
    ensures Leads(s, a + b, u)
    decreases |a|
  {
    if a == [] {
      assert a + b == b;
    } else {
      LeadsOn(Apply(s, a[0]), a[1..], t, b, u);
      assert (a + b)[0] == a[0] && (a + b)[1..] == a[1..] + b;
    }
  }

  lemma LeadsOne(s: State, a: Action, t: State)
    requires Enabled(s, a) && Apply(s, a) == t
    ensures Leads(s, [a], t)
  {
    assert [a][1..] == [];
  }

  lemma LeadsThree(s: State, a: Action, t: State, b: Action, u: State, c: Action, v: State)
    requires Enabled(s, a) && Apply(s, a) == t && Enabled(t, b) && Apply(t, b) == u && Enabled(u, c) && Apply(u, c) == v
    ensures Leads(s, [a, b, c], v)
  {
    LeadsOne(s, a, t);
    LeadsOne(t, b, u);
    LeadsOne(u, c, v);
    LeadsOn(s, [a], t, [b], u);
    LeadsOn(s, [a] + [b], u, [c], v);
    assert [a] + [b] + [c] == [a, b, c];
  }

  // What actions lead to from the start is a run.
  lemma {:induction false} LeadsIsRun(s: State, actions: seq<Action>, t: State) returns (states: seq<State>)
    requires Leads(s, actions, t)
    ensures |states| == |actions| + 1 && states[0] == s && states[|actions|] == t
    ensures forall i :: 0 <= i < |actions| ==>
              Enabled(states[i], actions[i]) && states[i + 1] == Apply(states[i], actions[i])
    ensures s == START ==> IsRun(states, actions)
    decreases |actions|
  {
    states := [s];
    if actions != [] {
      var rest := LeadsIsRun(Apply(s, actions[0]), actions[1..], t);
      states := [s] + rest;
      forall i | 0 <= i < |actions|
        ensures Enabled(states[i], actions[i]) && states[i + 1] == Apply(states[i], actions[i])
      {
        if i > 0 {
          assert states[i] == rest[i - 1] && states[i + 1] == rest[i - 1 + 1] && actions[i] == actions[1..][i - 1];
        }
      }
    }
  }

  // The promise's code runs and can call a native.
  predicate Ready(s: State) {
    Inv(s) && s.worker == Evaluating
  }

  lemma StartsReady()
    ensures Leads(START, [StartPromise], Apply(START, StartPromise)) && Ready(Apply(START, StartPromise))
  {
    LeadsOne(START, StartPromise, Apply(START, StartPromise));
  }

  // A call gets into its body, which may end without an answer exactly if it is an awaiter's.
  lemma EntersBody(s: State, isAwaiter: bool) returns (t: State)
    requires Ready(s)
    ensures Leads(s, [CallNative(isAwaiter), WorkerStep, WorkerStep], t) && Inv(t)
    ensures t.worker == InBody && t.main == Body && t.owed && !t.locked && t.native == RUNNING
    ensures t.awaiter == isAwaiter && t.sent == s.sent && t.got == s.got == s.sent
    ensures Enabled(t, LeaveBody) <==> isAwaiter
  {
    var a := Apply(s, CallNative(isAwaiter));
    StepKeeps(s, CallNative(isAwaiter));
    var b := Apply(a, WorkerStep);
    StepKeeps(a, WorkerStep);
    t := Apply(b, WorkerStep);
    StepKeeps(b, WorkerStep);
    LeadsThree(s, CallNative(isAwaiter), a, WorkerStep, b, WorkerStep, t);
  }

  // The body ends, and main gives the worker the mutex on its way.
  lemma LeavesIt(s: State) returns (t: State)
    requires Inv(s) && s.worker == InBody && s.main == Body && !s.locked && Enabled(s, LeaveBody)
    ensures Leads(s, [LeaveBody, MainStep, MainStep], t) && Inv(t)
    ensures t == s.(main := EventLoop, locked := true, worker := Returned)
  {
    var a := Apply(s, LeaveBody);
    StepKeeps(s, LeaveBody);
    var b := Apply(a, MainStep);
    StepKeeps(a, MainStep);
    t := Apply(b, MainStep);
    StepKeeps(b, MainStep);
    LeadsThree(s, LeaveBody, a, MainStep, b, MainStep, t);
  }

  // With nothing said yet the worker goes to sleep, and gives the mutex up.
  lemma FallsAsleep(s: State) returns (t: State)
    requires Inv(s) && s.worker == Returned && s.native == RUNNING
    ensures Leads(s, [WorkerStep], t) && Inv(t)
    ensures t == s.(locked := false, worker := Asleep)
  {
    t := Apply(s, WorkerStep);
    StepKeeps(s, WorkerStep);
    LeadsOne(s, WorkerStep, t);
  }

  // The native speaks, and main sees that somebody waits.
  lemma Speaks(s: State, o: Outcome) returns (t: State)
    requires Inv(s) && s.owed && s.main in {EventLoop, Body} && s.worker in {InBody, Returned, Asleep}
    ensures Leads(s, [Settle(o), MainStep], t) && Inv(t)
    ensures t == s.(table := Some(o.value), owed := false, sent := s.sent + [o],
                    main := Signal(Lock, o, s.main == Body))
  {
    var a := Apply(s, Settle(o));
    StepKeeps(s, Settle(o));
    t := Apply(a, MainStep);
    StepKeeps(a, MainStep);
    LeadsOne(s, Settle(o), a);
    LeadsOne(a, MainStep, t);
    LeadsOn(s, [Settle(o)], a, [MainStep], t);
    assert [Settle(o)] + [MainStep] == [Settle(o), MainStep];
  }

  // The steps of the signal from the lock to the unlock.
  function SignalSteps(o: Outcome): seq<Action> {
    [MainStep, MainStep] + (if o.Resolve? then [MainStep] else []) + [MainStep, MainStep, MainStep]
  }

  // The signal: a sleeping worker is woken, another one sees what was said.
  lemma Signals(s: State, o: Outcome) returns (t: State)
    requires Inv(s) && !s.locked && s.worker in {InBody, Asleep} && s.main.Signal? && s.main.at == Lock
    requires s.main.outcome == o
    ensures Leads(s, SignalSteps(o), t) && Inv(t)
    ensures t.worker == (if s.worker == Asleep then Woken else s.worker) && t.main == Back(s.main.inBody)
    ensures !t.locked && !t.owed && t.native == Final(o) && t.sent == s.sent && t.got == s.got
    ensures t.promise == s.promise && t.awaiter == s.awaiter
  {
    var b := SetsState(s, o);
    var c := b;
    if o.Resolve? {
      c := Apply(b, MainStep);
      StepKeeps(b, MainStep);
      LeadsOne(b, MainStep, c);
    }
    t := Notifies(c);
    LeadsOn(s, [MainStep, MainStep], b, if o.Resolve? then [MainStep] else [], c);
    LeadsOn(s, [MainStep, MainStep] + if o.Resolve? then [MainStep] else [], c, [MainStep, MainStep, MainStep], t);
  }

  lemma SetsState(s: State, o: Outcome) returns (t: State)
    requires Inv(s) && !s.locked && s.main.Signal? && s.main.at == Lock && s.main.outcome == o
    ensures Leads(s, [MainStep, MainStep], t) && Inv(t)
    ensures t == s.(locked := true, native := Final(o),
                    main := Signal(if o.Resolve? then Sync else Retest, o, s.main.inBody))
  {
    var a := Apply(s, MainStep);
    StepKeeps(s, MainStep);
    t := Apply(a, MainStep);
    StepKeeps(a, MainStep);
    LeadsOne(s, MainStep, a);
    LeadsOne(a, MainStep, t);
    LeadsOn(s, [MainStep], a, [MainStep], t);
    assert [MainStep] + [MainStep] == [MainStep, MainStep];
  }

  lemma Notifies(s: State) returns (t: State)
    requires Inv(s) && s.worker in {InBody, Asleep} && s.main.Signal? && s.main.at == Retest
    ensures Leads(s, [MainStep, MainStep, MainStep], t) && Inv(t)
    ensures t == s.(worker := if s.worker == Asleep then Woken else s.worker, locked := false,
                    main := Back(s.main.inBody))
  {
    var a := Apply(s, MainStep);
    StepKeeps(s, MainStep);
    var b := Apply(a, MainStep);
    StepKeeps(a, MainStep);
    t := Apply(b, MainStep);
    StepKeeps(b, MainStep);
    LeadsThree(s, MainStep, a, MainStep, b, MainStep, t);
  }

  function AnswerSteps(): seq<Action> {
    [WorkerStep, WorkerStep, WorkerStep] + [WorkerStep, WorkerStep]
  }

  // A worker that need not wait, or has been woken, gives its caller the answer.
  lemma Answers(s: State, o: Outcome) returns (t: State)
    requires Inv(s) && s.worker in {Returned, Woken} && s.main == EventLoop && !s.owed && s.native == Final(o)
    requires s.sent == s.got + [o]
    ensures Leads(s, AnswerSteps(), t) && Inv(t)
    ensures t.worker == Evaluating && t.native == NONE && !t.locked && t.got == t.sent == s.sent
  {
    var c := GoesOn(s);
    t := Collects(c, o);
    LeadsOn(s, [WorkerStep, WorkerStep, WorkerStep], c, [WorkerStep, WorkerStep], t);
  }

  lemma GoesOn(s: State) returns (t: State)
    requires Inv(s) && s.worker in {Returned, Woken} && s.main == EventLoop && s.native != RUNNING
    ensures Leads(s, [WorkerStep, WorkerStep, WorkerStep], t) && Inv(t)
    ensures t == s.(worker := Collecting, promise := Some(PromiseRunning), locked := false)
  {
    var a := Apply(s, WorkerStep);
    StepKeeps(s, WorkerStep);
    var b := Apply(a, WorkerStep);
    StepKeeps(a, WorkerStep);
    t := Apply(b, WorkerStep);
    StepKeeps(b, WorkerStep);
    LeadsThree(s, WorkerStep, a, WorkerStep, b, WorkerStep, t);
  }

  lemma Collects(s: State, o: Outcome) returns (t: State)
    requires Inv(s) && s.worker == Collecting && s.native == Final(o) && s.sent == s.got + [o]
    ensures Leads(s, [WorkerStep, WorkerStep], t) && Inv(t)
    ensures t.worker == Evaluating && t.native == NONE && !t.locked && t.got == t.sent == s.sent
  {
    var a := Apply(s, WorkerStep);
    StepKeeps(s, WorkerStep);
    t := Apply(a, WorkerStep);
    StepKeeps(a, WorkerStep);
    LeadsOne(s, WorkerStep, a);
    LeadsOne(a, WorkerStep, t);
    LeadsOn(s, [WorkerStep], a, [WorkerStep], t);
    assert [WorkerStep] + [WorkerStep] == [WorkerStep, WorkerStep];
  }

  // From every state in which the promise's code runs, an awaiter can be signaled in its
  // body: the worker then does not sleep, and its caller gets what was said.
  lemma SignaledInBody(s: State, o: Outcome) returns (actions: seq<Action>, t: State)
    requires Ready(s)
    ensures Leads(s, actions, t) && Ready(t) && t.got == s.got + [o] && Settle(o) in actions
  {
    var a := EntersBody(s, true);
    var b := Speaks(a, o);
    var c := Signals(b, o);
    var d := LeavesIt(c);
    t := Answers(d, o);
    actions := [CallNative(true), WorkerStep, WorkerStep];
    LeadsOn(s, actions, a, [Settle(o), MainStep], b);
    actions := actions + [Settle(o), MainStep];
    LeadsOn(s, actions, b, SignalSteps(o), c);
    actions := actions + SignalSteps(o);
    LeadsOn(s, actions, c, [LeaveBody, MainStep, MainStep], d);
    actions := actions + [LeaveBody, MainStep, MainStep];
    LeadsOn(s, actions, d, AnswerSteps(), t);
    actions := actions + AnswerSteps();
  }

  // The actions until the worker sleeps, those until it is woken, and those until its
  // caller has the answer, with the states after each.
  datatype Wait = Wait(before: seq<Action>, asleep: State, next: seq<Action>, woken: State, after: seq<Action>,
                       end: State)

  // The worker sleeps on a native that runs, with the mutex free; it is woken when the
  // native has spoken, and gets what was said.
  predicate Sleeps(s: State, o: Outcome, w: Wait) {
    && Leads(s, w.before, w.asleep) && Leads(w.asleep, w.next, w.woken) && Leads(w.woken, w.after, w.end)
    && w.asleep.worker == Asleep && w.asleep.native == RUNNING && !w.asleep.locked
    && w.woken.worker == Woken && w.woken.native == Final(o)
    && Ready(w.end) && w.end.got == s.got + [o]
  }

  // Or after its body, before the worker waits: the signal cannot take the mutex until the
  // worker sleeps, and then wakes it.
  lemma SignaledBeforeWait(s: State, o: Outcome) returns (w: Wait)
    requires Ready(s)
    ensures Sleeps(s, o, w) && !w.asleep.owed && w.asleep.main == Signal(Lock, o, false)
  {
    var a := EntersBody(s, true);
    var b := LeavesIt(a);
    var c := Speaks(b, o);
    assert c.locked && !MainCanStep(c);
    var asleep := FallsAsleep(c);
    var woken := Signals(asleep, o);
    var end := Answers(woken, o);
    var before := [CallNative(true), WorkerStep, WorkerStep];
    LeadsOn(s, before, a, [LeaveBody, MainStep, MainStep], b);
    before := before + [LeaveBody, MainStep, MainStep];
    LeadsOn(s, before, b, [Settle(o), MainStep], c);
    before := before + [Settle(o), MainStep];
    LeadsOn(s, before, c, [WorkerStep], asleep);
    w := Wait(before + [WorkerStep], asleep, SignalSteps(o), woken, AnswerSteps(), end);
  }

  // Or when the worker sleeps already: the native has said nothing.
  lemma SignaledInWait(s: State, o: Outcome) returns (w: Wait)
    requires Ready(s)
    ensures Sleeps(s, o, w) && w.asleep.owed && w.asleep.main == EventLoop && Settle(o) !in w.before
  {
    var a := EntersBody(s, true);
    var b := LeavesIt(a);
    var asleep := FallsAsleep(b);
    var c := Speaks(asleep, o);
    var woken := Signals(c, o);
    var end := Answers(woken, o);
    var before := [CallNative(true), WorkerStep, WorkerStep];
    LeadsOn(s, before, a, [LeaveBody, MainStep, MainStep], b);
    before := before + [LeaveBody, MainStep, MainStep];
    LeadsOn(s, before, b, [WorkerStep], asleep);
    LeadsOn(asleep, [Settle(o), MainStep], c, SignalSteps(o), woken);
    NothingSaid(o);
    w := Wait(before + [WorkerStep], asleep, [Settle(o), MainStep] + SignalSteps(o), woken, AnswerSteps(), end);
  }

  lemma NothingSaid(o: Outcome)
    ensures Settle(o) !in [CallNative(true), WorkerStep, WorkerStep] + [LeaveBody, MainStep, MainStep] + [WorkerStep]
  {
  }

  // So there are runs in which the worker sleeps, with nothing said and with the signal
  // on its way, and gets the answer.
  lemma WorkersSleep(o: Outcome) returns (states: seq<State>, actions: seq<Action>, i: nat)
    ensures IsRun(states, actions) && i < |states| && states[|actions|].got == [o]
    ensures states[i].worker == Asleep && states[i].native == RUNNING && states[i].owed && !states[i].locked
  {
    StartsReady();
    var first := Apply(START, StartPromise);
    var w := SignaledInWait(first, o);
    LeadsOn(START, [StartPromise], first, w.before, w.asleep);
    LeadsOn(w.asleep, w.next, w.woken, w.after, w.end);
    states, i := LeadsThrough(START, [StartPromise] + w.before, w.asleep, w.next + w.after, w.end);
    actions := [StartPromise] + w.before + (w.next + w.after);
  }

  // A run through a state.
  lemma LeadsThrough(s: State, a: seq<Action>, t: State, b: seq<Action>, u: State)
      returns (states: seq<State>, i: nat)
    requires s == START && Leads(s, a, t) && Leads(t, b, u)
    ensures IsRun(states, a + b) && i < |states| && states[i] == t && states[|a + b|] == u
  {
    var some := LeadsIsRun(s, a, t);
    var rest := LeadsIsRun(t, b, u);
    i, states := |a|, some + rest[1..];
    forall k | 0 <= k < |a + b|
      ensures Enabled(states[k], (a + b)[k]) && states[k + 1] == Apply(states[k], (a + b)[k])
    {
      if k >= i {
        assert (a + b)[k] == b[k - i] && states[k] == rest[k - i] && states[k + 1] == rest[k - i + 1];
      } else {
        assert (a + b)[k] == a[k] && states[k] == some[k] && states[k + 1] == some[k + 1];
      }
    }
  }
}
