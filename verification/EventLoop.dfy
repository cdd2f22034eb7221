/** The hand-off of posted tasks to the loop thread, as interleaved atomic steps. The driver's wakeup
    descriptor is a sticky token; timers, I/O and callbacks appear as free choices of the loop's steps. */
module EventLoop {

  type Task = nat
  type Thread = nat

  /** Where the loop thread is. `timeout` is the value `Wait` has computed for the driver. */
  datatype Pc =
    | NotStarted                        // before `Init`
    | Outside                           // between waits, or in the first timer run of `Wait`
    | Chosen(timeout: nat)              // timeout taken from the timers and the same-thread flag
    | Checked(timeout: nat)             // queue looked at under the lock
    | Blocked(timeout: nat)             // inside `driver_->Wait`
    | Handling                          // timers, descriptors and fixed processes after the driver returned
    | Draining(next: nat)               // running the swapped-out tasks

  datatype State = State(
    pc: Pc,
    queue: seq<Task>,                   // `tasks_`
    scratch: seq<Task>,                 // `tasks_drain_scratch_`
    immediate: bool,                    // `need_immediate_wakeup_`
    token: bool,                        // a wakeup written to the driver and not yet consumed
    waking: set<Thread>,                // posters past their push that still owe the driver a wakeup
    posted: seq<Task>,                  // history: every task ever pushed
    ran: seq<Task>                      // history: every task ever run
  )

  datatype Action =
    | Push(poster: Thread, task: Task)  // the locked half of `PostTask` on another thread
    | Wake(poster: Thread)              // its `Wakeup` call
    | ForeignWakeup                     // `Wakeup` called directly on another thread
    | Init
    | PostHere(task: Task)              // `PostTask` from a callback on the loop thread
    | WakeupHere                        // `Wakeup` from a callback on the loop thread
    | ChooseTimeout(minTime: int)       // `MinTime` of the timers, and the same-thread flag
    | CheckQueue
    | EnterDriver
    | DriverReturns(consumed: bool)     // token, timeout or descriptor event
    | DriverFails(consumed: bool)
    | DrainSwap
    | RunTask
    | DrainEnd

  /** The loop thread is executing callbacks. */
  predicate InCallback(pc: Pc) {
    pc.Outside? || pc.Handling? || pc.Draining?
  }

  predicate Enabled(s: State, a: Action) {
    match a
    case Push(t, _) => t !in s.waking
    case Wake(t) => t in s.waking
    case ForeignWakeup => true
    case Init => s.pc.NotStarted?
    case PostHere(_) => InCallback(s.pc)
    case WakeupHere => InCallback(s.pc)
    case ChooseTimeout(_) => s.pc.Outside?
    case CheckQueue => s.pc.Chosen?
    case EnterDriver => s.pc.Checked?
    case DriverReturns(consumed) => s.pc.Blocked? && (consumed ==> s.token)
    case DriverFails(consumed) => s.pc.Blocked? && (consumed ==> s.token)
    case DrainSwap => s.pc.Handling?
    case RunTask => s.pc.Draining? && s.pc.next < |s.scratch|
    case DrainEnd => s.pc.Draining? && s.pc.next == |s.scratch|
  }

  function Step(s: State, a: Action): State
    requires Enabled(s, a)
  {
    match a
    case Push(t, task) =>
      s.(waking := if s.queue == [] then s.waking + {t} else s.waking,
         queue := s.queue + [task], posted := s.posted + [task])
    case Wake(t) => s.(waking := s.waking - {t}, token := s.token || !s.pc.NotStarted?)
    case ForeignWakeup => s.(token := s.token || !s.pc.NotStarted?)
    case Init => s.(pc := Outside)
    case PostHere(task) => s.(queue := s.queue + [task], posted := s.posted + [task])
    case WakeupHere => s.(immediate := true)
    case ChooseTimeout(t) =>
      s.(pc := Chosen(if s.immediate then 0 else if t >= 0 then t else IDLE_TIMEOUT), immediate := false)
    case CheckQueue => s.(pc := Checked(if s.pc.timeout > 0 && s.queue != [] then 0 else s.pc.timeout))
    case EnterDriver => s.(pc := Blocked(s.pc.timeout))
    case DriverReturns(consumed) => s.(pc := Handling, token := s.token && !consumed)
    case DriverFails(consumed) => s.(pc := Outside, token := s.token && !consumed)
    case DrainSwap =>
      if s.queue == [] then s.(pc := Outside)
      else s.(pc := Draining(0), scratch := s.queue, queue := s.scratch)
    case RunTask => s.(pc := Draining(s.pc.next + 1), ran := s.ran + [s.scratch[s.pc.next]])
    case DrainEnd => s.(pc := Outside, scratch := [])
  }

  /** What the loop waits for when no timer is pending. */
  const IDLE_TIMEOUT := 1000

  const START := State(NotStarted, [], [], false, false, {}, [], [])

  /** A run: the states reached by some interleaving of the actions. */
  ghost predicate Run(states: seq<State>, actions: seq<Action>) {
    && |states| == |actions| + 1 && states[0] == START
    && forall i {:trigger Moves(states, actions, i)} :: 0 <= i < |actions| ==> Moves(states, actions, i)
  }

  ghost predicate Moves(states: seq<State>, actions: seq<Action>, i: nat)
    requires i < |actions| < |states|
  {
    Enabled(states[i], actions[i]) && states[i + 1] == Step(states[i], actions[i])
  }

  /** Tasks swapped out and not yet run. */
  function Unrun(s: State): seq<Task> {
    if s.pc.Draining? && s.pc.next <= |s.scratch| then s.scratch[s.pc.next..] else []
  }

  /** About to block, or blocked, for a positive time. */
  predicate Committed(pc: Pc) {
    (pc.Checked? || pc.Blocked?) && pc.timeout > 0
  }

  ghost predicate Inv(s: State) {
    && InOrder(s)
    && (Committed(s.pc) && s.queue != [] ==> s.token || s.waking != {})
  }

  /** Nothing posted is lost, repeated or reordered by a step. */
  ghost predicate InOrder(s: State) {
    && s.posted == s.ran + Unrun(s) + s.queue
    && (s.pc.Draining? ==> s.pc.next <= |s.scratch|)
    && (!s.pc.Draining? ==> s.scratch == [])
  }

  lemma PostKeepsOrder(s: State, task: Task)
    requires InOrder(s)
    ensures InOrder(s.(queue := s.queue + [task], posted := s.posted + [task]))
  {
    assert s.ran + Unrun(s) + (s.queue + [task]) == s.ran + Unrun(s) + s.queue + [task];
  }

  lemma SwapKeepsOrder(s: State)
    requires InOrder(s) && Enabled(s, DrainSwap)
    ensures InOrder(Step(s, DrainSwap))
  {
    assert s.ran + [] + s.queue == s.ran + s.queue + [];
    assert s.queue[0..] == s.queue;
  }

  lemma RunKeepsOrder(s: State)
    requires InOrder(s) && Enabled(s, RunTask)
    ensures InOrder(Step(s, RunTask))
  {
    NextUnrun(s.ran, s.scratch, s.pc.next);
  }

  lemma NextUnrun(ran: seq<Task>, scratch: seq<Task>, n: nat)
    requires n < |scratch|
    ensures ran + scratch[n..] == ran + [scratch[n]] + scratch[n + 1..]
  {
    assert scratch[n..] == [scratch[n]] + scratch[n + 1..];
  }

  /** A loop about to block on a non-empty queue keeps a wakeup coming. */
  lemma StepKeepsWakeup(s: State, a: Action)
    requires Inv(s) && Enabled(s, a)
    ensures var s' := Step(s, a); Committed(s'.pc) && s'.queue != [] ==> s'.token || s'.waking != {}
  {
    if a.Push? && s.queue == [] { assert a.poster in Step(s, a).waking; }
  }

  /** Every step of posters and loop keeps the hand-off invariant. */
  lemma StepKeeps(s: State, a: Action)
    requires Inv(s) && Enabled(s, a)
    ensures Inv(Step(s, a))
  {
    StepKeepsWakeup(s, a);
    if a.Push? || a.PostHere? {
      PostKeepsOrder(s, a.task);
    } else if a.DrainSwap? {
      SwapKeepsOrder(s);
    } else if a.RunTask? {
      RunKeepsOrder(s);
    }
  }

  lemma {:induction false} RunKeeps(states: seq<State>, actions: seq<Action>, i: nat)
    requires Run(states, actions) && i < |states|
    ensures Inv(states[i])
  {
    if i > 0 {
      RunKeeps(states, actions, i - 1);
      assert Moves(states, actions, i - 1);
      StepKeeps(states[i - 1], actions[i - 1]);
    }
  }

  /** In every state of every run, a loop blocked for a positive time while tasks are queued has a wakeup
      set, or one that a poster is about to write; posts made before `Init` are covered. */
  lemma NoLostWakeup(states: seq<State>, actions: seq<Action>, i: nat)
    requires Run(states, actions) && i < |states|
    ensures var s := states[i];
      s.pc.Blocked? && s.pc.timeout > 0 && s.queue != [] ==>
        Enabled(s, DriverReturns(true)) || exists t :: Enabled(s, Wake(t)) && Step(s, Wake(t)).token
  {
    RunKeeps(states, actions, i);
    var s := states[i];
    if s.pc.Blocked? && s.pc.timeout > 0 && s.queue != [] && !s.token {
      var t :| t in s.waking;
      assert Enabled(s, Wake(t)) && Step(s, Wake(t)).token;
    }
  }

  /** In every state of every run, what has run, what is swapped out and what is queued is the posted
      sequence: each task is run at most once, in posting order, and none is lost. */
  lemma OnceInOrder(states: seq<State>, actions: seq<Action>, i: nat)
    requires Run(states, actions) && i < |states|
    ensures PostedBy(actions[..i]) == states[i].ran + Unrun(states[i]) + states[i].queue
  {
    RunKeeps(states, actions, i);
    PostedIs(states, actions, i);
  }

  /** While a drain is in progress, run plus unrun is what had been posted when it swapped the queue out. */
  lemma {:induction false} DrainHolds(states: seq<State>, actions: seq<Action>, i: nat, k: nat)
    requires Run(states, actions) && i < k < |states| && states[i].pc.Handling? && actions[i].DrainSwap?
    requires forall m :: i < m <= k ==> states[m].pc.Draining?
    ensures states[k].ran + Unrun(states[k]) == states[i].posted
  {
    RunKeeps(states, actions, k - 1);
    assert Moves(states, actions, k - 1);
    if k == i + 1 {
      SwapTakesAll(states[i]);
    } else {
      DrainHolds(states, actions, i, k - 1);
      DrainStep(states[k - 1], actions[k - 1]);
    }
  }

  lemma SwapTakesAll(s: State)
    requires Inv(s) && Enabled(s, DrainSwap) && Step(s, DrainSwap).pc.Draining?
    ensures Step(s, DrainSwap).ran + Unrun(Step(s, DrainSwap)) == s.posted
  {
    assert s.ran + [] + s.queue == s.ran + s.queue && s.queue[0..] == s.queue;
  }

  lemma DrainStep(s: State, a: Action)
    requires Inv(s) && Enabled(s, a) && s.pc.Draining? && Step(s, a).pc.Draining?
    ensures Step(s, a).ran + Unrun(Step(s, a)) == s.ran + Unrun(s)
  {
  }

  /** A drain that runs to its end has run every task posted before it took the queue, whatever was posted
      meanwhile by other threads or by the tasks themselves. */
  lemma DrainRunsAllPosted(states: seq<State>, actions: seq<Action>, i: nat, k: nat)
    requires Run(states, actions) && i < k < |actions| && states[i].pc.Handling? && actions[i].DrainSwap?
    requires forall m :: i < m <= k ==> states[m].pc.Draining?
    requires actions[k].DrainEnd?
    ensures states[k + 1].ran == states[i].posted
    ensures states[k + 1].posted == states[k + 1].ran + states[k + 1].queue
  {
    DrainHolds(states, actions, i, k);
    RunKeeps(states, actions, k + 1);
    assert Moves(states, actions, k);
    assert Unrun(states[k]) == [] && Unrun(states[k + 1]) == [];
  }

  /** The loop thread asked for an immediate wakeup after the last choice of a timeout before action `j`. */
  ghost predicate AskedSince(actions: seq<Action>, j: nat)
    requires j <= |actions|
  {
    exists i :: 0 <= i < j && actions[i].WakeupHere? && forall m :: i < m < j ==> !actions[m].ChooseTimeout?
  }

  lemma AskedNext(actions: seq<Action>, j: nat)
    requires j < |actions|
    ensures AskedSince(actions, j + 1)
       <==> actions[j].WakeupHere? || (AskedSince(actions, j) && !actions[j].ChooseTimeout?)
  {
    if AskedSince(actions, j + 1) && !actions[j].WakeupHere? {
      var i :| 0 <= i < j + 1 && actions[i].WakeupHere? && forall m :: i < m < j + 1 ==> !actions[m].ChooseTimeout?;
      assert 0 <= i < j;
    }
    if AskedSince(actions, j) && !actions[j].ChooseTimeout? {
      var i :| 0 <= i < j && actions[i].WakeupHere? && forall m :: i < m < j ==> !actions[m].ChooseTimeout?;
      assert forall m :: i < m < j + 1 ==> !actions[m].ChooseTimeout?;
    }
  }

  /** The same-thread flag is up exactly while a request is unanswered. */
  lemma {:induction false} FlagIs(states: seq<State>, actions: seq<Action>, j: nat)
    requires Run(states, actions) && j <= |actions|
    ensures states[j].immediate <==> AskedSince(actions, j)
  {
    if j > 0 {
      FlagIs(states, actions, j - 1);
      AskedNext(actions, j - 1);
      assert Moves(states, actions, j - 1);
    }
  }

  /** Between two steps of one wait the loop thread stays where it is. */
  lemma {:induction false} Stays(states: seq<State>, actions: seq<Action>, i: nat, k: nat)
    requires Run(states, actions) && i <= k <= |actions|
    requires states[i].pc.Chosen? || states[i].pc.Checked?
    requires forall m :: i <= m < k ==> !actions[m].CheckQueue? && !actions[m].EnterDriver?
    ensures states[k].pc == states[i].pc
  {
    if k > i {
      Stays(states, actions, i, k - 1);
      assert Moves(states, actions, k - 1);
    }
  }

  /** How long a wait blocks: not at all if the loop thread asked for a wakeup since its last choice or the queue was
      not empty when looked at; otherwise exactly until the next timer, or a second when there is none. */
  lemma BlocksFor(states: seq<State>, actions: seq<Action>, j: nat, c: nat, k: nat)
    requires Run(states, actions) && j < c < k < |actions|
    requires actions[j].ChooseTimeout? && actions[c].CheckQueue? && actions[k].EnterDriver?
    requires forall m :: j < m < k && m != c ==> !actions[m].CheckQueue? && !actions[m].EnterDriver?
    ensures var t := actions[j].minTime;
      states[k + 1].pc
      == Blocked(if AskedSince(actions, j) || states[c].queue != [] then 0 else if t >= 0 then t else 1000)
  {
    FlagIs(states, actions, j);
    assert Moves(states, actions, j) && Moves(states, actions, c) && Moves(states, actions, k);
    Stays(states, actions, j + 1, c);
    Stays(states, actions, c + 1, k);
  }

  /** A wakeup asked for on the loop thread makes the next wait poll, whatever the timers say and whatever happens
      in between. */
  lemma WakeupPolls(states: seq<State>, actions: seq<Action>, i: nat, j: nat, k: nat)
    requires Run(states, actions) && i < j < k < |actions|
    requires actions[i].WakeupHere? && actions[j].ChooseTimeout? && actions[k].EnterDriver?
    requires forall m :: i < m < j ==> !actions[m].ChooseTimeout?
    requires forall m :: j < m < k ==> !actions[m].EnterDriver?
    ensures states[k + 1].pc == Blocked(0)
  {
    FlagIs(states, actions, j);
    assert Moves(states, actions, j) && Moves(states, actions, k);
    StaysZero(states, actions, j + 1, k);
  }

  lemma {:induction false} StaysZero(states: seq<State>, actions: seq<Action>, i: nat, k: nat)
    requires Run(states, actions) && i <= k <= |actions| && states[i].pc == Chosen(0)
    requires forall m :: i <= m < k ==> !actions[m].EnterDriver?
    ensures states[k].pc == Chosen(0) || states[k].pc == Checked(0)
  {
    if k > i {
      StaysZero(states, actions, i, k - 1);
      assert Moves(states, actions, k - 1);
    }
  }

  /** The tasks given to `PostTask`, on whatever thread, in order. */
  function PostedBy(actions: seq<Action>): seq<Task> {
    if actions == [] then []
    else
      var a := actions[|actions| - 1];
      PostedBy(actions[..|actions| - 1]) + if a.Push? || a.PostHere? then [a.task] else []
  }

  lemma {:induction false} PostedIs(states: seq<State>, actions: seq<Action>, i: nat)
    requires Run(states, actions) && i <= |actions|
    ensures states[i].posted == PostedBy(actions[..i])
  {
    if i > 0 {
      PostedIs(states, actions, i - 1);
      assert Moves(states, actions, i - 1);
      assert actions[..i][..i - 1] == actions[..i - 1];
    } else {
      assert actions[..0] == [];
    }
  }

  /** Poster `t` still owes a wakeup: it pushed onto an empty queue and has not called `Wakeup` since. */
  ghost predicate Owes(states: seq<State>, actions: seq<Action>, i: nat, t: Thread)
    requires i <= |actions| < |states|
  {
    exists p {:trigger actions[p]} :: 0 <= p < i && actions[p].Push? && actions[p].poster == t && states[p].queue == []
           && forall m :: p < m < i ==> actions[m] != Wake(t)
  }

  /** A poster wakes the loop exactly when its push found the queue empty. */
  lemma {:induction false} WakesIff(states: seq<State>, actions: seq<Action>, i: nat, t: Thread)
    requires Run(states, actions) && i <= |actions|
    ensures t in states[i].waking <==> Owes(states, actions, i, t)
  {
    if i > 0 {
      WakesIff(states, actions, i - 1, t);
      assert Moves(states, actions, i - 1);
      OwesNext(states, actions, i - 1, t);
    }
  }

  lemma OwesNext(states: seq<State>, actions: seq<Action>, i: nat, t: Thread)
    requires i < |actions| < |states|
    ensures var pushed := actions[i].Push? && actions[i].poster == t && states[i].queue == [];
      Owes(states, actions, i + 1, t) <==> pushed || (Owes(states, actions, i, t) && actions[i] != Wake(t))
  {
    if Owes(states, actions, i, t) && actions[i] != Wake(t) {
      var p :| 0 <= p < i && actions[p].Push? && actions[p].poster == t && states[p].queue == []
               && forall m :: p < m < i ==> actions[m] != Wake(t);
      assert forall m :: p < m < i + 1 ==> actions[m] != Wake(t);
    }
    if Owes(states, actions, i + 1, t) {
      var p :| 0 <= p < i + 1 && actions[p].Push? && actions[p].poster == t && states[p].queue == []
               && forall m :: p < m < i + 1 ==> actions[m] != Wake(t);
      assert p == i || actions[i] != Wake(t);
    }
  }

  predicate Wakes(a: Action) {
    a.Wake? || a.ForeignWakeup?
  }

  predicate Consumes(a: Action) {
    (a.DriverReturns? || a.DriverFails?) && a.consumed
  }

  /** A wakeup written to the started driver and not consumed since. */
  ghost predicate Written(states: seq<State>, actions: seq<Action>, i: nat)
    requires i <= |actions| < |states|
  {
    exists w {:trigger actions[w]} :: 0 <= w < i && Wakes(actions[w]) && !states[w].pc.NotStarted?
           && forall m :: w < m < i ==> !Consumes(actions[m])
  }

  /** The driver's token is set exactly while such a wakeup is there: waking twice is waking once, and waking before
      `Init` is nothing. */
  lemma {:induction false} TokenIs(states: seq<State>, actions: seq<Action>, i: nat)
    requires Run(states, actions) && i <= |actions|
    ensures states[i].token <==> Written(states, actions, i)
  {
    if i > 0 {
      TokenIs(states, actions, i - 1);
      assert Moves(states, actions, i - 1);
      WrittenNext(states, actions, i - 1);
    }
  }

  lemma WrittenNext(states: seq<State>, actions: seq<Action>, i: nat)
    requires i < |actions| < |states|
    ensures var wakes := Wakes(actions[i]) && !states[i].pc.NotStarted?;
      Written(states, actions, i + 1) <==> wakes || (Written(states, actions, i) && !Consumes(actions[i]))
  {
    if Written(states, actions, i) && !Consumes(actions[i]) {
      var w :| 0 <= w < i && Wakes(actions[w]) && !states[w].pc.NotStarted?
               && forall m :: w < m < i ==> !Consumes(actions[m]);
      assert forall m :: w < m < i + 1 ==> !Consumes(actions[m]);
    }
    if Written(states, actions, i + 1) {
      var w :| 0 <= w < i + 1 && Wakes(actions[w]) && !states[w].pc.NotStarted?
               && forall m :: w < m < i + 1 ==> !Consumes(actions[m]);
      assert w == i || !Consumes(actions[i]);
    }
  }

  /** What a wait owes the tasks posted before its driver returned. */
  ghost predicate Owed(before: seq<Task>, s: State) {
    if s.pc.Handling? then before <= s.posted
    else if s.pc.Draining? then before <= s.ran + Unrun(s)
    else before <= s.ran
  }

  lemma OwedStep(before: seq<Task>, s: State, a: Action)
    requires Inv(s) && Enabled(s, a) && Owed(before, s) && !a.DriverReturns?
    ensures Owed(before, Step(s, a))
  {
    if a.DrainSwap? {
      assert s.ran + [] + s.queue == s.ran + s.queue && s.queue[0..] == s.queue;
    } else if a.RunTask? {
      NextUnrun(s.ran, s.scratch, s.pc.next);
    } else if a.DrainEnd? {
      assert s.ran + Unrun(s) == s.ran;
    } else {
      OwedElsewhere(before, s, a);
    }
  }

  lemma OwedElsewhere(before: seq<Task>, s: State, a: Action)
    requires Enabled(s, a) && Owed(before, s)
    requires !a.DriverReturns? && !a.DrainSwap? && !a.RunTask? && !a.DrainEnd?
    ensures Owed(before, Step(s, a))
  {
    var s' := Step(s, a);
    assert s.posted <= s'.posted && s'.ran == s.ran && Unrun(s') == Unrun(s);
  }

  lemma {:induction false} OwedHolds(states: seq<State>, actions: seq<Action>, d: nat, j: nat)
    requires Run(states, actions) && d < j <= |actions| && actions[d].DriverReturns?
    requires forall m :: d < m < j ==> !actions[m].DriverReturns?
    ensures Owed(states[d].posted, states[j])
  {
    assert Moves(states, actions, j - 1);
    if j > d + 1 {
      OwedHolds(states, actions, d, j - 1);
      RunKeeps(states, actions, j - 1);
      OwedStep(states[d].posted, states[j - 1], actions[j - 1]);
    }
  }

  /** A wait whose driver returned runs, before the next wait chooses its timeout, every task posted by then. */
  lemma WaitRunsAllPosted(states: seq<State>, actions: seq<Action>, d: nat, j: nat)
    requires Run(states, actions) && d < j < |actions| && actions[d].DriverReturns? && actions[j].ChooseTimeout?
    requires forall m :: d < m < j ==> !actions[m].DriverReturns?
    ensures PostedBy(actions[..d]) <= states[j].ran
  {
    OwedHolds(states, actions, d, j);
    PostedIs(states, actions, d);
    assert Moves(states, actions, j);
  }
}
