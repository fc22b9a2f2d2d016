/**
  The wake-up protocol between the keyboard interrupt (kernel/src/shell/keyboard.rs)
  and the task executor (kernel/src/task/executor.rs), as a state machine. The
  main line of the single core advances one shared-memory access at a time; while
  interrupts are enabled, a keyboard or timer interrupt may run between any two
  such steps. A handler runs with interrupts disabled, so it is one step.
 */
module Wakeups {
  import opened FsTypes

  type TaskId = nat

  const QUEUE_SIZE := 100

  /** Where the main line is. `Fetch` is the pop of `run_ready_tasks`; the next
      group is the poll of the shell task, which polls the scancode stream until
      it is pending or the shell exits; the last group is `sleep_if_idle`. */
  datatype Pc =
    | Fetch
    | PollOther(task: TaskId)
    | Start
    | FastPop
    | Register
    | SlowPop
    | TakeWaker(code: byte)
    | Handle(code: byte)
    | Disable
    | CheckIdle
    | EnableAndHalt
    | Enable
    | Halted
    | Panicked

  /** `accepted` and `delivered` record scancodes that entered the queue and that
      reached the shell; `wakes` and `registrations` count calls on the waker;
      `finished` holds the tasks whose poll returned Ready. */
  datatype State = State(
    pc: Pc,
    interruptsEnabled: bool,
    shell: TaskId,
    tasks: set<TaskId>,
    taskQueue: seq<TaskId>,
    streamCreated: bool,
    scancodes: seq<byte>,
    waker: Option<TaskId>,
    accepted: seq<byte>,
    delivered: seq<byte>,
    wakes: nat,
    registrations: nat,
    finished: set<TaskId>)

  /** The tasks are spawned, in order, before the executor runs. */
  predicate Spawned(shell: TaskId, queue: seq<TaskId>) {
    && shell in queue
    && |queue| <= QUEUE_SIZE
    && forall i, j :: 0 <= i < j < |queue| ==> queue[i] != queue[j]
  }

  function Boot(shell: TaskId, queue: seq<TaskId>): State {
    State(Fetch, true, shell, (set t | t in queue), queue, false, [], None, [], [], 0, 0, {})
  }

  // ---------------------------------------------------------------------
  // Steps
  // ---------------------------------------------------------------------

  /** `Main(ready)` advances the main line; where a poll ends, `ready` says
      whether the task is done. */
  datatype Action = Main(ready: bool) | Keyboard(code: byte) | Timer

  function Finish(s: State, t: TaskId): State {
    s.(pc := Fetch, tasks := s.tasks - {t}, finished := s.finished + {t})
  }

  function MainStep(s: State, ready: bool): State {
    match s.pc
    case Fetch =>
      if s.taskQueue == [] then s.(pc := Disable)
      else
        var t, popped := s.taskQueue[0], s.(taskQueue := s.taskQueue[1..]);
        if t !in s.tasks then popped
        else popped.(pc := if t == s.shell then Start else PollOther(t))
    case PollOther(t) => if ready then Finish(s, t) else s.(pc := Fetch)
    case Start => s.(pc := FastPop, streamCreated := true)
    case FastPop =>
      if s.scancodes == [] then s.(pc := Register)
      else s.(pc := Handle(s.scancodes[0]), scancodes := s.scancodes[1..])
    case Register => s.(pc := SlowPop, waker := Some(s.shell), registrations := s.registrations + 1)
    case SlowPop =>
      if s.scancodes == [] then s.(pc := Fetch)
      else s.(pc := TakeWaker(s.scancodes[0]), scancodes := s.scancodes[1..])
    case TakeWaker(code) => s.(pc := Handle(code), waker := None)
    case Handle(code) =>
      var s' := s.(delivered := s.delivered + [code]);
      if ready then Finish(s', s.shell) else s'.(pc := FastPop)
    case Disable => s.(pc := CheckIdle, interruptsEnabled := false)
    case CheckIdle => s.(pc := if s.taskQueue == [] then EnableAndHalt else Enable)
    case EnableAndHalt => s.(pc := Halted, interruptsEnabled := true)
    case Enable => s.(pc := Fetch, interruptsEnabled := true)
    case Halted => s
    case Panicked => s
  }

  /** Any interrupt resumes a halted core. */
  function Resume(s: State): State {
    if s.pc.Halted? then s.(pc := Fetch) else s
  }

  /** `wake` empties the slot and queues the task; a full task queue panics. */
  function Wake(s: State): State {
    match s.waker
    case None => s
    case Some(t) =>
      if |s.taskQueue| == QUEUE_SIZE then s.(pc := Panicked, waker := None)
      else s.(waker := None, taskQueue := s.taskQueue + [t], wakes := s.wakes + 1)
  }

  /** `add_scancode`: a code arriving before the stream exists or while its queue
      is full is dropped; otherwise it is queued and the waker is woken. */
  function KeyboardStep(s: State, code: byte): State {
    if !s.streamCreated || |s.scancodes| == QUEUE_SIZE then s
    else Wake(s.(scancodes := s.scancodes + [code], accepted := s.accepted + [code]))
  }

  /** Interrupts are taken only while enabled, and nothing follows a panic. */
  function Next(s: State, a: Action): State {
    if s.pc.Panicked? then s
    else
      match a
      case Main(ready) => MainStep(s, ready)
      case Keyboard(code) => if s.interruptsEnabled then KeyboardStep(Resume(s), code) else s
      case Timer => if s.interruptsEnabled then Resume(s) else s
  }

  function Run(s: State, actions: seq<Action>): State
    decreases |actions|
  {
    if actions == [] then s else Run(Next(s, actions[0]), actions[1..])
  }

  lemma {:induction false} RunStep(s: State, actions: seq<Action>, a: Action)
    ensures Run(s, actions + [a]) == Next(Run(s, actions), a)
    decreases |actions|
  {
    hide Next;
    if actions == [] {
      assert ([] + [a])[1..] == [];
    } else {
      assert (actions + [a])[0] == actions[0] && (actions + [a])[1..] == actions[1..] + [a];
      RunStep(Next(s, actions[0]), actions[1..], a);
    }
  }

  // ---------------------------------------------------------------------
  // The invariant
  // ---------------------------------------------------------------------

  predicate PollingShell(pc: Pc) {
    pc.Start? || pc.FastPop? || pc.Register? || pc.SlowPop? || pc.TakeWaker? || pc.Handle?
  }

  /** The scancode the shell has taken but not yet handled. */
  function InHand(pc: Pc): seq<byte> {
    if pc.TakeWaker? || pc.Handle? then [pc.code] else []
  }

  predicate Woken(s: State) {
    s.shell in s.taskQueue
  }

  /** No wake-up is lost: a live shell that is neither being polled nor queued is
      registered with the waker, and no scancode is waiting. */
  predicate NoLostWakeup(s: State) {
    && (s.shell in s.tasks && !PollingShell(s.pc) && !Woken(s) ==> s.waker == Some(s.shell) && s.scancodes == [])
    && (s.pc.SlowPop? ==> s.waker == Some(s.shell) || (Woken(s) && s.scancodes != []))
  }

  /** Accepted scancodes are delivered in order, none lost and none duplicated. */
  predicate InOrder(s: State) {
    s.delivered + InHand(s.pc) + s.scancodes == s.accepted
  }

  /** The interrupt flag, and why halting is safe. */
  predicate SleepOk(s: State) {
    && (s.interruptsEnabled <==> !(s.pc.CheckIdle? || s.pc.EnableAndHalt? || s.pc.Enable?))
    && (s.pc.EnableAndHalt? || s.pc.Halted? ==> s.taskQueue == [])
    && (s.pc.Enable? ==> s.taskQueue != [])
  }

  /** Only live tasks are polled, and a finished task is no longer live. */
  predicate TasksOk(s: State) {
    && (PollingShell(s.pc) ==> s.shell in s.tasks)
    && (s.pc.PollOther? ==> s.pc.task in s.tasks && s.pc.task != s.shell)
    && s.tasks !! s.finished
    && (s.waker.Some? ==> s.waker.value == s.shell)
    && |s.taskQueue| <= QUEUE_SIZE && |s.scancodes| <= QUEUE_SIZE
    && (s.shell in s.tasks && !s.streamCreated ==> (Woken(s) || s.pc.Start?) && s.scancodes == [])
    && (PollingShell(s.pc) && !s.pc.Start? ==> s.streamCreated)
  }

  /** Each wake uses up a registration. */
  predicate WakesPaidFor(s: State) {
    s.wakes + (if s.waker.Some? then 1 else 0) <= s.registrations
  }

  predicate Invariant(s: State) {
    && TasksOk(s)
    && WakesPaidFor(s)
    && (!s.pc.Panicked? ==> InOrder(s) && NoLostWakeup(s) && SleepOk(s))
  }

  lemma BootOk(shell: TaskId, queue: seq<TaskId>)
    requires Spawned(shell, queue)
    ensures Invariant(Boot(shell, queue))
  {
  }

  lemma MainKeepsTasks(s: State, ready: bool)
    requires Invariant(s) && !s.pc.Panicked?
    ensures TasksOk(MainStep(s, ready))
  {
    hide InOrder, WakesPaidFor;
    if s.pc.Fetch? && s.taskQueue != [] {
      assert s.taskQueue == [s.taskQueue[0]] + s.taskQueue[1..];
    }
  }

  lemma MainKeepsSleep(s: State, ready: bool)
    requires Invariant(s) && !s.pc.Panicked?
    ensures WakesPaidFor(MainStep(s, ready)) && SleepOk(MainStep(s, ready))
  {
    hide InOrder, TasksOk, NoLostWakeup;
  }

  lemma MainKeepsOrder(s: State, ready: bool)
    requires InOrder(s)
    ensures InOrder(MainStep(s, ready))
  {
    if s.scancodes != [] && (s.pc.FastPop? || s.pc.SlowPop?) {
      var c, rest := s.scancodes[0], s.scancodes[1..];
      assert s.scancodes == [c] + rest;
      assert s.delivered + [] + ([c] + rest) == s.delivered + [c] + rest;
    } else if s.pc.Handle? {
      assert s.delivered + [s.pc.code] + [] == s.delivered + [s.pc.code];
    }
  }

  lemma MainKeepsWakeup(s: State, ready: bool)
    requires Invariant(s) && !s.pc.Panicked?
    ensures NoLostWakeup(MainStep(s, ready))
  {
    hide InOrder;
    if s.pc.Fetch? && s.taskQueue != [] {
      assert s.taskQueue == [s.taskQueue[0]] + s.taskQueue[1..];
    }
  }

  lemma MainKeeps(s: State, ready: bool)
    requires Invariant(s) && !s.pc.Panicked?
    ensures Invariant(MainStep(s, ready))
  {
    hide MainStep;
    MainKeepsTasks(s, ready);
    MainKeepsSleep(s, ready);
    MainKeepsOrder(s, ready);
    MainKeepsWakeup(s, ready);
  }

  lemma KeyboardKeeps(s: State, code: byte)
    requires Invariant(s) && !s.pc.Panicked? && s.interruptsEnabled && !s.pc.Halted?
    ensures Invariant(KeyboardStep(s, code))
  {
    assert s.delivered + InHand(s.pc) + (s.scancodes + [code]) == s.delivered + InHand(s.pc) + s.scancodes + [code];
  }

  /** Every step of every interleaving keeps the invariant. */
  lemma NextKeeps(s: State, a: Action)
    requires Invariant(s)
    ensures Invariant(Next(s, a))
  {
    if !s.pc.Panicked? {
      match a
      case Main(ready) => MainKeeps(s, ready);
      case Keyboard(code) =>
        if s.interruptsEnabled {
          KeyboardKeeps(Resume(s), code);
        }
      case Timer =>
    }
  }

  lemma {:induction false} RunKeeps(s: State, actions: seq<Action>)
    requires Invariant(s)
    ensures Invariant(Run(s, actions))
    decreases |actions|
  {
    if actions != [] {
      NextKeeps(s, actions[0]);
      RunKeeps(Next(s, actions[0]), actions[1..]);
    }
  }

  // ---------------------------------------------------------------------
  // What every interleaving guarantees
  // ---------------------------------------------------------------------

  /** The core never halts while an accepted scancode waits for a live shell. */
  lemma NeverHaltsWithInputWaiting(shell: TaskId, queue: seq<TaskId>, actions: seq<Action>)
    requires Spawned(shell, queue)
    ensures var s := Run(Boot(shell, queue), actions);
            s.pc.Halted? && shell in s.tasks ==>
              s.scancodes == [] && s.waker == Some(shell) && s.delivered == s.accepted
  {
    BootOk(shell, queue);
    RunKeeps(Boot(shell, queue), actions);
    ShellIsFixed(Boot(shell, queue), actions);
  }

  lemma {:induction false} ShellIsFixed(s: State, actions: seq<Action>)
    ensures Run(s, actions).shell == s.shell
    decreases |actions|
  {
    if actions != [] {
      ShellIsFixed(Next(s, actions[0]), actions[1..]);
    }
  }

  /** What was delivered and what is queued are the accepted scancodes in order,
      but for at most one between them: the one in hand, lost if the kernel panics. */
  ghost predicate Delivery(s: State) {
    exists h: seq<byte> :: |h| <= 1 && s.delivered + h + s.scancodes == s.accepted
  }

  lemma InOrderDelivers(s: State)
    requires InOrder(s)
    ensures Delivery(s)
  {
    assert |InHand(s.pc)| <= 1;
  }

  /** A panic, too, leaves the accepted scancodes accounted for. */
  lemma NextDelivers(s: State, a: Action)
    requires Invariant(s) && Delivery(s)
    ensures Delivery(Next(s, a))
  {
    NextKeeps(s, a);
    var s' := Next(s, a);
    if !s'.pc.Panicked? {
      InOrderDelivers(s');
    } else if !s.pc.Panicked? {
      PanicsExactly(s, a);
      var h := InHand(s.pc);
      assert s.delivered + h + (s.scancodes + [a.code]) == s.delivered + h + s.scancodes + [a.code];
      assert s'.delivered + h + s'.scancodes == s'.accepted;
    }
  }

  lemma {:induction false} RunDelivers(s: State, actions: seq<Action>)
    requires Invariant(s) && Delivery(s)
    ensures Delivery(Run(s, actions))
    decreases |actions|
  {
    hide Next, Invariant, Delivery;
    if actions != [] {
      NextKeeps(s, actions[0]);
      NextDelivers(s, actions[0]);
      RunDelivers(Next(s, actions[0]), actions[1..]);
    }
  }

  /** In every interleaving, what the shell got and what is queued are the accepted
      scancodes in order, but for one in hand, which a panic loses; wakes never outnumber registrations; and a task that
      returned Ready is never polled again, whatever ids are still queued. */
  lemma DeliveryAndTaskSafety(shell: TaskId, queue: seq<TaskId>, actions: seq<Action>, more: seq<Action>, t: TaskId)
    requires Spawned(shell, queue)
    ensures var s := Run(Boot(shell, queue), actions);
            && Delivery(s)
            && (!s.pc.Panicked? ==> s.delivered + InHand(s.pc) + s.scancodes == s.accepted)
            && s.wakes <= s.registrations
            && (t in s.finished ==>
                  var s' := Run(s, more);
                  && s'.pc != PollOther(t)
                  && (t == shell ==> !PollingShell(s'.pc) && s'.delivered == s.delivered))
  {
    var s := Run(Boot(shell, queue), actions);
    BootOk(shell, queue);
    InOrderDelivers(Boot(shell, queue));
    RunKeeps(Boot(shell, queue), actions);
    RunDelivers(Boot(shell, queue), actions);
    ShellIsFixed(Boot(shell, queue), actions);
    if t in s.finished {
      FinishedIsDone(s, t);
      FinishedForGood(s, more, t);
    }
  }

  /** A finished task is neither live nor being polled. */
  predicate Done(s: State, t: TaskId) {
    && t in s.finished && t !in s.tasks
    && s.pc != PollOther(t)
    && (t == s.shell ==> !PollingShell(s.pc))
  }

  lemma NextKeepsDone(s: State, a: Action, t: TaskId)
    requires Invariant(s) && Done(s, t)
    ensures Done(Next(s, a), t)
    ensures t == s.shell ==> Next(s, a).delivered == s.delivered && Next(s, a).shell == s.shell
  {
    hide InOrder, NoLostWakeup, SleepOk, WakesPaidFor;
  }

  lemma FinishedIsDone(s: State, t: TaskId)
    requires Invariant(s) && t in s.finished
    ensures Done(s, t)
  {
    hide InOrder, NoLostWakeup, SleepOk, WakesPaidFor;
  }

  lemma {:induction false} FinishedForGood(s: State, actions: seq<Action>, t: TaskId)
    requires Invariant(s) && Done(s, t)
    ensures Done(Run(s, actions), t)
    ensures t == s.shell ==> Run(s, actions).delivered == s.delivered && Run(s, actions).shell == s.shell
    decreases |actions|
  {
    hide Next, Invariant, Done;
    if actions != [] {
      NextKeeps(s, actions[0]);
      NextKeepsDone(s, actions[0], t);
      FinishedForGood(Next(s, actions[0]), actions[1..], t);
    }
  }

  // ---------------------------------------------------------------------
  // Which tasks are live
  // ---------------------------------------------------------------------

  /** The step at which a poll returns Ready. */
  predicate EndsPoll(s: State, a: Action) {
    a == Main(true) && (s.pc.PollOther? || s.pc.Handle?)
  }

  function Polled(s: State): TaskId {
    if s.pc.PollOther? then s.pc.task else s.shell
  }

  /** A task leaves the executor only when its poll returns Ready, and then it alone. */
  lemma NextTasks(s: State, a: Action)
    ensures var s' := Next(s, a);
            if EndsPoll(s, a) then
              s'.tasks == s.tasks - {Polled(s)} && s'.finished == s.finished + {Polled(s)} && s'.pc.Fetch?
            else
              s'.tasks == s.tasks && s'.finished == s.finished
  {
  }

  predicate NeverReady(actions: seq<Action>) {
    forall i :: 0 <= i < |actions| ==> actions[i] != Main(true)
  }

  lemma {:induction false} TasksAreKept(s: State, actions: seq<Action>)
    requires Invariant(s)
    ensures var s' := Run(s, actions);
            && s'.tasks !! s'.finished && s'.tasks + s'.finished == s.tasks + s.finished
            && (NeverReady(actions) ==> s'.tasks == s.tasks && s'.finished == s.finished)
    decreases |actions|
  {
    hide Next, InOrder, NoLostWakeup, SleepOk, WakesPaidFor;
    if actions != [] {
      NextTasks(s, actions[0]);
      NextKeeps(s, actions[0]);
      assert forall i :: 0 <= i < |actions[1..]| ==> actions[1..][i] == actions[i + 1];
      TasksAreKept(Next(s, actions[0]), actions[1..]);
    }
  }

  /** In every interleaving from boot, the live and the finished tasks are apart and
      together are the spawned ones; where no poll returns Ready, all are live. */
  lemma TasksAreSpawned(shell: TaskId, queue: seq<TaskId>, actions: seq<Action>)
    requires Spawned(shell, queue)
    ensures var s := Run(Boot(shell, queue), actions);
            && s.tasks !! s.finished && s.tasks + s.finished == (set t | t in queue)
            && (NeverReady(actions) ==> s.tasks == (set t | t in queue))
  {
    BootOk(shell, queue);
    TasksAreKept(Boot(shell, queue), actions);
  }

  // ---------------------------------------------------------------------
  // The order of polls
  // ---------------------------------------------------------------------

  /** What a step takes from the task queue: nothing, the id of the task it goes on
      to poll, or an id whose task no longer exists. */
  datatype Fetched = Nothing | Poll(task: TaskId) | Stale

  function FetchedBy(s: State, a: Action): Fetched {
    var pc := Next(s, a).pc;
    if !a.Main? || !s.pc.Fetch? || pc.Disable? then Nothing
    else if pc.Start? then Poll(s.shell)
    else if pc.PollOther? then Poll(pc.task)
    else Stale
  }

  function FetchedIn(s: State, actions: seq<Action>): seq<Fetched>
    decreases |actions|
  {
    if actions == [] then []
    else
      var f := FetchedBy(s, actions[0]);
      (if f.Nothing? then [] else [f]) + FetchedIn(Next(s, actions[0]), actions[1..])
  }

  /** The ids queued in a run: the shell's, once for every wake. */
  function QueuedIn(s: State, actions: seq<Action>): seq<TaskId>
    decreases |actions|
  {
    if actions == [] then []
    else
      var s' := Next(s, actions[0]);
      (if s'.wakes > s.wakes then [s.shell] else []) + QueuedIn(s', actions[1..])
  }

  lemma StepQueues(s: State, a: Action)
    requires Invariant(s)
    ensures var s', f := Next(s, a), FetchedBy(s, a);
            var queued := if s'.wakes > s.wakes then [s.shell] else [];
            && s'.shell == s.shell
            && (!f.Nothing? ==> s.taskQueue != [])
            && (if f.Nothing? then s'.taskQueue == s.taskQueue + queued
                else queued == [] && s'.taskQueue == s.taskQueue[1..])
            && (f.Poll? ==> f.task == s.taskQueue[0] && f.task in s.tasks)
            && (f.Stale? ==> s.taskQueue[0] !in s.tasks)
  {
    hide InOrder, NoLostWakeup, SleepOk, WakesPaidFor;
  }

  /** A queue from which these were taken, in order, and what is left of it. */
  predicate TakenInOrder(all: seq<TaskId>, taken: seq<Fetched>, left: seq<TaskId>) {
    && |taken| <= |all| && left == all[|taken|..]
    && forall i :: 0 <= i < |taken| && taken[i].Poll? ==> taken[i].task == all[i]
  }

  lemma TakeOneMore(t: TaskId, all: seq<TaskId>, first: Fetched, taken: seq<Fetched>, left: seq<TaskId>)
    requires TakenInOrder(all, taken, left) && (first.Poll? ==> first.task == t)
    ensures TakenInOrder([t] + all, [first] + taken, left)
  {
    assert ([t] + all)[|taken| + 1..] == all[|taken|..];
  }

  /** First queued, first fetched, in every interleaving: the ids queued at first and
      since are fetched in that order, and the queue holds those not fetched yet. */
  lemma {:induction false} FetchedInOrder(s: State, actions: seq<Action>)
    requires Invariant(s)
    ensures TakenInOrder(s.taskQueue + QueuedIn(s, actions), FetchedIn(s, actions), Run(s, actions).taskQueue)
    decreases |actions|
  {
    hide *;
    if actions == [] {
      NothingTaken(s);
    } else {
      var s', rest := Next(s, actions[0]), actions[1..];
      NextKeeps(s, actions[0]);
      FetchedInOrder(s', rest);
      OneStepTaken(s, actions);
      if !FetchedBy(s, actions[0]).Nothing? {
        TakeOneMore(s.taskQueue[0], s'.taskQueue + QueuedIn(s', rest), FetchedBy(s, actions[0]), FetchedIn(s', rest),
                    Run(s', rest).taskQueue);
      }
    }
  }

  lemma NothingTaken(s: State)
    ensures TakenInOrder(s.taskQueue + QueuedIn(s, []), FetchedIn(s, []), Run(s, []).taskQueue)
  {
    assert s.taskQueue + [] == s.taskQueue;
  }

  lemma OneStepTaken(s: State, actions: seq<Action>)
    requires Invariant(s) && actions != []
    ensures var s', rest, f := Next(s, actions[0]), actions[1..], FetchedBy(s, actions[0]);
            var all, all' := s.taskQueue + QueuedIn(s, actions), s'.taskQueue + QueuedIn(s', rest);
            && Run(s, actions) == Run(s', rest)
            && (f.Nothing? ==> all == all' && FetchedIn(s, actions) == FetchedIn(s', rest))
            && (!f.Nothing? ==>
                  && s.taskQueue != [] && all == [s.taskQueue[0]] + all'
                  && FetchedIn(s, actions) == [f] + FetchedIn(s', rest) && (f.Poll? ==> f.task == s.taskQueue[0]))
  {
    hide Next, Invariant, FetchedBy;
    StepQueues(s, actions[0]);
    var later := QueuedIn(Next(s, actions[0]), actions[1..]);
    if FetchedBy(s, actions[0]).Nothing? {
      Regroup(s.taskQueue, [s.shell], later);
    } else {
      assert [] + later == later;
      Regroup([s.taskQueue[0]], s.taskQueue[1..], later);
      assert s.taskQueue == [s.taskQueue[0]] + s.taskQueue[1..];
    }
  }

  lemma Regroup(a: seq<TaskId>, b: seq<TaskId>, c: seq<TaskId>)
    ensures (a + b) + c == a + (b + c)
    ensures a + [] == a && [] + c == c
  {
  }

  // ---------------------------------------------------------------------
  // Progress: left to itself, the main line polls every queued task
  // ---------------------------------------------------------------------

  predicate Polls(s: State, t: TaskId) {
    if t == s.shell then s.pc.Start? else s.pc == PollOther(t)
  }

  predicate Queued(s: State, t: TaskId) {
    Invariant(s) && !s.pc.Panicked? && t in s.tasks && t in s.taskQueue
  }

  /** How far the main line is from the next fetch, but for scancodes. */
  function ToFetch(pc: Pc): nat {
    match pc
    case Fetch => 0
    case PollOther(_) => 1
    case Enable => 1
    case CheckIdle => 2
    case Disable => 3
    case SlowPop => 2
    case Register => 3
    case FastPop => 4
    case Handle(_) => 5
    case Start => 5
    case TakeWaker(_) => 6
    case _ => 0
  }

  lemma QueueMovesUp(s: State, t: TaskId)
    requires Queued(s, t)
    ensures var s' := Next(s, Main(false));
            && (Polls(s', t) || Queued(s', t))
            && (Queued(s', t) ==>
                  || |s'.taskQueue| < |s.taskQueue|
                  || (s'.taskQueue == s.taskQueue && |s'.scancodes| < |s.scancodes|)
                  || (s'.taskQueue == s.taskQueue && s'.scancodes == s.scancodes && ToFetch(s'.pc) < ToFetch(s.pc)))
  {
    NextKeeps(s, Main(false));
    hide InOrder, NoLostWakeup, WakesPaidFor;
    if s.pc.Fetch? {
      assert s.taskQueue == [s.taskQueue[0]] + s.taskQueue[1..];
    }
  }

  /** Every live task whose id is queued is polled after finitely many steps. */
  lemma {:induction false} QueuedIsPolled(s: State, t: TaskId) returns (n: nat)
    requires Queued(s, t)
    ensures Polls(MainRun(s, n), t)
    decreases |s.taskQueue|, |s.scancodes|, ToFetch(s.pc)
  {
    hide Next, Invariant;
    QueueMovesUp(s, t);
    var s' := Next(s, Main(false));
    if Polls(s', t) {
      n := 1;
    } else {
      var m := QueuedIsPolled(s', t);
      n := m + 1;
    }
  }

  // ---------------------------------------------------------------------
  // Progress: left to itself, the main line delivers everything accepted
  // ---------------------------------------------------------------------

  function MainRun(s: State, n: nat): State
    decreases n
  {
    if n == 0 then s else MainRun(Next(s, Main(false)), n - 1)
  }

  function Undelivered(s: State): int {
    |s.accepted| - |s.delivered|
  }

  /** How far the main line is from handling the next scancode. */
  function Distance(s: State): nat {
    var fetch := 4 + 2 * |s.taskQueue|;
    match s.pc
    case Handle(_) => 0
    case TakeWaker(_) => 1
    case FastPop => 1
    case Start => 2
    case SlowPop => 2
    case Register => 3
    case Fetch => fetch
    case PollOther(_) => fetch + 1
    case Enable => fetch + 1
    case CheckIdle => fetch + 2
    case Disable => fetch + 3
    case _ => 0
  }

  predicate Waiting(s: State) {
    Invariant(s) && !s.pc.Panicked? && s.shell in s.tasks && Undelivered(s) > 0
  }

  lemma MainLineGetsCloser(s: State)
    requires Waiting(s)
    ensures var s' := Next(s, Main(false));
            && Invariant(s') && !s'.pc.Panicked? && s'.shell in s'.tasks && s'.accepted == s.accepted
            && 0 <= Undelivered(s') <= Undelivered(s)
            && (Undelivered(s') == Undelivered(s) ==> Distance(s') < Distance(s))
  {
    NextKeeps(s, Main(false));
    assert |s.delivered + InHand(s.pc) + s.scancodes| == |s.delivered| + |InHand(s.pc)| + |s.scancodes|;
    if InHand(s.pc) == [] {
      assert s.scancodes != [];
    }
  }

  /** From every reachable state with a live shell that does not exit, the main
      line alone delivers every scancode accepted so far. */
  lemma {:induction false} EverythingIsDelivered(s: State) returns (n: nat)
    requires Invariant(s) && !s.pc.Panicked? && s.shell in s.tasks
    ensures MainRun(s, n).delivered == s.accepted
    decreases if Undelivered(s) > 0 then Undelivered(s) else 0, Distance(s)
  {
    if Waiting(s) {
      MainLineGetsCloser(s);
      var m := EverythingIsDelivered(Next(s, Main(false)));
      n := m + 1;
    } else {
      n := 0;
      assert s.accepted == s.delivered;
    }
  }

  // ---------------------------------------------------------------------
  // The one panic: a full task queue
  // ---------------------------------------------------------------------

  /** The kernel panics exactly when a scancode is accepted while a waker is
      registered and the task queue is full. */
  lemma PanicsExactly(s: State, a: Action)
    requires Invariant(s) && !s.pc.Panicked?
    ensures Next(s, a).pc.Panicked? <==>
              && a.Keyboard? && s.interruptsEnabled && s.streamCreated && |s.scancodes| < 100
              && s.waker.Some? && |s.taskQueue| == 100
  {
    hide InOrder, NoLostWakeup;
  }

  /** A scancode is accepted exactly if it arrives while interrupts are enabled, after
      the stream was created and while its queue has room; nothing else is. */
  lemma AcceptsExactly(s: State, a: Action)
    requires Invariant(s) && !s.pc.Panicked?
    ensures Next(s, a).accepted ==
            if a.Keyboard? && s.interruptsEnabled && s.streamCreated && |s.scancodes| < 100
            then s.accepted + [a.code] else s.accepted
  {
    hide InOrder, NoLostWakeup;
  }

  /** The task queue holds at most the spawned tasks and one id per wake. */
  predicate PaidFor(s: State, spawned: nat) {
    && |s.taskQueue| <= spawned + s.wakes
    && (s.pc.Panicked? ==> spawned + s.registrations > QUEUE_SIZE)
  }

  lemma NextIsPaidFor(s: State, a: Action, spawned: nat)
    requires Invariant(s) && PaidFor(s, spawned)
    ensures PaidFor(Next(s, a), spawned)
  {
    hide InOrder, NoLostWakeup;
    if !s.pc.Panicked? {
      PanicsExactly(s, a);
    }
  }

  lemma {:induction false} QueueIsPaidFor(s: State, actions: seq<Action>, spawned: nat)
    requires Invariant(s) && PaidFor(s, spawned)
    ensures PaidFor(Run(s, actions), spawned)
    decreases |actions|
  {
    hide Next, Invariant, PaidFor;
    if actions != [] {
      NextKeeps(s, actions[0]);
      NextIsPaidFor(s, actions[0], spawned);
      QueueIsPaidFor(Next(s, actions[0]), actions[1..], spawned);
    }
  }

  /** A run that registers the waker few enough times cannot panic. */
  lemma NoPanicWithFewRegistrations(shell: TaskId, queue: seq<TaskId>, actions: seq<Action>)
    requires Spawned(shell, queue)
    requires |queue| + Run(Boot(shell, queue), actions).registrations <= QUEUE_SIZE
    ensures !Run(Boot(shell, queue), actions).pc.Panicked?
  {
    BootOk(shell, queue);
    QueueIsPaidFor(Boot(shell, queue), actions, |queue|);
  }

  /** An interrupt that lands between the registration and the second pop queues
      the shell although it is being polled. */
  function Cycle(): seq<Action> {
    [Main(false), Main(false), Keyboard(0), Main(false), Main(false), Main(false)]
  }

  predicate InBurst(s: State, k: nat) {
    && s.pc.FastPop? && s.interruptsEnabled && s.streamCreated
    && s.scancodes == [] && s.waker.None? && |s.taskQueue| == k
  }

  lemma CycleQueuesShell(s: State, k: nat, rest: seq<Action>)
    requires InBurst(s, k) && k < QUEUE_SIZE
    ensures exists s' :: InBurst(s', k + 1) && Run(s, Cycle() + rest) == Run(s', rest)
  {
    var a := Cycle() + rest;
    var s1 := Next(s, a[0]);
    var s2 := Next(s1, a[1]);
    var s3 := Next(s2, a[2]);
    var s4 := Next(s3, a[3]);
    var s5 := Next(s4, a[4]);
    var s6 := Next(s5, a[5]);
    assert s2.pc.SlowPop? && s2.waker.Some? && s2.scancodes == [];
    assert s3.scancodes == [0] && s3.waker.None? && |s3.taskQueue| == k + 1;
    assert InBurst(s6, k + 1);
    Unfold6(s, a);
    assert a[6..] == rest;
  }

  lemma Unfold6(s: State, a: seq<Action>)
    requires |a| >= 6
    ensures Run(s, a) == Run(Next(Next(Next(Next(Next(Next(s, a[0]), a[1]), a[2]), a[3]), a[4]), a[5]), a[6..])
  {
    hide Next;
    Unfold3(s, a);
    Unfold3(Next(Next(Next(s, a[0]), a[1]), a[2]), a[3..]);
    assert a[3..][3..] == a[6..];
  }

  lemma Unfold3(s: State, a: seq<Action>)
    requires |a| >= 3
    ensures Run(s, a) == Run(Next(Next(Next(s, a[0]), a[1]), a[2]), a[3..])
  {
    hide Next;
    var s1 := Next(s, a[0]);
    var s2 := Next(s1, a[1]);
    assert a[1..][1..] == a[2..] && a[2..][1..] == a[3..];
    assert Run(s, a) == Run(s1, a[1..]);
    assert Run(s1, a[1..]) == Run(s2, a[2..]);
    assert Run(s2, a[2..]) == Run(Next(s2, a[2]), a[3..]);
  }

  function Burst(n: nat): seq<Action> {
    if n == 0 then [Main(false), Main(false), Keyboard(0)] else Cycle() + Burst(n - 1)
  }

  lemma {:induction false} BurstOverflows(s: State, k: nat)
    requires InBurst(s, k) && k <= QUEUE_SIZE
    ensures Run(s, Burst(QUEUE_SIZE - k)).pc.Panicked?
    decreases QUEUE_SIZE - k
  {
    if k == QUEUE_SIZE {
      Unfold3(s, Burst(0));
    } else {
      CycleQueuesShell(s, k, Burst(QUEUE_SIZE - k - 1));
      var s' :| InBurst(s', k + 1) && Run(s, Cycle() + Burst(QUEUE_SIZE - k - 1)) == Run(s', Burst(QUEUE_SIZE - k - 1));
      BurstOverflows(s', k + 1);
    }
  }

  /** So the panic is reachable: a burst of well-timed key presses fills the queue. */
  lemma TaskQueueCanOverflow(shell: TaskId)
    ensures Spawned(shell, [shell])
    ensures Run(Boot(shell, [shell]), [Main(false), Main(false)] + Burst(QUEUE_SIZE)).pc.Panicked?
  {
    var s, a := Boot(shell, [shell]), [Main(false), Main(false)] + Burst(QUEUE_SIZE);
    var s2 := Next(Next(s, a[0]), a[1]);
    assert InBurst(s2, 0);
    assert a[1..][1..] == Burst(QUEUE_SIZE);
    BurstOverflows(s2, 0);
  }
}
