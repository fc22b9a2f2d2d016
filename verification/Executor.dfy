/**
  The task executor (kernel/src/task/executor.rs) and the scancode stream
  (kernel/src/shell/keyboard.rs) as the code runs them on the single core, with
  interrupts arriving between any two shared-memory accesses. Every behaviour of
  this code is a run of the protocol in module Wakeups.
 */
module Executor {
  import opened FsTypes
  import opened Wakeups

  datatype Interrupt = KeyboardInterrupt(code: byte) | TimerInterrupt

  function ActionOf(i: Interrupt): Action {
    match i
    case KeyboardInterrupt(code) => Keyboard(code)
    case TimerInterrupt => Timer
  }

  /** The scancodes of some interrupts, in order. */
  function Codes(interrupts: seq<Interrupt>): seq<byte> {
    if interrupts == [] then []
    else (if interrupts[0].KeyboardInterrupt? then [interrupts[0].code] else []) + Codes(interrupts[1..])
  }

  lemma OneMore(early: seq<byte>, accepted: seq<byte>, interrupts: seq<Interrupt>)
    requires interrupts != []
    ensures var all, rest := early + accepted + Codes(interrupts), Codes(interrupts[1..]);
            match interrupts[0]
            case KeyboardInterrupt(code) =>
              && early + (accepted + [code]) + rest == all
              && (accepted == [] ==> (early + [code]) + accepted + rest == all)
            case TimerInterrupt => early + accepted + rest == all
  {
  }

  /** A shell is done exactly once it was given what makes it exit. */
  ghost predicate Decided(exits: seq<byte> -> bool, handled: seq<byte>, done: bool) {
    && (done <==> handled != [] && exits(handled))
    && forall k :: 0 < k < |handled| ==> !exits(handled[..k])
  }

  lemma Decides(exits: seq<byte> -> bool, handled: seq<byte>, code: byte)
    requires Decided(exits, handled, false)
    ensures Decided(exits, handled + [code], exits(handled + [code]))
  {
    var more := handled + [code];
    assert more[..|handled|] == handled;
    assert forall k :: 0 < k < |handled| ==> more[..k] == handled[..k];
  }

  /** The core with its executor, the waker slot and the scancode queue, which is
      absent until the stream is created. `interrupts` are those still to come;
      `early`, `accepted` and `handled` record the scancodes that came before the
      stream, that entered the queue and that reached the shell. The shell decides
      by `exits`, from what it was given so far, whether to exit. */
  class Core {
    const shell: TaskId
    const exits: seq<byte> -> bool
    var tasks: set<TaskId>
    var taskQueue: seq<TaskId>
    var wakerCache: set<TaskId>
    var scancodeQueue: Option<seq<byte>>
    var waker: Option<TaskId>
    var interruptsEnabled: bool
    var panicked: bool
    var interrupts: seq<Interrupt>
    var early: seq<byte>
    var accepted: seq<byte>
    var handled: seq<byte>

    ghost const spawned: seq<TaskId>
    ghost const arrivals: seq<Interrupt>
    ghost var overflowed: bool
    ghost var s: State
    ghost var trace: seq<Action>

    function Scancodes(): seq<byte>
      reads `scancodeQueue
    {
      if scancodeQueue.Some? then scancodeQueue.value else []
    }

    /** The protocol state is reached by the steps taken so far. */
    ghost predicate Reached()
      reads `s, `trace
    {
      Spawned(shell, spawned) && s == Run(Boot(shell, spawned), trace)
    }

    /** The fields show the protocol state; `done` are tasks that have finished
        but are still to be removed. */
    ghost predicate Matches(done: set<TaskId>)
      reads this
    {
      && Reached() && Accounted() && Sized()
      && s.shell == shell
      && tasks - done == s.tasks && done !! s.tasks
      && wakerCache <= tasks
      && taskQueue == s.taskQueue
      && (scancodeQueue.Some? <==> s.streamCreated) && Scancodes() == s.scancodes
      && waker == s.waker
      && interruptsEnabled == s.interruptsEnabled
      && (panicked <==> s.pc.Panicked?)
      && accepted == s.accepted && handled == s.delivered
      && Decided(exits, handled, shell in s.finished)
    }

    /** Every interrupt queues at most one id and one scancode. */
    ghost predicate Sized()
      reads this
    {
      && |interrupts| + |taskQueue| <= |arrivals| + |spawned|
      && |interrupts| + |Scancodes()| <= |arrivals|
      && (panicked ==> |arrivals| + |spawned| > QUEUE_SIZE)
      && (scancodeQueue.None? ==> accepted == [])
    }

    /** No scancode is dropped but before the stream exists or when its queue is full. */
    ghost predicate Accounted()
      reads `interrupts, `early, `accepted, `overflowed
    {
      && (overflowed ==> |arrivals| > QUEUE_SIZE)
      && (!overflowed ==> early + accepted + Codes(interrupts) == Codes(arrivals))
    }

    /** What is left of the interrupts bounds how far the queues can grow. */
    twostate predicate Bounded()
      reads this
    {
      && |interrupts| <= |old(interrupts)|
      && |interrupts| + |taskQueue| <= |old(interrupts)| + |old(taskQueue)|
      && |interrupts| + |Scancodes()| <= |old(interrupts)| + |old(Scancodes())|
    }

    constructor (shell: TaskId, exits: seq<byte> -> bool, spawned: seq<TaskId>, interrupts: seq<Interrupt>)
      requires Spawned(shell, spawned)
      ensures Matches({}) && s.pc.Fetch? && this.interrupts == interrupts
      ensures this.shell == shell && this.exits == exits && this.spawned == spawned && arrivals == interrupts
    {
      this.shell, this.exits, this.spawned := shell, exits, spawned;
      tasks, taskQueue, wakerCache := (set t | t in spawned), spawned, {};
      scancodeQueue, waker, interruptsEnabled, panicked := None, None, true, false;
      this.interrupts, early, accepted, handled := interrupts, [], [], [];
      arrivals, overflowed := interrupts, false;
      s, trace := Boot(shell, spawned), [];
    }

    ghost method Advance(a: Action)
      requires Reached()
      modifies this`s, this`trace
      ensures Reached() && s == Next(old(s), a)
    {
      hide Next, Boot, Spawned;
      RunStep(Boot(shell, spawned), trace, a);
      s, trace := Next(s, a), trace + [a];
    }

    // -------------------------------------------------------------------
    // Interrupt side
    // -------------------------------------------------------------------

    /** Wakes the registered task; a full task queue panics. */
    method Wake()
      modifies this`waker, this`taskQueue, this`panicked
      ensures waker.None?
      ensures panicked == (old(panicked) || (old(waker).Some? && |old(taskQueue)| == QUEUE_SIZE))
      ensures taskQueue == old(taskQueue) +
                           if old(waker).Some? && |old(taskQueue)| != QUEUE_SIZE then [old(waker).value] else []
    {
      var slot := waker;
      waker := None;
      if slot.Some? {
        if |taskQueue| == QUEUE_SIZE {
          panicked := true;
        } else {
          taskQueue := taskQueue + [slot.value];
        }
      }
    }

    /** A scancode is dropped if there is no stream yet or its queue is full;
        otherwise it is queued and the registered task, if any, is woken. */
    twostate predicate Received(code: byte)
      reads this
    {
      var full := old(scancodeQueue).Some? && |old(Scancodes())| == QUEUE_SIZE;
      var queued := old(scancodeQueue).Some? && !full;
      var woken := queued && old(waker).Some?;
      && early == old(early) + (if old(scancodeQueue).None? then [code] else [])
      && overflowed == (old(overflowed) || full)
      && accepted == old(accepted) + (if queued then [code] else [])
      && scancodeQueue.Some? == old(scancodeQueue).Some?
      && Scancodes() == old(Scancodes()) + (if queued then [code] else [])
      && waker == (if queued then None else old(waker))
      && panicked == (old(panicked) || (woken && |old(taskQueue)| == QUEUE_SIZE))
      && taskQueue == old(taskQueue) + (if woken && |old(taskQueue)| != QUEUE_SIZE then [old(waker).value] else [])
    }

    /** What the keyboard handler does with a scancode. */
    method AddScancode(code: byte)
      modifies this`waker, this`taskQueue, this`panicked, this`scancodeQueue, this`early, this`accepted, this`overflowed
      ensures Received(code)
    {
      if scancodeQueue.None? {
        early := early + [code];
      } else if |scancodeQueue.value| == QUEUE_SIZE {
        overflowed := true;
      } else {
        scancodeQueue := Some(scancodeQueue.value + [code]);
        accepted := accepted + [code];
        Wake();
      }
    }

    /** Takes the next interrupt. A halted core resumes. */
    method Interrupted(ghost done: set<TaskId>)
      requires Matches(done) && !panicked && interruptsEnabled && interrupts != []
      modifies this
      ensures Matches(done) && Bounded() && interrupts == old(interrupts)[1..]
      ensures panicked || s.pc == Resume(old(s)).pc
      ensures tasks == old(tasks) && wakerCache == old(wakerCache) && interruptsEnabled
    {
      hide Run, Boot, Spawned, MainStep, Reached, Accounted, Decided;
      var next := interrupts[0];
      interrupts := interrupts[1..];
      Advance(ActionOf(next));
      match next
      case KeyboardInterrupt(code) =>
        AddScancode(code);
        ArrivalAccounted();
      case TimerInterrupt =>
        ArrivalAccounted();
    }

    twostate lemma ArrivalAccounted()
      requires old(Accounted() && Sized() && interrupts != []) && interrupts == old(interrupts)[1..]
      requires match old(interrupts)[0]
               case KeyboardInterrupt(code) => Received(code)
               case TimerInterrupt => early == old(early) && accepted == old(accepted) && overflowed == old(overflowed)
      ensures Accounted()
    {
      hide Codes;
      OneMore(old(early), old(accepted), old(interrupts));
    }

    /** Any number of interrupts, while they are enabled, before the next step. */
    method Interrupts(ghost done: set<TaskId>)
      requires Matches(done) && !panicked && !s.pc.Halted?
      modifies this
      ensures Matches(done) && Bounded()
      ensures panicked || s.pc == old(s).pc
      ensures tasks == old(tasks) && wakerCache == old(wakerCache) && interruptsEnabled == old(interruptsEnabled)
      ensures !interruptsEnabled ==> unchanged(this)
      ensures |interrupts| == |old(interrupts)| ==> unchanged(this)
    {
      if !interruptsEnabled {
        return;
      }
      var n: nat :| n <= |interrupts|;
      while n > 0 && !panicked
        invariant Matches(done) && Bounded() && n <= |interrupts| && interruptsEnabled
        invariant panicked || s.pc == old(s).pc
        invariant tasks == old(tasks) && wakerCache == old(wakerCache)
        invariant |interrupts| == |old(interrupts)| ==> unchanged(this)
      {
        hide Matches, Scancodes;
        Interrupted(done);
        n := n - 1;
      }
    }

    // -------------------------------------------------------------------
    // The shell task
    // -------------------------------------------------------------------

    /** Takes the oldest scancode, if any. */
    method Pop() returns (code: Option<byte>)
      modifies this`scancodeQueue
      ensures code == if old(Scancodes()) == [] then None else Some(old(Scancodes())[0])
      ensures Scancodes() == if old(Scancodes()) == [] then [] else old(Scancodes())[1..]
      ensures scancodeQueue.Some? == old(scancodeQueue).Some?
    {
      code := None;
      if scancodeQueue.Some? && scancodeQueue.value != [] {
        code := Some(scancodeQueue.value[0]);
        scancodeQueue := Some(scancodeQueue.value[1..]);
      }
    }

    /** Polls the stream for the shell: a scancode, or none once the waker is
        registered and a second look found the queue still empty. */
    method PollNext() returns (code: Option<byte>)
      requires Matches({}) && s.pc.FastPop?
      modifies this
      ensures Matches({}) && Bounded() && tasks == old(tasks) && wakerCache == old(wakerCache)
      ensures panicked || s.pc == if code.Some? then Handle(code.value) else Fetch
      ensures !panicked && code.Some? ==> |interrupts| + |Scancodes()| < |old(interrupts)| + |old(Scancodes())|
    {
      hide Run, Boot, Spawned, KeyboardStep, Reached, Accounted, Decided;
      Interrupts({});
      if panicked {
        return None;
      }
      Advance(Main(false));
      code := Pop();
      if code.Some? {
        return;
      }
      code := PollSlowly();
    }

    method PollSlowly() returns (code: Option<byte>)
      requires Matches({}) && s.pc.Register?
      modifies this
      ensures Matches({}) && Bounded() && tasks == old(tasks) && wakerCache == old(wakerCache)
      ensures panicked || s.pc == if code.Some? then Handle(code.value) else Fetch
      ensures !panicked && code.Some? ==> |interrupts| + |Scancodes()| < |old(interrupts)| + |old(Scancodes())|
    {
      hide Run, Boot, Spawned, Next, Matches;
      Register();
      if panicked {
        return None;
      }
      code := PopAgain();
      if !panicked && code.Some? {
        Unregister(code.value);
      }
    }

    method PopAgain() returns (code: Option<byte>)
      requires Matches({}) && s.pc.SlowPop?
      modifies this
      ensures Matches({}) && Bounded() && tasks == old(tasks) && wakerCache == old(wakerCache)
      ensures panicked || s.pc == if code.Some? then TakeWaker(code.value) else Fetch
      ensures !panicked && code.Some? ==> |interrupts| + |Scancodes()| < |old(interrupts)| + |old(Scancodes())|
    {
      hide Run, Boot, Spawned, KeyboardStep, Reached, Accounted, Decided;
      Interrupts({});
      if panicked {
        return None;
      }
      Advance(Main(false));
      code := Pop();
    }

    method Register()
      requires Matches({}) && s.pc.Register?
      modifies this
      ensures Matches({}) && Bounded() && tasks == old(tasks) && wakerCache == old(wakerCache)
      ensures panicked || s.pc.SlowPop?
    {
      hide Run, Boot, Spawned, KeyboardStep, Reached, Accounted, Decided;
      Interrupts({});
      if !panicked {
        Advance(Main(false));
        waker := Some(shell);
      }
    }

    method Unregister(ghost code: byte)
      requires Matches({}) && s.pc == TakeWaker(code)
      modifies this
      ensures Matches({}) && Bounded() && tasks == old(tasks) && wakerCache == old(wakerCache)
      ensures panicked || s.pc == Handle(code)
    {
      hide Run, Boot, Spawned, KeyboardStep, Reached, Accounted, Decided;
      Interrupts({});
      if !panicked {
        Advance(Main(false));
        waker := None;
      }
    }

    /** Polls the shell task: creates the stream the first time, then handles
        scancodes until none is left or one makes it exit. */
    method PollShell() returns (ready: bool)
      requires Matches({}) && s.pc.Start?
      modifies this
      ensures !panicked ==> Matches(if ready then {shell} else {}) && s.pc.Fetch?
      ensures panicked ==> Matches({})
      ensures Bounded() && tasks == old(tasks) && wakerCache == old(wakerCache)
    {
      hide Run, Boot, Spawned, KeyboardStep, Reached, Accounted, Decided;
      Interrupts({});
      if panicked {
        return false;
      }
      Advance(Main(false));
      if scancodeQueue.None? {
        scancodeQueue := Some([]);
      }
      ready := PollStream();
    }

    method PollStream() returns (ready: bool)
      requires Matches({}) && s.pc.FastPop?
      modifies this
      ensures !panicked ==> Matches(if ready then {shell} else {}) && s.pc.Fetch?
      ensures panicked ==> Matches({})
      ensures Bounded() && tasks == old(tasks) && wakerCache == old(wakerCache)
    {
      hide Run, Boot, Spawned, KeyboardStep, Reached, Accounted, Decided;
      while true
        invariant Matches({}) && s.pc.FastPop? && Bounded() && tasks == old(tasks) && wakerCache == old(wakerCache)
        decreases |interrupts| + |Scancodes()|
      {
        var code := PollNext();
        if panicked || code.None? {
          return false;
        }
        ready := HandleScancode(code.value);
        if panicked || ready {
          return;
        }
      }
    }

    /** What the shell does with a scancode is left open, except whether it exits. */
    method HandleScancode(code: byte) returns (ready: bool)
      requires Matches({}) && s.pc == Handle(code)
      modifies this
      ensures !panicked ==> Matches(if ready then {shell} else {}) && s.pc == if ready then Fetch else FastPop
      ensures panicked ==> Matches({}) && !ready
      ensures Bounded() && tasks == old(tasks) && wakerCache == old(wakerCache)
    {
      hide Run, Boot, Spawned, KeyboardStep, Reached, Accounted, Decided;
      Interrupts({});
      if panicked {
        return false;
      }
      ShellIsLive();
      Decides(exits, handled, code);
      ready := exits(handled + [code]);
      Advance(Main(ready));
      handled := handled + [code];
    }

    // -------------------------------------------------------------------
    // The executor
    // -------------------------------------------------------------------

    /** A task that is being polled has not finished. */
    lemma ShellIsLive()
      requires Reached()
      ensures PollingShell(s.pc) ==> s.shell !in s.finished
      ensures s.pc.PollOther? ==> s.pc.task != s.shell
    {
      BootOk(shell, spawned);
      RunKeeps(Boot(shell, spawned), trace);
    }

    /** Any task other than the shell: its poll may or may not finish it. */
    method PollOther(t: TaskId) returns (ready: bool)
      requires Matches({}) && s.pc == Pc.PollOther(t)
      modifies this
      ensures !panicked ==> Matches(if ready then {t} else {}) && s.pc.Fetch?
      ensures panicked ==> Matches({})
      ensures Bounded() && tasks == old(tasks) && wakerCache == old(wakerCache)
    {
      hide Run, Boot, Spawned, KeyboardStep, Reached, Accounted, Decided;
      Interrupts({});
      if panicked {
        return false;
      }
      ShellIsLive();
      ready := *;
      Advance(Main(ready));
    }

    /** Polls a live task and removes it, with its cached waker, once it is done. */
    method PollTask(t: TaskId)
      requires Matches({}) && t in tasks && s.pc == if t == shell then Start else Pc.PollOther(t)
      modifies this
      ensures Matches({}) && Bounded() && (panicked || s.pc.Fetch?)
    {
      hide Run, Boot, Spawned, Next, Reached, Accounted, Decided;
      wakerCache := wakerCache + {t};
      var ready;
      if t == shell {
        ready := PollShell();
      } else {
        ready := PollOther(t);
      }
      if !panicked && ready {
        tasks, wakerCache := tasks - {t}, wakerCache - {t};
      }
    }

    /** Polls tasks until the queue is found empty. */
    method RunReadyTasks()
      requires Matches({}) && s.pc.Fetch?
      modifies this
      ensures Matches({}) && Bounded() && (panicked || s.pc.Disable?)
      ensures !panicked ==> taskQueue == []
    {
      hide Run, Boot, Spawned, Next, Matches;
      var more := true;
      while more && !panicked
        invariant Matches({}) && Bounded() && (panicked || s.pc == if more then Fetch else Pc.Disable)
        invariant !more && !panicked ==> taskQueue == []
        decreases |interrupts| + |taskQueue|, more, !panicked
      {
        more := RunReadyTask();
      }
    }

    /** Pops a task id and polls the task, if it still exists. */
    method RunReadyTask() returns (more: bool)
      requires Matches({}) && !panicked && s.pc.Fetch?
      modifies this
      ensures Matches({}) && Bounded()
      ensures panicked || s.pc == if more then Fetch else Pc.Disable
      ensures !panicked && more ==> |interrupts| + |taskQueue| < |old(interrupts)| + |old(taskQueue)|
      ensures !panicked && !more ==> taskQueue == []
    {
      hide Run, Boot, Spawned, KeyboardStep, Reached, Accounted, Decided;
      more := true;
      Interrupts({});
      if panicked {
        return;
      }
      Advance(Main(false));
      if taskQueue == [] {
        return false;
      }
      var t := taskQueue[0];
      taskQueue := taskQueue[1..];
      if t in tasks {
        PollTask(t);
      }
    }

    /** Halts unless a task is queued. The check runs with interrupts disabled,
        and enabling them takes effect with the halt, so the core never sleeps on
        an accepted scancode; the next interrupt ends the sleep. */
    method SleepIfIdle() returns (asleep: bool)
      requires Matches({}) && s.pc.Disable?
      modifies this
      ensures Matches({}) && Bounded()
      ensures panicked || (if asleep then s.pc.Halted? && interrupts == [] else s.pc.Fetch?)
      ensures asleep ==> !panicked && taskQueue == []
      ensures |interrupts| == |old(interrupts)| && !panicked && !asleep ==> old(taskQueue) != []
    {
      hide Run, Boot, Spawned, KeyboardStep, Reached, Accounted, Decided;
      asleep := false;
      Interrupts({});
      if panicked {
        return;
      }
      Disable();
      if taskQueue == [] {
        asleep := EnableAndHalt();
      } else {
        Advance(Main(false));
        interruptsEnabled := true;
      }
    }

    method Disable()
      requires Matches({}) && s.pc.Disable?
      modifies `interruptsEnabled, `s, `trace
      ensures Matches({}) && s.pc == if taskQueue == [] then Pc.EnableAndHalt else Enable
    {
      hide Run, Boot, Spawned, KeyboardStep, Reached, Accounted, Decided;
      Advance(Main(false));
      interruptsEnabled := false;
      Advance(Main(false));
    }

    method EnableAndHalt() returns (asleep: bool)
      requires Matches({}) && s.pc.EnableAndHalt?
      modifies this
      ensures Matches({}) && Bounded()
      ensures panicked || (if asleep then s.pc.Halted? && interrupts == [] else s.pc.Fetch?)
      ensures asleep ==> !panicked && taskQueue == old(taskQueue)
      ensures |interrupts| == |old(interrupts)| ==> asleep
    {
      hide Run, Boot, Spawned, KeyboardStep, Reached, Accounted, Decided;
      Advance(Main(false));
      interruptsEnabled := true;
      if interrupts == [] {
        return true;
      }
      Interrupted({});
      asleep := false;
    }

    /** The executor's loop, until no interrupt is left to wake the core. */
    method RunTasks()
      requires Matches({}) && s.pc.Fetch?
      modifies this
      ensures Matches({}) && (panicked || (s.pc.Halted? && interrupts == [] && taskQueue == []))
    {
      hide Run, Boot, Spawned, Next, Reached, Accounted, Decided;
      while !panicked
        invariant Matches({}) && Bounded() && (panicked || s.pc.Fetch?)
        decreases |interrupts|, !panicked
      {
        RunReadyTasks();
        if panicked {
          return;
        }
        var asleep := SleepIfIdle();
        if asleep {
          return;
        }
      }
    }
  }

  /** Booting with some tasks and serving any interrupts, however they interleave:
      the shell is given a prefix of what was accepted, panic or not, and nothing
      after what makes it exit. It stays live exactly as long as it has not exited,
      and once the core sleeps for good a live shell has been given everything. With
      few interrupts the kernel does not panic and accepts every scancode from the
      creation of the stream on. */
  method Serve(shell: TaskId, exits: seq<byte> -> bool, spawned: seq<TaskId>, interrupts: seq<Interrupt>)
    returns (panicked: bool, live: bool, early: seq<byte>, accepted: seq<byte>, handled: seq<byte>)
    requires Spawned(shell, spawned)
    ensures handled <= accepted
    ensures forall k :: 0 < k < |handled| ==> !exits(handled[..k])
    ensures live <==> !(handled != [] && exits(handled))
    ensures !panicked && live ==> handled == accepted
    ensures |interrupts| + |spawned| <= 100 ==> !panicked && early + accepted == Codes(interrupts)
  {
    var core := new Core(shell, exits, spawned, interrupts);
    core.RunTasks();
    panicked, live := core.panicked, shell in core.tasks;
    early, accepted, handled := core.early, core.accepted, core.handled;
    NeverHaltsWithInputWaiting(shell, spawned, core.trace);
    DeliveryAndTaskSafety(shell, spawned, core.trace, [], shell);
    TasksAreSpawned(shell, spawned, core.trace);
  }
}
