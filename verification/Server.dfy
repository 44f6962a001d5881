/** The server's two pools. The main thread schedules command jobs on the first; a command job may schedule
    transfer jobs on the second while it runs. At the end the first pool is joined, then the second. */
module Server {
  import opened ThreadPool

  datatype Phase = Serving | JoiningCommands | JoiningTransfers | Done

  datatype Server = Server(commands: Pool, transfers: Pool, phase: Phase)

  datatype Event =
    // The main thread schedules a command.
    | Command(a: Action)
    // A command worker pops, finishes or leaves.
    | CommandWorker(a: Action)
    // A running command schedules a transfer: both halves of the push are made by that command.
    | Transfer(a: Action)
    // A transfer worker pops, finishes or leaves.
    | TransferWorker(a: Action)
    // The main thread goes on: stops the first pool, then, when its workers have left, the second one.
    | Advance

  predicate IsWorkerAction(a: Action) {
    a.Pop? || a.Finish? || a.Exit?
  }

  ghost predicate Ready(s: Server) {
    Inv(s.commands) && Inv(s.transfers)
  }

  /** A transfer that is half scheduled belongs to a running command. */
  ghost predicate ProducerRuns(s: Server, producer: nat)
    requires Ready(s)
  {
    producer < s.commands.workers && s.commands.running[producer].Some?
  }

  ghost predicate Possible(s: Server, e: Event)
    requires Ready(s)
  {
    match e
    case Command(a) =>
      s.phase == Serving && (a.Assign? || a.Enqueue?) && Enabled(s.commands, a)
    case CommandWorker(a) =>
      && IsWorkerAction(a) && Enabled(s.commands, a)
      && (a.Finish? ==> forall i :: 0 <= i < |s.transfers.pending| ==> s.transfers.pending[i].producer != a.w)
    case Transfer(a) =>
      && Enabled(s.transfers, a)
      && (a.Assign? || a.Enqueue?)
      && ProducerRuns(s, if a.Assign? then a.producer else s.transfers.pending[a.k].producer)
    case TransferWorker(a) => IsWorkerAction(a) && Enabled(s.transfers, a)
    case Advance =>
      (match s.phase
       // The main thread is not in the middle of a push when it stops the first pool.
       case Serving => s.commands.pending == []
       case JoiningCommands => AllExited(s.commands)
       case JoiningTransfers => AllExited(s.transfers)
       case Done => false)
  }

  ghost function Then(s: Server, e: Event): Server
    requires Ready(s) && Possible(s, e)
  {
    match e
    case Command(a) => s.(commands := Next(s.commands, a))
    case CommandWorker(a) => s.(commands := Next(s.commands, a))
    case Transfer(a) => s.(transfers := Next(s.transfers, a))
    case TransferWorker(a) => s.(transfers := Next(s.transfers, a))
    case Advance =>
      (match s.phase
       case Serving => s.(commands := Next(s.commands, Stop), phase := JoiningCommands)
       case JoiningCommands => s.(transfers := Next(s.transfers, Stop), phase := JoiningTransfers)
       case _ => s.(phase := Done))
  }

  ghost function Boot(commandWorkers: nat, transferWorkers: nat): Server {
    Server(Initial(commandWorkers), Initial(transferWorkers), Serving)
  }

  ghost predicate NoneLate(s: Pool) {
    forall w :: 0 <= w < |s.late| ==> s.late[w] == []
  }

  /** What holds all along: pools are stopped in turn, half scheduled transfers belong to running commands,
      and no item comes too late. */
  ghost predicate ServerInv(s: Server) {
    && Ready(s)
    && NoneLate(s.commands) && NoneLate(s.transfers)
    && (s.commands.stopped <==> s.phase != Serving)
    && (s.transfers.stopped <==> s.phase == JoiningTransfers || s.phase == Done)
    && (s.phase != Serving ==> s.commands.pending == [])
    && (s.phase == JoiningTransfers || s.phase == Done ==> AllExited(s.commands))
    && (s.phase == Done ==> AllExited(s.transfers))
    && (forall i :: 0 <= i < |s.transfers.pending| ==> ProducerRuns(s, s.transfers.pending[i].producer))
  }

  lemma BootInv(commandWorkers: nat, transferWorkers: nat)
    requires commandWorkers > 0 && transferWorkers > 0
    ensures ServerInv(Boot(commandWorkers, transferWorkers))
  {
    InitialInv(commandWorkers);
    InitialInv(transferWorkers);
  }

  /** A worker's step makes nothing late, stops nothing and pushes nothing. */
  lemma WorkerStep(s: Pool, a: Action)
    requires Inv(s) && IsWorkerAction(a) && Enabled(s, a) && NoneLate(s)
    ensures var s' := Next(s, a);
            && Inv(s') && NoneLate(s') && s'.stopped == s.stopped && s'.pending == s.pending && s'.workers == s.workers
            && (AllExited(s) ==> AllExited(s'))
            && forall w :: 0 <= w < s.workers && s.running[w].Some? && a != Finish(w) ==> s'.running[w].Some?
  {
    hide Placed, InOrder, RoundRobin;
    StepInv(s, a);
  }

  /** A push to a pool that is not stopped makes nothing late. */
  lemma PushStep(s: Pool, a: Action)
    requires Inv(s) && (a.Assign? || a.Enqueue?) && Enabled(s, a) && NoneLate(s) && !s.stopped
    ensures var s' := Next(s, a);
            Inv(s') && NoneLate(s') && !s'.stopped && s'.workers == s.workers
    ensures var s' := Next(s, a);
            forall i :: 0 <= i < |s'.pending| ==>
              (a.Assign? && s'.pending[i].producer == a.producer)
              || exists j :: 0 <= j < |s.pending| && s'.pending[i] == s.pending[j]
  {
    hide Placed, InOrder, RoundRobin;
    StepInv(s, a);
    var s' := Next(s, a);
    if a.Enqueue? {
      assert s'.pending == s.pending[..a.k] + s.pending[a.k + 1..];
      forall i | 0 <= i < |s'.pending| ensures exists j :: 0 <= j < |s.pending| && s'.pending[i] == s.pending[j] {
        assert s'.pending[i] == s.pending[if i < a.k then i else i + 1];
      }
    }
  }

  lemma StopStep(s: Pool)
    requires Inv(s) && NoneLate(s)
    ensures var s' := Next(s, Stop);
            Inv(s') && NoneLate(s') && s'.stopped && s'.pending == s.pending && s'.workers == s.workers && s'.running == s.running
            && s'.exited == s.exited
  {
    hide Placed, InOrder, RoundRobin;
    StepInv(s, Stop);
  }

  /** When the command workers have left no command runs. */
  lemma NoCommandRuns(s: Server)
    requires Ready(s) && AllExited(s.commands)
    ensures |s.commands.running| == s.commands.workers
    ensures forall w :: 0 <= w < s.commands.workers ==> s.commands.running[w].None?
  {
  }

  /** A transfer can only be scheduled while the second pool is open. */
  lemma TransfersOpen(s: Server, a: Action)
    requires ServerInv(s) && Possible(s, Event.Transfer(a))
    ensures !s.transfers.stopped
  {
    if s.transfers.stopped {
      NoCommandRuns(s);
    }
  }

  lemma ServerStep(s: Server, e: Event)
    requires ServerInv(s) && Possible(s, e)
    ensures ServerInv(Then(s, e))
  {
    hide Inv, Next, Enabled;
    match e
    case Command(a) => PushStep(s.commands, a); CommandsKeepRunning(s, a);
    case CommandWorker(a) => WorkerStep(s.commands, a);
    case Transfer(a) =>
      TransfersOpen(s, a);
      PushStep(s.transfers, a);
    case TransferWorker(a) => WorkerStep(s.transfers, a);
    case Advance =>
      StopStep(s.commands);
      StopStep(s.transfers);
  }

  lemma CommandsKeepRunning(s: Server, a: Action)
    requires Ready(s) && (a.Assign? || a.Enqueue?) && Enabled(s.commands, a)
    ensures Next(s.commands, a).running == s.commands.running && Next(s.commands, a).exited == s.commands.exited
  {
  }

  ghost predicate ServerRun(states: seq<Server>, events: seq<Event>, c: nat, t: nat) {
    && c > 0 && t > 0
    && |states| == |events| + 1 && states[0] == Boot(c, t)
    && (forall i :: 0 <= i < |states| ==> Ready(states[i]))
    && (forall i :: 0 <= i < |events| ==> Possible(states[i], events[i]) && states[i + 1] == Then(states[i], events[i]))
  }

  lemma {:induction false} ServerRunInv(states: seq<Server>, events: seq<Event>, c: nat, t: nat, i: nat)
    requires ServerRun(states, events, c, t) && i < |states|
    ensures ServerInv(states[i])
    decreases i
  {
    if i == 0 {
      BootInv(c, t);
    } else {
      ServerRunInv(states, events, c, t, i - 1);
      ServerStep(states[i - 1], events[i - 1]);
    }
  }

  /** After both joins no job scheduled on either pool is left unfinished, whatever the interleaving. */
  lemma ShutdownLeavesNothing(states: seq<Server>, events: seq<Event>, c: nat, t: nat, i: nat)
    requires ServerRun(states, events, c, t) && i < |states| && states[i].phase == Done
    ensures AllFinished(states[i].commands) && AllFinished(states[i].transfers)
    ensures states[i].commands.pending == [] && states[i].transfers.pending == []
  {
    ServerRunInv(states, events, c, t, i);
    ShutdownComplete(states[i].commands);
    ShutdownComplete(states[i].transfers);
    NoCommandRuns(states[i]);
    var pending := states[i].transfers.pending;
    assert pending != [] ==> ProducerRuns(states[i], pending[0].producer);
  }
}
