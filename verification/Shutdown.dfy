/** The shutdown of the server comes to its end: it never gets stuck, every step towards it leaves less to do, and from
    every state there is a way to the end on which all jobs finish. */
module Shutdown {
  import opened Results
  import opened ThreadPool
  import opened Server

  // ---- What is possible ----

  /** While the server is serving the main thread can push commands; and in every phase nothing holds up the workers,
      or a running command that pushes a transfer, but what the pools say. A command does not end within a push. */
  lemma ServerNeverHeldUp(s: Server, w: nat, producer: nat, item: Item)
    requires ServerInv(s) && w < s.commands.workers
    ensures s.phase == Serving ==> Possible(s, Command(Assign(producer, item)))
    ensures s.phase == Serving ==> forall k: nat :: k < |s.commands.pending| ==> Possible(s, Command(Enqueue(k)))
    ensures (s.commands.running[w].Some? && (forall i :: 0 <= i < |s.transfers.pending| ==> s.transfers.pending[i].producer != w) ==>
              Possible(s, CommandWorker(Finish(w))))
    ensures (s.commands.running[w].None? && !s.commands.exited[w] && s.commands.queues[w] != [] ==>
              Possible(s, CommandWorker(Pop(w))))
    ensures (s.commands.running[w].None? && !s.commands.exited[w] && s.commands.queues[w] == [] && s.phase != Serving ==>
              Possible(s, CommandWorker(Exit(w))))
    ensures s.commands.running[w].Some? ==> Possible(s, Event.Transfer(Assign(w, item)))
    ensures forall k: nat :: k < |s.transfers.pending| ==> Possible(s, Event.Transfer(Enqueue(k)))
  {
  }

  lemma TransfersNeverHeldUp(s: Server, w: nat)
    requires ServerInv(s) && w < s.transfers.workers
    ensures s.transfers.running[w].Some? ==> Possible(s, TransferWorker(Finish(w)))
    ensures s.transfers.running[w].None? && !s.transfers.exited[w] && s.transfers.queues[w] != [] ==> Possible(s, TransferWorker(Pop(w)))
    ensures (s.transfers.running[w].None? && !s.transfers.exited[w] && s.transfers.queues[w] == [] && s.transfers.stopped ==>
              Possible(s, TransferWorker(Exit(w))))
  {
  }

  // ---- How much is left ----

  /** What the first `k` workers have left to do. */
  function Total(s: Pool, k: nat): nat
    requires WellFormed(s) && k <= s.workers
  {
    if k == 0 then 0 else Total(s, k - 1) + Work(s, k - 1)
  }

  lemma {:induction false} TotalDrops(s: Pool, s': Pool, k: nat, w: nat)
    requires WellFormed(s) && WellFormed(s') && s'.workers == s.workers && k <= s.workers && w < s.workers
    requires Work(s', w) < Work(s, w) && forall v :: 0 <= v < s.workers && v != w ==> Work(s', v) == Work(s, v)
    ensures if w < k then Total(s', k) < Total(s, k) else Total(s', k) == Total(s, k)
  {
    hide Work, WellFormed;
    if k > 0 { TotalDrops(s, s', k - 1, w); }
  }

  lemma WorkerTotal(s: Pool, a: Action, w: nat)
    requires Inv(s) && w < s.workers && (a == Finish(w) || a == Pop(w) || a == Exit(w)) && Enabled(s, a)
    ensures var s' := Next(s, a); s'.workers == s.workers && Total(s', s.workers) < Total(s, s.workers)
  {
    hide Placed, InOrder, RoundRobin;
    var s' := Next(s, a);
    TotalDrops(s, s', s.workers, w);
  }

  function Rank(p: Phase): nat {
    match p
    case Serving => 3
    case JoiningCommands => 2
    case JoiningTransfers => 1
    case Done => 0
  }

  /** What is left to do before the main thread can go on. */
  ghost function Left(s: Server): nat
    requires Ready(s)
  {
    match s.phase
    case Serving => |s.commands.pending|
    case JoiningCommands => Total(s.commands, s.commands.workers) + |s.transfers.pending|
    case JoiningTransfers => Total(s.transfers, s.transfers.workers)
    case Done => 0
  }

  /** The event is possible, stays in the phase and leaves less to do. */
  ghost predicate Helps(s: Server, e: Event) {
    && ServerInv(s) && Possible(s, e) && ServerInv(Then(s, e))
    && Then(s, e).phase == s.phase && Left(Then(s, e)) < Left(s)
  }

  lemma CommandWorkerHelps(s: Server, a: Action, w: nat)
    requires ServerInv(s) && s.phase == JoiningCommands && w < s.commands.workers && Possible(s, CommandWorker(a))
    requires a == Finish(w) || a == Pop(w) || a == Exit(w)
    ensures Helps(s, CommandWorker(a))
  {
    hide Inv, Next, Enabled, Total;
    ServerStep(s, CommandWorker(a));
    WorkerTotal(s.commands, a, w);
  }

  lemma TransferWorkerHelps(s: Server, a: Action, w: nat)
    requires ServerInv(s) && s.phase == JoiningTransfers && w < s.transfers.workers && Possible(s, TransferWorker(a))
    requires a == Finish(w) || a == Pop(w) || a == Exit(w)
    ensures Helps(s, TransferWorker(a))
  {
    hide Inv, Next, Enabled, Total;
    ServerStep(s, TransferWorker(a));
    WorkerTotal(s.transfers, a, w);
  }

  lemma TransferPushHelps(s: Server, k: nat)
    requires ServerInv(s) && s.phase == JoiningCommands && k < |s.transfers.pending|
    ensures Possible(s, Event.Transfer(Enqueue(k))) && Helps(s, Event.Transfer(Enqueue(k)))
  {
    hide Inv, Total;
    ReadyParts(s);
    assert ProducerRuns(s, s.transfers.pending[k].producer);
    ServerStep(s, Event.Transfer(Enqueue(k)));
  }

  lemma ReadyParts(s: Server)
    requires Ready(s)
    ensures WellFormed(s.commands) && WellFormed(s.transfers)
  {
  }

  /** The first join: a worker that has not left has a step that helps, or the command it runs is in the middle of a
      push that helps. */
  lemma FirstJoinProgresses(s: Server, w: nat) returns (e: Event)
    requires ServerInv(s) && s.phase == JoiningCommands && w < s.commands.workers && !s.commands.exited[w]
    ensures Helps(s, e)
    ensures e == CommandWorker(Finish(w)) || e == CommandWorker(Pop(w)) || e == CommandWorker(Exit(w))
            || (exists k: nat :: k < |s.transfers.pending| && s.transfers.pending[k].producer == w && e == Event.Transfer(Enqueue(k)))
  {
    hide Helps, Possible;
    ServerNeverHeldUp(s, w, 0, Item(0, 0));
    if s.commands.running[w].Some? && exists k: nat :: k < |s.transfers.pending| && s.transfers.pending[k].producer == w {
      var k: nat :| k < |s.transfers.pending| && s.transfers.pending[k].producer == w;
      TransferPushHelps(s, k);
      e := Event.Transfer(Enqueue(k));
    } else {
      var a := if s.commands.running[w].Some? then Finish(w) else if s.commands.queues[w] != [] then Pop(w) else Exit(w);
      CommandWorkerHelps(s, a, w);
      e := CommandWorker(a);
    }
  }

  /** The second join. */
  lemma SecondJoinProgresses(s: Server, w: nat) returns (e: Event)
    requires ServerInv(s) && s.phase == JoiningTransfers && w < s.transfers.workers && !s.transfers.exited[w]
    ensures Helps(s, e) && (e == TransferWorker(Finish(w)) || e == TransferWorker(Pop(w)) || e == TransferWorker(Exit(w)))
  {
    hide Helps, Possible;
    TransfersNeverHeldUp(s, w);
    var a := if s.transfers.running[w].Some? then Finish(w) else if s.transfers.queues[w] != [] then Pop(w) else Exit(w);
    TransferWorkerHelps(s, a, w);
    e := TransferWorker(a);
  }

  /** When all workers of the pool that is being joined have left, the main thread goes on. */
  lemma JoinReturns(s: Server)
    requires ServerInv(s)
    ensures s.phase == Serving && s.commands.pending == [] ==> Possible(s, Advance) && Then(s, Advance).phase == JoiningCommands
    ensures s.phase == JoiningCommands && AllExited(s.commands) ==> Possible(s, Advance) && Then(s, Advance).phase == JoiningTransfers
    ensures s.phase == JoiningTransfers && AllExited(s.transfers) ==> Possible(s, Advance) && Then(s, Advance).phase == Done
  {
  }

  // ---- There is always a way to the end ----

  /** The events are possible one after the other and lead from `s` to `t`. */
  ghost predicate LeadsTo(s: Server, events: seq<Event>, t: Server)
    decreases |events|
  {
    if events == [] then s == t else Ready(s) && Possible(s, events[0]) && LeadsTo(Then(s, events[0]), events[1..], t)
  }

  /** What is enqueued is never forgotten. */
  ghost predicate Remembers(s: Server, t: Server) {
    s.commands.enqueued <= t.commands.enqueued && s.transfers.enqueued <= t.transfers.enqueued
  }

  lemma EnqueuedStays(s: Server, e: Event)
    requires Ready(s) && Possible(s, e)
    ensures Remembers(s, Then(s, e))
  {
  }

  lemma MainThreadPush(s: Server)
    requires ServerInv(s) && s.phase == Serving && s.commands.pending != []
    ensures Helps(s, Command(Enqueue(0)))
  {
    hide Inv;
    ReadyParts(s);
    ServerStep(s, Command(Enqueue(0)));
  }

  lemma NextTowardsEnd(s: Server) returns (e: Event)
    requires ServerInv(s) && s.phase != Done
    ensures Ready(s) && Possible(s, e) && ServerInv(Then(s, e)) && Remembers(s, Then(s, e))
    ensures var t := Then(s, e); Rank(t.phase) < Rank(s.phase) || (t.phase == s.phase && Left(t) < Left(s))
  {
    hide Possible, Then, Left, Remembers, Inv;
    ReadyParts(s);
    JoinReturns(s);
    if s.phase == Serving && s.commands.pending != [] {
      e := Command(Enqueue(0));
      MainThreadPush(s);
    } else if s.phase == JoiningCommands && !AllExited(s.commands) {
      var w :| 0 <= w < |s.commands.exited| && !s.commands.exited[w];
      e := FirstJoinProgresses(s, w);
    } else if s.phase == JoiningTransfers && !AllExited(s.transfers) {
      var w :| 0 <= w < |s.transfers.exited| && !s.transfers.exited[w];
      e := SecondJoinProgresses(s, w);
    } else {
      e := Advance;
      ServerStep(s, Advance);
    }
    EnqueuedStays(s, e);
  }

  /** From every state the server can get to there is a way to the end. */
  lemma {:induction false} CanEnd(s: Server) returns (events: seq<Event>, t: Server)
    requires ServerInv(s)
    ensures LeadsTo(s, events, t) && ServerInv(t) && t.phase == Done && Remembers(s, t)
    decreases Rank(s.phase), if Ready(s) then Left(s) else 0
  {
    hide Possible, Then, Left, Inv;
    if s.phase == Done {
      events, t := [], s;
    } else {
      var e := NextTowardsEnd(s);
      var rest;
      rest, t := CanEnd(Then(s, e));
      events := [e] + rest;
      assert events[0] == e && events[1..] == rest;
    }
  }

  // ---- As runs ----

  ghost function StatesOf(s: Server, events: seq<Event>): seq<Server>
    decreases |events|
  {
    if events == [] || !Ready(s) || !Possible(s, events[0]) then [s] else [s] + StatesOf(Then(s, events[0]), events[1..])
  }

  lemma {:induction false} StatesRun(s: Server, events: seq<Event>, t: Server)
    requires ServerInv(s) && LeadsTo(s, events, t)
    ensures var states := StatesOf(s, events);
            && |states| == |events| + 1 && states[0] == s && states[|events|] == t
            && (forall i :: 0 <= i < |states| ==> Ready(states[i]))
            && (forall i :: 0 <= i < |events| ==> Possible(states[i], events[i]) && states[i + 1] == Then(states[i], events[i]))
    decreases |events|
  {
    hide Possible, Then, Inv;
    if events != [] {
      var e, rest := events[0], events[1..];
      ServerStep(s, e);
      StatesRun(Then(s, e), rest, t);
      var tail := StatesOf(Then(s, e), rest);
      var states := [s] + tail;
      forall i | 0 <= i < |events| ensures Possible(states[i], events[i]) && states[i + 1] == Then(states[i], events[i]) {
        if i > 0 { assert events[i] == rest[i - 1] && states[i] == tail[i - 1] && states[i + 1] == tail[i]; }
      }
      forall i | 0 <= i < |states| ensures Ready(states[i]) {
        if i > 0 { assert states[i] == tail[i - 1]; }
      }
    }
  }

  /** A command is pushed and taken, and pushes a transfer while it runs. */
  lemma CommandPushesTransfer(c: nat, t: nat, command: Item, transfer: Item) returns (events: seq<Event>, s: Server)
    requires c > 0 && t > 0
    ensures LeadsTo(Boot(c, t), events, s) && ServerInv(s)
    ensures s.commands.enqueued == [command] && s.transfers.enqueued == [transfer]
  {
    hide Possible, Then, Inv, LeadsTo;
    var w := 1 % c;
    var s0 := Boot(c, t);
    BootInv(c, t);
    var e1, e2, e3 := Command(Assign(0, command)), Command(Enqueue(0)), CommandWorker(Pop(w));
    var e4, e5 := Event.Transfer(Assign(w, transfer)), Event.Transfer(Enqueue(0));
    var s1 := PushedFirst(s0, e1, c, command);
    var s2 := PushedSecond(s1, e2, c, command);
    var s3 := Taken(s2, e3, c, command);
    var s4 := TransferBegun(s3, e4, w, transfer);
    s := TransferPushed(s4, e5, w, transfer);
    events := [e1, e2, e3, e4, e5];
    FiveSteps(s0, e1, s1, e2, s2, e3, s3, e4, s4, e5, s);
  }

  lemma PushedFirst(s0: Server, e: Event, c: nat, command: Item) returns (s1: Server)
    requires ServerInv(s0) && s0.commands == Initial(c) && s0.phase == Serving && e == Command(Assign(0, command))
    ensures Possible(s0, e) && s1 == Then(s0, e) && ServerInv(s1) && s1.transfers == s0.transfers && s1.phase == Serving
    ensures s1.commands.workers == c && s1.commands.pending == [Pending(0, command, 1 % c)] && s1.commands.enqueued == []
    ensures forall w :: 0 <= w < c ==> s1.commands.queues[w] == [] && s1.commands.running[w].None? && !s1.commands.exited[w]
  {
    ServerStep(s0, e);
    s1 := Then(s0, e);
  }

  lemma PushedSecond(s1: Server, e: Event, c: nat, command: Item) returns (s2: Server)
    requires ServerInv(s1) && s1.phase == Serving && e == Command(Enqueue(0)) && c > 0
    requires s1.commands.workers == c && s1.commands.pending == [Pending(0, command, 1 % c)] && s1.commands.enqueued == []
    requires forall w :: 0 <= w < c ==> s1.commands.queues[w] == [] && s1.commands.running[w].None? && !s1.commands.exited[w]
    ensures Possible(s1, e) && s2 == Then(s1, e) && ServerInv(s2) && s2.transfers == s1.transfers && s2.phase == Serving
    ensures s2.commands.workers == c && s2.commands.queues[1 % c] == [command] && s2.commands.enqueued == [command]
    ensures s2.commands.running[1 % c].None? && !s2.commands.exited[1 % c]
  {
    ServerStep(s1, e);
    s2 := Then(s1, e);
  }

  lemma Taken(s2: Server, e: Event, c: nat, command: Item) returns (s3: Server)
    requires ServerInv(s2) && c > 0 && e == CommandWorker(Pop(1 % c)) && s2.commands.workers == c
    requires s2.commands.queues[1 % c] == [command] && s2.commands.running[1 % c].None? && !s2.commands.exited[1 % c]
    requires s2.phase == Serving
    ensures Possible(s2, e) && s3 == Then(s2, e) && ServerInv(s3) && s3.transfers == s2.transfers && s3.phase == Serving
    ensures 1 % c < s3.commands.workers && s3.commands.running[1 % c] == Some(command)
    ensures s3.commands.enqueued == s2.commands.enqueued
  {
    ServerStep(s2, e);
    s3 := Then(s2, e);
  }

  lemma TransferBegun(s3: Server, e: Event, w: nat, transfer: Item) returns (s4: Server)
    requires ServerInv(s3) && w < s3.commands.workers && s3.commands.running[w].Some? && e == Event.Transfer(Assign(w, transfer))
    requires s3.transfers.pending == [] && s3.transfers.enqueued == []
    ensures Possible(s3, e) && s4 == Then(s3, e) && ServerInv(s4) && s4.commands == s3.commands
    ensures |s4.transfers.pending| == 1 && s4.transfers.pending[0].producer == w && s4.transfers.pending[0].item == transfer
    ensures s4.transfers.enqueued == []
  {
    ServerStep(s3, e);
    s4 := Then(s3, e);
  }

  lemma TransferPushed(s4: Server, e: Event, w: nat, transfer: Item) returns (s5: Server)
    requires ServerInv(s4) && w < s4.commands.workers && s4.commands.running[w].Some? && e == Event.Transfer(Enqueue(0))
    requires |s4.transfers.pending| == 1 && s4.transfers.pending[0].producer == w && s4.transfers.pending[0].item == transfer
    requires s4.transfers.enqueued == []
    ensures Possible(s4, e) && s5 == Then(s4, e) && ServerInv(s5) && s5.commands == s4.commands
    ensures s5.transfers.enqueued == [transfer]
  {
    ServerStep(s4, e);
    s5 := Then(s4, e);
  }

  lemma FiveSteps(s0: Server, e1: Event, s1: Server, e2: Event, s2: Server, e3: Event, s3: Server, e4: Event, s4: Server,
                  e5: Event, s5: Server)
    requires Ready(s0) && Possible(s0, e1) && s1 == Then(s0, e1)
    requires Ready(s1) && Possible(s1, e2) && s2 == Then(s1, e2)
    requires Ready(s2) && Possible(s2, e3) && s3 == Then(s2, e3)
    requires Ready(s3) && Possible(s3, e4) && s4 == Then(s3, e4)
    requires Ready(s4) && Possible(s4, e5) && s5 == Then(s4, e5)
    ensures LeadsTo(s0, [e1, e2, e3, e4, e5], s5)
  {
    hide Possible, Then, Ready;
    assert [e5][1..] == [] && [e4, e5][1..] == [e5] && [e3, e4, e5][1..] == [e4, e5];
    assert [e2, e3, e4, e5][1..] == [e3, e4, e5] && [e1, e2, e3, e4, e5][1..] == [e2, e3, e4, e5];
    assert LeadsTo(s5, [], s5);
    assert LeadsTo(s4, [e5], s5);
    assert LeadsTo(s3, [e4, e5], s5);
    assert LeadsTo(s2, [e3, e4, e5], s5);
    assert LeadsTo(s1, [e2, e3, e4, e5], s5);
  }

  lemma {:induction false} LeadsToOn(s: Server, first: seq<Event>, t: Server, more: seq<Event>, u: Server)
    requires LeadsTo(s, first, t) && LeadsTo(t, more, u)
    ensures LeadsTo(s, first + more, u)
    decreases |first|
  {
    hide Possible, Then, Ready;
    if first == [] {
      assert first + more == more;
    } else {
      assert (first + more)[0] == first[0] && (first + more)[1..] == first[1..] + more;
      LeadsToOn(Then(s, first[0]), first[1..], t, more, u);
    }
  }

  lemma {:induction false} OfTagHas(items: seq<Item>, item: Item)
    ensures item in OfTag(items, item.tag) <==> item in items
  {
    if items != [] {
      OfTagHas(items[1..], item);
      assert items == [items[0]] + items[1..];
    }
  }

  lemma EnqueuedIsFinished(s: Pool, item: Item)
    requires AllFinished(s) && item in s.enqueued
    ensures item in s.finished
  {
    OfTagHas(s.enqueued, item);
    OfTagHas(s.finished, item);
    assert OfTag(s.finished, item.tag) == OfTag(s.enqueued, item.tag);
  }

  /** Whatever the numbers of workers, there is a run of the server in which a command is scheduled, runs, schedules a
      transfer, and in which both have finished when both joins have returned. */
  lemma ShutdownCanEnd(c: nat, t: nat, command: Item, transfer: Item) returns (states: seq<Server>, events: seq<Event>)
    requires c > 0 && t > 0
    ensures ServerRun(states, events, c, t) && |states| == |events| + 1 && states[|events|].phase == Done
    ensures command in states[|events|].commands.finished && transfer in states[|events|].transfers.finished
  {
    hide Possible, Then, Inv, LeadsTo, OfTag;
    var first, mid := CommandPushesTransfer(c, t, command, transfer);
    var rest, end := CanEnd(mid);
    events := first + rest;
    LeadsToOn(Boot(c, t), first, mid, rest, end);
    BootInv(c, t);
    StatesRun(Boot(c, t), events, end);
    states := StatesOf(Boot(c, t), events);
    ShutdownLeavesNothing(states, events, c, t, |events|);
    assert command == mid.commands.enqueued[0] == end.commands.enqueued[0];
    assert transfer == mid.transfers.enqueued[0] == end.transfers.enqueued[0];
    EnqueuedIsFinished(end.commands, command);
    EnqueuedIsFinished(end.transfers, transfer);
  }
}
