/** The tagged thread pool as a transition system. A step is what one thread does under one lock: give a tag
    its worker, put an item in a sub-queue, take an item out of it, finish a job, leave the worker loop, stop. */
module ThreadPool {
  import opened Results
  import opened Turns

  // Jobs and tags are known by their identity.
  type Tag = int
  type Job = int

  datatype Item = Item(job: Job, tag: Tag)

  /** A push between its two locks: the tag has its worker, the item is not in the sub-queue yet. */
  datatype Pending = Pending(producer: nat, item: Item, index: nat)

  datatype Pool = Pool(
    workers: nat,
    workerOf: map<Tag, nat>,
    lastMapped: nat,
    pending: seq<Pending>,
    queues: seq<seq<Item>>,
    running: seq<Option<Item>>,
    exited: seq<bool>,
    stopped: bool,
    // What has happened so far: tags in the order they got a worker, items in the order they were enqueued
    // and finished, and for each worker the items enqueued after it had left.
    order: seq<Tag>,
    enqueued: seq<Item>,
    finished: seq<Item>,
    late: seq<seq<Item>>)

  datatype Action =
    | Assign(producer: nat, item: Item)
    | Enqueue(k: nat)
    | Pop(w: nat)
    | Finish(w: nat)
    | Exit(w: nat)
    | Stop

  function Initial(n: nat): Pool {
    Pool(n, map[], 0, [], seq(n, _ => []), seq(n, _ => None), seq(n, _ => false), false,
         [], [], [], seq(n, _ => []))
  }

  /** A pool has at least one worker and one of everything per worker. */
  predicate WellFormed(s: Pool) {
    && s.workers > 0
    && |s.queues| == |s.running| == |s.exited| == |s.late| == s.workers
    && (forall i :: 0 <= i < |s.pending| ==> s.pending[i].index < s.workers)
    && (forall t :: t in s.workerOf ==> s.workerOf[t] < s.workers)
  }

  predicate Enabled(s: Pool, a: Action)
    requires WellFormed(s)
  {
    match a
    case Assign(_, _) => true
    case Enqueue(k) => k < |s.pending|
    // A worker waits until its sub-queue has an item or the pool is stopped, and prefers the item.
    case Pop(w) => w < s.workers && !s.exited[w] && s.running[w].None? && s.queues[w] != []
    case Finish(w) => w < s.workers && s.running[w].Some?
    case Exit(w) => w < s.workers && !s.exited[w] && s.running[w].None? && s.queues[w] == [] && s.stopped
    case Stop => true
  }

  function AssignTag(s: Pool, producer: nat, item: Item): (s': Pool)
    requires WellFormed(s)
    ensures WellFormed(s')
  {
    var s1 :=
      if item.tag in s.workerOf then s
      else
        var next := (s.lastMapped + 1) % s.workers;
        s.(lastMapped := next, workerOf := s.workerOf[item.tag := next], order := s.order + [item.tag]);
    s1.(pending := s1.pending + [Pending(producer, item, s1.workerOf[item.tag])])
  }

  function EnqueueItem(s: Pool, k: nat): (s': Pool)
    requires WellFormed(s) && k < |s.pending|
    ensures WellFormed(s')
  {
    var p := s.pending[k];
    s.(pending := s.pending[..k] + s.pending[k + 1..],
       queues := s.queues[p.index := s.queues[p.index] + [p.item]],
       enqueued := s.enqueued + [p.item],
       late := if s.exited[p.index] then s.late[p.index := s.late[p.index] + [p.item]] else s.late)
  }

  function Next(s: Pool, a: Action): (s': Pool)
    requires WellFormed(s) && Enabled(s, a)
    ensures WellFormed(s')
  {
    match a
    case Assign(producer, item) => AssignTag(s, producer, item)
    case Enqueue(k) => EnqueueItem(s, k)
    case Pop(w) => s.(running := s.running[w := Some(s.queues[w][0])], queues := s.queues[w := s.queues[w][1..]])
    case Finish(w) => s.(running := s.running[w := None], finished := s.finished + [s.running[w].value])
    case Exit(w) => s.(exited := s.exited[w := true])
    case Stop => s.(stopped := true)
  }

  // ---- The invariant of every run ----

  function OfTag(items: seq<Item>, tag: Tag): seq<Item> {
    if items == [] then []
    else (if items[0].tag == tag then [items[0]] else []) + OfTag(items[1..], tag)
  }

  function AsSeq<T>(o: Option<T>): seq<T> {
    if o.Some? then [o.value] else []
  }

  /** The items of a tag that are enqueued but not finished: the one running, then those in the sub-queue. */
  function Unfinished(s: Pool, tag: Tag): seq<Item>
    requires WellFormed(s)
  {
    if tag in s.workerOf && s.workerOf[tag] < s.workers
    then OfTag(AsSeq(s.running[s.workerOf[tag]]), tag) + OfTag(s.queues[s.workerOf[tag]], tag)
    else []
  }

  predicate AllOn(s: Pool, items: seq<Item>, w: nat) {
    forall i :: 0 <= i < |items| ==> items[i].tag in s.workerOf && s.workerOf[items[i].tag] == w
  }

  /** A tag has one worker, and all its items are with that worker. */
  ghost predicate Placed(s: Pool)
    requires WellFormed(s)
  {
    && (forall w :: 0 <= w < s.workers ==> AllOn(s, s.queues[w], w) && AllOn(s, AsSeq(s.running[w]), w))
    && (forall i :: 0 <= i < |s.pending| ==> AllOn(s, [s.pending[i].item], s.pending[i].index))
  }

  /** Per tag, what was enqueued is what has finished, then what is running, then what is queued. */
  ghost predicate InOrder(s: Pool)
    requires WellFormed(s)
  {
    forall t: Tag :: OfTag(s.enqueued, t) == OfTag(s.finished, t) + Unfinished(s, t)
  }

  /** Tags got their workers in turn. */
  ghost predicate RoundRobin(s: Pool)
    requires WellFormed(s)
  {
    && s.lastMapped == |s.order| % s.workers
    && (forall i :: 0 <= i < |s.order| ==> s.order[i] in s.workerOf && s.workerOf[s.order[i]] == (i + 1) % s.workers)
    && (forall i, j :: 0 <= i < j < |s.order| ==> s.order[i] != s.order[j])
    && (forall t :: t in s.workerOf ==> t in s.order)
  }

  /** A worker that has left runs nothing, and its sub-queue holds just what came later. */
  ghost predicate Quiet(s: Pool)
    requires WellFormed(s)
  {
    forall w :: 0 <= w < s.workers ==>
      if s.exited[w] then s.stopped && s.running[w].None? && s.queues[w] == s.late[w] else s.late[w] == []
  }

  ghost predicate Inv(s: Pool) {
    WellFormed(s) && Placed(s) && InOrder(s) && RoundRobin(s) && Quiet(s)
  }

  lemma InitialInv(n: nat)
    requires n > 0
    ensures Inv(Initial(n))
  {
  }

  lemma {:induction false} OfTagAppend(u: seq<Item>, v: seq<Item>, tag: Tag)
    ensures OfTag(u + v, tag) == OfTag(u, tag) + OfTag(v, tag)
  {
    if u == [] {
      assert u + v == v;
    } else {
      assert (u + v)[1..] == u[1..] + v && (u + v)[0] == u[0];
      OfTagAppend(u[1..], v, tag);
      var first := if u[0].tag == tag then [u[0]] else [];
      assert first + (OfTag(u[1..], tag) + OfTag(v, tag)) == (first + OfTag(u[1..], tag)) + OfTag(v, tag);
    }
  }

  lemma OfTagOne(item: Item, tag: Tag)
    ensures OfTag([item], tag) == if item.tag == tag then [item] else []
  {
    assert [item][1..] == [];
  }

  lemma {:induction false} OfTagNone(s: Pool, items: seq<Item>, w: nat, tag: Tag)
    requires AllOn(s, items, w) && !(tag in s.workerOf && s.workerOf[tag] == w)
    ensures OfTag(items, tag) == []
  {
    if items != [] {
      assert items[0].tag != tag;
      assert AllOn(s, items[1..], w);
      OfTagNone(s, items[1..], w, tag);
    }
  }

  // ---- Every step keeps it, part by part ----

  lemma StaysOn(s: Pool, s': Pool, items: seq<Item>, w: nat)
    requires AllOn(s, items, w)
    requires forall t :: t in s.workerOf ==> t in s'.workerOf && s'.workerOf[t] == s.workerOf[t]
    ensures AllOn(s', items, w)
  {
  }

  lemma AssignPlaced(s: Pool, producer: nat, item: Item)
    requires WellFormed(s) && Placed(s) && (forall t :: t in s.workerOf ==> t in s.order)
    ensures Placed(AssignTag(s, producer, item))
  {
    var s' := AssignTag(s, producer, item);
    forall w | 0 <= w < s.workers ensures AllOn(s', s'.queues[w], w) && AllOn(s', AsSeq(s'.running[w]), w) {
      StaysOn(s, s', s.queues[w], w);
      StaysOn(s, s', AsSeq(s.running[w]), w);
    }
    forall i | 0 <= i < |s'.pending| ensures AllOn(s', [s'.pending[i].item], s'.pending[i].index) {
      if i < |s.pending| { StaysOn(s, s', [s.pending[i].item], s.pending[i].index); }
    }
  }

  lemma EnqueuePlaced(s: Pool, k: nat)
    requires WellFormed(s) && Placed(s) && k < |s.pending|
    ensures Placed(EnqueueItem(s, k))
  {
    var s' := EnqueueItem(s, k);
    var p := s.pending[k];
    assert AllOn(s, [p.item], p.index) && [p.item][0] == p.item;
    forall w | 0 <= w < s.workers ensures AllOn(s', s'.queues[w], w) && AllOn(s', AsSeq(s'.running[w]), w) {
      assert AllOn(s, s.queues[w], w) && AllOn(s, AsSeq(s.running[w]), w);
    }
    forall i | 0 <= i < |s'.pending| ensures AllOn(s', [s'.pending[i].item], s'.pending[i].index) {
      var j := if i < k then i else i + 1;
      assert s'.pending[i] == s.pending[j];
      StaysOn(s, s', [s.pending[j].item], s.pending[j].index);
    }
  }

  lemma WorkerPlaced(s: Pool, a: Action)
    requires WellFormed(s) && Placed(s) && Enabled(s, a) && (a.Pop? || a.Finish? || a.Exit? || a.Stop?)
    ensures Placed(Next(s, a))
  {
    var s' := Next(s, a);
    forall v | 0 <= v < s.workers ensures AllOn(s', s'.queues[v], v) && AllOn(s', AsSeq(s'.running[v]), v) {
      assert AllOn(s, s.queues[v], v) && AllOn(s, AsSeq(s.running[v]), v);
    }
    forall i | 0 <= i < |s'.pending| ensures AllOn(s', [s'.pending[i].item], s'.pending[i].index) {
      StaysOn(s, s', [s.pending[i].item], s.pending[i].index);
    }
  }

  lemma AssignOrder(s: Pool, producer: nat, item: Item, t: Tag)
    requires WellFormed(s) && Placed(s)
    ensures Unfinished(AssignTag(s, producer, item), t) == Unfinished(s, t)
  {
    var s' := AssignTag(s, producer, item);
    if t !in s.workerOf && t in s'.workerOf {
      var w := s'.workerOf[t];
      OfTagNone(s, s.queues[w], w, t);
      OfTagNone(s, AsSeq(s.running[w]), w, t);
    }
  }

  lemma EnqueueOrder(s: Pool, k: nat, t: Tag)
    requires WellFormed(s) && Placed(s) && k < |s.pending|
    ensures Unfinished(EnqueueItem(s, k), t) == Unfinished(s, t) + OfTag([s.pending[k].item], t)
  {
    hide OfTag;
    var p := s.pending[k];
    assert AllOn(s, [p.item], p.index) && [p.item][0] == p.item;
    OfTagAppend(s.queues[p.index], [p.item], t);
    OfTagOne(p.item, t);
  }

  lemma PopOrder(s: Pool, w: nat, t: Tag)
    requires WellFormed(s) && Placed(s) && Enabled(s, Pop(w))
    ensures Unfinished(Next(s, Pop(w)), t) == Unfinished(s, t)
  {
    var q := s.queues[w];
    assert q == [q[0]] + q[1..];
    OfTagAppend([q[0]], q[1..], t);
  }

  lemma FinishOrder(s: Pool, w: nat, t: Tag)
    requires WellFormed(s) && Placed(s) && Enabled(s, Finish(w))
    ensures OfTag([s.running[w].value], t) + Unfinished(Next(s, Finish(w)), t) == Unfinished(s, t)
  {
    var item := s.running[w].value;
    assert AllOn(s, AsSeq(s.running[w]), w) && AsSeq(s.running[w])[0] == item;
    OfTagOne(item, t);
  }

  lemma OrderNext(s: Pool, a: Action)
    requires WellFormed(s) && Placed(s) && InOrder(s) && Enabled(s, a)
    ensures InOrder(Next(s, a))
  {
    hide Unfinished, OfTag, Placed, Next, Enabled;
    forall t: Tag
      ensures OfTag(Next(s, a).enqueued, t) == OfTag(Next(s, a).finished, t) + Unfinished(Next(s, a), t)
    {
      OrderNextTag(s, a, t);
    }
  }

  lemma OrderNextTag(s: Pool, a: Action, t: Tag)
    requires WellFormed(s) && Placed(s) && Enabled(s, a)
    requires OfTag(s.enqueued, t) == OfTag(s.finished, t) + Unfinished(s, t)
    ensures OfTag(Next(s, a).enqueued, t) == OfTag(Next(s, a).finished, t) + Unfinished(Next(s, a), t)
  {
    hide Unfinished, OfTag, Placed;
    match a
    case Assign(producer, item) => AssignOrder(s, producer, item, t);
    case Enqueue(k) => EnqueueOrder(s, k, t); OfTagAppend(s.enqueued, [s.pending[k].item], t);
    case Pop(w) => PopOrder(s, w, t);
    case Finish(w) => FinishOrder(s, w, t); OfTagAppend(s.finished, [s.running[w].value], t);
    case Exit(_) => SameUnfinished(s, Next(s, a), t);
    case Stop => SameUnfinished(s, Next(s, a), t);
  }

  lemma SameUnfinished(s: Pool, s': Pool, t: Tag)
    requires WellFormed(s) && WellFormed(s')
    requires s'.workerOf == s.workerOf && s'.queues == s.queues && s'.running == s.running && s'.workers == s.workers
    ensures Unfinished(s', t) == Unfinished(s, t)
  {
  }

  lemma RobinNext(s: Pool, a: Action)
    requires WellFormed(s) && RoundRobin(s) && Enabled(s, a)
    ensures RoundRobin(Next(s, a))
  {
    var s' := Next(s, a);
    if a.Assign? && a.item.tag !in s.workerOf {
      var n := s.workers;
      NextWorker(|s.order|, n);
      assert s'.order == s.order + [a.item.tag];
    }
  }

  lemma QuietNext(s: Pool, a: Action)
    requires WellFormed(s) && Placed(s) && Quiet(s) && Enabled(s, a)
    ensures Quiet(Next(s, a))
  {
  }

  lemma StepInv(s: Pool, a: Action)
    requires Inv(s) && Enabled(s, a)
    ensures Inv(Next(s, a))
  {
    hide Placed, InOrder, Quiet, AllOn;
    OrderNext(s, a);
    RobinNext(s, a);
    QuietNext(s, a);
    match a
    case Assign(producer, item) => AssignPlaced(s, producer, item);
    case Enqueue(k) => EnqueuePlaced(s, k);
    case _ => WorkerPlaced(s, a);
  }

  // ---- Runs ----

  /** `states` is a run from the initial state, one state per step, any interleaving. */
  ghost predicate Run(states: seq<Pool>, actions: seq<Action>) {
    && |states| == |actions| + 1
    && states[0].workers > 0 && states[0] == Initial(states[0].workers)
    && (forall i :: 0 <= i < |states| ==> WellFormed(states[i]))
    && (forall i :: 0 <= i < |actions| ==> Enabled(states[i], actions[i]) && states[i + 1] == Next(states[i], actions[i]))
  }

  lemma {:induction false} RunInv(states: seq<Pool>, actions: seq<Action>, i: nat)
    requires Run(states, actions) && i < |states|
    ensures Inv(states[i])
    decreases i
  {
    if i == 0 {
      InitialInv(states[0].workers);
    } else {
      RunInv(states, actions, i - 1);
      StepInv(states[i - 1], actions[i - 1]);
    }
  }

  /** Jobs of one tag run one after the other, in the order they were enqueued, on one worker. */
  lemma TagOrder(states: seq<Pool>, actions: seq<Action>, i: nat, tag: Tag)
    requires Run(states, actions) && i < |states|
    ensures OfTag(states[i].finished, tag) + Unfinished(states[i], tag) == OfTag(states[i].enqueued, tag)
    ensures forall w :: 0 <= w < states[i].workers && states[i].running[w].Some? && states[i].running[w].value.tag == tag ==>
              tag in states[i].workerOf && states[i].workerOf[tag] == w
  {
    RunInv(states, actions, i);
    var s := states[i];
    forall w | 0 <= w < s.workers && s.running[w].Some? && s.running[w].value.tag == tag
      ensures tag in s.workerOf && s.workerOf[tag] == w
    {
      assert AllOn(s, AsSeq(s.running[w]), w) && AsSeq(s.running[w])[0].tag == tag;
    }
  }

  /** A tag keeps its worker for ever. */
  lemma {:induction false} TagSticks(states: seq<Pool>, actions: seq<Action>, i: nat, j: nat, tag: Tag)
    requires Run(states, actions) && i <= j < |states| && tag in states[i].workerOf
    ensures tag in states[j].workerOf && states[j].workerOf[tag] == states[i].workerOf[tag]
    decreases j - i
  {
    if i < j {
      assert states[i + 1] == Next(states[i], actions[i]);
      TagSticks(states, actions, i + 1, j, tag);
    }
  }

  // ---- Shutdown ----

  ghost predicate AllExited(s: Pool) {
    forall w :: 0 <= w < |s.exited| ==> s.exited[w]
  }

  ghost predicate AllFinished(s: Pool) {
    forall t: Tag :: OfTag(s.finished, t) == OfTag(s.enqueued, t)
  }

  /** Once every worker has left, all jobs have finished, each once and in order per tag, exactly when no
      item was enqueued for a worker that had already left. */
  lemma ShutdownComplete(s: Pool)
    requires Inv(s) && AllExited(s)
    ensures AllFinished(s) <==> forall w :: 0 <= w < s.workers ==> s.late[w] == []
  {
    if forall w :: 0 <= w < s.workers ==> s.late[w] == [] {
      forall t: Tag ensures OfTag(s.finished, t) == OfTag(s.enqueued, t) {
        assert Unfinished(s, t) == [];
      }
    }
    if exists w :: 0 <= w < s.workers && s.late[w] != [] {
      var w :| 0 <= w < s.workers && s.late[w] != [];
      var item := s.queues[w][0];
      assert AllOn(s, s.queues[w], w);
      assert Unfinished(s, item.tag) == OfTag(AsSeq(s.running[w]), item.tag) + OfTag(s.queues[w], item.tag);
      assert |OfTag(s.finished, item.tag)| < |OfTag(s.enqueued, item.tag)|;
    }
  }

  /** When nothing is enqueued after the stop, nothing is late. */
  lemma {:induction false} NothingLate(states: seq<Pool>, actions: seq<Action>, i: nat)
    requires Run(states, actions) && i < |states|
    requires forall j :: 0 <= j < |actions| && states[j].stopped ==> !actions[j].Enqueue?
    ensures forall w :: 0 <= w < states[i].workers ==> states[i].late[w] == []
    decreases i
  {
    if i > 0 {
      NothingLate(states, actions, i - 1);
      RunInv(states, actions, i - 1);
      assert states[i] == Next(states[i - 1], actions[i - 1]);
    }
  }

  /** The promise of the join: if no item is enqueued after the stop, then every job has finished when the
      last worker leaves. */
  lemma JoinFinishesAll(states: seq<Pool>, actions: seq<Action>, i: nat)
    requires Run(states, actions) && i < |states| && AllExited(states[i])
    requires forall j :: 0 <= j < |actions| && states[j].stopped ==> !actions[j].Enqueue?
    ensures AllFinished(states[i])
  {
    RunInv(states, actions, i);
    NothingLate(states, actions, i);
    ShutdownComplete(states[i]);
  }

  /** Without the condition the promise fails: an item enqueued when all workers have left is never run. */
  lemma LateJobIsLost(s: Pool, k: nat)
    requires Inv(s) && AllExited(s) && k < |s.pending|
    ensures var s' := Next(s, Enqueue(k)); Inv(s') && AllExited(s') && !AllFinished(s')
  {
    StepInv(s, Enqueue(k));
    var s' := Next(s, Enqueue(k));
    assert s'.late[s.pending[k].index] != [];
    ShutdownComplete(s');
  }

  // ---- A run in which a job is lost ----

  /** One more step at the end of a run. */
  lemma RunStep(states: seq<Pool>, actions: seq<Action>, a: Action)
    requires Run(states, actions) && Enabled(states[|actions|], a)
    ensures Run(states + [Next(states[|actions|], a)], actions + [a])
  {
    var n := |actions|;
    var states', actions' := states + [Next(states[n], a)], actions + [a];
    forall i | 0 <= i < |actions'| ensures Enabled(states'[i], actions'[i]) && states'[i + 1] == Next(states'[i], actions'[i]) {
      if i == n { assert states'[i] == states[n]; }
    }
  }

  /** No worker has anything to do, and the first `k` have left. */
  ghost predicate Idle(s: Pool, k: nat)
    requires WellFormed(s)
  {
    forall w :: 0 <= w < s.workers ==> s.queues[w] == [] && s.running[w].None? && (s.exited[w] <==> w < k)
  }

  /** The first `k` workers of a stopped pool without work leave. */
  lemma {:induction false} AllLeave(states: seq<Pool>, actions: seq<Action>, k: nat) returns (states': seq<Pool>, actions': seq<Action>)
    requires Run(states, actions) && states[|actions|].stopped && Idle(states[|actions|], 0) && k <= states[|actions|].workers
    ensures Run(states', actions') && states'[0] == states[0]
    ensures var s, s' := states[|actions|], states'[|actions'|];
            && s'.workers == s.workers && s'.pending == s.pending && s'.stopped
            && s'.enqueued == s.enqueued && s'.finished == s.finished
            && Idle(s', k)
    decreases k
  {
    if k == 0 {
      states', actions' := states, actions;
    } else {
      var mid, done := AllLeave(states, actions, k - 1);
      RunStep(mid, done, Exit(k - 1));
      states', actions' := mid + [Next(mid[|done|], Exit(k - 1))], done + [Exit(k - 1)];
    }
  }

  /** Whatever the number of workers: a push is begun, the pool is stopped, all workers leave, and the push is
      completed. The job is never run. */
  lemma JobCanBeLost(n: nat, item: Item) returns (states: seq<Pool>, actions: seq<Action>)
    requires n > 0
    ensures Run(states, actions) && states[0] == Initial(n)
    ensures var end := states[|actions|]; AllExited(end) && end.enqueued == [item] && end.finished == [] && !AllFinished(end)
  {
    hide Inv, OfTag, AllFinished;
    var begun, actions2 := BegunAndStopped(n, item);
    var mid, done := AllLeave(begun, actions2, n);
    RunInv(mid, done, |done|);
    var last := mid[|done|];
    LateJobIsLost(last, 0);
    RunStep(mid, done, Enqueue(0));
    states, actions := mid + [Next(last, Enqueue(0))], done + [Enqueue(0)];
    assert last.pending[0].item == item;
  }

  lemma BegunAndStopped(n: nat, item: Item) returns (states: seq<Pool>, actions: seq<Action>)
    requires n > 0
    ensures Run(states, actions) && |states| == |actions| + 1 && states[0] == Initial(n)
    ensures var s := states[|actions|];
            && s.workers == n && |s.pending| == 1 && s.pending[0].item == item && s.stopped && s.enqueued == [] && s.finished == []
            && WellFormed(s) && Idle(s, 0)
  {
    var s0 := Initial(n);
    var s1 := Next(s0, Assign(0, item));
    assert Run([s0], []);
    RunStep([s0], [], Assign(0, item));
    states, actions := [s0] + [s1], [] + [Assign(0, item)];
    assert states[|actions|] == s1;
    RunStep(states, actions, Stop);
    states, actions := states + [Next(s1, Stop)], actions + [Stop];
  }

  // ---- The join cannot get stuck ----

  function Work(s: Pool, w: nat): nat
    requires WellFormed(s) && w < s.workers
  {
    2 * |s.queues[w]| + (if s.running[w].Some? then 1 else 0) + (if s.exited[w] then 0 else 1)
  }

  /** A stopped pool whose worker `w` has not left always allows that worker a step, and each step of a worker
      leaves it less to do; so the join ends if jobs do. */
  lemma StoppedWorkerProgresses(s: Pool, w: nat)
    requires Inv(s) && s.stopped && w < s.workers && !s.exited[w]
    ensures Enabled(s, Finish(w)) || Enabled(s, Pop(w)) || Enabled(s, Exit(w))
    ensures forall a: Action :: (a == Finish(w) || a == Pop(w) || a == Exit(w)) && Enabled(s, a) ==>
              WellFormed(Next(s, a)) && Work(Next(s, a), w) < Work(s, w)
  {
  }

  // ---- Balanced placement ----

  /** The tags of worker `w`, in the order it got them. */
  function TagsOf(s: Pool, w: nat, k: nat): seq<Tag>
    requires k <= |s.order|
  {
    if k == 0 then []
    else TagsOf(s, w, k - 1) +
         (if s.order[k - 1] in s.workerOf && s.workerOf[s.order[k - 1]] == w then [s.order[k - 1]] else [])
  }

  lemma {:induction false} TagsOfCount(s: Pool, w: nat, k: nat)
    requires Inv(s) && w < s.workers && k <= |s.order|
    ensures |TagsOf(s, w, k)| == OwnedUpTo(w, s.workers, k)
  {
    if k > 0 {
      TagsOfCount(s, w, k - 1);
      assert s.order[k - 1] in s.workerOf && s.workerOf[s.order[k - 1]] == k % s.workers;
    }
  }

  /** In every reachable state each worker owns the number of tags divided by the number of workers, rounded
      down or up. */
  lemma Balanced(states: seq<Pool>, actions: seq<Action>, i: nat, w: nat)
    requires Run(states, actions) && i < |states| && w < states[i].workers
    ensures var s := states[i];
            var owned := |TagsOf(s, w, |s.order|)|;
            owned == |s.order| / s.workers || (owned == |s.order| / s.workers + 1 && |s.order| % s.workers != 0)
  {
    RunInv(states, actions, i);
    var s := states[i];
    TagsOfCount(s, w, |s.order|);
    OwnedShare(w, s.workers, |s.order|);
  }
}
