/** What a pool can always do: no job that has been begun to be pushed need stay unfinished while the pool is open, and
    each worker takes its items first in, first out. */
module PoolProgress {
  import opened ThreadPool

  /** Nothing but the state of its own sub-queue and the stop holds a worker up, and nothing a producer. */
  lemma NeverHeldUp(s: Pool, w: nat, producer: nat, item: Item)
    requires Inv(s) && w < s.workers
    ensures s.running[w].Some? ==> Enabled(s, Finish(w))
    ensures s.running[w].None? && !s.exited[w] && s.queues[w] != [] ==> Enabled(s, Pop(w))
    ensures s.running[w].None? && !s.exited[w] && s.queues[w] == [] && s.stopped ==> Enabled(s, Exit(w))
    ensures Enabled(s, Assign(producer, item)) && Enabled(s, Stop)
    ensures forall k: nat :: k < |s.pending| ==> Enabled(s, Enqueue(k))
  {
  }

  /** The actions are enabled one after the other and lead from `s` to `t`. */
  ghost predicate Leads(s: Pool, actions: seq<Action>, t: Pool)
    decreases |actions|
  {
    if actions == [] then s == t
    else WellFormed(s) && Enabled(s, actions[0]) && Leads(Next(s, actions[0]), actions[1..], t)
  }

  lemma {:induction false} LeadsOn(s: Pool, first: seq<Action>, t: Pool, more: seq<Action>, u: Pool)
    requires Leads(s, first, t) && Leads(t, more, u)
    ensures Leads(s, first + more, u)
    decreases |first|
  {
    hide Next, Enabled, WellFormed;
    if first == [] {
      assert first + more == more;
    } else {
      assert (first + more)[0] == first[0] && (first + more)[1..] == first[1..] + more;
      LeadsOn(Next(s, first[0]), first[1..], t, more, u);
    }
  }

  lemma OneStep(s: Pool, a: Action)
    requires Inv(s) && Enabled(s, a)
    ensures Leads(s, [a], Next(s, a)) && Inv(Next(s, a))
  {
    StepInv(s, a);
    assert [a][1..] == [];
  }

  /** Nobody has left or stopped the pool meanwhile, and what is enqueued stays so. */
  ghost predicate Same(s: Pool, t: Pool) {
    && t.workers == s.workers && t.stopped == s.stopped && t.exited == s.exited && s.enqueued <= t.enqueued
  }

  /** Every push that has begun can be completed. */
  lemma {:induction false} PushesEnd(s: Pool) returns (actions: seq<Action>, t: Pool)
    requires Inv(s)
    ensures Leads(s, actions, t) && Inv(t) && Same(s, t) && t.pending == []
    decreases |s.pending|
  {
    if s.pending == [] {
      actions, t := [], s;
    } else {
      OneStep(s, Enqueue(0));
      var next := Next(s, Enqueue(0));
      var rest;
      rest, t := PushesEnd(next);
      actions := [Enqueue(0)] + rest;
      LeadsOn(s, [Enqueue(0)], next, rest, t);
    }
  }

  /** A worker that has not left can finish all it has. */
  lemma {:induction false} WorkerDrains(s: Pool, w: nat) returns (actions: seq<Action>, t: Pool)
    requires Inv(s) && w < s.workers && !s.exited[w]
    ensures Leads(s, actions, t) && Inv(t) && Same(s, t) && t.pending == s.pending
    ensures t.queues[w] == [] && t.running[w].None?
    ensures forall v :: 0 <= v < s.workers && v != w ==> t.queues[v] == s.queues[v] && t.running[v] == s.running[v]
    decreases Work(s, w)
  {
    if s.running[w].None? && s.queues[w] == [] {
      actions, t := [], s;
    } else {
      var a := if s.running[w].Some? then Finish(w) else Pop(w);
      OneStep(s, a);
      var rest;
      rest, t := WorkerDrains(Next(s, a), w);
      actions := [a] + rest;
      LeadsOn(s, [a], Next(s, a), rest, t);
    }
  }

  lemma {:induction false} WorkersDrain(s: Pool, k: nat) returns (actions: seq<Action>, t: Pool)
    requires Inv(s) && k <= s.workers && forall w :: 0 <= w < s.workers ==> !s.exited[w]
    ensures Leads(s, actions, t) && Inv(t) && Same(s, t) && t.pending == s.pending
    ensures forall w :: 0 <= w < k ==> t.queues[w] == [] && t.running[w].None?
    decreases k
  {
    if k == 0 {
      actions, t := [], s;
    } else {
      var first, mid := WorkersDrain(s, k - 1);
      var rest;
      rest, t := WorkerDrains(mid, k - 1);
      actions := first + rest;
      LeadsOn(s, first, mid, rest, t);
    }
  }

  /** As long as a pool is open every job that has been enqueued, or is about to be, can still finish, without any
      stop: from every state there is a way to one in which nothing is left to do. */
  lemma EveryJobCanFinish(s: Pool) returns (actions: seq<Action>, t: Pool)
    requires Inv(s) && !s.stopped
    ensures Leads(s, actions, t) && Inv(t) && !t.stopped && s.enqueued <= t.enqueued && t.pending == [] && AllFinished(t)
  {
    hide Placed, RoundRobin, InOrder, AllOn;
    var first, mid := PushesEnd(s);
    var rest;
    NoneLeft(mid);
    rest, t := WorkersDrain(mid, mid.workers);
    actions := first + rest;
    LeadsOn(s, first, mid, rest, t);
    DrainedIsFinished(t);
  }

  lemma NoneLeft(s: Pool)
    requires Inv(s) && !s.stopped
    ensures forall w :: 0 <= w < s.workers ==> !s.exited[w]
  {
  }

  lemma DrainedIsFinished(s: Pool)
    requires Inv(s) && forall w :: 0 <= w < s.workers ==> s.queues[w] == [] && s.running[w].None?
    ensures AllFinished(s)
  {
    forall t: Tag ensures OfTag(s.finished, t) == OfTag(s.enqueued, t) {
      assert Unfinished(s, t) == [];
    }
  }

  // ---- First in, first out ----

  /** The items whose tags belong to worker `w`. */
  function OfWorker(s: Pool, items: seq<Item>, w: nat): seq<Item> {
    if items == [] then []
    else (if items[0].tag in s.workerOf && s.workerOf[items[0].tag] == w then [items[0]] else []) + OfWorker(s, items[1..], w)
  }

  /** All that was ever enqueued has a worker, and for each worker it is what has finished, then what runs, then what
      is in the sub-queue, in the order of enqueueing. */
  ghost predicate WorkerOrder(s: Pool)
    requires WellFormed(s)
  {
    && (forall i :: 0 <= i < |s.enqueued| ==> s.enqueued[i].tag in s.workerOf)
    && (forall i :: 0 <= i < |s.finished| ==> s.finished[i].tag in s.workerOf)
    && (forall w :: 0 <= w < s.workers ==>
          OfWorker(s, s.enqueued, w) == OfWorker(s, s.finished, w) + AsSeq(s.running[w]) + s.queues[w])
  }

  lemma {:induction false} OfWorkerAppend(s: Pool, u: seq<Item>, v: seq<Item>, w: nat)
    ensures OfWorker(s, u + v, w) == OfWorker(s, u, w) + OfWorker(s, v, w)
  {
    if u == [] {
      assert u + v == v;
    } else {
      assert (u + v)[1..] == u[1..] + v && (u + v)[0] == u[0];
      OfWorkerAppend(s, u[1..], v, w);
      var first := if u[0].tag in s.workerOf && s.workerOf[u[0].tag] == w then [u[0]] else [];
      assert first + (OfWorker(s, u[1..], w) + OfWorker(s, v, w)) == (first + OfWorker(s, u[1..], w)) + OfWorker(s, v, w);
    }
  }

  lemma {:induction false} OfWorkerSame(s: Pool, s': Pool, items: seq<Item>, w: nat)
    requires forall i :: 0 <= i < |items| ==> items[i].tag in s.workerOf
    requires forall t :: t in s.workerOf ==> t in s'.workerOf && s'.workerOf[t] == s.workerOf[t]
    ensures OfWorker(s', items, w) == OfWorker(s, items, w)
  {
    if items != [] { OfWorkerSame(s, s', items[1..], w); }
  }

  lemma OfWorkerOne(s: Pool, item: Item, w: nat)
    ensures OfWorker(s, [item], w) == if item.tag in s.workerOf && s.workerOf[item.tag] == w then [item] else []
  {
    assert [item][1..] == [];
  }

  lemma KeepsWorkers(s: Pool, a: Action)
    requires WellFormed(s) && Enabled(s, a)
    ensures forall t :: t in s.workerOf ==> t in Next(s, a).workerOf && Next(s, a).workerOf[t] == s.workerOf[t]
  {
  }

  lemma WorkerOrderEnqueue(s: Pool, k: nat, w: nat)
    requires WellFormed(s) && Placed(s) && WorkerOrder(s) && k < |s.pending| && w < s.workers
    ensures var s' := EnqueueItem(s, k);
            OfWorker(s', s'.enqueued, w) == OfWorker(s', s'.finished, w) + AsSeq(s'.running[w]) + s'.queues[w]
  {
    hide OfWorker;
    var s', p := EnqueueItem(s, k), s.pending[k];
    assert AllOn(s, [p.item], p.index) && [p.item][0] == p.item;
    OfWorkerSame(s, s', s.enqueued, w);
    OfWorkerSame(s, s', s.finished, w);
    OfWorkerAppend(s', s.enqueued, [p.item], w);
    OfWorkerOne(s', p.item, w);
  }

  lemma WorkerOrderFinish(s: Pool, v: nat, w: nat)
    requires WellFormed(s) && Placed(s) && WorkerOrder(s) && Enabled(s, Finish(v)) && w < s.workers
    ensures var s' := Next(s, Finish(v));
            OfWorker(s', s'.enqueued, w) == OfWorker(s', s'.finished, w) + AsSeq(s'.running[w]) + s'.queues[w]
  {
    hide OfWorker;
    var s', item := Next(s, Finish(v)), s.running[v].value;
    assert AllOn(s, AsSeq(s.running[v]), v) && AsSeq(s.running[v])[0] == item;
    OfWorkerSame(s, s', s.enqueued, w);
    OfWorkerSame(s, s', s.finished, w);
    OfWorkerAppend(s', s.finished, [item], w);
    OfWorkerOne(s', item, w);
  }

  lemma WorkerOrderElse(s: Pool, a: Action, w: nat)
    requires WellFormed(s) && WorkerOrder(s) && Enabled(s, a) && !a.Enqueue? && !a.Finish? && w < s.workers
    ensures var s' := Next(s, a);
            OfWorker(s', s'.enqueued, w) == OfWorker(s', s'.finished, w) + AsSeq(s'.running[w]) + s'.queues[w]
  {
    hide OfWorker;
    KeepsWorkers(s, a);
    var s' := Next(s, a);
    OfWorkerSame(s, s', s.enqueued, w);
    OfWorkerSame(s, s', s.finished, w);
    if a.Pop? { assert s.queues[a.w] == [s.queues[a.w][0]] + s.queues[a.w][1..]; }
  }

  lemma WorkerOrderNext(s: Pool, a: Action, w: nat)
    requires Inv(s) && WorkerOrder(s) && Enabled(s, a) && w < s.workers
    ensures var s' := Next(s, a);
            OfWorker(s', s'.enqueued, w) == OfWorker(s', s'.finished, w) + AsSeq(s'.running[w]) + s'.queues[w]
  {
    hide InOrder, RoundRobin, Quiet, OfWorker, WorkerOrder, Placed;
    match a
    case Enqueue(k) => WorkerOrderEnqueue(s, k, w);
    case Finish(v) => WorkerOrderFinish(s, v, w);
    case _ => WorkerOrderElse(s, a, w);
  }

  lemma WorkerOrderStep(s: Pool, a: Action)
    requires Inv(s) && WorkerOrder(s) && Enabled(s, a)
    ensures WorkerOrder(Next(s, a))
  {
    hide InOrder, RoundRobin, Quiet, OfWorker;
    var s' := Next(s, a);
    KeepsWorkers(s, a);
    forall w | 0 <= w < s'.workers
      ensures OfWorker(s', s'.enqueued, w) == OfWorker(s', s'.finished, w) + AsSeq(s'.running[w]) + s'.queues[w]
    {
      WorkerOrderNext(s, a, w);
    }
    if a.Enqueue? { assert AllOn(s, [s.pending[a.k].item], s.pending[a.k].index) && [s.pending[a.k].item][0] == s.pending[a.k].item; }
    if a.Finish? { assert AllOn(s, AsSeq(s.running[a.w]), a.w) && AsSeq(s.running[a.w])[0] == s.running[a.w].value; }
  }

  /** Over every interleaving a worker runs all its items, whatever their tags, in the order they were enqueued. */
  lemma {:induction false} FirstInFirstOut(states: seq<Pool>, actions: seq<Action>, i: nat)
    requires Run(states, actions) && i < |states|
    ensures WorkerOrder(states[i])
    decreases i
  {
    hide OfWorker, Inv;
    if i == 0 {
      NothingYet(states[0].workers);
    } else {
      FirstInFirstOut(states, actions, i - 1);
      RunInv(states, actions, i - 1);
      WorkerOrderStep(states[i - 1], actions[i - 1]);
    }
  }

  lemma NothingYet(n: nat)
    requires n > 0
    ensures WorkerOrder(Initial(n))
  {
  }

  // ---- Nothing is lost or made up ----

  /** The items whose push has begun. */
  function Begun(actions: seq<Action>): multiset<Item> {
    if actions == [] then multiset{}
    else
      var n := |actions| - 1;
      Begun(actions[..n]) + (if actions[n].Assign? then multiset{actions[n].item} else multiset{})
  }

  function Items(pending: seq<Pending>): multiset<Item> {
    if pending == [] then multiset{} else multiset{pending[0].item} + Items(pending[1..])
  }

  lemma {:induction false} ItemsAppend(u: seq<Pending>, v: seq<Pending>)
    ensures Items(u + v) == Items(u) + Items(v)
  {
    if u == [] {
      assert u + v == v;
    } else {
      assert (u + v)[0] == u[0] && (u + v)[1..] == u[1..] + v;
      ItemsAppend(u[1..], v);
    }
  }

  lemma ItemsOne(p: Pending)
    ensures Items([p]) == multiset{p.item}
  {
    assert [p][1..] == [];
  }

  lemma ItemsWithout(pending: seq<Pending>, k: nat)
    requires k < |pending|
    ensures Items(pending) == Items(pending[..k] + pending[k + 1..]) + multiset{pending[k].item}
  {
    hide Items;
    var u, p, v := pending[..k], pending[k], pending[k + 1..];
    assert pending == u + ([p] + v);
    ItemsAppend(u, [p] + v);
    ItemsAppend([p], v);
    ItemsAppend(u, v);
    ItemsOne(p);
  }

  lemma StepKeepsItems(s: Pool, a: Action)
    requires WellFormed(s) && Enabled(s, a)
    ensures var s' := Next(s, a);
            Items(s'.pending) + multiset(s'.enqueued)
              == Items(s.pending) + multiset(s.enqueued) + (if a.Assign? then multiset{a.item} else multiset{})
  {
    hide Items;
    match a
    case Assign(_, item) =>
      var p := Next(s, a).pending[|s.pending|];
      ItemsAppend(s.pending, [p]);
      ItemsOne(p);
    case Enqueue(k) => ItemsWithout(s.pending, k);
    case _ =>
  }

  /** Over every interleaving: what has been begun to be pushed is what is between its two locks and what has been
      enqueued, each as often. */
  lemma {:induction false} NothingLost(states: seq<Pool>, actions: seq<Action>, i: nat)
    requires Run(states, actions) && i < |states|
    ensures Begun(actions[..i]) == Items(states[i].pending) + multiset(states[i].enqueued)
    decreases i
  {
    hide Items;
    if i == 0 {
      ItemsNone();
    } else {
      NothingLost(states, actions, i - 1);
      StepKeepsItems(states[i - 1], actions[i - 1]);
      assert actions[..i][..i - 1] == actions[..i - 1];
    }
  }

  lemma ItemsNone()
    ensures Items([]) == multiset{}
  {
  }
}
