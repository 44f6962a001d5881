/** The pool's shared queue as an object: a table of tags, a flag, and one array backed sub-queue per worker.
    Each locked section is proved to make the corresponding step of the transition system. */
module TaggedQueue {
  import opened Results
  import opened JobQueue
  import opened ThreadPool

  class ThreadPoolQueue {
    const workers: nat
    const subqueues: seq<Queue<Item>>
    var workerOf: map<Tag, nat>
    var lastMapped: nat
    var stopped: bool

    /** Sub-queues share nothing. */
    ghost predicate Valid()
      reads this, subqueues
    {
      && workers > 0 && |subqueues| == workers
      && (forall i :: 0 <= i < workers ==> subqueues[i].Valid())
      && (forall i, j :: 0 <= i < j < workers ==>
            && subqueues[i] != subqueues[j]
            && {subqueues[i].pop, subqueues[i].push} !! {subqueues[j].pop, subqueues[j].push})
    }

    ghost function Arrays(): set<array<Item>>
    {
      (set i | 0 <= i < |subqueues| :: subqueues[i].pop) + (set i | 0 <= i < |subqueues| :: subqueues[i].push)
    }

    /** The object holds what the pool state says. */
    ghost predicate Represents(s: Pool)
      reads this, subqueues, Arrays()
      requires Valid()
    {
      && WellFormed(s) && s.workers == workers
      && s.workerOf == workerOf && s.lastMapped == lastMapped && s.stopped == stopped
      && forall i :: 0 <= i < workers ==> s.queues[i] == subqueues[i].Contents()
    }

    /** The first locked section of a push: the tag's worker, chosen in turn for a new tag. */
    method MapTag(producer: nat, item: Item, ghost s: Pool) returns (index: nat)
      requires Valid() && Represents(s)
      modifies `workerOf, `lastMapped
      ensures Valid() && Represents(Next(s, Assign(producer, item)))
      ensures index == Next(s, Assign(producer, item)).pending[|s.pending|].index
    {
      if item.tag !in workerOf {
        lastMapped := (lastMapped + 1) % workers;
        workerOf := workerOf[item.tag := lastMapped];
      }
      index := workerOf[item.tag];
    }

    /** The second locked section: the item goes to the back of the worker's sub-queue. */
    method Insert(item: Item, index: nat, ghost s: Pool, ghost k: nat)
      requires Valid() && Represents(s) && index < workers
      requires k < |s.pending| && s.pending[k].item == item && s.pending[k].index == index
      requires subqueues[index].pushIndex < 256
      modifies subqueues[index], subqueues[index].push
      ensures Valid() && Represents(Next(s, Enqueue(k)))
    {
      subqueues[index].PushBack(item);
    }

    /** What a worker does once it no longer waits: it takes an item, or learns that it has to leave. */
    method TakeOrLeave(index: nat, ghost s: Pool) returns (r: Option<Item>)
      requires Valid() && Represents(s) && index < workers
      requires !s.exited[index] && s.running[index].None?
      requires subqueues[index].Contents() != [] || stopped
      modifies subqueues[index], subqueues[index].pop
      ensures Valid()
      ensures r.Some? ==> Enabled(s, Pop(index)) && Represents(Next(s, Pop(index)))
      ensures r.Some? ==> Next(s, Pop(index)).running[index] == r
      ensures r.None? ==> Enabled(s, Exit(index)) && Represents(Next(s, Exit(index)))
    {
      var queue := subqueues[index];
      var empty := queue.Empty();
      if empty {
        return None;
      }
      var item := queue.PopFront();
      return Some(item);
    }

    method StopAll(ghost s: Pool)
      requires Valid() && Represents(s)
      modifies `stopped
      ensures Valid() && Represents(Next(s, Stop))
    {
      stopped := true;
    }
  }
}
