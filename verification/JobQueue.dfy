/** A queue in two fixed arrays: items are pushed onto one stack and popped from another, and the first is
    spilled into the second when the second is empty. */
module JobQueue {

  const SLOTS: nat := 256

  function Reversed<T>(s: seq<T>): (r: seq<T>)
    ensures |r| == |s|
  {
    if s == [] then [] else Reversed(s[1..]) + [s[0]]
  }

  lemma {:induction false} ReversedPush<T>(s: seq<T>, x: T)
    ensures Reversed(s + [x]) == [x] + Reversed(s)
  {
    if s != [] {
      assert (s + [x])[1..] == s[1..] + [x];
      ReversedPush(s[1..], x);
    }
  }

  class Queue<T(0)> {
    var popIndex: nat
    var pushIndex: nat
    const pop: array<T>
    const push: array<T>
    var timesSpilled: int
    var popCall: int
    var pushCall: int
    var maxSize: int
    // How many times an item has been moved from one array to the other.
    ghost var moves: int

    ghost predicate Valid()
      reads this
    {
      && pop.Length == SLOTS && push.Length == SLOTS && pop != push
      && popIndex <= SLOTS && pushIndex <= SLOTS
      && pushCall - popCall == popIndex + pushIndex
      // Every item but those still in the push array has been moved exactly once.
      && moves + pushIndex == pushCall
    }

    /** The items, first one first. */
    ghost function Contents(): seq<T>
      reads this, pop, push
      requires Valid()
    {
      Reversed(pop[..popIndex]) + push[..pushIndex]
    }

    constructor ()
      ensures Valid() && Contents() == [] && fresh(pop) && fresh(push)
      ensures pushCall == popCall == moves == 0
    {
      pop := new T[SLOTS];
      push := new T[SLOTS];
      popIndex, pushIndex, timesSpilled, popCall, pushCall, maxSize := 0, 0, 0, 0, 0, 0;
      moves := 0;
    }

    method Empty() returns (r: bool)
      requires Valid()
      ensures r <==> Contents() == []
    {
      r := pushIndex == 0 && popIndex == 0;
    }

    method Size() returns (r: nat)
      requires Valid()
      modifies `maxSize
      ensures Valid() && r == |Contents()| == pushCall - popCall && Contents() == old(Contents())
      ensures maxSize == if old(maxSize) < |Contents()| then |Contents()| else old(maxSize)
    {
      maxSize := if maxSize < pushIndex + popIndex then pushIndex + popIndex else maxSize;
      r := pushIndex + popIndex;
    }

    /** Moves the pushed items over when there is nothing left to pop. */
    method Spill()
      requires Valid()
      modifies this, pop
      ensures Valid() && Contents() == old(Contents())
      ensures Contents() != [] ==> popIndex > 0
      ensures pushCall == old(pushCall) && popCall == old(popCall)
      ensures moves == old(moves) + (if old(popIndex) == 0 then old(pushIndex) else 0)
      ensures timesSpilled == old(timesSpilled) + (if old(popIndex) == 0 then 1 else 0)
    {
      if popIndex == 0 {
        timesSpilled := timesSpilled + 1;
        while pushIndex > 0
          invariant Valid() && popIndex + pushIndex == old(pushIndex)
          invariant pushCall == old(pushCall) && popCall == old(popCall)
          invariant moves == old(moves) + popIndex && timesSpilled == old(timesSpilled) + 1
          invariant push[..] == old(push[..])
          invariant push[..pushIndex] + Reversed(pop[..popIndex]) == old(Contents())
        {
          ghost var popped, pushed := pop[..popIndex], push[..pushIndex];
          var item := push[pushIndex - 1];
          pushIndex := pushIndex - 1;
          pop[popIndex] := item;
          popIndex := popIndex + 1;
          moves := moves + 1;
          assert pop[..popIndex] == popped + [item];
          assert pushed == push[..pushIndex] + [item];
          ReversedPush(popped, item);
          assert pushed + Reversed(popped) == push[..pushIndex] + ([item] + Reversed(popped));
        }
      }
    }

    method Front() returns (x: T)
      requires Valid() && Contents() != []
      modifies this, pop
      ensures Valid() && Contents() == old(Contents()) && x == Contents()[0]
    {
      Spill();
      ReversedTop(pop[..popIndex]);
      x := pop[popIndex - 1];
    }

    method PushBack(x: T)
      requires Valid() && pushIndex < 256
      modifies this, push
      ensures Valid() && Contents() == old(Contents()) + [x]
      ensures pushCall == old(pushCall) + 1 && popCall == old(popCall) && moves == old(moves)
    {
      ghost var before := push[..pushIndex];
      push[pushIndex] := x;
      pushIndex := pushIndex + 1;
      pushCall := pushCall + 1;
      assert push[..pushIndex] == before + [x];
    }

    method PopFront() returns (x: T)
      requires Valid() && Contents() != []
      modifies this, pop
      ensures Valid() && [x] + Contents() == old(Contents())
      ensures popCall == old(popCall) + 1 && pushCall == old(pushCall)
      ensures moves <= pushCall
    {
      Spill();
      ghost var popped, pushed := pop[..popIndex], push[..pushIndex];
      ReversedTop(popped);
      popCall := popCall + 1;
      popIndex := popIndex - 1;
      x := pop[popIndex];
      assert popped[..popIndex] == pop[..popIndex];
      assert [x] + (Reversed(pop[..popIndex]) + pushed) == ([x] + Reversed(pop[..popIndex])) + pushed;
    }
  }

  lemma ReversedTop<T>(s: seq<T>)
    requires s != []
    ensures Reversed(s)[0] == s[|s| - 1] && Reversed(s) == [s[|s| - 1]] + Reversed(s[..|s| - 1])
  {
    hide Reversed;
    assert s == s[..|s| - 1] + [s[|s| - 1]];
    ReversedPush(s[..|s| - 1], s[|s| - 1]);
  }
}
