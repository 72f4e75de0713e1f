// The bounded queue of the asynchronous logger: a circular buffer with one reserved slot, the
// guarded operations of the blocking queue on top of it, and what is conserved over any run.

module LogQueue {
  import opened Powers

  // What pushing leaves in a queue of the given capacity: the oldest item makes room.
  function AfterPush<T>(q: seq<T>, capacity: nat, x: T): seq<T> {
    if |q| < capacity then q + [x] else (q + [x])[1..]
  }

  // count items of a circular store, the first at the given position.
  function Window<T>(v: seq<T>, head: nat, count: nat): (s: seq<T>)
    requires count <= |v| && (count > 0 ==> head < |v|)
    ensures |s| == count
  {
    if count == 0 then [] else Window(v, head, count - 1) + [v[Wrap(head + count - 1, |v|)]]
  }

  lemma {:induction false} WindowAt<T>(v: seq<T>, head: nat, count: nat, i: nat)
    requires i < count <= |v| && head < |v|
    ensures Window(v, head, count)[i] == v[Wrap(head + i, |v|)]
  {
    if i < count - 1 {
      WindowAt(v, head, count - 1, i);
    }
  }

  // A write behind the window's end is not seen.
  lemma {:induction false} WindowIgnores<T>(v: seq<T>, head: nat, count: nat, beyond: nat, x: T)
    requires count <= beyond < |v| && head < |v|
    ensures Window(v[Wrap(head + beyond, |v|) := x], head, count) == Window(v, head, count)
  {
    if count > 0 {
      WindowIgnores(v, head, count - 1, beyond, x);
    }
  }

  lemma {:induction false} WindowDropsFirst<T>(v: seq<T>, head: nat, count: nat)
    requires 0 < count <= |v| && head < |v|
    ensures Window(v, Wrap(head + 1, |v|), count - 1) == Window(v, head, count)[1..]
  {
    if count > 1 {
      WindowDropsFirst(v, head, count - 1);
      assert Wrap(Wrap(head + 1, |v|) + count - 2, |v|) == Wrap(head + count - 1, |v|);
    } else {
      assert Window(v, head, 1)[1..] == [];
    }
  }

  lemma WindowAfterPush<T>(v: seq<T>, head: nat, count: nat, x: T)
    requires count < |v| && head < |v|
    ensures var v', q' := v[Wrap(head + count, |v|) := x], AfterPush(Window(v, head, count), |v| - 1, x);
            q' == if count == |v| - 1 then Window(v', Wrap(head + 1, |v|), count) else Window(v', head, count + 1)
  {
    WindowIgnores(v, head, count, count, x);
    WindowDropsFirst(v[Wrap(head + count, |v|) := x], head, count + 1);
  }

  class CircularQ<T(0)> {
    // One more than the capacity; zero for a queue that is switched off.
    const maxItems: nat
    const v: array<T>
    var head: nat
    var tail: nat
    var overrunCounter: nat

    predicate Valid()
      reads this
    {
      v.Length == maxItems && if maxItems == 0 then head == tail == 0 else head < maxItems && tail < maxItems
    }

    function Size(): nat
      reads this
      requires Valid()
    {
      if tail >= head then tail - head else maxItems - (head - tail)
    }

    ghost function Contents(): (s: seq<T>)
      reads this, v
      requires Valid()
      ensures |s| == Size()
    {
      Window(v[..], head, Size())
    }

    constructor (capacity: nat)
      ensures Valid() && Contents() == [] && maxItems == capacity + 1 && overrunCounter == 0
      ensures fresh(v)
    {
      maxItems := capacity + 1;
      v := new T[capacity + 1];
      head, tail, overrunCounter := 0, 0, 0;
    }

    constructor Disabled()
      ensures Valid() && Contents() == [] && maxItems == 0 && overrunCounter == 0
    {
      maxItems := 0;
      v := new T[0];
      head, tail, overrunCounter := 0, 0, 0;
    }

    method PushBack(item: T)
      requires Valid()
      modifies this`head, this`tail, this`overrunCounter, v
      ensures Valid()
      ensures maxItems == 0 ==> Contents() == old(Contents()) && overrunCounter == old(overrunCounter)
      ensures maxItems > 0 ==> Contents() == AfterPush(old(Contents()), maxItems - 1, item)
      ensures maxItems > 0 ==>
                overrunCounter == old(overrunCounter) + (if |old(Contents())| == maxItems - 1 then 1 else 0)
    {
      if maxItems > 0 {
        ghost var n, after := Size(), v[..][tail := item];
        assert tail == Wrap(head + n, maxItems);
        WindowAfterPush(v[..], head, n, item);
        Store(item);
        if tail == head {
          DropOldest();
          assert n == Size() && Contents() == Window(after, head, n);
        } else {
          assert n + 1 == Size() && Contents() == Window(after, head, n + 1);
        }
      }
    }

    method Store(item: T)
      requires Valid() && maxItems > 0
      modifies this`tail, v
      ensures v[..] == old(v[..])[old(tail) := item] && tail == Wrap(old(tail) + 1, maxItems)
    {
      v[tail] := item;
      WrapIsMod(tail + 1, maxItems);
      tail := (tail + 1) % maxItems;
    }

    method DropOldest()
      requires Valid() && maxItems > 0
      modifies this`head, this`overrunCounter
      ensures head == Wrap(old(head) + 1, maxItems) && overrunCounter == old(overrunCounter) + 1
    {
      WrapIsMod(head + 1, maxItems);
      head := (head + 1) % maxItems;
      overrunCounter := overrunCounter + 1;
    }

    method Front() returns (item: T)
      requires Valid() && Contents() != []
      ensures item == Contents()[0]
    {
      WindowAt(v[..], head, Size(), 0);
      item := v[head];
    }

    method At(i: nat) returns (item: T)
      requires Valid() && i < Size()
      ensures item == Contents()[i]
    {
      WindowAt(v[..], head, Size(), i);
      WrapIsMod(head + i, maxItems);
      item := v[(head + i) % maxItems];
    }

    method PopFront()
      requires Valid() && Contents() != []
      modifies this`head
      ensures Valid() && Contents() == old(Contents())[1..]
    {
      WindowDropsFirst(v[..], head, Size());
      WrapIsMod(head + 1, maxItems);
      head := (head + 1) % maxItems;
    }

    method Empty() returns (b: bool)
      requires Valid()
      ensures b <==> Contents() == []
    {
      b := tail == head;
    }

    method Full() returns (b: bool)
      requires Valid()
      ensures b <==> maxItems > 0 && |Contents()| == maxItems - 1
    {
      if maxItems > 0 {
        WrapIsMod(tail + 1, maxItems);
        return (tail + 1) % maxItems == head;
      }
      return false;
    }
  }

  // The operations of the blocking queue at the moment they hold the mutex and their wait is
  // over. A blocking enqueue has waited for room, a dequeue for an item.
  class BlockingQueue<T(0)> {
    const q: CircularQ<T>

    ghost predicate Valid()
      reads this, q
    {
      q.Valid() && q.maxItems > 0
    }

    constructor (capacity: nat)
      ensures Valid() && q.Contents() == [] && q.maxItems == capacity + 1 && q.overrunCounter == 0
    {
      q := new CircularQ<T>(capacity);
    }

    method Enqueue(item: T)
      requires Valid() && |q.Contents()| < q.maxItems - 1
      modifies q, q.v
      ensures Valid() && q.Contents() == old(q.Contents()) + [item]
      ensures q.overrunCounter == old(q.overrunCounter)
    {
      q.PushBack(item);
    }

    method EnqueueNowait(item: T)
      requires Valid()
      modifies q, q.v
      ensures Valid() && q.Contents() == AfterPush(old(q.Contents()), q.maxItems - 1, item)
      ensures q.overrunCounter == old(q.overrunCounter) + (if |old(q.Contents())| == q.maxItems - 1 then 1 else 0)
    {
      q.PushBack(item);
    }

    method DequeueFor() returns (dequeued: bool, item: T)
      requires Valid()
      modifies q
      ensures Valid()
      ensures dequeued <==> old(q.Contents()) != []
      ensures dequeued ==> item == old(q.Contents())[0] && q.Contents() == old(q.Contents())[1..]
      ensures !dequeued ==> q.Contents() == old(q.Contents())
      ensures q.overrunCounter == old(q.overrunCounter)
    {
      var empty := q.Empty();
      if empty {
        item := *;
        return false, item;
      }
      item := q.Front();
      q.PopFront();
      return true, item;
    }
  }

  // ---- Runs of the queue ----

  // leaving records, in order, every item that has left, and whether it was handed out (or
  // was overrun).
  datatype Exit<T> = Exit(item: T, handedOut: bool)

  datatype Queue<T> = Queue(capacity: nat, contents: seq<T>, overrun: nat, popped: nat,
                            entering: seq<T>, leaving: seq<Exit<T>>)

  datatype Op<T> = Blocking(x: T) | Nowait(x: T) | Pop

  predicate Enabled<T>(s: Queue<T>, a: Op<T>) {
    match a
    case Blocking(_) => |s.contents| < s.capacity
    case Nowait(_) => true
    case Pop => s.contents != []
  }

  function Next<T>(s: Queue<T>, a: Op<T>): Queue<T>
    requires Enabled(s, a)
  {
    match a
    case Blocking(x) => s.(contents := AfterPush(s.contents, s.capacity, x), entering := s.entering + [x])
    case Nowait(x) =>
      if |s.contents| < s.capacity
      then s.(contents := AfterPush(s.contents, s.capacity, x), entering := s.entering + [x])
      else s.(contents := AfterPush(s.contents, s.capacity, x), entering := s.entering + [x], overrun := s.overrun + 1,
              leaving := s.leaving + [Exit((s.contents + [x])[0], false)])
    case Pop =>
      s.(contents := s.contents[1..], popped := s.popped + 1, leaving := s.leaving + [Exit(s.contents[0], true)])
  }

  function Items<T>(leaving: seq<Exit<T>>): (s: seq<T>)
    ensures |s| == |leaving|
  {
    seq(|leaving|, i requires 0 <= i < |leaving| => leaving[i].item)
  }

  function HandedOut<T>(leaving: seq<Exit<T>>): nat {
    if leaving == [] then 0
    else HandedOut(leaving[..|leaving| - 1]) + (if leaving[|leaving| - 1].handedOut then 1 else 0)
  }

  predicate Conserved<T(==)>(s: Queue<T>) {
    && |s.contents| <= s.capacity
    && s.entering == Items(s.leaving) + s.contents
    && |s.leaving| == s.popped + s.overrun && HandedOut(s.leaving) == s.popped
  }

  lemma StepConserves<T>(s: Queue<T>, a: Op<T>)
    requires Conserved(s) && Enabled(s, a)
    ensures Conserved(Next(s, a))
  {
    var s' := Next(s, a);
    if |s'.leaving| > |s.leaving| {
      var e := s'.leaving[|s.leaving|];
      assert s'.leaving[..|s.leaving|] == s.leaving;
      assert Items(s'.leaving) == Items(s.leaving) + [e.item];
    }
  }

  // An item is overrun exactly by a producer that does not wait for room in a full queue.
  lemma OverrunOnlyWhenFull<T>(s: Queue<T>, a: Op<T>)
    requires Conserved(s) && Enabled(s, a)
    ensures Next(s, a).overrun != s.overrun <==> a.Nowait? && |s.contents| == s.capacity
  {
  }

  ghost predicate Reachable<T>(s: Queue<T>, ops: seq<Op<T>>, t: Queue<T>)
    decreases |ops|
  {
    if ops == [] then s == t else Enabled(s, ops[0]) && Reachable(Next(s, ops[0]), ops[1..], t)
  }

  // Over every run from an empty queue: items leave in the order they came, what came in is
  // what was handed out plus what was overrun plus what is still there, and without
  // overrunning producers nothing is lost.
  lemma {:induction false} RunsConserve<T>(s: Queue<T>, ops: seq<Op<T>>, t: Queue<T>)
    requires Conserved(s) && Reachable(s, ops, t)
    ensures Conserved(t)
    ensures |t.entering| == t.popped + t.overrun + |t.contents|
    ensures (forall i :: 0 <= i < |ops| ==> !ops[i].Nowait?) ==> t.overrun == s.overrun
    decreases |ops|
  {
    if ops != [] {
      StepConserves(s, ops[0]);
      RunsConserve(Next(s, ops[0]), ops[1..], t);
    }
  }
}
