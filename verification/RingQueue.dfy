// The kernel's queue: a ring of items with a write and a read position, and the lock counts
// that put off waking tasks (Middlewares/FreeRTOS-Kernel/queue.c:257-365, 949-1075,
// 1167-1336, 1509-1560, 1884-1960, 2039-2190, 2393-2614). Items of size zero are not modelled.

module RingQueue {
  import opened Circular
  import opened Words

  const UNLOCKED: int := -1    // queueUNLOCKED
  const UNMODIFIED: int := 0   // queueLOCKED_UNMODIFIED
  const LOCK_MAX: int := 127   // queueINT8_MAX

  type Task = nat

  datatype Position = ToBack | ToFront | Overwrite

  // The slot of the oldest item.
  function First(readFrom: nat, length: nat): nat {
    Wrap(readFrom + 1, length)
  }

  // The items held, oldest first.
  function Held<T>(slots: seq<T>, readFrom: nat, n: nat): (s: seq<T>)
    requires readFrom < |slots| && n <= |slots|
    ensures |s| == n
  {
    seq(n, i requires 0 <= i < n => slots[Place(First(readFrom, |slots|), i, |slots|)])
  }

  // The bounded deque the queue stands for.
  function Put<T>(s: seq<T>, x: T, position: Position): seq<T> {
    match position
    case ToBack => s + [x]
    case ToFront => [x] + s
    case Overwrite => [x]
  }

  // ----- First in, first out -----

  datatype Call<T> = Post(x: T, position: Position) | Collect

  // A queue of `length` under a run of calls: what it holds, and what was collected in order.
  function Serve<T>(s: seq<T>, length: nat, calls: seq<Call<T>>): (seq<T>, seq<T>)
    decreases |calls|
  {
    if calls == [] then (s, [])
    else match calls[0]
      case Post(x, position) =>
        Serve(if position.Overwrite? || |s| < length then Put(s, x, position) else s, length, calls[1..])
      case Collect =>
        if s == [] then Serve(s, length, calls[1..])
        else var (t, rest) := Serve(s[1..], length, calls[1..]); (t, [s[0]] + rest)
  }

  // The items posted that were taken in.
  function TakenIn<T>(n: nat, length: nat, calls: seq<Call<T>>): seq<T>
    decreases |calls|
  {
    if calls == [] then []
    else match calls[0]
      case Post(x, _) => if n < length then [x] + TakenIn(n + 1, length, calls[1..]) else TakenIn(n, length, calls[1..])
      case Collect => TakenIn(if n > 0 then n - 1 else 0, length, calls[1..])
  }

  // Posts at the back only: what is collected, then what is still held, is what was held and
  // taken in, in that order, and never more than there is room for.
  lemma {:induction false} FirstInFirstOut<T>(s: seq<T>, length: nat, calls: seq<Call<T>>)
    requires |s| <= length && forall c :: c in calls && c.Post? ==> c.position == ToBack
    ensures var (t, collected) := Serve(s, length, calls);
            && |t| <= length
            && collected + t == s + TakenIn(|s|, length, calls)
    decreases |calls|
  {
    if calls != [] {
      var rest := calls[1..];
      assert calls[0] in calls;
      match calls[0]
      case Post(x, position) =>
        if |s| < length {
          FirstInFirstOut(s + [x], length, rest);
          assert s + ([x] + TakenIn(|s| + 1, length, rest)) == (s + [x]) + TakenIn(|s| + 1, length, rest);
        } else {
          FirstInFirstOut(s, length, rest);
        }
      case Collect =>
        if s == [] {
          FirstInFirstOut(s, length, rest);
        } else {
          FirstInFirstOut(s[1..], length, rest);
          var (t, more) := Serve(s[1..], length, rest);
          assert ([s[0]] + more) + t == [s[0]] + (more + t);
          assert [s[0]] + (s[1..] + TakenIn(|s| - 1, length, rest)) == s + TakenIn(|s| - 1, length, rest);
        }
    }
  }

  // An item posted at the front is the next one collected, and leaves the others as they were;
  // one that overwrites is the only one.
  lemma FrontGoesFirst<T>(s: seq<T>, x: T, length: nat)
    requires |s| < length
    ensures Serve(s, length, [Post(x, ToFront), Collect]) == (s, [x])
    ensures forall y :: Serve([y], 1, [Post(x, Overwrite), Collect]) == ([], [x])
  {
    var calls := [Post(x, ToFront), Collect];
    var t := Put(s, x, ToFront);
    assert calls[1..] == [Collect] && calls[1..][1..] == [];
    assert t != [] && t[0] == x && t[1..] == s;
    var none: seq<T> := [];
    assert Serve(s, length, calls[1..][1..]) == (s, none) && [t[0]] + none == [x];
    assert Serve(t, length, calls[1..]) == (s, [x]);
    assert Serve(s, length, calls) == Serve(t, length, calls[1..]);
    forall y
      ensures Serve([y], 1, [Post(x, Overwrite), Collect]) == ([], [x])
    {
      var over := [Post(x, Overwrite), Collect];
      assert over[1..] == [Collect] && over[1..][1..] == [];
      assert Serve([x], 1, over[1..]) == ([], [x]);
    }
  }

  lemma HeldBack<T>(slots: seq<T>, readFrom: nat, n: nat, x: T)
    requires readFrom < |slots| && n < |slots|
    ensures var w := Place(First(readFrom, |slots|), n, |slots|);
            Held(slots[w := x], readFrom, n + 1) == Held(slots, readFrom, n) + [x]
  {
    var f, len := First(readFrom, |slots|), |slots|;
    var w := Place(f, n, len);
    forall i | 0 <= i < n
      ensures slots[w := x][Place(f, i, len)] == slots[Place(f, i, len)]
    {
      PlacesDiffer(f, i, n, len);
    }
  }

  function StepBack(readFrom: nat, length: nat): nat
    requires length > 0
  {
    if readFrom == 0 then length - 1 else readFrom - 1
  }

  // Going one slot back and reading on from there.
  lemma HeldFront<T>(slots: seq<T>, readFrom: nat, n: nat, x: T)
    requires readFrom < |slots| && n < |slots|
    ensures Held(slots[readFrom := x], StepBack(readFrom, |slots|), n + 1) == [x] + Held(slots, readFrom, n)
  {
    var len := |slots|;
    var f, g := First(readFrom, len), First(StepBack(readFrom, len), len);
    assert g == readFrom;
    forall i | 0 < i < n + 1
      ensures slots[readFrom := x][Place(g, i, len)] == slots[Place(f, i - 1, len)]
    {
      PlacesDiffer(g, i, 0, len);
      assert Place(g, i, len) == Place(f, i - 1, len);
    }
  }

  lemma HeldRest<T>(slots: seq<T>, readFrom: nat, n: nat)
    requires readFrom < |slots| && 0 < n <= |slots|
    ensures Held(slots, First(readFrom, |slots|), n - 1) == Held(slots, readFrom, n)[1..]
    ensures Held(slots, readFrom, n)[0] == slots[First(readFrom, |slots|)]
  {
    var len := |slots|;
    var f := First(readFrom, len);
    forall i | 0 <= i < n - 1
      ensures slots[Place(First(f, len), i, len)] == slots[Place(f, i + 1, len)]
    {
      assert Place(First(f, len), i, len) == Place(f, i + 1, len);
    }
  }

  class Queue<T(0)> {
    const storage: array<T>
    const tasks: nat          // uxTaskGetNumberOfTasks
    var writeTo: nat
    var readFrom: nat
    var messages: nat
    var txLock: int
    var rxLock: int
    var waitingToReceive: seq<Task>
    var waitingToSend: seq<Task>
    // items posted and removed by interrupts since the queue was locked
    ghost var posted: nat
    ghost var removed: nat

    ghost predicate Valid()
      reads this
    {
      && readFrom < storage.Length && messages <= storage.Length
      && writeTo == Place(First(readFrom, storage.Length), messages, storage.Length)
      && tasks <= LOCK_MAX
      && |waitingToReceive| <= tasks && |waitingToSend| <= tasks
      && LockCounts(txLock, posted) && LockCounts(rxLock, removed)
    }

    // A lock count is what was done while locked, capped at the number of tasks.
    predicate LockCounts(lock: int, done: nat) {
      if lock == UNLOCKED then done == 0 else lock == Min(done, tasks)
    }

    ghost function Contents(): (s: seq<T>)
      requires Valid()
      reads this, storage
      ensures |s| == messages
    {
      Held(storage[..], readFrom, messages)
    }

    // xQueueGenericReset of a new queue.
    constructor (length: nat, taskCount: nat)
      requires length > 0 && taskCount <= LOCK_MAX
      ensures Valid() && fresh(storage) && storage.Length == length && tasks == taskCount
      ensures Contents() == [] && waitingToReceive == [] && waitingToSend == [] && txLock == rxLock == UNLOCKED
    {
      storage := new T[length];
      tasks := taskCount;
      writeTo, readFrom, messages := 0, length - 1, 0;
      txLock, rxLock, posted, removed := UNLOCKED, UNLOCKED, 0, 0;
      waitingToReceive, waitingToSend := [], [];
    }

    // xQueueGenericReset of a queue in use: one sender finds room now, receivers still find nothing.
    method Reset() returns (woken: seq<Task>)
      requires Valid()
      modifies this`writeTo, this`readFrom, this`messages, this`txLock, this`rxLock, this`waitingToSend, this`posted,
          this`removed
      ensures Valid() && Contents() == [] && txLock == rxLock == UNLOCKED
      ensures woken == old(waitingToSend)[..Min(1, |old(waitingToSend)|)]
      ensures waitingToSend == old(waitingToSend)[|woken|..]
    {
      messages, writeTo, readFrom := 0, 0, storage.Length - 1;
      txLock, rxLock, posted, removed := UNLOCKED, UNLOCKED, 0, 0;
      woken := [];
      if waitingToSend != [] {
        woken := waitingToSend[..1];
        waitingToSend := waitingToSend[1..];
      }
    }

    // prvCopyDataToQueue
    method CopyTo(x: T, position: Position)
      requires Valid()
      requires if position.Overwrite? then storage.Length == 1 else messages < storage.Length
      modifies this`writeTo, this`readFrom, this`messages, storage
      ensures Valid() && Contents() == Put(old(Contents()), x, position)
    {
      hide Held, LockCounts;
      var waiting := messages;
      ghost var slots := storage[..];
      if position.ToBack? {
        HeldBack(slots, readFrom, messages, x);
        storage[writeTo] := x;
        assert storage[..] == slots[writeTo := x];
        writeTo := writeTo + 1;
        if writeTo >= storage.Length {
          writeTo := 0;
        }
      } else {
        HeldFront(slots, readFrom, if position.Overwrite? then 0 else messages, x);
        storage[readFrom] := x;
        assert storage[..] == slots[readFrom := x];
        readFrom := if readFrom == 0 then storage.Length - 1 else readFrom - 1;
        if position.Overwrite? {
          if waiting > 0 {
            waiting := waiting - 1;
          }
          NothingHeld(slots, old(readFrom));
        }
      }
      messages := waiting + 1;
    }

    // prvCopyDataFromQueue
    method CopyFrom() returns (x: T)
      requires Valid() && messages > 0
      modifies this`readFrom
      ensures readFrom == First(old(readFrom), storage.Length)
      ensures x == old(Contents())[0]
    {
      hide LockCounts;
      HeldRest(storage[..], readFrom, messages);
      readFrom := readFrom + 1;
      if readFrom >= storage.Length {
        readFrom := 0;
      }
      x := storage[readFrom];
    }

    // xQueueGenericSend without waiting. The first waiting receiver is woken.
    method Send(x: T, position: Position) returns (ok: bool, woken: seq<Task>)
      requires Valid() && (position.Overwrite? ==> storage.Length == 1)
      modifies this`writeTo, this`readFrom, this`messages, this`waitingToReceive, storage
      ensures Valid()
      ensures ok <==> position.Overwrite? || |old(Contents())| < storage.Length
      ensures Contents() == if ok then Put(old(Contents()), x, position) else old(Contents())
      ensures woken == if ok then old(waitingToReceive)[..Min(1, |old(waitingToReceive)|)] else []
      ensures waitingToReceive == old(waitingToReceive)[|woken|..]
    {
      ok, woken := false, [];
      if messages < storage.Length || position.Overwrite? {
        CopyTo(x, position);
        ok := true;
        if waitingToReceive != [] {
          woken := waitingToReceive[..1];
          waitingToReceive := waitingToReceive[1..];
        }
      }
    }

    // xQueueGenericSendFromISR: while the queue is locked nobody is woken, only counted.
    method SendFromIsr(x: T, position: Position) returns (ok: bool, woken: seq<Task>)
      requires Valid() && (position.Overwrite? ==> storage.Length == 1)
      modifies this`writeTo, this`readFrom, this`messages, this`waitingToReceive, this`txLock, this`posted, storage
      ensures Valid()
      ensures ok <==> position.Overwrite? || |old(Contents())| < storage.Length
      ensures Contents() == if ok then Put(old(Contents()), x, position) else old(Contents())
      ensures woken == if ok && txLock == UNLOCKED then old(waitingToReceive)[..Min(1, |old(waitingToReceive)|)] else []
      ensures waitingToReceive == old(waitingToReceive)[|woken|..]
      ensures txLock == UNLOCKED <==> old(txLock) == UNLOCKED
      ensures posted == old(posted) + if ok && txLock != UNLOCKED then 1 else 0
    {
      ok, woken := false, [];
      if messages < storage.Length || position.Overwrite? {
        CopyTo(x, position);
        ok := true;
        if txLock == UNLOCKED {
          if waitingToReceive != [] {
            woken := waitingToReceive[..1];
            waitingToReceive := waitingToReceive[1..];
          }
        } else {
          if txLock < tasks {
            assert txLock != LOCK_MAX;
            txLock := txLock + 1;
          }
          posted := posted + 1;
        }
      }
    }

    // xQueueReceive without waiting.
    method Receive() returns (got: seq<T>, woken: seq<Task>)
      requires Valid()
      modifies this`readFrom, this`messages, this`waitingToSend
      ensures Valid()
      ensures got == old(Contents())[..Min(1, |old(Contents())|)] && Contents() == old(Contents())[|got|..]
      ensures woken == if got != [] then old(waitingToSend)[..Min(1, |old(waitingToSend)|)] else []
      ensures waitingToSend == old(waitingToSend)[|woken|..]
    {
      hide Held;
      got, woken := [], [];
      if messages > 0 {
        HeldRest(storage[..], readFrom, messages);
        var x := CopyFrom();
        got := [x];
        messages := messages - 1;
        if waitingToSend != [] {
          woken := waitingToSend[..1];
          waitingToSend := waitingToSend[1..];
        }
      }
    }

    // xQueueReceiveFromISR
    method ReceiveFromIsr() returns (got: seq<T>, woken: seq<Task>)
      requires Valid()
      modifies this`readFrom, this`messages, this`waitingToSend, this`rxLock, this`removed
      ensures Valid()
      ensures got == old(Contents())[..Min(1, |old(Contents())|)] && Contents() == old(Contents())[|got|..]
      ensures woken == if got != [] && rxLock == UNLOCKED then old(waitingToSend)[..Min(1, |old(waitingToSend)|)]
          else []
      ensures waitingToSend == old(waitingToSend)[|woken|..]
      ensures rxLock == UNLOCKED <==> old(rxLock) == UNLOCKED
      ensures removed == old(removed) + if got != [] && rxLock != UNLOCKED then 1 else 0
    {
      hide Held;
      got, woken := [], [];
      if messages > 0 {
        HeldRest(storage[..], readFrom, messages);
        var x := CopyFrom();
        got := [x];
        messages := messages - 1;
        if rxLock == UNLOCKED {
          if waitingToSend != [] {
            woken := waitingToSend[..1];
            waitingToSend := waitingToSend[1..];
          }
        } else {
          if rxLock < tasks {
            assert rxLock != LOCK_MAX;
            rxLock := rxLock + 1;
          }
          removed := removed + 1;
        }
      }
    }

    // xQueuePeekFromISR
    method Peek() returns (got: seq<T>)
      requires Valid()
      modifies this`readFrom
      ensures Valid() && Contents() == old(Contents()) && readFrom == old(readFrom)
      ensures got == old(Contents())[..Min(1, |old(Contents())|)]
    {
      hide Held;
      got := [];
      if messages > 0 {
        var original := readFrom;
        var x := CopyFrom();
        readFrom := original;
        got := [x];
      }
    }

    // xQueuePeek without waiting: the item stays, so the next waiting receiver may have a look.
    method PeekAndPass() returns (got: seq<T>, woken: seq<Task>)
      requires Valid()
      modifies this`readFrom, this`waitingToReceive
      ensures Valid() && Contents() == old(Contents()) && readFrom == old(readFrom)
      ensures got == old(Contents())[..Min(1, |old(Contents())|)]
      ensures woken == if got != [] then old(waitingToReceive)[..Min(1, |old(waitingToReceive)|)] else []
      ensures waitingToReceive == old(waitingToReceive)[|woken|..]
    {
      hide Held;
      got := Peek();
      woken := [];
      if got != [] && waitingToReceive != [] {
        woken := waitingToReceive[..1];
        waitingToReceive := waitingToReceive[1..];
      }
    }

    // prvLockQueue
    method Lock()
      requires Valid()
      modifies this`txLock, this`rxLock
      ensures Valid() && txLock != UNLOCKED && rxLock != UNLOCKED
    {
      if rxLock == UNLOCKED {
        rxLock := UNMODIFIED;
      }
      if txLock == UNLOCKED {
        txLock := UNMODIFIED;
      }
    }

    // A task that found nothing to receive goes to sleep, the queue being locked.
    method BlockToReceive(t: Task, at: nat)
      requires Valid() && |waitingToReceive| < tasks && at <= |waitingToReceive|
      modifies this`waitingToReceive
      ensures Valid() && waitingToReceive == old(waitingToReceive)[..at] + [t] + old(waitingToReceive)[at..]
    {
      waitingToReceive := waitingToReceive[..at] + [t] + waitingToReceive[at..];
    }

    // A task that found no room goes to sleep, the queue being locked.
    method BlockToSend(t: Task, at: nat)
      requires Valid() && |waitingToSend| < tasks && at <= |waitingToSend|
      modifies this`waitingToSend
      ensures Valid() && waitingToSend == old(waitingToSend)[..at] + [t] + old(waitingToSend)[at..]
    {
      waitingToSend := waitingToSend[..at] + [t] + waitingToSend[at..];
    }

    // prvUnlockQueue. The cap on the lock counts costs no wake-up: with k items posted, the
    // first k waiting receivers are woken, or all of them if fewer wait; likewise for senders.
    method Unlock() returns (receivers: seq<Task>, senders: seq<Task>)
      requires Valid() && txLock != UNLOCKED && rxLock != UNLOCKED
      modifies this`txLock, this`rxLock, this`waitingToReceive, this`waitingToSend, this`posted, this`removed
      ensures Valid() && txLock == UNLOCKED && rxLock == UNLOCKED
      ensures receivers == old(waitingToReceive)[..Min(old(posted), |old(waitingToReceive)|)]
      ensures waitingToReceive == old(waitingToReceive)[|receivers|..]
      ensures senders == old(waitingToSend)[..Min(old(removed), |old(waitingToSend)|)]
      ensures waitingToSend == old(waitingToSend)[|senders|..]
    {
      receivers, waitingToReceive := WakeUpTo(waitingToReceive, txLock);
      txLock, posted := UNLOCKED, 0;
      senders, waitingToSend := WakeUpTo(waitingToSend, rxLock);
      rxLock, removed := UNLOCKED, 0;
    }

    // The loop of prvUnlockQueue over one event list.
    static method WakeUpTo(list: seq<Task>, count: int) returns (woken: seq<Task>, left: seq<Task>)
      requires count >= 0
      ensures woken == list[..Min(count, |list|)] && left == list[|woken|..]
    {
      var lock := count;
      woken, left := [], list;
      while lock > UNMODIFIED
        invariant 0 <= lock <= count && |woken| == count - lock <= |list|
        invariant woken == list[..count - lock] && left == list[count - lock..]
      {
        if left == [] {
          break;
        }
        woken := woken + [left[0]];
        left := left[1..];
        lock := lock - 1;
      }
    }
  }

  lemma NothingHeld<T>(slots: seq<T>, readFrom: nat)
    requires readFrom < |slots|
    ensures Held(slots, readFrom, 0) == []
  {
  }
}
