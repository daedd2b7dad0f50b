/**
 * The task scheduler: an ASAP list, a heap of timed tasks and a sorted fallback list for
 * when the heap cannot grow. A run first gathers what is due and then executes it, while
 * the tasks may schedule and cancel.
 */
module TaskSchedulers {
  import opened Basics
  import opened HeapOrder
  import opened PriorityQueues
  import opened TaskRuns

  /** Where a sorted insertion goes: before the first later task. */
  method InsertionPoint(l: seq<Timed>, time: Time) returns (i: nat)
    requires Sorted(l)
    ensures i <= |l|
    ensures (forall k | 0 <= k < i :: l[k].time <= time) && forall k | i <= k < |l| :: l[k].time > time
  {
    i := 0;
    while i < |l| && l[i].time <= time
      invariant i <= |l| && forall k | 0 <= k < i :: l[k].time <= time
    {
      i := i + 1;
    }
  }

  class TaskScheduler {
    const queue: PriorityQueue<Timed>
    var asap: seq<nat>
    var timedList: seq<Timed>
    /** The list of tasks that a run has gathered; empty between runs. */
    var running: seq<nat>

    /** The timed tasks of both collections. */
    ghost function Waiting(): seq<Slot<Timed>>
      reads this`timedList, queue`slots
    {
      queue.slots + Slots(timedList)
    }

    /** Every scheduled task, with how often it occurs. */
    ghost function All(): multiset<nat>
      reads this, queue`slots
    {
      multiset(asap) + multiset(running) + multiset(Tasks(Waiting()))
    }

    /** The tasks that wait and their times. */
    ghost function Times(): map<nat, Time>
      reads this`timedList, queue`slots
    {
      TimesOf(Waiting())
    }

    /** Both timed collections are in order. */
    ghost predicate TimedOk()
      reads this`timedList, queue
    {
      && queue.Valid() && queue.fixedCapacity == None && (forall a, b :: queue.after(a, b) <==> Later(a, b))
      && Own(queue.slots)
      && Sorted(timedList)
    }

    /** Each task is in one place at most. */
    ghost predicate Valid()
      reads this, queue
    {
      TimedOk() && Single(All())
    }

    constructor (queue: PriorityQueue<Timed>)
      requires queue.Valid() && queue.fixedCapacity == None && forall a, b :: queue.after(a, b) <==> Later(a, b)
      requires queue.slots == []
      ensures Valid() && All() == multiset{} && this.queue == queue && running == []
    {
      this.queue := queue;
      asap, timedList, running := [], [], [];
    }

    // --- scheduling ------------------------------------------------------------------------

    /** Mark a task that is not scheduled as being in no heap. */
    method ResetNode(t: nat)
      requires Valid() && t !in All()
      modifies queue`position
      ensures Valid() && queue.position == old(queue.position)[t := SIZE_MAX]
    {
      NotLive(t);
      queue.ResetNode(t);
    }

    lemma NotLive(t: nat)
      requires TimedOk() && t !in Tasks(queue.slots + Slots(timedList))
      ensures !Live(queue.slots, t)
    {
      forall i: nat | i < |queue.slots| ensures queue.slots[i].handle != Node(t) {
        assert queue.slots[i] in queue.slots;
        assert Tasks(Waiting())[i] == queue.slots[i].item.task;
      }
    }

    /** `aws_task_scheduler_schedule_now`. */
    method ScheduleNow(t: nat)
      requires Valid() && t !in All()
      modifies this`asap, queue`position
      ensures Valid() && asap == old(asap) + [t] && All() == old(All()) + multiset{t}
      ensures queue.position.Keys == old(queue.position.Keys) + {t}
    {
      ResetNode(t);
      asap := asap + [t];
      assert All() == old(All()) + multiset{t};
      SinglePlus(old(All()), t);
    }

    /** `aws_task_scheduler_schedule_future`: the heap takes the task, or the fallback list does. */
    method ScheduleFuture(t: nat, time: Time, canGrow: bool, canTrack: bool)
      requires Valid() && t !in All()
      modifies this`timedList, queue
      ensures Valid() && All() == old(All()) + multiset{t} && queue.position.Keys == old(queue.position.Keys) + {t}
      ensures multiset(Waiting()) == old(multiset(Waiting())) + multiset{SlotOf(Timed(t, time))}
      ensures if canGrow && canTrack && old(|queue.slots|) + 1 < SIZE_MAX then timedList == old(timedList)
        else queue.slots == old(queue.slots) && Inserted(old(timedList), timedList, Timed(t, time))
    {
      ResetNode(t);
      NotLive(t);
      Place(Timed(t, time), canGrow, canTrack);
      MoreTasks(old(Waiting()), Waiting(), Timed(t, time));
      assert All() == old(All()) + multiset{t};
      SinglePlus(old(All()), t);
    }

    /** Put a task into the heap or else the fallback list. */
    method Place(x: Timed, canGrow: bool, canTrack: bool)
      requires TimedOk() && !Live(queue.slots, x.task) && x.task in queue.position
      modifies this`timedList, queue
      ensures TimedOk() && multiset(Waiting()) == old(multiset(Waiting())) + multiset{SlotOf(x)}
      ensures queue.position.Keys == old(queue.position.Keys)
      ensures if canGrow && canTrack && old(|queue.slots|) + 1 < SIZE_MAX then timedList == old(timedList)
        else queue.slots == old(queue.slots) && Inserted(old(timedList), timedList, x)
    {
      var ok := Enqueue(x, canGrow, canTrack);
      if !ok {
        InsertSorted(x);
      }
    }

    /** Push a task that is not in the heap. */
    method Enqueue(x: Timed, canGrow: bool, canTrack: bool) returns (ok: bool)
      requires TimedOk() && !Live(queue.slots, x.task) && x.task in queue.position
      modifies queue
      ensures TimedOk() && queue.position.Keys == old(queue.position.Keys)
      ensures ok <==> canGrow && canTrack && old(|queue.slots|) + 1 < SIZE_MAX
      ensures if ok then multiset(queue.slots) == old(multiset(queue.slots)) + multiset{SlotOf(x)} else queue.slots == old(queue.slots)
    {
      ghost var s := queue.slots;
      ok := queue.Push(x, Node(x.task), canGrow, canTrack);
      if ok {
        AllOwn(s, queue.slots, x);
      }
    }

    static lemma AllOwn(s: seq<Slot<Timed>>, t: seq<Slot<Timed>>, x: Timed)
      requires multiset(t) == multiset(s) + multiset{SlotOf(x)} && Own(s)
      ensures Own(t)
    {
      forall y | y in t ensures y == SlotOf(y.item) {
        assert y in multiset(t);
      }
    }

    /** The sorted insertion into the fallback list: after the tasks of the same time. */
    method InsertSorted(x: Timed)
      requires Sorted(timedList)
      modifies this`timedList
      ensures Sorted(timedList) && Inserted(old(timedList), timedList, x)
      ensures multiset(Slots(timedList)) == old(multiset(Slots(timedList))) + multiset{SlotOf(x)}
    {
      var i := InsertionPoint(timedList, x.time);
      SlotsInserted(timedList, i, x);
      timedList := InsertAt(timedList, i, x);
    }

    /** `aws_task_scheduler_has_tasks`. */
    method HasTasks() returns (has: bool, next: Time)
      requires Valid()
      ensures has <==> asap != [] || Waiting() != []
      ensures asap != [] ==> next == 0
      ensures asap == [] ==>
        && (forall x | x in Waiting() :: next <= x.item.time)
        && (if has then exists x :: x in Waiting() && x.item.time == next else next == SIZE_MAX)
    {
      has, next := false, SIZE_MAX;
      if asap != [] {
        return true, 0;
      }
      if timedList != [] {
        has, next := true, timedList[0].time;
        assert Waiting()[|queue.slots|].item.time == next;
      }
      if queue.Top().Some? {
        QueueTopFirst();
        assert Waiting()[0] == queue.slots[0];
        if queue.Top().value.time < next {
          next := queue.Top().value.time;
        }
        has := true;
      }
    }

    lemma QueueTopFirst()
      requires TimedOk() && queue.slots != []
      ensures forall x | x in queue.slots :: queue.slots[0].item.time <= x.item.time
    {
      forall i: nat | i < |queue.slots| ensures queue.slots[0].item.time <= queue.slots[i].item.time {
        RootFirst(queue.after, queue.slots, i);
      }
    }

    // --- gathering -------------------------------------------------------------------------

    /** Take the first task off the heap. */
    method Dequeue() returns (x: Timed)
      requires TimedOk() && queue.slots != []
      modifies queue
      ensures TimedOk() && x == old(queue.slots[0].item) && Taken(old(queue.slots), queue.slots, x)
      ensures queue.position.Keys == old(queue.position.Keys)
    {
      ghost var s := queue.slots;
      assert s[0] in s;
      x := queue.PopMarked();
      queue.FewerSlots(s, queue.slots, s[0]);
      assert s[0] in multiset(s);
    }

    /** `due` has been moved from the timed collections, which were `start`, to the running list, which was `head`. */
    ghost predicate Gathering(start: multiset<Slot<Timed>>, head: seq<nat>, due: seq<Timed>, now: Time)
      reads this, queue
    {
      && TimedOk() && running == head + Ids(due)
      && DueFirst(due, queue.slots, timedList, now) && Parted(start, due, queue.slots, timedList)
    }

    lemma GatheringBegins(now: Time)
      requires TimedOk()
      ensures Gathering(multiset(Waiting()), running, [], now)
    {
      assert running + Ids([]) == running;
      assert Slots([]) == [];
    }

    /** Move the heap's first task, which is due and not later than any of the list. */
    method MoveFromQueue(now: Time, ghost start: multiset<Slot<Timed>>, ghost head: seq<nat>, ghost due: seq<Timed>)
      returns (x: Timed)
      requires Gathering(start, head, due, now) && queue.slots != []
      requires queue.slots[0].item.time <= now && forall y | y in timedList :: queue.slots[0].item.time <= y.time
      modifies this`running, queue
      ensures Gathering(start, head, due + [x], now) && |queue.slots| < old(|queue.slots|)
      ensures queue.position.Keys == old(queue.position.Keys)
    {
      ghost var q := queue.slots;
      x := Dequeue();
      DueFromQueue(due, q, queue.slots, timedList, x, now);
      PartedFromQueue(start, due, q, queue.slots, timedList, x);
      IdsPush(due, x);
      running := running + [x.task];
    }

    /** Move the list's first task, which is due and not later than any of the heap. */
    method MoveFromList(now: Time, ghost start: multiset<Slot<Timed>>, ghost head: seq<nat>, ghost due: seq<Timed>)
      returns (x: Timed)
      requires Gathering(start, head, due, now) && timedList != []
      requires timedList[0].time <= now && forall y | y in queue.slots :: timedList[0].time <= y.item.time
      modifies this`running, this`timedList
      ensures Gathering(start, head, due + [x], now) && |timedList| < old(|timedList|)
    {
      x := timedList[0];
      DueFromList(due, queue.slots, timedList, now);
      PartedFromList(start, due, queue.slots, timedList);
      IdsPush(due, x);
      timedList, running := timedList[1..], running + [x.task];
    }

    /** One turn of the merge: the heap's first task if it is due and earlier than the list's, else the list's. */
    method MoveEarlier(now: Time, ghost start: multiset<Slot<Timed>>, ghost head: seq<nat>, ghost due: seq<Timed>)
      returns (x: Timed)
      requires Gathering(start, head, due, now) && timedList != [] && timedList[0].time <= now
      modifies this`running, this`timedList, queue
      ensures Gathering(start, head, due + [x], now)
      ensures queue.position.Keys == old(queue.position.Keys)
      ensures |timedList| + |queue.slots| < old(|timedList| + |queue.slots|)
    {
      if queue.slots != [] {
        QueueTopFirst();
      }
      if queue.Top().Some? && queue.Top().value.time <= now && queue.Top().value.time < timedList[0].time {
        x := MoveFromQueue(now, start, head, due);
      } else {
        x := MoveFromList(now, start, head, due);
      }
    }

    /** The merge loop, while the fallback list has tasks that are due. */
    method GatherMerged(now: Time, ghost start: multiset<Slot<Timed>>, ghost head: seq<nat>) returns (ghost due: seq<Timed>)
      requires Gathering(start, head, [], now)
      modifies this`running, this`timedList, queue
      ensures Gathering(start, head, due, now) && (timedList != [] ==> timedList[0].time > now)
      ensures queue.position.Keys == old(queue.position.Keys)
    {
      due := [];
      while timedList != [] && timedList[0].time <= now
        invariant Gathering(start, head, due, now) && queue.position.Keys == old(queue.position.Keys)
        decreases |timedList| + |queue.slots|
      {
        var x := MoveEarlier(now, start, head, due);
        due := due + [x];
      }
    }

    /** The simpler loop, on the heap alone. */
    method GatherQueue(now: Time, ghost start: multiset<Slot<Timed>>, ghost head: seq<nat>, ghost due0: seq<Timed>)
      returns (ghost due: seq<Timed>)
      requires Gathering(start, head, due0, now) && forall x | x in timedList :: x.time > now
      modifies this`running, queue
      ensures Gathering(start, head, due, now) && (queue.slots != [] ==> queue.slots[0].item.time > now)
      ensures queue.position.Keys == old(queue.position.Keys)
    {
      due := due0;
      while queue.Top().Some? && queue.Top().value.time <= now
        invariant Gathering(start, head, due, now) && queue.position.Keys == old(queue.position.Keys)
        decreases |queue.slots|
      {
        var x := MoveFromQueue(now, start, head, due);
        due := due + [x];
      }
    }

    /** Both loops: move what is due, in order of time, to the running list. */
    method GatherTimed(now: Time) returns (ghost due: seq<Timed>)
      requires TimedOk() && Single(multiset(running) + multiset(Tasks(Waiting())))
      modifies this`running, this`timedList, queue
      ensures TimedOk() && running == old(running) + Ids(due) && Sorted(due)
      ensures queue.position.Keys == old(queue.position.Keys)
      ensures multiset(running) + multiset(Tasks(Waiting())) == old(multiset(running) + multiset(Tasks(Waiting())))
      ensures Single(multiset(running)) && WholeDue(multiset(old(Waiting())), due, now)
      ensures StillEarly(multiset(old(Waiting())), multiset(Waiting()), now)
    {
      ghost var start, head := Waiting(), running;
      GatheringBegins(now);
      due := GatherMerged(now, multiset(start), head);
      due := GatherQueue(now, multiset(start), head, due);
      GatheredAll(start, head, due, now);
    }

    /** The first half of `s_run_all`: move the ASAP tasks and then what is due to the running list. */
    method Gather(now: Time) returns (ghost due: seq<Timed>)
      requires Valid() && running == []
      modifies this, queue
      ensures Valid() && All() == old(All()) && asap == [] && running == old(asap) + Ids(due)
      ensures queue.position.Keys == old(queue.position.Keys)
      ensures Sorted(due) && Single(multiset(running)) && WholeDue(multiset(old(Waiting())), due, now)
      ensures StillEarly(multiset(old(Waiting())), multiset(Waiting()), now)
    {
      assert All() == multiset(asap) + multiset(Tasks(Waiting()));
      running, asap := asap, [];
      due := GatherTimed(now);
      assert All() == multiset(running) + multiset(Tasks(Waiting()));
    }

    /** Nothing is lost in gathering, and nothing that is due stays behind. */
    lemma GatheredAll(start: seq<Slot<Timed>>, head: seq<nat>, due: seq<Timed>, now: Time)
      requires Gathering(multiset(start), head, due, now)
      requires timedList != [] ==> timedList[0].time > now
      requires queue.slots != [] ==> queue.slots[0].item.time > now
      requires Single(multiset(head) + multiset(Tasks(start)))
      ensures multiset(running) + multiset(Tasks(Waiting())) == multiset(head) + multiset(Tasks(start))
      ensures Single(multiset(running)) && WholeDue(multiset(start), due, now)
      ensures StillEarly(multiset(start), multiset(Waiting()), now)
    {
      PartedTasks(start, due, queue.slots, timedList);
      assert multiset(running) == multiset(head) + multiset(Ids(due));
      assert Single(multiset(running)) by {
        SinglePart(multiset(running), multiset(head) + multiset(Tasks(start)));
      }
      if queue.slots != [] {
        QueueTopFirst();
      }
      DueExactly(multiset(start), due, queue.slots, timedList, now);
    }

    // --- cancelling and running ------------------------------------------------------------

    /** `aws_priority_queue_remove`: take a task out of the heap by its handle, if it is there. */
    method Unqueue(t: nat)
      requires TimedOk() && t in queue.position && Single(multiset(Tasks(Waiting()))) && t !in Ids(timedList)
      modifies queue
      ensures TimedOk() && queue.position.Keys == old(queue.position.Keys)
      ensures multiset(Tasks(Waiting())) == old(multiset(Tasks(Waiting()))) - multiset{t}
      ensures Forgets(old(multiset(Waiting())), multiset(Waiting()), t)
    {
      ghost var s := queue.slots;
      LiveIffQueued(t);
      OnlyQueued(t);
      var x := queue.Remove(t);
      if x.Some? {
        ghost var slot := Slot(x.value, Node(t));
        queue.FewerSlots(s, queue.slots, slot);
        assert slot in multiset(s);
        TakenOut(old(Waiting()), x.value);
      } else {
        StrangerForgotten(Waiting(), t);
      }
    }

    lemma TakenOut(before: seq<Slot<Timed>>, x: Timed)
      requires multiset(before) == multiset(Waiting()) + multiset{SlotOf(x)} && Single(multiset(Tasks(before)))
      ensures multiset(Tasks(Waiting())) == multiset(Tasks(before)) - multiset{x.task}
      ensures Forgets(multiset(before), multiset(Waiting()), x.task)
    {
      MoreTasks(Waiting(), before, x);
      OneForgotten(before, Waiting(), x);
    }

    lemma LiveIffQueued(t: nat)
      requires TimedOk()
      ensures Live(queue.slots, t) <==> t in Tasks(queue.slots)
    {
      forall i: nat | i < |queue.slots| ensures queue.slots[i].handle == Node(Tasks(queue.slots)[i]) {
        assert queue.slots[i] in queue.slots;
      }
      if t in Tasks(queue.slots) {
        var i: nat :| i < |queue.slots| && Tasks(queue.slots)[i] == t;
        assert queue.slots[i].handle == Node(t);
      }
    }

    /** Take a task out of the fallback list; the others stay in their order. */
    method Unlist(i: nat)
      requires TimedOk() && i < |timedList| && Single(multiset(Tasks(Waiting())))
      modifies this`timedList
      ensures TimedOk() && Ids(timedList) == Without(old(Ids(timedList)), {old(timedList[i].task)})
      ensures multiset(Tasks(Waiting())) == old(multiset(Tasks(Waiting()))) - multiset{old(timedList[i].task)}
      ensures Forgets(old(multiset(Waiting())), multiset(Waiting()), old(timedList[i].task))
    {
      ghost var x := timedList[i];
      SlotsRemoved(timedList, i);
      IdsWithout(queue.slots, timedList, i);
      timedList := Drop(timedList, i);
      TakenOut(old(Waiting()), x);
    }

    static lemma IdsWithout(q: seq<Slot<Timed>>, l: seq<Timed>, i: nat)
      requires i < |l| && Single(multiset(Tasks(q + Slots(l))))
      ensures Ids(Drop(l, i)) == Without(Ids(l), {l[i].task})
    {
      assert Tasks(q + Slots(l)) == Tasks(q) + Ids(l);
      SinglePart(multiset(Ids(l)), multiset(Tasks(q + Slots(l))));
      assert Ids(l)[i] in multiset(Ids(l));
      WithoutOne(Ids(l), i);
      IdsDropped(l, i);
    }

    static lemma IdsDropped(l: seq<Timed>, i: nat)
      requires i < |l|
      ensures Ids(Drop(l, i)) == Drop(Ids(l), i)
    {
    }

    lemma NotListed(t: nat)
      requires forall k: nat | k < |timedList| :: timedList[k].task != t
      ensures t !in Ids(timedList) && Ids(timedList) == Without(Ids(timedList), {t})
    {
      WithoutStranger(Ids(timedList), t);
    }

    /** Take a task out of whichever timed collection has it, if one has. */
    method Unwait(t: nat)
      requires TimedOk() && t in queue.position && Single(multiset(Tasks(Waiting())))
      modifies this`timedList, queue
      ensures TimedOk() && queue.position.Keys == old(queue.position.Keys)
      ensures Ids(timedList) == Without(old(Ids(timedList)), {t})
      ensures multiset(Tasks(Waiting())) == old(multiset(Tasks(Waiting()))) - multiset{t}
      ensures Forgets(old(multiset(Waiting())), multiset(Waiting()), t)
    {
      if i: nat :| i < |timedList| && timedList[i].task == t {
        Unlist(i);
      } else {
        NotListed(t);
        Unqueue(t);
      }
    }

    lemma OnlyQueued(t: nat)
      requires t !in Ids(timedList)
      ensures t in Tasks(Waiting()) <==> t in Tasks(queue.slots)
    {
      assert Tasks(Waiting()) == Tasks(queue.slots) + Ids(timedList);
    }

    static lemma OneOut(s: seq<nat>, i: nat, others: multiset<nat>, whole: multiset<nat>)
      requires i < |s| && whole == multiset(s) + others && Single(whole)
      ensures Drop(s, i) == Without(s, {s[i]}) && (i == 0 ==> Drop(s, i) == s[1..])
      ensures multiset(Drop(s, i)) + others == whole - multiset{s[i]} && Single(whole - multiset{s[i]})
    {
      SinglePart(multiset(s), whole);
      WithoutOne(s, i);
      SinglePart(whole - multiset{s[i]}, whole);
    }

    /** Take a task out of the running list. */
    method Unrun(i: nat)
      requires Valid() && i < |running|
      modifies this`running
      ensures Valid() && All() == old(All()) - multiset{old(running[i])}
      ensures running == Without(old(running), {old(running[i])}) && (i == 0 ==> running == old(running)[1..])
    {
      ghost var others := multiset(asap) + multiset(Tasks(Waiting()));
      assert All() == multiset(running) + others;
      OneOut(running, i, others, All());
      running := Drop(running, i);
      assert All() == multiset(running) + others;
    }

    /** Take a task out of the ASAP list. */
    method Unhurry(i: nat)
      requires Valid() && i < |asap|
      modifies this`asap
      ensures Valid() && All() == old(All()) - multiset{old(asap[i])}
      ensures asap == Without(old(asap), {old(asap[i])})
    {
      ghost var others := multiset(running) + multiset(Tasks(Waiting()));
      assert All() == multiset(asap) + others;
      OneOut(asap, i, others, All());
      asap := Drop(asap, i);
      assert All() == multiset(asap) + others;
    }

    /** Take a task that is in neither list out of the timed collections. */
    method Untime(t: nat)
      requires Valid() && t in queue.position && t !in running && t !in asap
      modifies this`timedList, queue
      ensures Valid() && All() == old(All()) - multiset{t}
      ensures queue.position.Keys == old(queue.position.Keys) && Ids(timedList) == Without(old(Ids(timedList)), {t})
      ensures Forgets(old(multiset(Waiting())), multiset(Waiting()), t)
    {
      SinglePart(multiset(Tasks(Waiting())), All());
      Unwait(t);
      assert All() == old(All()) - multiset{t};
      SinglePart(All(), old(All()));
    }

    /** What is in one place is in no other. */
    lemma OnlyListed(t: nat)
      requires Valid() && (t in asap || t in running)
      ensures !(t in asap && t in running)
      ensures Without(Ids(timedList), {t}) == Ids(timedList) && Forgets(multiset(Waiting()), multiset(Waiting()), t)
    {
      assert t in All() && All()[t] == multiset(asap)[t] + multiset(running)[t] + multiset(Tasks(Waiting()))[t];
      assert t in asap ==> t in multiset(asap);
      assert t in running ==> t in multiset(running);
      assert t !in multiset(Tasks(Waiting()));
      assert Tasks(Waiting()) == Tasks(queue.slots) + Ids(timedList);
      WithoutStranger(Ids(timedList), t);
      StrangerForgotten(Waiting(), t);
    }

    /**
     * `aws_task_scheduler_cancel_task`, up to the call of the task's function, of a task that has
     * been scheduled at some time: wherever it is, it is taken out, and everything else stays in
     * its place and its order.
     */
    method Withdraw(t: nat)
      requires Valid() && t in queue.position
      modifies this, queue
      ensures Valid() && All() == old(All()) - multiset{t} && queue.position.Keys == old(queue.position.Keys)
      ensures running == Without(old(running), {t}) && asap == Without(old(asap), {t})
      ensures Ids(timedList) == Without(old(Ids(timedList)), {t})
      ensures Forgets(old(multiset(Waiting())), multiset(Waiting()), t)
    {
      if i: nat :| i < |running| && running[i] == t {
        OnlyListed(t);
        WithoutStranger(asap, t);
        Unrun(i);
      } else {
        WithoutStranger(running, t);
        WithdrawWaiting(t);
      }
    }

    /** The same for a task that is not about to run. */
    method WithdrawWaiting(t: nat)
      requires Valid() && t in queue.position && t !in running
      modifies this`asap, this`timedList, queue
      ensures Valid() && All() == old(All()) - multiset{t} && queue.position.Keys == old(queue.position.Keys)
      ensures asap == Without(old(asap), {t}) && Ids(timedList) == Without(old(Ids(timedList)), {t})
      ensures Forgets(old(multiset(Waiting())), multiset(Waiting()), t)
    {
      if i: nat :| i < |asap| && asap[i] == t {
        OnlyListed(t);
        Unhurry(i);
      } else {
        WithoutStranger(asap, t);
        Untime(t);
      }
    }

    /** The scheduler is where a run has come to. */
    ghost predicate InRun(st: RunState, past: Past)
      reads this, queue
    {
      && Valid() && running == st.running && asap == st.asap && Timetable(multiset(Waiting()), st.times)
      && Balance(st.log, past.scheduled) == All() && Known(st.log, past.known) == queue.position.Keys
    }

    /**
     * One thing that a task's function asks for; what the interface does not allow is not done.
     * `log` are the calls made so far, and a cancelled task is called here.
     */
    method Perform(a: Action, log: Log, ghost st: RunState, ghost past: Past) returns (log': Log)
      requires InRun(st, past) && log == st.log
      modifies this, queue
      ensures InRun(Act(st, a, past.known), past) && log' == Act(st, a, past.known).log
    {
      match a
      case Cancel(t) => log' := PerformCancel(t, log, st, past);
      case Now(t) => log' := PerformNow(t, log, st, past);
      case Future(_, _, _, _) => log' := PerformFuture(a, log, st, past);
    }

    method PerformCancel(t: nat, log: Log, ghost st: RunState, ghost past: Past) returns (log': Log)
      requires InRun(st, past) && log == st.log
      modifies this, queue
      ensures InRun(Act(st, Cancel(t), past.known), past) && log' == Act(st, Cancel(t), past.known).log
    {
      log' := log;
      ActCancels(st, t, past.known);
      if t in queue.position {
        Withdraw(t);
        TimesForgotten(old(multiset(Waiting())), multiset(Waiting()), st.times, t);
        log' := Then(log, Canceled(t));
      }
    }

    static lemma ActCancels(st: RunState, t: nat, known: set<nat>)
      ensures Act(st, Cancel(t), known) == if t !in Known(st.log, known) then st
        else RunState(Then(st.log, Canceled(t)), Without(st.running, {t}), Without(st.asap, {t}), st.times - {t})
    {
    }

    method PerformNow(t: nat, log: Log, ghost st: RunState, ghost past: Past) returns (log': Log)
      requires InRun(st, past) && log == st.log
      modifies this, queue
      ensures InRun(Act(st, Now(t), past.known), past) && log' == Act(st, Now(t), past.known).log
    {
      log' := log;
      HeldIsScheduled(st, past, t);
      var free := IsFree(t);
      if free {
        ScheduleNow(t);
        log' := Then(log, Scheduled(t));
      }
    }

    method PerformFuture(a: Action, log: Log, ghost st: RunState, ghost past: Past) returns (log': Log)
      requires InRun(st, past) && log == st.log && a.Future?
      modifies this, queue
      ensures InRun(Act(st, a, past.known), past) && log' == Act(st, a, past.known).log
    {
      log' := log;
      HeldIsScheduled(st, past, a.task);
      var free := IsFree(a.task);
      if free {
        ScheduleFuture(a.task, a.time, a.canGrow, a.canTrack);
        TimesAdded(old(multiset(Waiting())), multiset(Waiting()), st.times, Timed(a.task, a.time));
        log' := Then(log, Scheduled(a.task));
      }
    }

    lemma OwnWaiting()
      requires TimedOk()
      ensures Own(Waiting())
    {
      forall x | x in Slots(timedList) ensures x == SlotOf(x.item) {
        var i: nat :| i < |timedList| && Slots(timedList)[i] == x;
        assert SlotOf(timedList[i]).item == timedList[i];
      }
    }

    lemma HeldIsScheduled(st: RunState, past: Past, t: nat)
      requires InRun(st, past)
      ensures st.Holds(t) <==> t in All()
    {
      OwnWaiting();
      TimedTasks(Waiting(), st.times, t);
      assert t in All() <==> t in multiset(asap) || t in multiset(running) || t in multiset(Tasks(Waiting()));
    }

    /** Whether a task is in none of the collections. */
    method IsFree(t: nat) returns (free: bool)
      ensures free <==> t !in All()
    {
      free := && t !in asap && t !in running
              && (forall i | 0 <= i < |queue.slots| :: queue.slots[i].item.task != t)
              && (forall i | 0 <= i < |timedList| :: timedList[i].task != t);
      assert Tasks(Waiting()) == Tasks(queue.slots) + Ids(timedList);
    }

    /** All that one call of a task's function asks for. */
    method PerformAll(actions: seq<Action>, log: Log, ghost st: RunState, ghost past: Past) returns (log': Log)
      requires InRun(st, past) && log == st.log
      modifies this, queue
      ensures InRun(ActAll(st, actions, past.known), past) && log' == ActAll(st, actions, past.known).log
    {
      log' := log;
      ghost var now := st;
      for k := 0 to |actions|
        invariant now == ActAll(st, actions[..k], past.known) && InRun(now, past) && log' == now.log
      {
        log' := Perform(actions[k], log', now, past);
        now := Act(now, actions[k], past.known);
        assert actions[..k + 1][..k] == actions[..k];
      }
      assert actions[..|actions|] == actions;
    }

    /** Take the front task off the running list and call it. */
    method CallFront(log: Log, ghost st: RunState, ghost past: Past) returns (log': Log)
      requires running != [] && InRun(st, past) && log == st.log
      modifies this`running
      ensures InRun(Called(st), past) && log' == Called(st).log
    {
      log' := Then(log, Ran(running[0]));
      ghost var waiting := Waiting();
      Unrun(0);
      assert Waiting() == waiting;
    }

    /** The state in which a run begins to call tasks. */
    lemma RunBegins(waiting: seq<Slot<Timed>>, now: Time)
      requires Valid() && asap == [] && StillEarly(multiset(waiting), multiset(Waiting()), now)
      requires Own(waiting) && Single(multiset(Tasks(waiting)))
      ensures InRun(RunState(Begin, running, [], After(TimesOf(waiting), now)), Past(All(), queue.position.Keys))
    {
      TimesAre(waiting);
      TimesAfter(multiset(waiting), multiset(Waiting()), TimesOf(waiting), now);
    }

    lemma TimesInRun(st: RunState, past: Past)
      requires InRun(st, past)
      ensures Times() == st.times
    {
      OwnWaiting();
      SinglePart(multiset(Tasks(Waiting())), All());
      TimesAre(Waiting());
      OneTimetable(multiset(Waiting()), Times(), st.times);
    }

    /**
     * `s_run_all`; the answer is the log of the calls it makes. `script[k]` is what the function of
     * the `k`-th task run asks for, with what the functions of the tasks it cancels ask for, so the
     * contract holds however the tasks behave.
     */
    method RunAll(now: Time, script: seq<seq<Action>>) returns (log: Log, ghost due: seq<Timed>, ghost collected: seq<nat>)
      requires Valid() && running == []
      modifies this, queue
      ensures Valid() && running == []
      ensures collected == old(asap) + Ids(due) && Single(multiset(collected)) && Sorted(due)
      ensures WholeDue(multiset(old(Waiting())), due, now)
      ensures RunState(log, [], asap, Times()) == RunEnd(collected, After(old(Times()), now), script, old(queue.position.Keys))
      ensures All() == Balance(log, old(All()))
    {
      ghost var past := Past(All(), queue.position.Keys);
      OwnWaiting();
      SinglePart(multiset(Tasks(Waiting())), All());
      due := Gather(now);
      collected := running;
      RunBegins(old(Waiting()), now);
      ghost var st := RunState(Begin, collected, [], After(old(Times()), now));
      log := CallAll(script, st, past);
    }

    /** The second half of it: the collected tasks are called. */
    method CallAll(script: seq<seq<Action>>, ghost st0: RunState, ghost past: Past) returns (log: Log)
      requires InRun(st0, past) && st0.log == Begin
      modifies this, queue
      ensures Valid() && RunState(log, running, asap, Times()) == Replay(st0, script, past.known)
      ensures All() == Balance(log, past.scheduled)
    {
      log := Begin;
      var rest := script;
      ghost var st := st0;
      while running != []
        invariant InRun(st, past) && log == st.log
        invariant Replay(st, rest, past.known) == Replay(st0, script, past.known)
        decreases |running|
      {
        log := CallFront(log, st, past);
        ghost var ran := Called(st);
        log := PerformAll(if rest == [] then [] else rest[0], log, ran, past);
        st := ActAll(ran, FirstOf(rest), past.known);
        rest := if rest == [] then [] else rest[1..];
      }
      TimesInRun(st, past);
    }
  }
}
