/**
 * Values of the task scheduler: timed tasks, the order in which they come due and the log
 * of a run.
 */
module TaskRuns {
  import opened Basics
  import opened HeapOrder

  /** A 64-bit time stamp. */
  type Time = t: nat | t <= SIZE_MAX

  /** A task in a timed collection; its time does not change while it is there. */
  datatype Timed = Timed(task: nat, time: Time)

  /** `s_compare_timestamps`. */
  predicate Later(a: Timed, b: Timed)
  {
    a.time > b.time
  }

  /** The heap element of a timed task; the task's own node is its handle. */
  function SlotOf(x: Timed): Slot<Timed>
  {
    Slot(x, Node(x.task))
  }

  ghost function Slots(l: seq<Timed>): (r: seq<Slot<Timed>>)
    ensures |r| == |l| && forall i | 0 <= i < |l| :: r[i] == SlotOf(l[i])
  {
    seq(|l|, i requires 0 <= i < |l| => SlotOf(l[i]))
  }

  ghost function Tasks(s: seq<Slot<Timed>>): (r: seq<nat>)
    ensures |r| == |s| && forall i | 0 <= i < |s| :: r[i] == s[i].item.task
  {
    seq(|s|, i requires 0 <= i < |s| => s[i].item.task)
  }

  ghost function Ids(l: seq<Timed>): (r: seq<nat>)
    ensures |r| == |l| && forall i | 0 <= i < |l| :: r[i] == l[i].task
  {
    Tasks(Slots(l))
  }

  ghost predicate Sorted(l: seq<Timed>)
  {
    forall i, j | 0 <= i < j < |l| :: l[i].time <= l[j].time
  }

  // --- multisets of tasks ----------------------------------------------------------------

  ghost predicate Single(m: multiset<nat>)
  {
    forall t | t in m :: m[t] == 1
  }

  lemma SinglePlus(m: multiset<nat>, t: nat)
    requires Single(m) && t !in m
    ensures Single(m + multiset{t})
  {
  }

  lemma SinglePart(m: multiset<nat>, whole: multiset<nat>)
    requires Single(whole) && m <= whole
    ensures Single(m)
  {
  }

  lemma FrontOnce(s: seq<nat>)
    requires s != [] && Single(multiset(s))
    ensures s[0] !in s[1..]
  {
    assert s == [s[0]] + s[1..];
    assert s[0] in multiset(s);
    assert multiset(s[1..])[s[0]] == 0;
  }

  lemma RemovedAt<T>(s: seq<T>, i: nat)
    requires i < |s|
    ensures multiset(s) == multiset(Drop(s, i)) + multiset{s[i]}
  {
    assert s == s[..i] + [s[i]] + s[i + 1..];
  }

  function InsertAt<T>(s: seq<T>, i: nat, x: T): seq<T>
    requires i <= |s|
  {
    s[..i] + [x] + s[i..]
  }

  /** `x` has been put after everything that is not later and before everything that is. */
  ghost predicate Inserted(before: seq<Timed>, after: seq<Timed>, x: Timed)
  {
    exists i: nat :: i <= |before| && after == InsertAt(before, i, x)
      && (forall k | 0 <= k < i :: before[k].time <= x.time) && forall k | i <= k < |before| :: before[k].time > x.time
  }

  /** Rearranging the slots rearranges the tasks. */
  lemma {:induction false} SameTasks(s: seq<Slot<Timed>>, t: seq<Slot<Timed>>)
    requires multiset(s) == multiset(t)
    ensures multiset(Tasks(s)) == multiset(Tasks(t))
    decreases |s|
  {
    if s == [] {
      assert |multiset(t)| == 0;
    } else {
      assert s[0] in multiset(t);
      var k: nat :| k < |t| && t[k] == s[0];
      RemovedAt(s, 0);
      RemovedAt(t, k);
      assert multiset(Drop(s, 0)) == multiset(s) - multiset{s[0]};
      assert multiset(Drop(t, k)) == multiset(t) - multiset{s[0]};
      SameTasks(Drop(s, 0), Drop(t, k));
      RemovedTask(s, 0);
      RemovedTask(t, k);
    }
  }

  lemma RemovedTask(s: seq<Slot<Timed>>, i: nat)
    requires i < |s|
    ensures multiset(Tasks(s)) == multiset(Tasks(Drop(s, i))) + multiset{s[i].item.task}
  {
    assert Tasks(Drop(s, i)) == Drop(Tasks(s), i);
    RemovedAt(Tasks(s), i);
  }

  lemma MoreTasks(s: seq<Slot<Timed>>, t: seq<Slot<Timed>>, x: Timed)
    requires multiset(t) == multiset(s) + multiset{SlotOf(x)}
    ensures multiset(Tasks(t)) == multiset(Tasks(s)) + multiset{x.task}
  {
    var u := s + [SlotOf(x)];
    SameTasks(t, u);
    RemovedTask(u, |s|);
    assert Drop(u, |s|) == s;
  }

  lemma SlotsInserted(l: seq<Timed>, i: nat, x: Timed)
    requires i <= |l|
    ensures multiset(Slots(InsertAt(l, i, x))) == multiset(Slots(l)) + multiset{SlotOf(x)}
  {
    assert Slots(InsertAt(l, i, x)) == InsertAt(Slots(l), i, SlotOf(x));
    assert Slots(l) == Slots(l)[..i] + Slots(l)[i..];
  }

  lemma SlotsRemoved(l: seq<Timed>, i: nat)
    requires i < |l|
    ensures multiset(Slots(l)) == multiset(Slots(Drop(l, i))) + multiset{SlotOf(l[i])}
  {
    assert Slots(Drop(l, i)) == Drop(Slots(l), i);
    RemovedAt(Slots(l), i);
  }

  // --- what is due -----------------------------------------------------------------------

  /** `x` was first in the heap and has been taken out. */
  ghost predicate Taken(q: seq<Slot<Timed>>, q': seq<Slot<Timed>>, x: Timed)
  {
    && SlotOf(x) in q && |q'| < |q|
    && multiset(q) == multiset(q') + multiset{SlotOf(x)}
    && (forall y | y in q :: x.time <= y.item.time)
    && (forall y | y in q' :: y in q)
  }

  /** `due` is in order of time, and nothing in the timed collections is earlier. */
  ghost predicate DueFirst(due: seq<Timed>, q: seq<Slot<Timed>>, l: seq<Timed>, now: Time)
  {
    && Sorted(due) && (forall d | d in due :: d.time <= now)
    && (forall d, x | d in due && x in l :: d.time <= x.time)
    && (forall d, x | d in due && x in q :: d.time <= x.item.time)
  }

  /** Nothing has been lost or made up on the way from `start` to `due` and the collections. */
  ghost predicate Parted(start: multiset<Slot<Timed>>, due: seq<Timed>, q: seq<Slot<Timed>>, l: seq<Timed>)
  {
    multiset(Slots(due)) + multiset(q) + multiset(Slots(l)) == start
  }

  lemma DueFromQueue(due: seq<Timed>, q: seq<Slot<Timed>>, q': seq<Slot<Timed>>, l: seq<Timed>, x: Timed, now: Time)
    requires DueFirst(due, q, l, now) && Taken(q, q', x) && x.time <= now
    requires forall y | y in l :: x.time <= y.time
    ensures DueFirst(due + [x], q', l, now)
  {
    assert SlotOf(x).item == x;
  }

  lemma DueFromList(due: seq<Timed>, q: seq<Slot<Timed>>, l: seq<Timed>, now: Time)
    requires DueFirst(due, q, l, now) && l != [] && Sorted(l) && l[0].time <= now
    requires forall y | y in q :: l[0].time <= y.item.time
    ensures DueFirst(due + [l[0]], q, l[1..], now)
  {
    assert l[0] in l;
  }

  lemma PartedFromQueue(start: multiset<Slot<Timed>>, due: seq<Timed>, q: seq<Slot<Timed>>, q': seq<Slot<Timed>>, l: seq<Timed>, x: Timed)
    requires Parted(start, due, q, l) && multiset(q) == multiset(q') + multiset{SlotOf(x)}
    ensures Parted(start, due + [x], q', l)
  {
    assert Slots(due + [x]) == Slots(due) + [SlotOf(x)];
  }

  lemma PartedFromList(start: multiset<Slot<Timed>>, due: seq<Timed>, q: seq<Slot<Timed>>, l: seq<Timed>)
    requires Parted(start, due, q, l) && l != []
    ensures Parted(start, due + [l[0]], q, l[1..])
  {
    assert Slots(due + [l[0]]) == Slots(due) + [SlotOf(l[0])];
    assert Slots(l) == [SlotOf(l[0])] + Slots(l[1..]);
  }

  lemma IdsPush(due: seq<Timed>, x: Timed)
    ensures Ids(due + [x]) == Ids(due) + [x.task]
  {
  }

  /** The tasks of the parts are those of the whole. */
  lemma PartedTasks(start: seq<Slot<Timed>>, due: seq<Timed>, q: seq<Slot<Timed>>, l: seq<Timed>)
    requires Parted(multiset(start), due, q, l)
    ensures multiset(Tasks(start)) == multiset(Ids(due)) + multiset(Tasks(q + Slots(l)))
  {
    var s := Slots(due) + (q + Slots(l));
    SameTasks(start, s);
    assert Tasks(s) == Ids(due) + Tasks(q + Slots(l));
  }

  /** `due` is all of `start` whose time has come, each as often as it was scheduled. */
  ghost predicate WholeDue(start: multiset<Slot<Timed>>, due: seq<Timed>, now: Time)
  {
    forall x: Timed :: multiset(Slots(due))[SlotOf(x)] == if x.time <= now then start[SlotOf(x)] else 0
  }

  /** When nothing that is left is due, everything due has been taken. */
  lemma DueExactly(start: multiset<Slot<Timed>>, due: seq<Timed>, q: seq<Slot<Timed>>, l: seq<Timed>, now: Time)
    requires Parted(start, due, q, l) && DueFirst(due, q, l, now)
    requires (forall y | y in l :: y.time > now) && forall y | y in q :: y.item.time > now
    ensures WholeDue(start, due, now) && StillEarly(start, multiset(q + Slots(l)), now)
  {
    forall x: Timed
      ensures multiset(Slots(due))[SlotOf(x)] == if x.time <= now then start[SlotOf(x)] else 0
      ensures multiset(q + Slots(l))[SlotOf(x)] == if x.time > now then start[SlotOf(x)] else 0
    {
      var y := SlotOf(x);
      if x.time <= now {
        assert y.item == x;
        assert y !in q && y !in Slots(l);
        assert y !in multiset(q) && y !in multiset(Slots(l));
      } else {
        assert y !in Slots(due);
        assert y !in multiset(Slots(due));
      }
    }
  }

  // --- who waits for what time -----------------------------------------------------------

  /** Exactly the tasks of `times` wait, each once and for its own time. */
  ghost predicate Timetable(waiting: multiset<Slot<Timed>>, times: map<nat, Time>)
  {
    forall x: Timed :: waiting[SlotOf(x)] == if x.task in times && times[x.task] == x.time then 1 else 0
  }

  /** Of what waited, all but the slot of `t` still waits. */
  ghost predicate Forgets(before: multiset<Slot<Timed>>, after: multiset<Slot<Timed>>, t: nat)
  {
    forall x: Timed :: after[SlotOf(x)] == if x.task == t then 0 else before[SlotOf(x)]
  }

  /** Of what waited, exactly what comes after `now` still waits. */
  ghost predicate StillEarly(before: multiset<Slot<Timed>>, after: multiset<Slot<Timed>>, now: Time)
  {
    forall x: Timed :: after[SlotOf(x)] == if x.time > now then before[SlotOf(x)] else 0
  }

  /** Every slot is its task's own. */
  ghost predicate Own(s: seq<Slot<Timed>>)
  {
    forall x | x in s :: x == SlotOf(x.item)
  }

  ghost function TimeIn(s: seq<Slot<Timed>>, t: nat): Time
    requires t in Tasks(s)
  {
    var i: nat :| i < |s| && Tasks(s)[i] == t;
    s[i].item.time
  }

  /** The tasks that wait and their times. */
  ghost function TimesOf(s: seq<Slot<Timed>>): map<nat, Time>
  {
    map t | t in Tasks(s) :: TimeIn(s, t)
  }

  lemma {:induction false} SlotsPerTask(s: seq<Slot<Timed>>, x: Slot<Timed>)
    ensures multiset(s)[x] <= multiset(Tasks(s))[x.item.task]
  {
    if s != [] {
      SlotsPerTask(Drop(s, 0), x);
      RemovedAt(s, 0);
      RemovedTask(s, 0);
    }
  }

  lemma TwicePlaced(s: seq<nat>, i: nat, j: nat)
    requires i < j < |s| && s[i] == s[j]
    ensures !Single(multiset(s))
  {
    assert s == s[..i] + [s[i]] + s[i + 1..j] + [s[j]] + s[j + 1..];
    assert multiset(s)[s[i]] >= 2;
  }

  lemma TimesAre(s: seq<Slot<Timed>>)
    requires Own(s) && Single(multiset(Tasks(s)))
    ensures Timetable(multiset(s), TimesOf(s))
  {
    var times := TimesOf(s);
    forall x: Timed ensures multiset(s)[SlotOf(x)] == if x.task in times && times[x.task] == x.time then 1 else 0 {
      TimeIs(s, x);
    }
  }

  lemma TimeIs(s: seq<Slot<Timed>>, x: Timed)
    requires Own(s) && Single(multiset(Tasks(s)))
    ensures multiset(s)[SlotOf(x)] == if x.task in Tasks(s) && TimeIn(s, x.task) == x.time then 1 else 0
  {
    SlotsPerTask(s, SlotOf(x));
    if x.task in Tasks(s) {
      var i: nat :| i < |s| && Tasks(s)[i] == x.task && s[i].item.time == TimeIn(s, x.task);
      assert s[i] in s;
      if SlotOf(x) in s {
        var j: nat :| j < |s| && s[j] == SlotOf(x);
        if i < j {
          TwicePlaced(Tasks(s), i, j);
        } else if j < i {
          TwicePlaced(Tasks(s), j, i);
        }
      }
      assert x.task in multiset(Tasks(s));
    } else {
      assert x.task !in multiset(Tasks(s));
    }
  }

  /** Times are determined by what waits. */
  lemma OneTimetable(waiting: multiset<Slot<Timed>>, times: map<nat, Time>, times': map<nat, Time>)
    requires Timetable(waiting, times) && Timetable(waiting, times')
    ensures times == times'
  {
    forall t ensures t in times ==> t in times' && times'[t] == times[t] {
      if t in times {
        assert waiting[SlotOf(Timed(t, times[t]))] == 1;
      }
    }
    forall t ensures t in times' ==> t in times {
      if t in times' {
        assert waiting[SlotOf(Timed(t, times'[t]))] == 1;
      }
    }
  }

  lemma TimedTasks(s: seq<Slot<Timed>>, times: map<nat, Time>, t: nat)
    requires Own(s) && Timetable(multiset(s), times)
    ensures t in times <==> t in Tasks(s)
  {
    if t in times {
      assert SlotOf(Timed(t, times[t])) in multiset(s);
      var i: nat :| i < |s| && s[i] == SlotOf(Timed(t, times[t]));
      assert Tasks(s)[i] == t;
    }
    if t in Tasks(s) {
      var i: nat :| i < |s| && Tasks(s)[i] == t;
      assert s[i] in s && s[i] in multiset(s);
      assert multiset(s)[SlotOf(s[i].item)] > 0;
    }
  }

  lemma TimesAdded(before: multiset<Slot<Timed>>, after: multiset<Slot<Timed>>, times: map<nat, Time>, x: Timed)
    requires Timetable(before, times) && after == before + multiset{SlotOf(x)} && x.task !in times
    ensures Timetable(after, times[x.task := x.time])
  {
    forall y: Timed ensures SlotOf(y) == SlotOf(x) <==> y == x {
      assert SlotOf(y).item == y && SlotOf(x).item == x;
    }
  }

  lemma TimesForgotten(before: multiset<Slot<Timed>>, after: multiset<Slot<Timed>>, times: map<nat, Time>, t: nat)
    requires Timetable(before, times) && Forgets(before, after, t)
    ensures Timetable(after, times - {t})
  {
  }

  /** The times after `now`. */
  ghost function After(times: map<nat, Time>, now: Time): map<nat, Time>
  {
    map t | t in times && times[t] > now :: times[t]
  }

  lemma TimesAfter(before: multiset<Slot<Timed>>, after: multiset<Slot<Timed>>, times: map<nat, Time>, now: Time)
    requires Timetable(before, times) && StillEarly(before, after, now)
    ensures Timetable(after, After(times, now))
  {
  }

  lemma StrangerForgotten(s: seq<Slot<Timed>>, t: nat)
    requires t !in Tasks(s)
    ensures Forgets(multiset(s), multiset(s), t)
  {
    forall x: Timed | x.task == t ensures multiset(s)[SlotOf(x)] == 0 {
      SlotsPerTask(s, SlotOf(x));
      assert t !in multiset(Tasks(s));
    }
  }

  /** Taking the one slot of a task out forgets it. */
  lemma OneForgotten(s: seq<Slot<Timed>>, s': seq<Slot<Timed>>, x: Timed)
    requires multiset(s) == multiset(s') + multiset{SlotOf(x)} && Single(multiset(Tasks(s)))
    ensures Forgets(multiset(s), multiset(s'), x.task)
  {
    MoreTasks(s', s, x);
    assert x.task in multiset(Tasks(s));
    forall y: Timed ensures multiset(s')[SlotOf(y)] == if y.task == x.task then 0 else multiset(s)[SlotOf(y)] {
      SlotsPerTask(s', SlotOf(y));
      assert SlotOf(y).item == y && SlotOf(x).item == x;
    }
  }

  // --- the log of a run ------------------------------------------------------------------

  /** What happens to tasks: they are scheduled, run as ready, or run as cancelled. */
  datatype Event = Scheduled(task: nat) | Ran(task: nat) | Canceled(task: nat)

  /** What has happened, the latest last. */
  datatype Log = Begin | Then(before: Log, event: Event)

  /** The first thing that happens to a task, other than being scheduled. */
  ghost function FirstFate(log: Log, t: nat): Event
  {
    match log
    case Begin => Scheduled(t)
    case Then(l, e) => if FirstFate(l, t).Scheduled? && e.task == t then e else FirstFate(l, t)
  }

  /** The tasks that ran as ready, in order. */
  ghost function RanIn(log: Log): seq<nat>
  {
    match log
    case Begin => []
    case Then(l, Ran(t)) => RanIn(l) + [t]
    case Then(l, _) => RanIn(l)
  }

  /** How a log changes the scheduled tasks: scheduling adds one, running takes it away. */
  ghost function Balance(log: Log, start: multiset<nat>): multiset<nat>
  {
    match log
    case Begin => start
    case Then(l, Scheduled(t)) => Balance(l, start) + multiset{t}
    case Then(l, e) => Balance(l, start) - multiset{e.task}
  }

  /** The tasks that have been scheduled at some time; only these may be cancelled. */
  ghost function Known(log: Log, before: set<nat>): set<nat>
  {
    match log
    case Begin => before
    case Then(l, Scheduled(t)) => Known(l, before) + {t}
    case Then(l, _) => Known(l, before)
  }

  /** A list without the tasks of a set. */
  ghost function Without(s: seq<nat>, gone: set<nat>): (r: seq<nat>)
    ensures |r| <= |s|
  {
    if s == [] then []
    else if s[0] in gone then Without(s[1..], gone)
    else [s[0]] + Without(s[1..], gone)
  }

  lemma WithoutFirst(x: nat, s: seq<nat>, gone: set<nat>)
    ensures Without([x] + s, gone) == if x in gone then Without(s, gone) else [x] + Without(s, gone)
  {
    assert ([x] + s)[1..] == s;
  }

  lemma {:induction false} WithoutMore(s: seq<nat>, gone: set<nat>, t: nat)
    ensures Without(s, gone + {t}) == Without(Without(s, gone), {t})
  {
    if s != [] {
      WithoutMore(s[1..], gone, t);
      if s[0] !in gone {
        WithoutFirst(s[0], Without(s[1..], gone), {t});
      }
    }
  }

  lemma WithoutStranger(s: seq<nat>, t: nat)
    requires t !in s
    ensures Without(s, {t}) == s
  {
  }

  lemma {:induction false} WithoutConcat(a: seq<nat>, b: seq<nat>, gone: set<nat>)
    ensures Without(a + b, gone) == Without(a, gone) + Without(b, gone)
  {
    if a == [] {
      assert a + b == b;
    } else {
      assert (a + b)[1..] == a[1..] + b;
      WithoutConcat(a[1..], b, gone);
    }
  }

  lemma WithoutOne(s: seq<nat>, i: nat)
    requires i < |s| && multiset(s)[s[i]] == 1
    ensures Without(s, {s[i]}) == Drop(s, i)
  {
    var a, b, t := s[..i], s[i + 1..], s[i];
    assert s == a + ([t] + b);
    assert multiset(s) == multiset(a) + multiset{t} + multiset(b);
    assert t !in a && t !in b by { assert t !in multiset(a) && t !in multiset(b); }
    WithoutStranger(a, t);
    WithoutStranger(b, t);
    WithoutConcat(a, [t] + b, {t});
    WithoutFirst(t, b, {t});
  }

  lemma WithoutNothing(s: seq<nat>)
    ensures Without(s, {}) == s
  {
  }

  /**
   * A run under way: what ran and what is still to run is what was collected without the
   * tasks that were cancelled before their turn.
   */
  ghost predicate Fates(log: Log, collected: seq<nat>, running: seq<nat>, dropped: set<nat>)
  {
    && RanIn(log) + running == Without(collected, dropped)
    && (forall t | t in RanIn(log) :: FirstFate(log, t).Ran?)
    && (forall t | t in running :: FirstFate(log, t).Scheduled?)
    && (forall t | t in dropped :: FirstFate(log, t).Canceled?)
  }

  lemma Undropped(collected: seq<nat>)
    ensures Fates(Begin, collected, collected, {})
  {
    WithoutNothing(collected);
    assert RanIn(Begin) + collected == collected;
  }

  /** The front task runs. */
  lemma FatesRun(log: Log, collected: seq<nat>, running: seq<nat>, dropped: set<nat>)
    requires Fates(log, collected, running, dropped) && running != [] && running[0] !in running[1..]
    ensures Fates(Then(log, Ran(running[0])), collected, running[1..], dropped)
  {
    var e := Ran(running[0]);
    assert RanIn(Then(log, e)) == RanIn(log) + [running[0]];
    assert RanIn(log) + [running[0]] + running[1..] == RanIn(log) + running;
  }

  /** Something happens to a task that is not about to run. */
  lemma FatesOther(log: Log, e: Event, collected: seq<nat>, running: seq<nat>, dropped: set<nat>)
    requires Fates(log, collected, running, dropped) && !e.Ran? && (e.Canceled? ==> e.task !in running)
    ensures Fates(Then(log, e), collected, running, dropped)
  {
  }

  lemma DropOne(ran: seq<nat>, collected: seq<nat>, running: seq<nat>, dropped: set<nat>, i: nat)
    requires ran + running == Without(collected, dropped)
    requires i < |running| && multiset(running)[running[i]] == 1 && running[i] !in ran
    ensures ran + Drop(running, i) == Without(collected, dropped + {running[i]})
  {
    var t := running[i];
    WithoutMore(collected, dropped, t);
    WithoutConcat(ran, running, {t});
    WithoutStranger(ran, t);
    WithoutOne(running, i);
  }

  /** A task that was about to run is cancelled. */
  lemma FatesDrop(log: Log, i: nat, collected: seq<nat>, running: seq<nat>, dropped: set<nat>)
    requires Fates(log, collected, running, dropped) && i < |running| && multiset(running)[running[i]] == 1
    ensures Fates(Then(log, Canceled(running[i])), collected, Drop(running, i), dropped + {running[i]})
  {
    var t := running[i];
    assert t !in RanIn(log);
    DropOne(RanIn(log), collected, running, dropped, i);
    assert RanIn(Then(log, Canceled(t))) == RanIn(log);
    OthersLeft(running, i);
  }

  lemma OthersLeft(s: seq<nat>, i: nat)
    requires i < |s| && multiset(s)[s[i]] == 1
    ensures forall u | u in Drop(s, i) :: u in s && u != s[i]
  {
    forall u | u in Drop(s, i) ensures u in s && u != s[i] {
      assert u in multiset(Drop(s, i));
    }
  }

  lemma {:induction false} WithoutKeeps(s: seq<nat>, gone: set<nat>, t: nat)
    ensures multiset(Without(s, gone))[t] == if t in gone then 0 else multiset(s)[t]
    ensures t in Without(s, gone) <==> t in s && t !in gone
  {
    if s != [] {
      WithoutKeeps(s[1..], gone, t);
      assert s == [s[0]] + s[1..];
    }
  }

  // --- the replay of a run ---------------------------------------------------------------

  /** What a task's function may ask of the scheduler. */
  datatype Action =
    | Now(task: nat)
    | Future(task: nat, time: Time, canGrow: bool, canTrack: bool)
    | Cancel(task: nat)

  /**
   * What has happened so far, the tasks that are still to run, those for as soon as possible in
   * their order, and the times of the others.
   */
  datatype RunState = RunState(log: Log, running: seq<nat>, asap: seq<nat>, times: map<nat, Time>) {
    ghost predicate Holds(t: nat)
    {
      t in running || t in asap || t in times
    }
  }

  /** Who was scheduled, and who had ever been, when the run began. */
  datatype Past = Past(scheduled: multiset<nat>, known: set<nat>)

  /**
   * What one request does. Only a task that is not scheduled can be scheduled. A task that is
   * cancelled is called at once, and leaves the place where it was; the others stay in order.
   */
  ghost function Act(st: RunState, a: Action, known: set<nat>): (r: RunState)
    ensures |r.running| <= |st.running|
  {
    match a
    case Cancel(t) =>
      if t !in Known(st.log, known) then st
      else RunState(Then(st.log, Canceled(t)), Without(st.running, {t}), Without(st.asap, {t}), st.times - {t})
    case Now(t) =>
      if st.Holds(t) then st else st.(log := Then(st.log, Scheduled(t)), asap := st.asap + [t])
    case Future(t, time, _, _) =>
      if st.Holds(t) then st else st.(log := Then(st.log, Scheduled(t)), times := st.times[t := time])
  }

  ghost function ActAll(st: RunState, actions: seq<Action>, known: set<nat>): (r: RunState)
    ensures |r.running| <= |st.running|
  {
    if actions == [] then st
    else Act(ActAll(st, actions[..|actions| - 1], known), actions[|actions| - 1], known)
  }

  ghost function FirstOf(script: seq<seq<Action>>): seq<Action>
  {
    if script == [] then [] else script[0]
  }

  ghost function RestOf(script: seq<seq<Action>>): seq<seq<Action>>
  {
    if script == [] then [] else script[1..]
  }

  /** The front task has run. */
  ghost function Called(st: RunState): RunState
    requires st.running != []
  {
    st.(log := Then(st.log, Ran(st.running[0])), running := st.running[1..])
  }

  /** The whole run: each task in turn, and what its function asks for. */
  ghost function Replay(st: RunState, script: seq<seq<Action>>, known: set<nat>): (r: RunState)
    ensures r.running == []
    decreases |st.running|
  {
    if st.running == [] then st
    else
      var ran := Called(st);
      Replay(ActAll(ran, FirstOf(script), known), RestOf(script), known)
  }

  ghost predicate Asked(script: seq<seq<Action>>, a: Action)
  {
    exists i: nat :: i < |script| && a in script[i]
  }

  /** A run in which the tasks so far have the right fates, and only those asked for were cancelled. */
  ghost predicate Going(st: RunState, collected: seq<nat>, dropped: set<nat>, script: seq<seq<Action>>)
  {
    && Fates(st.log, collected, st.running, dropped) && Single(multiset(st.running))
    && forall t | t in dropped :: Asked(script, Cancel(t))
  }

  lemma ActGoes(st: RunState, a: Action, known: set<nat>, collected: seq<nat>, dropped: set<nat>, script: seq<seq<Action>>)
    returns (dropped': set<nat>)
    requires Going(st, collected, dropped, script) && Asked(script, a)
    ensures Going(Act(st, a, known), collected, dropped', script)
  {
    dropped' := dropped;
    if a.Cancel? && a.task in st.running {
      if a.task in Known(st.log, known) {
        CancelDrops(st, a.task, collected, dropped);
        dropped' := dropped + {a.task};
      }
    } else if a.Cancel? {
      WithoutStranger(st.running, a.task);
      FatesOther(st.log, Canceled(a.task), collected, st.running, dropped);
    } else {
      FatesOther(st.log, Scheduled(a.task), collected, st.running, dropped);
    }
  }

  lemma CancelDrops(st: RunState, t: nat, collected: seq<nat>, dropped: set<nat>)
    requires Fates(st.log, collected, st.running, dropped) && Single(multiset(st.running)) && t in st.running
    ensures Fates(Then(st.log, Canceled(t)), collected, Without(st.running, {t}), dropped + {t})
    ensures Single(multiset(Without(st.running, {t})))
  {
    var i: nat :| i < |st.running| && st.running[i] == t;
    WithoutOne(st.running, i);
    FatesDrop(st.log, i, collected, st.running, dropped);
    SinglePart(multiset(Drop(st.running, i)), multiset(st.running));
  }

  lemma {:induction false} ActAllGoes(st: RunState, actions: seq<Action>, known: set<nat>, collected: seq<nat>, dropped: set<nat>, script: seq<seq<Action>>)
    returns (dropped': set<nat>)
    requires Going(st, collected, dropped, script) && forall a | a in actions :: Asked(script, a)
    ensures Going(ActAll(st, actions, known), collected, dropped', script)
  {
    if actions == [] {
      dropped' := dropped;
    } else {
      var n := |actions| - 1;
      dropped' := ActAllGoes(st, actions[..n], known, collected, dropped, script);
      dropped' := ActGoes(ActAll(st, actions[..n], known), actions[n], known, collected, dropped', script);
    }
  }

  lemma {:induction false} ReplayGoes(st: RunState, rest: seq<seq<Action>>, known: set<nat>, collected: seq<nat>, dropped: set<nat>, script: seq<seq<Action>>)
    returns (dropped': set<nat>)
    requires Going(st, collected, dropped, script) && forall i: nat | i < |rest| :: rest[i] in script
    ensures Going(Replay(st, rest, known), collected, dropped', script)
    decreases |st.running|
  {
    if st.running == [] {
      dropped' := dropped;
    } else {
      var ran := Called(st);
      FrontOnce(st.running);
      FatesRun(st.log, collected, st.running, dropped);
      assert st.running == [st.running[0]] + st.running[1..];
      SinglePart(multiset(ran.running), multiset(st.running));
      forall a | a in FirstOf(rest) ensures Asked(script, a) {
        var i: nat :| i < |script| && script[i] == rest[0];
      }
      dropped' := ActAllGoes(ran, FirstOf(rest), known, collected, dropped, script);
      dropped' := ReplayGoes(ActAll(ran, FirstOf(rest), known), RestOf(rest), known, collected, dropped', script);
    }
  }

  /** The end of a run that has collected these tasks and left others waiting for their times. */
  ghost function RunEnd(collected: seq<nat>, times: map<nat, Time>, script: seq<seq<Action>>, known: set<nat>): RunState
  {
    Replay(RunState(Begin, collected, [], times), script, known)
  }

  /**
   * What a run does: of the collected tasks exactly those run, each once and in order, that were
   * not cancelled before their turn; nothing else runs, and nothing is cancelled unasked.
   */
  lemma RanUnlessCanceled(collected: seq<nat>, times: map<nat, Time>, script: seq<seq<Action>>, known: set<nat>) returns (dropped: set<nat>)
    requires Single(multiset(collected))
    ensures var log := RunEnd(collected, times, script, known).log;
      && RanIn(log) == Without(collected, dropped)
      && (forall t | t in collected :: FirstFate(log, t).Ran? <==> t !in dropped)
      && (forall t | t in collected :: FirstFate(log, t).Canceled? <==> t in dropped)
      && (forall t | t in dropped :: Asked(script, Cancel(t)))
  {
    Undropped(collected);
    dropped := ReplayGoes(RunState(Begin, collected, [], times), script, known, collected, {}, script);
    var log := RunEnd(collected, times, script, known).log;
    assert RanIn(log) + [] == RanIn(log);
    forall t | t in collected ensures t in dropped || t in RanIn(log) {
      WithoutKeeps(collected, dropped, t);
    }
  }

  /** When nobody asks for a collected task to be cancelled, all of them run, in order. */
  lemma AllRun(collected: seq<nat>, times: map<nat, Time>, script: seq<seq<Action>>, known: set<nat>)
    requires Single(multiset(collected)) && forall t | t in collected :: !Asked(script, Cancel(t))
    ensures RanIn(RunEnd(collected, times, script, known).log) == collected
  {
    var dropped := RanUnlessCanceled(collected, times, script, known);
    WithoutNone(collected, dropped);
  }

  lemma {:induction false} WithoutNone(s: seq<nat>, gone: set<nat>)
    requires forall t | t in s :: t !in gone
    ensures Without(s, gone) == s
  {
    if s != [] {
      WithoutNone(s[1..], gone);
    }
  }

  ghost predicate Happened(log: Log, e: Event)
  {
    log.Then? && (log.event == e || Happened(log.before, e))
  }

  lemma {:induction false} ActHappens(st: RunState, actions: seq<Action>, known: set<nat>, e: Event)
    requires !e.Ran? && Happened(ActAll(st, actions, known).log, e) && !Happened(st.log, e)
    ensures exists a :: a in actions && a.task == e.task && (a.Cancel? <==> e.Canceled?)
  {
    if actions != [] {
      var n := |actions| - 1;
      if Happened(ActAll(st, actions[..n], known).log, e) {
        ActHappens(st, actions[..n], known, e);
        var a :| a in actions[..n] && a.task == e.task && (a.Cancel? <==> e.Canceled?);
        assert a in actions;
      } else {
        assert actions[n] in actions;
      }
    }
  }

  /** Whatever is scheduled or cancelled in a run was asked for. */
  lemma {:induction false} NothingUnasked(st: RunState, script: seq<seq<Action>>, known: set<nat>, e: Event)
    requires !e.Ran? && Happened(Replay(st, script, known).log, e) && !Happened(st.log, e)
    ensures exists a :: Asked(script, a) && a.task == e.task && (a.Cancel? <==> e.Canceled?)
    decreases |st.running|
  {
    if st.running != [] {
      var ran := Called(st);
      var next := ActAll(ran, FirstOf(script), known);
      if Happened(next.log, e) {
        ActHappens(ran, FirstOf(script), known, e);
        var a :| a in FirstOf(script) && a.task == e.task && (a.Cancel? <==> e.Canceled?);
        assert Asked(script, a);
      } else {
        NothingUnasked(next, RestOf(script), known, e);
        var a :| Asked(RestOf(script), a) && a.task == e.task && (a.Cancel? <==> e.Canceled?);
        var i: nat :| i < |RestOf(script)| && a in RestOf(script)[i];
        assert a in script[i + 1];
        assert Asked(script, a);
      }
    }
  }

  /** The last thing that happened to a task. */
  ghost function LatestOf(log: Log, t: nat): Option<Event>
  {
    match log
    case Begin => None
    case Then(l, e) => if e.task == t then Some(e) else LatestOf(l, t)
  }

  /** A task waits if the last thing that happened to it is that it was scheduled, or if it has waited undisturbed from the start. */
  ghost predicate Standing(st: RunState, times: map<nat, Time>, t: nat)
  {
    && (t in st.running ==> t !in st.asap && t !in st.times)
    && match LatestOf(st.log, t)
       case None => t !in st.asap && (t in st.times <==> t in times) && (t in times ==> st.times[t] == times[t])
       case Some(e) => t in st.asap || t in st.times <==> e.Scheduled?
  }

  lemma {:induction false} ActStands(st: RunState, actions: seq<Action>, known: set<nat>, times: map<nat, Time>, t: nat)
    requires Standing(st, times, t)
    ensures Standing(ActAll(st, actions, known), times, t)
  {
    if actions != [] {
      var n := |actions| - 1;
      ActStands(st, actions[..n], known, times, t);
      var now, a := ActAll(st, actions[..n], known), actions[n];
      WithoutKeeps(now.running, {a.task}, t);
      WithoutKeeps(now.asap, {a.task}, t);
    }
  }

  lemma {:induction false} ReplayStands(st: RunState, script: seq<seq<Action>>, known: set<nat>, times: map<nat, Time>, t: nat)
    requires Standing(st, times, t)
    ensures Standing(Replay(st, script, known), times, t)
    decreases |st.running|
  {
    if st.running != [] {
      var ran := Called(st);
      assert Standing(ran, times, t) by {
        assert st.running == [st.running[0]] + ran.running;
      }
      ActStands(ran, FirstOf(script), known, times, t);
      ReplayStands(ActAll(ran, FirstOf(script), known), RestOf(script), known, times, t);
    }
  }

  /**
   * What a run leaves for later runs: the tasks whose last event is that they were scheduled, and
   * those that were not due and that nothing happened to, with their times.
   */
  lemma LeftWaiting(collected: seq<nat>, times: map<nat, Time>, script: seq<seq<Action>>, known: set<nat>, t: nat)
    requires t in collected ==> t !in times
    ensures var end := RunEnd(collected, times, script, known);
      match LatestOf(end.log, t)
      case None => t !in end.asap && (t in end.times <==> t in times) && (t in times ==> end.times[t] == times[t])
      case Some(e) => t in end.asap || t in end.times <==> e.Scheduled?
  {
    var begin := RunState(Begin, collected, [], times);
    assert Standing(begin, times, t);
    ReplayStands(begin, script, known, times, t);
  }
}
