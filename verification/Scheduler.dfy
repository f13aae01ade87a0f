/** Threads on the run ring and the wait ring (src/schedul.c:138-254; asm/switch_task.asm:20-50). A thread structure
    starts with its run list item, so the current thread is named by that item. */
module Scheduler {
  import opened Machine
  import opened LinkedRing
  import opened RoundRobin

  class Thread {
    const id: nat
    const listItem: Item
    const waitListItem: Item
    var suspend: bool

    constructor (id: nat, suspend: bool)
      ensures fresh(listItem) && fresh(waitListItem) && HasItems(this)
      ensures listItem.list == null && waitListItem.list == null && this.suspend == suspend && this.id == id
    {
      this.id := id;
      listItem := new Item(RunLink, id);
      waitListItem := new Item(WaitLink, id);
      this.suspend := suspend;
    }
  }

  ghost predicate HasItems(t: Thread) {
    && t.listItem.role == RunLink && t.listItem.owner == t.id
    && t.waitListItem.role == WaitLink && t.waitListItem.owner == t.id
  }

  ghost function RunItems(ts: seq<Thread>): (r: seq<Item>)
    ensures |r| == |ts| && forall i :: 0 <= i < |ts| ==> r[i] == ts[i].listItem
  {
    seq(|ts|, i requires 0 <= i < |ts| => ts[i].listItem)
  }

  ghost function WaitItems(ts: seq<Thread>): (r: seq<Item>)
    ensures |r| == |ts| && forall i :: 0 <= i < |ts| ==> r[i] == ts[i].waitListItem
  {
    seq(|ts|, i requires 0 <= i < |ts| => ts[i].waitListItem)
  }

  function Ids(ts: seq<Thread>): (r: seq<nat>)
    ensures |r| == |ts| && forall i :: 0 <= i < |ts| ==> r[i] == ts[i].id
  {
    seq(|ts|, i requires 0 <= i < |ts| => ts[i].id)
  }

  /** The threads and their items. */
  ghost function Things(ts: seq<Thread>): set<object> {
    (set t | t in ts) + (set x | x in RunItems(ts)) + (set x | x in WaitItems(ts))
  }

  /** Every thread has its own id, below `next`, and its own two items. */
  ghost predicate KnownIs(ts: seq<Thread>, next: nat) {
    && (forall t :: t in ts ==> HasItems(t) && t.id < next)
    && (forall i: nat, j: nat :: Differ(Ids(ts), i, j))
  }

  ghost predicate Known(ts: seq<Thread>, next: nat) {
    (if KnownIs(ts, next) then Clean else Corrupt).Clean?
  }

  /** The calls of the scheduler; thread_suspend names a thread by its place among all threads made so far. */
  datatype Call = SwitchNow | CreateThread(suspend: bool) | Suspend(index: nat, suspend: bool)

  function Creates(call: Call): nat {
    if call.CreateThread? then 1 else 0
  }

  /** What a call adds to the run of events so far, when `known` are the threads made until after it. */
  ghost function Told(c: Cpu<Thread>, call: Call, known: seq<Thread>, before: Run<Thread>): Run<Thread>
    requires |known| > 0 && (call.Suspend? ==> call.index < |known|)
  {
    match call
    case SwitchNow => Then(before, Tick)
    case CreateThread(suspend) => if suspend then before else Then(before, Create(known[|known| - 1]))
    case Suspend(index, suspend) => Then(before, Asked(Ring(After(c, before)), known[index], suspend))
  }

  /** A run of calls. */
  datatype Calls = NoCalls | AndThen(before: Calls, call: Call)

  function Created(calls: Calls): nat {
    match calls
    case NoCalls => 0
    case AndThen(before, call) => Created(before) + Creates(call)
  }

  /** Every call names one of the threads there are by then, which are `n` at the start. */
  predicate Legal(calls: Calls, n: nat) {
    calls.AndThen? ==> Legal(calls.before, n) && (calls.call.Suspend? ==> calls.call.index < n + Created(calls.before))
  }

  /** The events of a run of calls, from the threads made until its end; `n` of them were there at the start. */
  ghost function Story(c: Cpu<Thread>, calls: Calls, known: seq<Thread>, n: nat): Run<Thread>
    requires 0 < n && n + Created(calls) <= |known| && Legal(calls, n)
  {
    match calls
    case NoCalls => Nothing
    case AndThen(before, call) => Told(c, call, known[..n + Created(calls)], Story(c, before, known, n))
  }

  lemma {:induction false} StoryGrows(c: Cpu<Thread>, calls: Calls, known: seq<Thread>, more: seq<Thread>, n: nat)
    requires 0 < n && n + Created(calls) <= |known| && Legal(calls, n) && known <= more
    ensures Story(c, calls, more, n) == Story(c, calls, known, n)
  {
    if calls.AndThen? {
      StoryGrows(c, calls.before, known, more, n);
      assert more[..n + Created(calls)] == known[..n + Created(calls)];
    }
  }

  lemma ToldAfter(c: Cpu<Thread>, call: Call, known: seq<Thread>, before: Run<Thread>)
    requires |known| > 0 && (call.Suspend? ==> call.index < |known|)
    ensures After(c, Told(c, call, known, before))
            == After(After(c, before), Told(After(c, before), call, known, Nothing))
  {
    assert After(After(c, before), Nothing) == After(c, before);
  }

  lemma StoryStep(c: Cpu<Thread>, before: Calls, call: Call, made: seq<Thread>, known: seq<Thread>, n: nat)
    requires 0 < n && n + Created(before) == |made| && made <= known && |known| == |made| + Creates(call)
    requires Legal(AndThen(before, call), n)
    ensures var now := After(c, Story(c, before, made, n));
      After(c, Story(c, AndThen(before, call), known, n)) == After(now, Told(now, call, known, Nothing))
  {
    var story := Story(c, before, made, n);
    assert Story(c, AndThen(before, call), known, n) == Told(c, call, known, story) by {
      StoryGrows(c, before, made, known, n);
      assert known[..|known|] == known;
    }
    ToldAfter(c, call, known, story);
  }

  class Scheduler {
    const threadList: List
    const threadWait: List
    var currThread: Item
    var nextThreadId: nat
    ghost var run: seq<Thread>
    ghost var wait: seq<Thread>
    ghost var cpu: Cpu<Thread>

    constructor (kern: Thread)
      requires kern.listItem.list == null && kern.waitListItem.list == null && !kern.suspend && HasItems(kern)
               && kern.id == 0
      modifies kern.listItem
      ensures Partition() && OnCpu() && run == [kern] && wait == [] && cpu == OnRing(Sched([kern], 0))
      ensures fresh(threadList) && fresh(threadWait)
    {
      threadList := new List();
      threadWait := new List();
      currThread := kern.listItem;
      nextThreadId := 1;
      run, wait, cpu := [kern], [], OnRing(Sched([kern], 0));
      new;
      threadList.Add(kern.listItem, []);
      assert [] + [kern.listItem] == RunItems(run) && WaitItems(wait) == [];
      assert KnownIs(run + wait, nextThreadId);
      assert PartitionIs();
    }

    /** In the run ring: ready, and marked so in all three places. */
    ghost predicate Ready(t: Thread)
      reads t, t.listItem, t.waitListItem
    {
      !t.suspend && t.listItem.list == threadList && t.waitListItem.list == null
    }

    ghost predicate Asleep(t: Thread)
      reads t, t.listItem, t.waitListItem
    {
      t.suspend && t.listItem.list == null && t.waitListItem.list == threadWait
    }

    ghost function Objects(): set<object>
      reads this
    {
      Things(run) + Things(wait)
    }

    /** The two rings partition the threads. */
    ghost predicate PartitionIs()
      reads this, threadList, threadWait, Objects()
    {
      && threadList != threadWait && !threadList.mtx && !threadWait.mtx
      && threadList.Holds(RunItems(run)) && threadWait.Holds(WaitItems(wait))
      && (forall t :: t in run ==> Ready(t)) && (forall t :: t in wait ==> Asleep(t))
      && Known(run + wait, nextThreadId)
    }

    ghost predicate Partition()
      reads this, threadList, threadWait, Objects()
    {
      (if PartitionIs() then Clean else Corrupt).Clean?
    }

    /** `cpu` tells where the processor is: with a thread of the run ring, or with a sleeping one whose next is
        itself. */
    ghost predicate OnCpu()
      reads this, currThread
    {
      match cpu
      case OnRing(s) => s.run == run && s.at < |run| && currThread == run[s.at].listItem
      case OffRing(ready, t) => ready == run && t in wait && currThread == t.listItem && currThread.next == currThread
    }

    /** switch_task */
    method SwitchTask()
      requires Partition() && OnCpu()
      modifies this`currThread, this`cpu
      ensures Partition() && OnCpu() && cpu == Happen(old(cpu), Tick) && currThread == old(currThread.next)
    {
      assert PartitionIs();
      if cpu.OnRing? {
        assert Linked(RunItems(run), cpu.s.at);
      }
      currThread := currThread.next;
      cpu := Happen(cpu, Tick);
      assert PartitionIs();
    }

    ghost predicate Strangers(t: Thread, others: seq<Thread>) {
      forall a :: a in others ==> a != t && HasItems(a) && a.waitListItem != t.waitListItem && a.listItem != t.listItem
    }

    ghost predicate BetweenIs(t: Thread, ready: seq<Thread>, asleep: seq<Thread>)
      reads threadList, threadWait, t, t.listItem, t.waitListItem, set a | a in ready, set a | a in asleep
      reads set x | x in RunItems(ready), set x | x in WaitItems(ready), set x | x in RunItems(asleep),
        set x | x in WaitItems(asleep)
    {
      && threadList != threadWait && !threadList.mtx && !threadWait.mtx
      && threadList.Holds(RunItems(ready)) && threadWait.Holds(WaitItems(asleep))
      && (forall a :: a in ready ==> Ready(a)) && (forall a :: a in asleep ==> Asleep(a))
      && HasItems(t) && Strangers(t, ready) && Strangers(t, asleep)
      && t.listItem.list == null && t.waitListItem.list == null
    }

    /** The rings hold `ready` and `asleep`; thread `t` is in neither. */
    ghost predicate Between(t: Thread, ready: seq<Thread>, asleep: seq<Thread>)
      reads threadList, threadWait, t, t.listItem, t.waitListItem, set a | a in ready, set a | a in asleep
      reads set x | x in RunItems(ready), set x | x in WaitItems(ready), set x | x in RunItems(asleep),
        set x | x in WaitItems(asleep)
    {
      (if BetweenIs(t, ready, asleep) then Clean else Corrupt).Clean?
    }

    /** list_remove from the run ring, and the marks of a sleeping thread; the others notice nothing. */
    method UnlinkRun(t: Thread, ghost k: nat, ghost rest: seq<Thread>)
      requires threadList != threadWait && threadList.Holds(RunItems(run)) && !threadList.mtx
               && threadWait.Holds(WaitItems(wait))
      requires k < |run| && t == run[k] && RunItems(rest) == Without(RunItems(run), k)
      requires Strangers(t, rest) && Strangers(t, wait) && HasItems(t) && Ready(t)
      requires forall a :: a in rest ==> Ready(a) && a.listItem in RunItems(rest)
      requires forall a :: a in wait ==> Asleep(a)
      requires forall x :: x in RunItems(run) ==> x.role == RunLink
      requires forall x :: x in WaitItems(wait) ==> x.role == WaitLink
      modifies threadList, t, set x | x in RunItems(run)
      ensures Between(t, rest, wait) || threadWait.mtx
      ensures t.suspend && t.listItem.next == old(t.listItem.next) && threadWait.mtx == old(threadWait.mtx)
    {
      threadList.Remove(t.listItem, RunItems(run), k);
      t.listItem.list := null;
      t.suspend := true;
      NotInRest(RunItems(run), k);
      forall a | a in rest ensures Ready(a) {
        assert a.listItem in RunItems(rest);
      }
      assert threadWait.mtx || BetweenIs(t, rest, wait);
    }

    /** A ready thread leaves the run ring. */
    method LeaveRun(t: Thread, ghost k: nat, ghost rest: seq<Thread>)
      requires Partition() && k < |run| && t == run[k] && rest == Without(run, k)
      modifies threadList, t, set x | x in RunItems(run)
      ensures Between(t, rest, wait) && t.suspend && Known(rest + (wait + [t]), nextThreadId)
      ensures t.listItem.next == old(t.listItem.next)
    {
      assert PartitionIs();
      Moved(run, wait, k, nextThreadId);
      MovedAlone(run, wait, k, nextThreadId);
      MovedRoles(run, wait, k, nextThreadId);
      UnlinkRun(t, k, rest);
    }

    /** list_add to the wait ring; the others notice nothing. */
    method LinkWait(t: Thread, ghost ready: seq<Thread>, ghost asleep: seq<Thread>)
      requires BetweenIs(t, ready, asleep) && t.suspend
      requires forall x :: x in RunItems(ready) ==> x.role == RunLink
      requires forall x :: x in WaitItems(asleep) ==> x.role == WaitLink
      requires forall a :: a in asleep ==> a.waitListItem in WaitItems(asleep)
      modifies threadWait, t.waitListItem, set x | x in WaitItems(asleep)
      ensures !threadList.mtx && !threadWait.mtx && threadList.Holds(RunItems(ready))
              && threadWait.Holds(WaitItems(asleep + [t]))
      ensures (forall a :: a in ready ==> Ready(a)) && (forall a :: a in asleep + [t] ==> Asleep(a))
    {
      assert WaitItems(asleep + [t]) == WaitItems(asleep) + [t.waitListItem];
      threadWait.Add(t.waitListItem, WaitItems(asleep));
      forall a | a in asleep ensures Asleep(a) {
        assert a.waitListItem in WaitItems(asleep) + [t.waitListItem];
      }
    }

    /** The ghost view follows the rings. */
    ghost method Regroup(ready: seq<Thread>, asleep: seq<Thread>)
      requires threadList != threadWait && !threadList.mtx && !threadWait.mtx
      requires threadList.Holds(RunItems(ready)) && threadWait.Holds(WaitItems(asleep))
      requires (forall a :: a in ready ==> Ready(a)) && (forall a :: a in asleep ==> Asleep(a))
               && Known(ready + asleep, nextThreadId)
      modifies this`run, this`wait
      ensures Partition() && run == ready && wait == asleep
    {
      run := ready;
      wait := asleep;
      assert PartitionIs();
    }

    /** A thread that has left the run ring joins the wait ring. */
    method JoinWait(t: Thread, ghost rest: seq<Thread>)
      requires Between(t, rest, wait) && t.suspend && Known(rest + (wait + [t]), nextThreadId)
      modifies this`run, this`wait, threadWait, t.waitListItem, set x | x in WaitItems(wait)
      ensures Partition() && run == rest && wait == old(wait) + [t]
    {
      ghost var asleep := wait;
      assert BetweenIs(t, rest, asleep);
      Roles(rest);
      Roles(asleep);
      LinkWait(t, rest, asleep);
      Regroup(rest, asleep + [t]);
    }

    /** thread_suspend(thread, true) between stop() and start(): a ready thread changes rings. */
    method MoveToWait(t: Thread, ghost k: nat)
      requires Partition() && k < |run| && t == run[k]
      modifies this`run, this`wait, threadList, threadWait, t, t.waitListItem
      modifies set x | x in RunItems(run), set x | x in WaitItems(wait)
      ensures Partition() && run == Without(old(run), k) && wait == old(wait) + [t]
      ensures t.listItem.next == old(t.listItem.next)
    {
      ghost var rest := Without(run, k);
      assert t.listItem == RunItems(run)[k];
      LeaveRun(t, k, rest);
      JoinWait(t, rest);
    }

    /** list_remove from the wait ring, and the marks of a ready thread; the others notice nothing. */
    method UnlinkWait(t: Thread, ghost k: nat, ghost rest: seq<Thread>)
      requires threadList != threadWait && threadWait.Holds(WaitItems(wait)) && !threadWait.mtx
               && threadList.Holds(RunItems(run))
      requires k < |wait| && t == wait[k] && WaitItems(rest) == Without(WaitItems(wait), k)
      requires Strangers(t, rest) && Strangers(t, run) && HasItems(t) && Asleep(t)
      requires forall a :: a in rest ==> Asleep(a) && a.waitListItem in WaitItems(rest)
      requires forall a :: a in run ==> Ready(a)
      requires forall x :: x in WaitItems(wait) ==> x.role == WaitLink
      requires forall x :: x in RunItems(run) ==> x.role == RunLink
      modifies threadWait, t, set x | x in WaitItems(wait)
      ensures Between(t, run, rest) || threadList.mtx
      ensures !t.suspend && threadList.mtx == old(threadList.mtx)
    {
      threadWait.Remove(t.waitListItem, WaitItems(wait), k);
      t.waitListItem.list := null;
      t.suspend := false;
      NotInRest(WaitItems(wait), k);
      forall a | a in rest ensures Asleep(a) {
        assert a.waitListItem in WaitItems(rest);
      }
      assert threadList.mtx || BetweenIs(t, run, rest);
    }

    /** A sleeping thread leaves the wait ring. */
    method LeaveWait(t: Thread, ghost k: nat, ghost rest: seq<Thread>)
      requires Partition() && k < |wait| && t == wait[k] && rest == Without(wait, k)
      modifies threadWait, t, set x | x in WaitItems(wait)
      ensures Between(t, run, rest) && !t.suspend && Known((run + [t]) + rest, nextThreadId)
    {
      assert PartitionIs();
      KnownSwap(run, wait, nextThreadId);
      Moved(wait, run, k, nextThreadId);
      KnownSwap(rest, run + [t], nextThreadId);
      MovedAlone(wait, run, k, nextThreadId);
      MovedRoles(wait, run, k, nextThreadId);
      UnlinkWait(t, k, rest);
    }

    /** list_add to the run ring; the others notice nothing. */
    method LinkRun(t: Thread, ghost ready: seq<Thread>, ghost asleep: seq<Thread>)
      requires BetweenIs(t, ready, asleep) && !t.suspend
      requires forall x :: x in RunItems(ready) ==> x.role == RunLink
      requires forall x :: x in WaitItems(asleep) ==> x.role == WaitLink
      requires forall a :: a in ready ==> a.listItem in RunItems(ready)
      modifies threadList, t.listItem, set x | x in RunItems(ready)
      ensures !threadList.mtx && !threadWait.mtx && threadList.Holds(RunItems(ready + [t]))
              && threadWait.Holds(WaitItems(asleep))
      ensures (forall a :: a in ready + [t] ==> Ready(a)) && (forall a :: a in asleep ==> Asleep(a))
    {
      assert RunItems(ready + [t]) == RunItems(ready) + [t.listItem];
      threadList.Add(t.listItem, RunItems(ready));
      forall a | a in ready ensures Ready(a) {
        assert a.listItem in RunItems(ready) + [t.listItem];
      }
    }

    /** A thread that is in no ring becomes the last one of the run ring. */
    method JoinRun(t: Thread, ghost asleep: seq<Thread>)
      requires Between(t, run, asleep) && !t.suspend && Known((run + [t]) + asleep, nextThreadId)
      modifies this`run, this`wait, threadList, t.listItem, set x | x in RunItems(run)
      ensures Partition() && run == old(run) + [t] && wait == asleep
    {
      ghost var ready := run;
      assert BetweenIs(t, ready, asleep);
      Roles(ready);
      Roles(asleep);
      LinkRun(t, ready, asleep);
      Regroup(ready + [t], asleep);
    }

    /** thread_suspend(thread, false) between stop() and start(): a sleeping thread changes rings. */
    method MoveToRun(t: Thread, ghost k: nat)
      requires Partition() && k < |wait| && t == wait[k]
      modifies this`run, this`wait, threadList, threadWait, t, t.listItem
      modifies set x | x in RunItems(run), set x | x in WaitItems(wait)
      ensures Partition() && run == old(run) + [t] && wait == Without(old(wait), k)
    {
      ghost var rest := Without(wait, k);
      assert t.waitListItem == WaitItems(wait)[k];
      LeaveWait(t, k, rest);
      JoinRun(t, rest);
    }

    /** A new thread is in no ring. */
    method NewThread() returns (t: Thread)
      requires Partition()
      modifies this`nextThreadId
      ensures fresh(t) && fresh(t.listItem) && fresh(t.waitListItem)
      ensures t.id == old(nextThreadId) && nextThreadId == t.id + 1
      ensures Between(t, run, wait) && !t.suspend && Known((run + [t]) + wait, nextThreadId)
    {
      assert PartitionIs();
      t := new Thread(nextThreadId, false);
      KnownNew(run, wait, t, nextThreadId);
      nextThreadId := nextThreadId + 1;
      forall a | a in run || a in wait ensures HasItems(a) {
        assert a in run + wait;
      }
      assert BetweenIs(t, run, wait);
    }

    /** thread_create up to the test of `suspend`. */
    method CreateReady() returns (t: Thread)
      requires Partition()
      modifies this`run, this`wait, this`nextThreadId, threadList, set x | x in RunItems(run)
      ensures Partition() && run == old(run) + [t] && wait == old(wait)
      ensures fresh(t) && fresh(t.listItem) && fresh(t.waitListItem)
      ensures t.id == old(nextThreadId) && nextThreadId == t.id + 1
    {
      t := NewThread();
      JoinRun(t, wait);
    }

    /** thread_create: the new thread becomes the last one of the run ring or, if it is created suspended, of the wait
        ring. */
    method ThreadCreate(suspend: bool) returns (t: Thread)
      requires Partition() && OnCpu()
      modifies this`run, this`wait, this`cpu, this`nextThreadId, threadList, threadWait
      modifies set x | x in RunItems(run), set x | x in WaitItems(wait)
      ensures Partition() && OnCpu() && fresh(t) && fresh(t.listItem) && fresh(t.waitListItem)
      ensures !suspend ==> cpu == Happen(old(cpu), Create(t)) && run == old(run) + [t] && wait == old(wait)
      ensures suspend ==> cpu == old(cpu) && run == old(run) && wait == old(wait) + [t]
      ensures t.id == old(nextThreadId) && nextThreadId == t.id + 1
    {
      ghost var before := run;
      Aside();
      t := CreateReady();
      if suspend {
        LastOut(before, t);
        MoveToWait(t, |before|);
      } else {
        cpu := Happen(cpu, Create(t));
        assert PartitionIs();
      }
    }

    /** thread_suspend: a ready thread goes to sleep or a sleeping one wakes up, and the processor goes to the next
        thread. When the last ready thread is put to sleep there is nobody left: it keeps the processor. */
    method ThreadSuspend(t: Thread, suspend: bool)
      requires Partition() && OnCpu() && (t in run || t in wait)
      modifies this, threadList, threadWait, t, t.listItem, t.waitListItem
      modifies set x | x in RunItems(run), set x | x in WaitItems(wait)
      ensures Partition() && OnCpu() && cpu == Happen(old(cpu), Asked(old(run), t, suspend))
      ensures suspend && t in old(run) ==> run == Without(old(run), Place(old(run), t)) && wait == old(wait) + [t]
      ensures !suspend && t !in old(run) ==> run == old(run) + [t] && wait == Without(old(wait), Place(old(wait), t))
      ensures suspend != (t in old(run)) ==> run == old(run) && wait == old(wait)
      ensures currThread == old(currThread).next
    {
      InOneRing(t);
      if suspend {
        if t.listItem.list != null {
          PutToSleep(t, Place(run, t));
          return;
        }
      } else {
        if t.waitListItem.list != null {
          WakeUp(t, Place(wait, t));
        }
      }
      SwitchTask();
    }

    /** The list fields say in which ring a thread is. */
    lemma InOneRing(t: Thread)
      requires Partition() && (t in run || t in wait)
      ensures t.listItem.list != null <==> t in run
      ensures t.waitListItem.list != null <==> t in wait
      ensures t in run <==> t !in wait
    {
      assert PartitionIs();
    }

    /** The links of a sleeping thread for the run ring are out of the way of all others. */
    lemma Aside()
      requires Partition() && OnCpu()
      ensures cpu.OffRing? ==>
        currThread.role == RunLink && currThread !in RunItems(run) && currThread !in WaitItems(wait)
      ensures cpu.OffRing? ==> forall a :: a in wait && a != cpu.curr ==>
        a.listItem != currThread && a.waitListItem != currThread
    {
      assert PartitionIs();
      if cpu.OffRing? {
        var k := Place(wait, cpu.curr);
        KnownSwap(run, wait, nextThreadId);
        MovedAlone(wait, run, k, nextThreadId);
        MovedRoles(wait, run, k, nextThreadId);
        forall a | a in wait && a != cpu.curr ensures a.listItem != currThread && a.waitListItem != currThread {
          StillThere(wait, k, Place(wait, a));
        }
      }
    }

    /** Thread `k` of the ring `before` has left it, the processor has not moved yet. */
    ghost predicate Left(before: seq<Thread>, k: nat)
      reads this, currThread
    {
      && k < |before| && run == Without(before, k) && before[k] in wait && Ring(cpu) == before
      && (cpu.OnRing? ==> cpu.s.at < |before| && currThread == before[cpu.s.at].listItem)
      && (cpu.OnRing? && k == cpu.s.at ==> currThread.next == before[Next(|before|, k)].listItem)
      && (cpu.OffRing? ==> cpu.curr in wait && currThread == cpu.curr.listItem && currThread.next == currThread)
    }

    /** Its next is where the event leads the processor: a current thread that has unlinked itself leaves through its
        stale next. */
    lemma NextFits(before: seq<Thread>, k: nat)
      requires Partition() && Left(before, k)
      ensures match Happen(cpu, Event.Sleep(k))
        case OnRing(s) => s.run == run && s.at < |run| && currThread.next == run[s.at].listItem
        case OffRing(ready, t) =>
          ready == run && t in wait && currThread == t.listItem && currThread.next == currThread
    {
      if cpu.OnRing? && k != cpu.s.at {
        SameItem(before, k, cpu.s.at);
        NextOf(if k < cpu.s.at then cpu.s.at - 1 else cpu.s.at);
      }
    }

    /** switch_task after thread `k` of the ring `before` has left it. */
    method SwitchAfter(ghost before: seq<Thread>, ghost k: nat)
      requires Partition() && Left(before, k)
      modifies this`currThread, this`cpu
      ensures Partition() && OnCpu() && cpu == Happen(old(cpu), Event.Sleep(k)) && currThread == old(currThread.next)
    {
      NextFits(before, k);
      assert PartitionIs();
      currThread := currThread.next;
      cpu := Happen(cpu, Event.Sleep(k));
      assert PartitionIs();
    }

    /** The sleeping branch of thread_suspend and the switch behind it. */
    method PutToSleep(t: Thread, ghost k: nat)
      requires Partition() && OnCpu() && k < |run| && t == run[k]
      modifies this, threadList, threadWait, t, t.listItem, t.waitListItem
      modifies set x | x in RunItems(run), set x | x in WaitItems(wait)
      ensures Partition() && OnCpu() && cpu == Happen(old(cpu), Event.Sleep(k)) && currThread == old(currThread).next
      ensures run == Without(old(run), k) && wait == old(wait) + [t]
    {
      ghost var before := run;
      Aside();
      InOneRing(t);
      if cpu.OnRing? {
        NextOf(cpu.s.at);
      }
      MoveToWait(t, k);
      SwitchAfter(before, k);
    }

    /** A thread that has the processor is back in the ring, or another one is. */
    ghost method Rejoin(t: Thread)
      requires Partition() && t !in Ring(cpu) && run == Ring(cpu) + [t]
      requires cpu.OnRing? ==> cpu.s.at < |cpu.s.run| && currThread == run[cpu.s.at].listItem
      requires cpu.OffRing? ==>
        currThread == cpu.curr.listItem && (cpu.curr == t || (cpu.curr in wait && currThread.next == currThread))
      modifies this`cpu
      ensures Partition() && OnCpu() && Happen(cpu, Tick) == Happen(old(cpu), Wake(t))
    {
      assert PartitionIs();
      match cpu
      case OnRing(s) => cpu := OnRing(Add(s, t));
      case OffRing(ready, curr) =>
        cpu := if curr == t then OnRing(Sched(run, |ready|)) else OffRing(run, curr);
      assert PartitionIs();
    }

    /** The waking branch of thread_suspend: a thread that has the processor wakes itself, or another one. */
    method WakeUp(t: Thread, ghost k: nat)
      requires Partition() && OnCpu() && k < |wait| && t == wait[k] && t !in run
      modifies this`run, this`wait, this`cpu, threadList, threadWait, t, t.listItem
      modifies set x | x in RunItems(run), set x | x in WaitItems(wait)
      ensures Partition() && OnCpu() && Happen(cpu, Tick) == Happen(old(cpu), Wake(t))
      ensures run == old(run) + [t] && wait == Without(old(wait), k)
    {
      Aside();
      if cpu.OffRing? && cpu.curr != t {
        StillThere(wait, k, Place(wait, cpu.curr));
      }
      MoveToRun(t, k);
      Rejoin(t);
    }

    /** The list `known` names every thread of the two rings, and no other. */
    ghost predicate Roll(known: seq<Thread>)
      reads this
    {
      && |known| == |run| + |wait| && (forall t :: t in known ==> t in run || t in wait)
      && (forall t :: t in run ==> t in known) && (forall t :: t in wait ==> t in known)
    }

    ghost predicate RightIs(known: seq<Thread>, k: nat)
      reads this, currThread, threadList, threadWait, Objects()
    {
      Partition() && OnCpu() && Roll(known)
    }

    /** The rings partition the threads `known`, and the processor is with the thread that `cpu` names. */
    ghost predicate Right(known: seq<Thread>)
      reads this, currThread, threadList, threadWait, Objects()
    {
      (if forall k: nat {:trigger Unfold(k)} {:trigger RightIs(known, k)} ::
         RightIs(known, k)
       then Clean else Corrupt).Clean?
    }

    lemma Somebody(known: seq<Thread>)
      requires Right(known)
      ensures 0 < |known|
    {
      assert RightIs(known, 0);
    }

    /** A call of switch_task. */
    method ServeSwitch(ghost known: seq<Thread>)
      requires Right(known)
      modifies this`currThread, this`cpu
      ensures Right(known) && cpu == After(old(cpu), Then(Nothing, Tick))
    {
      assert RightIs(known, 0);
      SwitchTask();
    }

    /** A call of thread_create. */
    method ServeCreate(suspend: bool, ghost known: seq<Thread>) returns (t: Thread)
      requires Right(known)
      modifies this, threadList, threadWait, Things(known)
      ensures Right(known + [t]) && fresh({t, t.listItem, t.waitListItem})
      ensures cpu == After(old(cpu), Told(old(cpu), CreateThread(suspend), known + [t], Nothing))
    {
      assert RightIs(known, 0);
      Covered(known);
      t := ThreadCreate(suspend);
      assert t !in Ring(old(cpu)) && (old(cpu).OffRing? ==> t != old(cpu).curr);
    }

    /** A call of thread_suspend. */
    method ServeSuspend(t: Thread, suspend: bool, ghost known: seq<Thread>)
      requires Right(known) && t in known
      modifies this, threadList, threadWait, Things(known)
      ensures Right(known)
      ensures cpu == After(old(cpu), Then(Nothing, Asked(Ring(old(cpu)), t, suspend)))
    {
      assert RightIs(known, 0);
      Covered(known);
      Belongs(known, t);
      ghost var ready, asleep := run, wait;
      ThreadSuspend(t, suspend);
      if t in ready {
        StillAll(ready, Place(ready, t));
      } else {
        StillAll(asleep, Place(asleep, t));
      }
    }

    /** One call. */
    method Serve(call: Call, known: seq<Thread>) returns (more: seq<Thread>)
      requires Right(known) && (call.Suspend? ==> call.index < |known|)
      modifies this, threadList, threadWait, Things(known)
      ensures Right(more) && fresh(Things(more) - Things(known))
      ensures 0 < |known| && known <= more && |more| == |known| + Creates(call)
      ensures cpu == After(old(cpu), Told(old(cpu), call, more, Nothing))
    {
      more := known;
      Somebody(known);
      match call
      case SwitchNow =>
        ServeSwitch(known);
      case CreateThread(suspend) =>
        var t := ServeCreate(suspend, known);
        more := known + [t];
        Grow(known, t);
      case Suspend(index, suspend) =>
        ServeSuspend(known[index], suspend, known);
    }

    /** Over a run of calls the two rings go on partitioning the threads, every new one included, and the processor goes
        where the events of the run lead it. */
    method ServeAll(calls: Calls, threads: seq<Thread>) returns (known: seq<Thread>)
      requires Right(threads) && Legal(calls, |threads|)
      modifies this, threadList, threadWait, Things(threads)
      ensures Right(known) && fresh(Things(known) - Things(threads))
      ensures 0 < |threads| && threads <= known && |known| == |threads| + Created(calls)
      ensures cpu == After(old(cpu), Story(old(cpu), calls, known, |threads|))
      decreases calls
    {
      Somebody(threads);
      match calls
      case NoCalls =>
        known := threads;
      case AndThen(before, call) =>
        var made := ServeAll(before, threads);
        known := Serve(call, made);
        StoryStep(old(cpu), before, call, made, known, |threads|);
    }

    lemma Covered(known: seq<Thread>)
      requires Roll(known)
      ensures (forall x :: x in RunItems(run) ==> x in Things(known))
              && (forall x :: x in WaitItems(wait) ==> x in Things(known))
    {
      forall x | x in RunItems(run) ensures x in Things(known) {
        var i :| 0 <= i < |run| && RunItems(run)[i] == x;
        Belongs(known, run[i]);
      }
      forall x | x in WaitItems(wait) ensures x in Things(known) {
        var i :| 0 <= i < |wait| && WaitItems(wait)[i] == x;
        Belongs(known, wait[i]);
      }
    }

    /** Where the links of the run ring lead. */
    lemma NextOf(i: nat)
      requires Partition()
      ensures i < |run| ==> run[i].listItem.next == run[Next(|run|, i)].listItem
    {
      assert PartitionIs();
      assert Linked(RunItems(run), i);
    }
  }

  /** What thread_suspend does to thread `t` while the threads `run` are ready. */
  ghost function Asked(run: seq<Thread>, t: Thread, suspend: bool): Event<Thread> {
    if suspend != (t in run) then Tick else if suspend then Event.Sleep(Place(run, t)) else Wake(t)
  }

  lemma Belongs(ts: seq<Thread>, t: Thread)
    requires t in ts
    ensures t in Things(ts) && t.listItem in Things(ts) && t.waitListItem in Things(ts)
  {
    var i :| 0 <= i < |ts| && ts[i] == t;
    assert RunItems(ts)[i] == t.listItem && WaitItems(ts)[i] == t.waitListItem;
  }

  lemma Grow(ts: seq<Thread>, t: Thread)
    ensures Things(ts + [t]) == Things(ts) + {t, t.listItem, t.waitListItem}
  {
    assert RunItems(ts + [t]) == RunItems(ts) + [t.listItem] && WaitItems(ts + [t]) == WaitItems(ts) + [t.waitListItem];
  }

  lemma StillAll<T>(s: seq<T>, k: nat)
    requires k < |s|
    ensures forall x :: x in Without(s, k) ==> x in s
    ensures forall x :: x in s ==> x in Without(s, k) || x == s[k]
  {
    forall x | x in s && x != s[k] ensures x in Without(s, k) {
      StillThere(s, k, Place(s, x));
    }
  }

  lemma StillThere<T>(s: seq<T>, k: nat, j: nat)
    requires k < |s| && j < |s| && j != k
    ensures s[j] in Without(s, k)
  {
    assert Without(s, k)[if j < k then j else j - 1] == s[j];
  }

  /** The place of a thread after another one has gone. */
  lemma SameItem(before: seq<Thread>, k: nat, here: nat)
    requires k < |before| && here < |before| && k != here
    ensures var place := if k < here then here - 1 else here;
      place < |before| - 1 && Without(before, k)[place] == before[here]
  {
  }

  lemma LastOut(ts: seq<Thread>, t: Thread)
    ensures Without(ts + [t], |ts|) == ts
    ensures forall x :: x in RunItems(ts + [t]) ==> x in RunItems(ts) || x == t.listItem
  {
    assert forall i :: 0 <= i < |ts| ==> RunItems(ts + [t])[i] == RunItems(ts)[i];
  }

  lemma KnownNew(run: seq<Thread>, wait: seq<Thread>, t: Thread, next: nat)
    requires Known(run + wait, next) && HasItems(t) && t.id == next
    ensures Known((run + [t]) + wait, next + 1)
  {
    KnownSwap(run, wait, next);
    var all := wait + run;
    forall i: nat, j: nat ensures Differ(Ids(all + [t]), i, j) {
      assert Differ(Ids(all), i, j);
      assert i < |all| ==> all[i] in all;
    }
    assert KnownIs(all + [t], next + 1);
    assert all + [t] == wait + (run + [t]);
    KnownSwap(wait, run + [t], next + 1);
  }

  lemma Roles(ts: seq<Thread>)
    requires forall t :: t in ts ==> HasItems(t)
    ensures forall x :: x in RunItems(ts) ==> x.role == RunLink
    ensures forall x :: x in WaitItems(ts) ==> x.role == WaitLink
    ensures forall t :: t in ts ==> t.listItem in RunItems(ts) && t.waitListItem in WaitItems(ts)
  {
    forall t | t in ts ensures t.listItem in RunItems(ts) && t.waitListItem in WaitItems(ts) {
      var j :| 0 <= j < |ts| && ts[j] == t;
      assert RunItems(ts)[j] == t.listItem && WaitItems(ts)[j] == t.waitListItem;
    }
  }

  lemma MovedRoles(from: seq<Thread>, to: seq<Thread>, k: nat, next: nat)
    requires k < |from| && Known(from + to, next)
    ensures forall x :: x in RunItems(from) || x in RunItems(to) ==> x.role == RunLink
    ensures forall x :: x in WaitItems(from) || x in WaitItems(to) ==> x.role == WaitLink
    ensures forall a :: a in Without(from, k) ==>
      a.listItem in RunItems(Without(from, k)) && a.waitListItem in WaitItems(Without(from, k))
    ensures forall a :: a in to ==> a.listItem in RunItems(to) && a.waitListItem in WaitItems(to)
  {
    MovedAlone(from, to, k, next);
    Roles(from);
    Roles(to);
    Roles(Without(from, k));
  }

  lemma NotInRest<T>(items: seq<T>, k: nat)
    requires k < |items| && forall i: nat, j: nat :: Differ(items, i, j)
    ensures items[k] !in Without(items, k)
  {
    forall j | 0 <= j < |items| - 1 ensures Without(items, k)[j] != items[k] {
      UnlinkedAt(items, k, j);
      assert Differ(items, Up(k, j), k) && Differ(items, k, Up(k, j));
    }
  }

  // ---- threads that change rings -------------------------------------------------------------------------

  lemma KnownSwap(a: seq<Thread>, b: seq<Thread>, next: nat)
    requires Known(a + b, next)
    ensures Known(b + a, next)
  {
    forall t | t in b + a ensures HasItems(t) && t.id < next {
      assert t in a + b;
    }
    forall i: nat, j: nat ensures Differ(Ids(b + a), i, j) {
      if i < j < |a| + |b| {
        var i1, j1 := if i < |b| then i + |a| else i - |b|, if j < |b| then j + |a| else j - |b|;
        assert Differ(Ids(a + b), i1, j1) && Differ(Ids(a + b), j1, i1);
        assert (b + a)[i] == (a + b)[i1] && (b + a)[j] == (a + b)[j1];
      }
    }
    assert KnownIs(b + a, next);
  }

  lemma KnownMoved(all: seq<Thread>, k: nat, next: nat)
    requires Known(all, next) && k < |all|
    ensures Known(Without(all, k) + [all[k]], next)
  {
    var moved := Without(all, k) + [all[k]];
    forall i: nat, j: nat ensures Differ(Ids(moved), i, j) {
      assert Differ(Ids(all), Up(k, i), Up(k, j)) && Differ(Ids(all), Up(k, i), k) && Differ(Ids(all), k, Up(k, i));
    }
    assert KnownIs(moved, next);
  }

  /** Thread `k` of the threads `from` goes to the end of the threads `to`. */
  lemma Moved(from: seq<Thread>, to: seq<Thread>, k: nat, next: nat)
    requires k < |from| && Known(from + to, next)
    ensures var t, rest := from[k], Without(from, k);
      && Known(rest + (to + [t]), next)
      && RunItems(rest) == Without(RunItems(from), k) && WaitItems(rest) == Without(WaitItems(from), k)
      && RunItems(to + [t]) == RunItems(to) + [t.listItem] && WaitItems(to + [t]) == WaitItems(to) + [t.waitListItem]
  {
    var t, rest := from[k], Without(from, k);
    KnownMoved(from + to, k, next);
    assert Without(from + to, k) + [t] == rest + (to + [t]);
  }

  /** The other threads have other items. */
  lemma MovedAlone(from: seq<Thread>, to: seq<Thread>, k: nat, next: nat)
    requires k < |from| && Known(from + to, next)
    ensures var t, rest := from[k], Without(from, k);
      forall a :: a in rest || a in to ==>
        && a in from + to && a != t && HasItems(a) && HasItems(t) && a.id != t.id
        && a.waitListItem != t.waitListItem && a.listItem != t.listItem && (a in rest ==> a in from)
  {
    var t, rest := from[k], Without(from, k);
    forall a | a in rest || a in to
      ensures a in from + to && a.id != t.id && (a in rest ==> a in from)
    {
      if a in rest {
        var j :| 0 <= j < |rest| && rest[j] == a;
        assert (from + to)[Up(k, j)] == a && Differ(Ids(from + to), Up(k, j), k) && Differ(Ids(from + to), k, Up(k, j));
      } else {
        var j :| 0 <= j < |to| && to[j] == a;
        assert (from + to)[|from| + j] == a && Differ(Ids(from + to), k, |from| + j);
      }
    }
    assert t in from + to;
  }
}
