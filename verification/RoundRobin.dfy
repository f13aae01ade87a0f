/** Who runs next, and how long a ready thread waits (asm/switch_task.asm:20-50, src/schedul.c:138-254). */
module RoundRobin {
  import opened Machine
  import opened LinkedRing

  /** The run ring from its first item on, and the place of the running thread. */
  datatype Sched<T> = Sched(run: seq<T>, at: nat)

  /** The processor is with a thread of the run ring. Or the last ready thread has been put to sleep: it keeps the
      processor, for its next is itself, whatever threads become ready meanwhile. */
  datatype Cpu<T> = OnRing(s: Sched<T>) | OffRing(ready: seq<T>, curr: T)

  /** What can happen: a switch; a thread is created; a thread is suspended or woken, and thread_suspend switches. */
  datatype Event<T> = Tick | Create(t: T) | Sleep(k: nat) | Wake(t: T)

  ghost predicate Valid<T>(s: Sched<T>) {
    s.at < |s.run| && forall i: nat, j: nat :: Differ(s.run, i, j)
  }

  /** switch_task: the running thread's next. */
  function Switch<T>(s: Sched<T>): Sched<T> {
    Sched(s.run, if s.at < |s.run| then Next(|s.run|, s.at) else 0)
  }

  /** thread_suspend of ring place `k`. A running thread that has unlinked itself leaves through its stale next. */
  function SleepAt<T>(s: Sched<T>, k: nat): Sched<T>
    requires s.at < |s.run| && k < |s.run| && |s.run| > 1
  {
    var rest := Without(s.run, k);
    if k == s.at then Sched(rest, if k == |s.run| - 1 then 0 else k)
    else Switch(Sched(rest, if k < s.at then s.at - 1 else s.at))
  }

  /** list_add: the new thread becomes the last one of the ring. */
  function Add<T>(s: Sched<T>, t: T): Sched<T> {
    Sched(s.run + [t], s.at)
  }

  /** The thread that leaves through its stale next comes to its old successor. */
  lemma StaleNext<T>(s: Sched<T>)
    requires s.at < |s.run| && |s.run| > 1
    ensures var r := SleepAt(s, s.at); r.at < |r.run| && r.run[r.at] == s.run[Next(|s.run|, s.at)]
  {
  }

  predicate Enabled<T(==)>(s: Sched<T>, e: Event<T>) {
    match e
    case Tick => true
    case Create(t) => t !in s.run
    case Sleep(k) => k < |s.run| && |s.run| > 1 && s.at < |s.run|
    case Wake(t) => t !in s.run
  }

  function Step<T>(s: Sched<T>, e: Event<T>): Sched<T>
    requires Enabled(s, e)
  {
    match e
    case Tick => Switch(s)
    case Create(t) => Add(s, t)
    case Sleep(k) => SleepAt(s, k)
    case Wake(t) => Switch(Add(s, t))
  }

  function Ring<T>(c: Cpu<T>): seq<T> {
    match c
    case OnRing(s) => s.run
    case OffRing(ready, _) => ready
  }

  ghost predicate ValidCpu<T>(c: Cpu<T>) {
    match c
    case OnRing(s) => Valid(s)
    case OffRing(ready, t) => t !in ready && forall i: nat, j: nat :: Differ(ready, i, j)
  }

  function Current<T>(c: Cpu<T>): T
    requires c.OnRing? ==> c.s.at < |c.s.run|
  {
    match c
    case OnRing(s) => s.run[s.at]
    case OffRing(_, t) => t
  }

  predicate Possible<T(==)>(c: Cpu<T>, e: Event<T>) {
    match e
    case Tick => true
    case Create(t) => t !in Ring(c) && (c.OffRing? ==> t != c.curr)
    case Sleep(k) => k < |Ring(c)| && (c.OnRing? ==> c.s.at < |c.s.run|)
    case Wake(t) => t !in Ring(c)
  }

  /** The last ready thread is put to sleep. */
  predicate LastSleeps<T>(c: Cpu<T>, e: Event<T>) {
    c.OnRing? && e.Sleep? && |c.s.run| == 1
  }

  function Happen<T(==)>(c: Cpu<T>, e: Event<T>): Cpu<T>
    requires Possible(c, e)
  {
    match c
    case OnRing(s) => if LastSleeps(c, e) then OffRing([], s.run[0]) else OnRing(Step(s, e))
    case OffRing(ready, t) =>
      match e
      case Tick => c
      case Create(u) => OffRing(ready + [u], t)
      case Sleep(k) => OffRing(Without(ready, k), t)
      case Wake(u) => if u == t then OnRing(Switch(Sched(ready + [t], |ready|))) else OffRing(ready + [u], t)
  }

  lemma HappenValid<T>(c: Cpu<T>, e: Event<T>)
    requires ValidCpu(c) && Possible(c, e)
    ensures ValidCpu(Happen(c, e))
  {
    match c
    case OnRing(s) =>
      if !LastSleeps(c, e) {
        StepValid(s, e);
      }
    case OffRing(ready, t) =>
      match e
      case Tick =>
      case Create(u) => AddDistinct(ready, u);
      case Sleep(k) => WithoutDistinct(ready, k);
      case Wake(u) => AddDistinct(ready, u);
  }

  /** The processor leaves the ring exactly when the last ready thread goes to sleep, and comes back exactly when the
      thread that has it wakes itself; then it goes on with the first thread of the ring. */
  lemma RingExact<T>(c: Cpu<T>, e: Event<T>)
    requires Possible(c, e)
    ensures c.OnRing? ==> (Happen(c, e).OffRing? <==> LastSleeps(c, e))
    ensures c.OffRing? ==> (Happen(c, e).OnRing? <==> e == Wake(c.curr))
    ensures c.OffRing? && e == Wake(c.curr) ==> Happen(c, e) == OnRing(Sched(c.ready + [c.curr], 0))
  {
  }

  /** `d` places behind place `at` in a ring of `n`. */
  function Ahead(n: nat, at: nat, d: nat): int {
    if at + d < n then at + d else at + d - n
  }

  lemma SleepRuns<T>(s: Sched<T>, k: nat)
    requires Valid(s) && k < |s.run| && |s.run| > 1
    ensures var n, r := |s.run|, SleepAt(s, k);
      r.at < |r.run| && r.run[r.at] == s.run[Ahead(n, s.at, if k == Ahead(n, s.at, 1) then 2 else 1)]
  {
    var rest := Without(s.run, k);
    if k == s.at {
      StaleNext(s);
    } else {
      var at := if k < s.at then s.at - 1 else s.at;
      assert SleepAt(s, k).at == Next(|rest|, at);
    }
  }

  /** Who has the processor behind an event, by places of the ring before it: after a switch the next thread; after a
      thread has been created the same one; after place `k` has gone to sleep the next one that is left; after a
      thread has woken the next one, which is the woken one if the last of the ring was running. */
  lemma NextRuns<T>(s: Sched<T>, e: Event<T>)
    requires Valid(s) && Possible(OnRing(s), e) && !LastSleeps(OnRing(s), e)
    ensures Happen(OnRing(s), e).OnRing? && Happen(OnRing(s), e).s.at < |Happen(OnRing(s), e).s.run|
    ensures var n := |s.run|;
      Current(Happen(OnRing(s), e)) == match e
        case Tick => s.run[Ahead(n, s.at, 1)]
        case Create(_) => s.run[s.at]
        case Sleep(k) => s.run[Ahead(n, s.at, if k == Ahead(n, s.at, 1) then 2 else 1)]
        case Wake(t) => if s.at == n - 1 then t else s.run[s.at + 1]
  {
    match e
    case Sleep(k) => SleepRuns(s, k);
    case _ => HappenValid(OnRing(s), e);
  }

  lemma StepValid<T>(s: Sched<T>, e: Event<T>)
    requires Valid(s) && Enabled(s, e)
    ensures Valid(Step(s, e))
  {
    match e
    case Tick =>
    case Create(t) => AddDistinct(s.run, t);
    case Sleep(k) => WithoutDistinct(s.run, k);
    case Wake(t) => AddDistinct(s.run, t);
  }

  lemma AddDistinct<T>(run: seq<T>, t: T)
    requires t !in run && forall i: nat, j: nat :: Differ(run, i, j)
    ensures forall i: nat, j: nat :: Differ(run + [t], i, j)
  {
    forall i: nat, j: nat ensures Differ(run + [t], i, j) {
      assert Differ(run, i, j);
    }
  }

  // ---- whether a ready thread runs at all ---------------------------------------------------------------

  function Ticks<T(==)>(c: Cpu<T>, k: nat): Cpu<T> {
    if k == 0 then c else Happen(Ticks(c, k - 1), Tick)
  }

  lemma {:induction false} TicksOn<T>(s: Sched<T>, k: nat)
    requires s.at < |s.run|
    ensures Ticks(OnRing(s), k) == OnRing(Switches(s, k)) && Switches(s, k).run == s.run && Switches(s, k).at < |s.run|
  {
    if k > 0 {
      TicksOn(s, k - 1);
    }
  }

  lemma {:induction false} TicksOff<T>(c: Cpu<T>, k: nat)
    requires c.OffRing?
    ensures Ticks(c, k) == c
  {
    if k > 0 {
      TicksOff(c, k - 1);
    }
  }

  /** Thread `u` has the processor after `k` switches. */
  predicate RunsAfter<T(==)>(c: Cpu<T>, u: T, k: nat) {
    (Ticks(c, k).OnRing? ==> Ticks(c, k).s.at < |Ticks(c, k).s.run|) && Current(Ticks(c, k)) == u
  }

  /** With nothing but switches, a ready thread gets the processor exactly if that is with a thread of the ring. */
  lemma RunsExact<T>(c: Cpu<T>, u: T)
    requires ValidCpu(c) && u in Ring(c)
    ensures (exists k: nat :: RunsAfter(c, u, k)) <==> c.OnRing?
  {
    if c.OnRing? {
      EveryoneOnce(c.s, Place(c.s.run, u));
      var k :| 1 <= k <= |c.s.run| && Switches(c.s, k).at == Place(c.s.run, u);
      TicksOn(c.s, k);
      assert RunsAfter(c, u, k);
    } else {
      forall k: nat ensures !RunsAfter(c, u, k) {
        TicksOff(c, k);
      }
    }
  }

  // ---- turns ----------------------------------------------------------------------------------------------

  function Switches<T>(s: Sched<T>, k: nat): Sched<T> {
    if k == 0 then s else Switch(Switches(s, k - 1))
  }

  /** k switches from place i lead to place (i + k) mod n. */
  lemma {:induction false} SwitchesReach<T>(s: Sched<T>, k: nat)
    requires s.at < |s.run|
    ensures Switches(s, k) == Sched(s.run, (s.at + k) % |s.run|)
  {
    if k > 0 {
      SwitchesReach(s, k - 1);
      ModNext(s.at + k - 1, |s.run|);
    }
  }

  lemma ModNext(x: nat, n: nat)
    requires n > 0
    ensures (x + 1) % n == if x % n == n - 1 then 0 else x % n + 1
  {
    var q := x / n;
    DivRange(x, n);
    assert x == n * q + x % n == q * n + x % n;
    if x % n == n - 1 {
      assert x + 1 == (q + 1) * n + 0;
      ModUnique(q + 1, 0, n);
    } else {
      ModUnique(q, x % n + 1, n);
    }
  }

  /** n consecutive switches run every ready thread exactly once. */
  lemma EveryoneOnce<T>(s: Sched<T>, j: nat)
    requires s.at < |s.run| && j < |s.run|
    ensures exists k :: 1 <= k <= |s.run| && Switches(s, k).at == j
    ensures forall k, m ::
      1 <= k <= |s.run| && 1 <= m <= |s.run| && Switches(s, k).at == j && Switches(s, m).at == j ==> k == m
  {
    var n := |s.run|;
    var k := if j > s.at then j - s.at else j - s.at + n;
    SwitchesReach(s, k);
    SmallMod(s.at + k, n);
    assert Switches(s, k).at == j;
    forall m | 1 <= m <= n && Switches(s, m).at == j ensures m == k {
      SwitchesReach(s, m);
      SmallMod(s.at + m, n);
    }
  }

  lemma SmallMod(x: nat, n: nat)
    requires 0 < n && x < 2 * n
    ensures x % n == if x < n then x else x - n
  {
    ModUnique(if x < n then 0 else 1, if x < n then x else x - n, n);
  }

  // ---- waiting ---------------------------------------------------------------------------------------------

  lemma PlaceIs<T>(run: seq<T>, t: T, j: nat)
    requires j < |run| && run[j] == t && forall a: nat, b: nat :: Differ(run, a, b)
    ensures Place(run, t) == j
  {
    assert Differ(run, j, Place(run, t)) && Differ(run, Place(run, t), j);
  }

  /** How many switches it takes from place `i` to place `j`. */
  function Gap(n: nat, i: nat, j: nat): int {
    if j >= i then j - i else j - i + n
  }

  /** How many switches thread `t` has to wait. */
  function Distance<T(==)>(s: Sched<T>, t: T): int
    requires t in s.run
  {
    Gap(|s.run|, s.at, Place(s.run, t))
  }

  /** Thread `t` is not put to sleep by the event. */
  predicate Spares<T(==)>(s: Sched<T>, e: Event<T>, t: T) {
    e.Sleep? && e.k < |s.run| ==> s.run[e.k] != t
  }

  function Switching<T>(e: Event<T>): nat {
    if e.Create? then 0 else 1
  }

  function Adding<T>(e: Event<T>): nat {
    if e.Create? || e.Wake? then 1 else 0
  }

  lemma AddPlace<T>(run: seq<T>, x: T, t: T)
    requires t in run && x !in run && forall i: nat, j: nat :: Differ(run, i, j)
    ensures t in run + [x] && Place(run + [x], t) == Place(run, t)
  {
    AddDistinct(run, x);
    assert (run + [x])[Place(run, t)] == t;
    PlaceIs(run + [x], t, Place(run, t));
  }

  lemma SleepPlace<T>(run: seq<T>, k: nat, t: T)
    requires t in run && k < |run| && run[k] != t && forall i: nat, j: nat :: Differ(run, i, j)
    ensures t in Without(run, k) && Place(Without(run, k), t) == if Place(run, t) < k then Place(run, t)
            else Place(run, t) - 1
  {
    var j := Place(run, t);
    var rest := Without(run, k);
    WithoutDistinct(run, k);
    if j < k {
      assert rest[j] == run[j];
      PlaceIs(rest, t, j);
    } else {
      assert rest[j - 1] == run[j];
      PlaceIs(rest, t, j - 1);
    }
  }

  lemma SwitchDistance<T>(s: Sched<T>, t: T)
    requires s.at < |s.run| && t in s.run && Distance(s, t) > 0
    ensures t in Switch(s).run && Distance(Switch(s), t) == Distance(s, t) - 1
  {
  }

  lemma AddDistance<T>(s: Sched<T>, x: T, t: T)
    requires Valid(s) && t in s.run && x !in s.run
    ensures t in Add(s, x).run && Distance(s, t) <= Distance(Add(s, x), t) <= Distance(s, t) + 1
  {
    AddPlace(s.run, x, t);
  }

  lemma SleepDistance<T>(s: Sched<T>, k: nat, t: T)
    requires Valid(s) && t in s.run && k < |s.run| && |s.run| > 1 && s.run[k] != t && Distance(s, t) > 0
    ensures t in SleepAt(s, k).run && Distance(SleepAt(s, k), t) <= Distance(s, t) - 1
    ensures k == s.at ==> Distance(SleepAt(s, k), t) == Distance(s, t) - 1
  {
    SleepPlace(s.run, k, t);
    if k != s.at {
      var rest := Sched(Without(s.run, k), if k < s.at then s.at - 1 else s.at);
      SwitchDistance(rest, t);
    }
  }

  /** One switch brings a waiting thread one place closer; a thread that goes to sleep never pushes it back; a thread
      that is created or woken pushes it back by one place at most. */
  lemma StepDistance<T>(s: Sched<T>, e: Event<T>, t: T)
    requires Valid(s) && Enabled(s, e) && Spares(s, e, t) && t in s.run && Distance(s, t) > 0
    ensures Valid(Step(s, e)) && t in Step(s, e).run
    ensures Distance(Step(s, e), t) <= Distance(s, t) + Adding(e) - Switching(e)
    ensures e.Tick? || (e.Sleep? && e.k == s.at) ==> Distance(Step(s, e), t) == Distance(s, t) - 1
  {
    StepValid(s, e);
    match e
    case Tick => SwitchDistance(s, t);
    case Create(x) => AddDistance(s, x, t);
    case Wake(x) =>
      AddDistance(s, x, t);
      SwitchDistance(Add(s, x), t);
    case Sleep(k) => SleepDistance(s, k, t);
  }

  /** A run of events. */
  datatype Run<T> = Nothing | Then(before: Run<T>, event: Event<T>)

  /** The state after a run; events that cannot happen do nothing. */
  function After<T(==)>(c: Cpu<T>, run: Run<T>): Cpu<T> {
    match run
    case Nothing => c
    case Then(before, e) => if Possible(After(c, before), e) then Happen(After(c, before), e) else After(c, before)
  }

  lemma {:induction false} AfterValid<T>(c: Cpu<T>, run: Run<T>)
    requires ValidCpu(c)
    ensures ValidCpu(After(c, run))
  {
    if run.Then? {
      AfterValid(c, run.before);
      if Possible(After(c, run.before), run.event) {
        HappenValid(After(c, run.before), run.event);
      }
    }
  }

  /** Somewhere in the run thread `t` was the last ready one and was put to sleep, and nobody has woken it since. */
  predicate SleepsOn<T(==)>(c: Cpu<T>, run: Run<T>, t: T) {
    run.Then? &&
    var b := After(c, run.before);
    || (Possible(b, run.event) && LastSleeps(b, run.event) && Current(b) == t)
    || (SleepsOn(c, run.before, t) && run.event != Wake(t))
  }

  /** After a run from a ring the processor is with a sleeping thread exactly if that one sleeps on. */
  lemma {:induction false} OffRingExact<T>(c: Cpu<T>, run: Run<T>, t: T)
    requires ValidCpu(c) && c.OnRing?
    ensures After(c, run).OffRing? && After(c, run).curr == t <==> SleepsOn(c, run, t)
  {
    if run.Then? {
      OffRingExact(c, run.before, t);
      AfterValid(c, run.before);
      var b := After(c, run.before);
      if Possible(b, run.event) {
        RingExact(b, run.event);
      }
    }
  }

  /** The thread `t` is woken somewhere in the run. */
  predicate Wakes<T(==)>(run: Run<T>, t: T) {
    run.Then? && (run.event == Wake(t) || Wakes(run.before, t))
  }

  /** A sleeping thread that has the processor keeps it over every run in which nobody wakes it. */
  lemma {:induction false} KeepsProcessor<T>(c: Cpu<T>, run: Run<T>)
    requires c.OffRing? && !Wakes(run, c.curr)
    ensures After(c, run).OffRing? && After(c, run).curr == c.curr
  {
    if run.Then? {
      KeepsProcessor(c, run.before);
    }
  }

  /** Throughout the run the processor is with the ring, and `t` is ready and does not get its turn. */
  predicate Waits<T(==)>(c: Cpu<T>, run: Run<T>, t: T) {
    && After(c, run).OnRing? && t in After(c, run).s.run && Distance(After(c, run).s, t) > 0
    && (run.Then? ==> Waits(c, run.before, t) && Spares(After(c, run.before).s, run.event, t))
  }

  function CountSwitches<T(==)>(c: Cpu<T>, run: Run<T>): nat {
    match run
    case Nothing => 0
    case Then(before, e) => CountSwitches(c, before) + if Possible(After(c, before), e) then Switching(e) else 0
  }

  function CountAdded<T(==)>(c: Cpu<T>, run: Run<T>): nat {
    match run
    case Nothing => 0
    case Then(before, e) => CountAdded(c, before) + if Possible(After(c, before), e) then Adding(e) else 0
  }

  /** Bounded waiting: before its turn comes, a thread sees fewer switches than its distance at the start plus the
      threads created or woken meanwhile. */
  lemma {:induction false} BoundedWaiting<T>(c: Cpu<T>, run: Run<T>, t: T)
    requires ValidCpu(c) && c.OnRing? && t in c.s.run && Waits(c, run, t)
    ensures ValidCpu(After(c, run))
    ensures CountSwitches(c, run) + Distance(After(c, run).s, t) <= Distance(c.s, t) + CountAdded(c, run)
    ensures CountSwitches(c, run) < Distance(c.s, t) + CountAdded(c, run)
  {
    if run.Then? {
      var b := After(c, run.before);
      BoundedWaiting(c, run.before, t);
      if Possible(b, run.event) {
        RingExact(b, run.event);
        StepDistance(b.s, run.event, t);
      }
    }
  }

  /** `n` switches more. */
  function Ticking<T>(run: Run<T>, n: nat): Run<T> {
    if n == 0 then run else Then(Ticking(run, n - 1), Tick)
  }

  /** Without the ring there is no bound: the only ready thread goes to sleep, another one is created, and the sleeping
      one has the processor after any number of switches. */
  lemma {:induction false} Starves<T>(t: T, u: T, n: nat)
    requires t != u
    ensures After(OnRing(Sched([t], 0)), Ticking(Then(Then(Nothing, Sleep(0)), Create(u)), n)) == OffRing([u], t)
  {
    if n > 0 {
      Starves(t, u, n - 1);
    } else {
      var c := OnRing(Sched([t], 0));
      assert After(c, Nothing) == c;
      assert After(c, Then(Nothing, Sleep(0))) == OffRing([], t);
      assert [] + [u] == [u];
    }
  }
}
