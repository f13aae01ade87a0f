/** The nested "do not switch" counter (asm/switch_task.asm:53-67, src/timer.c:71-77): stop and start load the
    counter, add or subtract 1 in a register and store it with xchg, and a timer switch may come between any two of
    these instructions. A spin lock (src/sync.c:4-20) is added to see what spinning inside a stop region does. */
module StopStart {
  import opened Machine

  datatype Kind = Stop | Start

  /** Where a thread stands: between calls, behind the load, behind the inc or dec, or at the xchg of get_mtx. */
  datatype Phase = Ready | Loaded(kind: Kind, eax: u32) | Counted(kind: Kind, eax: u32) | Spinning

  /** One completed stop or start. */
  datatype Done = Done(tid: nat, kind: Kind)

  datatype Owner = Nobody | Thread(tid: nat)

  datatype State = State(multiTask: u32, curr: nat, phases: seq<Phase>, mtx: Owner, log: seq<Done>)

  datatype Event =
    | Load(kind: Kind)
    | Count
    | Xchg
    | Lock
    | Unlock
    | Timer(next: nat)     // the timer interrupt finds multi_task = 0 and switches
    | Yield(next: nat)     // switch_task called by the running thread

  /** Nesting depth of a thread: its completed stops minus its completed starts. */
  function Depth(log: seq<Done>, tid: nat): int {
    if log == [] then 0
    else Depth(log[..|log| - 1], tid)
         + if log[|log| - 1].tid != tid then 0 else if log[|log| - 1].kind.Stop? then 1 else -1
  }

  /** The running thread calls start only inside a region, switches voluntarily only outside of one, and does not
      nest deeper than a word can count; the timer switches only if the counter is 0. */
  predicate Enabled(s: State, e: Event) {
    && s.curr < |s.phases|
    && match e
       case Load(kind) =>
         && s.phases[s.curr].Ready?
         && (if kind.Start? then Depth(s.log, s.curr) > 0 else Depth(s.log, s.curr) + 1 < WORD_LIMIT)
       case Count => s.phases[s.curr].Loaded?
       case Xchg => s.phases[s.curr].Counted?
       case Lock => (s.phases[s.curr].Ready? || s.phases[s.curr].Spinning?) && s.mtx != Thread(s.curr)
       case Unlock => s.phases[s.curr].Ready? && s.mtx == Thread(s.curr)
       case Timer(next) => s.multiTask == 0 && next < |s.phases|
       case Yield(next) => s.phases[s.curr].Ready? && Depth(s.log, s.curr) == 0 && next < |s.phases|
  }

  function At(s: State, p: Phase): State
    requires s.curr < |s.phases|
  {
    s.(phases := s.phases[s.curr := p])
  }

  function Apply(s: State, e: Event): State
    requires Enabled(s, e)
  {
    match e
    case Load(kind) => At(s, Loaded(kind, s.multiTask))
    case Count =>
      var p := s.phases[s.curr];
      At(s, Counted(p.kind, if p.kind.Stop? then Add32(p.eax, 1) else Sub32(p.eax, 1)))
    case Xchg =>
      var p := s.phases[s.curr];
      At(s, Ready).(multiTask := p.eax, log := s.log + [Done(s.curr, p.kind)])
    case Lock => if s.mtx.Nobody? then At(s, Ready).(mtx := Thread(s.curr)) else At(s, Spinning)
    case Unlock => s.(mtx := Nobody)
    case Timer(next) => s.(curr := next)
    case Yield(next) => s.(curr := next)
  }

  predicate Initial(s: State) {
    s.multiTask == 0 && s.curr < |s.phases| && s.mtx.Nobody? && s.log == [] && forall i :: 0 <= i < |s.phases| ==>
      s.phases[i].Ready?
  }

  /** A run: events one after the other. */
  datatype Run = Nothing | Then(before: Run, event: Event)

  /** The state after a run; events that cannot happen do nothing. */
  function After(s: State, run: Run): State {
    match run
    case Nothing => s
    case Then(before, e) => if Enabled(After(s, before), e) then Apply(After(s, before), e) else After(s, before)
  }

  // ---- the invariant ---------------------------------------------------------------------------------

  /** A register that has been loaded still agrees with the thread's depth when the thread goes on. */
  predicate PhaseFits(p: Phase, depth: int) {
    match p
    case Loaded(kind, eax) => eax == depth && (if kind.Start? then depth > 0 else depth + 1 < WORD_LIMIT)
    case Counted(kind, eax) => (if kind.Start? then eax + 1 == depth else eax == depth + 1)
    case _ => true
  }

  ghost predicate Inv(s: State) {
    && s.curr < |s.phases|
    && s.multiTask == Depth(s.log, s.curr)
    && (forall t: nat :: t != s.curr ==> Depth(s.log, t) == 0)
    && (forall t :: 0 <= t < |s.phases| ==> PhaseFits(s.phases[t], Depth(s.log, t)))
  }

  lemma DepthNext(log: seq<Done>, d: Done, tid: nat)
    ensures Depth(log + [d], tid) == Depth(log, tid) + if d.tid != tid then 0 else if d.kind.Stop? then 1 else -1
  {
    assert (log + [d])[..|log|] == log;
  }

  lemma StepKeeps(s: State, e: Event)
    requires Inv(s) && Enabled(s, e)
    ensures Inv(Apply(s, e))
  {
    var s' := Apply(s, e);
    if e.Xchg? {
      forall t: nat ensures Depth(s'.log, t) == Depth(s.log, t) + if t != s.curr then 0
        else if s.phases[s.curr].kind.Stop? then 1 else -1 {
        DepthNext(s.log, Done(s.curr, s.phases[s.curr].kind), t);
      }
    }
  }

  lemma {:induction false} RunKeeps(s: State, run: Run)
    requires Initial(s)
    ensures Inv(After(s, run))
  {
    match run
    case Nothing =>
      assert Inv(s);
    case Then(before, e) =>
      RunKeeps(s, before);
      if Enabled(After(s, before), e) {
        StepKeeps(After(s, before), e);
      }
  }

  /** No update is lost: in every reachable state the counter is the running thread's nesting depth, and every other
      thread is outside of all regions. */
  lemma CounterIsDepth(s: State, run: Run, t: nat)
    requires Initial(s)
    ensures After(s, run).multiTask == Depth(After(s, run).log, After(s, run).curr)
    ensures t != After(s, run).curr ==> Depth(After(s, run).log, t) == 0
  {
    RunKeeps(s, run);
  }

  /** No timer switch happens inside a stop/start region, wherever in stop or start the thread is interrupted; and
      the timer does switch outside of them. */
  lemma NoSwitchInside(s: State, run: Run, next: nat)
    requires Initial(s) && next < |After(s, run).phases|
    ensures Enabled(After(s, run), Timer(next)) <==> Depth(After(s, run).log, After(s, run).curr) == 0
  {
    RunKeeps(s, run);
  }

  /** Why voluntary switches must wait: switching to another thread keeps the counter right exactly outside of all
      regions. thread_suspend called inside a region (src/schedul.c:228-254) does not. */
  lemma SwitchSafe(s: State, next: nat)
    requires Inv(s) && next < |s.phases|
    ensures Inv(s.(curr := next)) <==> next == s.curr || Depth(s.log, s.curr) == 0
  {
  }

  // ---- spinning ------------------------------------------------------------------------------------------

  /** The running thread waits for a lock that another thread holds. */
  predicate Waiting(s: State) {
    s.curr < |s.phases| && s.phases[s.curr].Spinning? && s.mtx.Thread? && s.mtx.tid != s.curr && s.mtx.tid < |s.phases|
  }

  /** Nothing that can happen changes anything. */
  ghost predicate Frozen(s: State) {
    forall e: Event :: Enabled(s, e) ==> Apply(s, e) == s
  }

  /** Waiting for a lock is hopeless exactly inside a stop region: there the owner never runs again. */
  lemma SpinInsideRegion(s: State)
    requires Waiting(s)
    ensures Frozen(s) <==> s.multiTask != 0
  {
    if s.multiTask == 0 {
      assert Enabled(s, Timer(s.mtx.tid));
      assert Apply(s, Timer(s.mtx.tid)) != s;
    }
  }

  /** Once frozen, frozen in every run. */
  lemma {:induction false} FrozenForever(s: State, run: Run)
    requires Frozen(s)
    ensures After(s, run) == s
  {
    if run.Then? {
      FrozenForever(s, run.before);
    }
  }

  /** The lock is taken exactly by a try that finds it free. */
  lemma LockExact(s: State)
    requires Enabled(s, Lock)
    ensures var r := Apply(s, Lock);
      && (r.mtx == Thread(s.curr) <==> s.mtx == Nobody) && (s.mtx != Nobody ==> r.mtx == s.mtx)
      && (r.phases[s.curr].Spinning? <==> s.mtx != Nobody)
      && forall t :: 0 <= t < |s.phases| && t != s.curr ==> r.phases[t] == s.phases[t]
  {
  }

  /** clean_mtx passes the lock on: a thread that spins takes it with its next try. The timer gives it the chance
      exactly if the owner is outside of all regions. */
  lemma UnlockPassesOn(s: State, w: nat)
    requires Enabled(s, Unlock) && w < |s.phases| && w != s.curr && s.phases[w].Spinning?
    ensures var r := After(s, Then(Then(Then(Nothing, Unlock), Timer(w)), Lock));
      w < |r.phases| && r.mtx == Thread(w) && r.phases[w].Ready? <==> s.multiTask == 0
  {
    var freed := s.(mtx := Nobody);
    assert After(s, Then(Nothing, Unlock)) == freed;
    if s.multiTask == 0 {
      assert After(s, Then(Then(Nothing, Unlock), Timer(w))) == freed.(curr := w);
      assert After(s, Then(Then(Then(Nothing, Unlock), Timer(w)), Lock))
          == At(freed.(curr := w), Ready).(mtx := Thread(w));
    } else {
      assert After(s, Then(Then(Nothing, Unlock), Timer(w))) == freed;
      assert After(s, Then(Then(Then(Nothing, Unlock), Timer(w)), Lock)).phases[w] == s.phases[w];
    }
  }

  /** A thread outside of all regions enters one and then tries a lock that somebody else holds. */
  lemma StopAndSpin(s: State, start: State, run: Run) returns (r: State)
    requires s.curr < |s.phases| && s.phases[s.curr].Ready? && Depth(s.log, s.curr) == 0 && s.multiTask == 0
    requires s.mtx.Thread? && s.mtx.tid != s.curr && s.mtx.tid < |s.phases| && s == After(start, run)
    ensures r == After(start, Then(Then(Then(Then(run, Load(Stop)), Count), Xchg), Lock))
    ensures Waiting(r) && r.multiTask == 1
  {
    var loaded := Then(run, Load(Stop));
    assert After(start, loaded) == At(s, Loaded(Stop, 0));
    var counted := Then(loaded, Count);
    assert After(start, counted) == At(s, Counted(Stop, 1));
    var stopped := Then(counted, Xchg);
    assert After(start, stopped) == s.(multiTask := 1, phases := s.phases[s.curr := Ready],
                                       log := s.log + [Done(s.curr, Stop)]);
    r := After(start, Then(stopped, Lock));
  }

  /** Two threads get there: one is preempted while it holds the heap lock, the other enters a stop region, as
      thread_create does, and then allocates (src/schedul.c:138-173). */
  lemma HopelessRun(s: State) returns (run: Run)
    requires Initial(s) && |s.phases| == 2 && s.curr == 0
    ensures Waiting(After(s, run)) && Frozen(After(s, run))
  {
    var locked := Then(Nothing, Lock);
    assert s.phases[0 := Ready] == s.phases;
    assert After(s, locked) == s.(mtx := Thread(0));
    var preempted := Then(locked, Timer(1));
    var r := StopAndSpin(s.(curr := 1, mtx := Thread(0)), s, preempted);
    SpinInsideRegion(r);
    run := Then(Then(Then(Then(preempted, Load(Stop)), Count), Xchg), Lock);
  }
}
