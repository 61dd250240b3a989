/** kernel/scheduler.c and kernel/process.c: the process table as a state machine, and what its runs keep. */
module Scheduler {
  import opened Words

  datatype ProcessState = Unused | Ready | Running | Blocked | Zombie

  datatype Slot = Slot(state: ProcessState, pid: nat)

  /** The process table, the slot of `current_process` and the PID counter. */
  datatype Sched = Sched(table: seq<Slot>, current: nat, nextPid: nat)

  predicate Shaped(s: Sched) {
    |s.table| == 64 && s.current < 64
  }

  /** The slot `d` places after `current`, around the table. */
  function Around(current: nat, d: nat): (k: nat)
    ensures k < 64
  {
    (current + d) % 64
  }

  /** How far the scan has to go from slot `current` to slot `k`. */
  function Dist(current: nat, k: nat): (d: nat)
    requires current < 64 && k < 64
    ensures d < 64 && Around(current, d) == k && (d == 0 <==> current == k)
  {
    if current <= k then k - current else k + 64 - current
  }

  predicate ReadyAt(table: seq<Slot>, current: nat, d: nat)
    requires |table| == 64
  {
    table[Around(current, d)].state == Ready
  }

  /** The cyclic scan: how far the first ready slot is, no nearer than `i`; 64 when there is none. */
  function Scan(table: seq<Slot>, current: nat, i: nat): (d: nat)
    requires |table| == 64 && i <= 64
    ensures i <= d <= 64
    ensures d < 64 ==> ReadyAt(table, current, d)
    ensures forall e :: i <= e < d ==> !ReadyAt(table, current, e)
    decreases 64 - i
  {
    if i == 64 || ReadyAt(table, current, i) then i else Scan(table, current, i + 1)
  }

  /** The state hand-over of `schedule`. */
  function SwitchTo(s: Sched, next: nat): Sched
    requires Shaped(s) && next < 64
  {
    var demoted := if s.table[s.current].state == Running then s.table[s.current := s.table[s.current].(state := Ready)] else s.table;
    s.(table := demoted[next := demoted[next].(state := Running)], current := next)
  }

  /** `schedule`, with the scheduler enabled. */
  function Schedule(s: Sched): Sched
    requires Shaped(s)
  {
    var d := Scan(s.table, s.current, 0);
    if s.table[s.current].state == Unused || d == 64 then s else SwitchTo(s, Around(s.current, d))
  }

  /** The slot `process_alloc` takes, or the length. */
  function FirstUnused(table: seq<Slot>): (i: nat)
    ensures i <= |table| && (i < |table| ==> table[i].state == Unused)
    ensures forall k :: 0 <= k < i ==> table[k].state != Unused
  {
    if table == [] || table[0].state == Unused then 0 else 1 + FirstUnused(table[1..])
  }

  /** `kthread_create`, as one step; `gotStack` says whether the kernel stack could be allocated. */
  function Create(s: Sched, gotStack: bool): Sched
    requires Shaped(s)
  {
    var i := FirstUnused(s.table);
    if i == 64 then s
    else s.(table := s.table[i := Slot(if gotStack then Ready else Unused, s.nextPid)], nextPid := Wrap(s.nextPid + 1))
  }

  /** `kthread_exit`. */
  function Exit(s: Sched): Sched
    requires Shaped(s)
  {
    Schedule(s.(table := s.table[s.current := s.table[s.current].(state := Zombie)]))
  }

  /** `process_free`, which refuses PID 0. */
  function Free(s: Sched, k: nat): Sched
    requires Shaped(s) && k < 64
  {
    if s.table[k].pid == 0 then s else s.(table := s.table[k := Slot(Unused, 0)])
  }

  /** `process_init`. */
  function Boot(): (s: Sched)
    ensures Shaped(s)
  {
    Sched(seq(64, i => if i == 0 then Slot(Running, 0) else Slot(Unused, 0)), 0, 1)
  }

  datatype Event = Tick | Created(gotStack: bool) | Exited | Freed(slot: nat)

  /** The kernel's own process never exits, and nobody frees the running process. */
  predicate Enabled(s: Sched, e: Event)
    requires Shaped(s)
  {
    match e
    case Tick => true
    case Created(_) => s.nextPid + 1 < TWO32
    case Exited => s.table[s.current].pid != 0
    case Freed(k) => k < 64 && k != s.current
  }

  function Step(s: Sched, e: Event): Sched
    requires Shaped(s) && (e.Freed? ==> e.slot < 64)
  {
    match e
    case Tick => Schedule(s)
    case Created(gotStack) => Create(s, gotStack)
    case Exited => Exit(s)
    case Freed(k) => Free(s, k)
  }

  predicate Runnable(p: Slot) {
    p.state == Ready || p.state == Running
  }

  /** One process runs and it is the current one; PID 0 can always run; live PIDs differ and are below the counter. */
  ghost predicate Inv(s: Sched) {
    && Shaped(s)
    && (forall k :: 0 <= k < 64 ==> (s.table[k].state == Running <==> k == s.current))
    && s.table[0].pid == 0 && Runnable(s.table[0])
    && (forall k :: 0 <= k < 64 && s.table[k].state != Unused ==> s.table[k].pid < s.nextPid)
    && (forall j, k :: 0 <= j < k < 64 && s.table[j].state != Unused && s.table[k].state != Unused ==>
          s.table[j].pid != s.table[k].pid)
  }

  lemma DistAround(current: nat, d: nat)
    requires current < 64 && d < 64
    ensures Dist(current, Around(current, d)) == d
  {
  }

  lemma ScanBound(s: Sched, j: nat)
    requires Shaped(s) && j < 64 && s.table[j].state == Ready
    ensures Scan(s.table, s.current, 0) <= Dist(s.current, j)
  {
    assert ReadyAt(s.table, s.current, Dist(s.current, j));
  }

  /** A call of `schedule` lands on the nearest ready slot, and no later than on any given one. */
  lemma ScheduleLands(s: Sched, k: nat)
    requires Shaped(s) && s.table[s.current].state != Unused
    requires k < 64 && s.table[k].state == Ready
    ensures s.table[Schedule(s).current].state == Ready
    ensures forall j :: 0 <= j < 64 && s.table[j].state == Ready ==>
              Dist(s.current, Schedule(s).current) <= Dist(s.current, j)
  {
    var d := Scan(s.table, s.current, 0);
    ScanBound(s, k);
    DistAround(s.current, d);
    assert ReadyAt(s.table, s.current, d) && Schedule(s).current == Around(s.current, d);
    forall j | 0 <= j < 64 && s.table[j].state == Ready ensures d <= Dist(s.current, j) {
      ScanBound(s, j);
    }
  }

  lemma ScheduleInv(s: Sched)
    requires Inv(s)
    ensures Inv(Schedule(s))
  {
  }

  /** An exiting thread always gives up the CPU, because PID 0 is there to take it. */
  lemma ExitInv(s: Sched)
    requires Inv(s) && s.table[s.current].pid != 0
    ensures Inv(Exit(s)) && Exit(s).current != s.current && Exit(s).table[s.current].state == Zombie
  {
    var z := s.(table := s.table[s.current := s.table[s.current].(state := Zombie)]);
    assert z.table[0].state == Ready;
    ScheduleLands(z, 0);
  }

  /** Allocation keeps the invariant exactly until the PID counter wraps to 0. */
  lemma CreateInv(s: Sched, gotStack: bool)
    requires Inv(s) && s.nextPid < TWO32
    ensures Inv(Create(s, gotStack)) <==> FirstUnused(s.table) == 64 || s.nextPid + 1 < TWO32
  {
  }

  /** Freeing keeps the invariant exactly when the running thread is not the one freed. */
  lemma FreeInv(s: Sched, k: nat)
    requires Inv(s) && k < 64
    ensures Inv(Free(s, k)) <==> k != s.current || s.table[k].pid == 0
    ensures k == s.current && s.table[k].pid != 0 ==> Adrift(Free(s, k))
  {
    assert !(k != s.current || s.table[k].pid == 0) ==> Free(s, k).table[s.current].state == Unused;
  }

  /** `schedule` leaves everything as it is if and only if the current slot has been freed or no slot is ready. */
  lemma ScheduleIdles(s: Sched)
    requires Shaped(s)
    ensures Schedule(s) == s <==>
            s.table[s.current].state == Unused || forall k :: 0 <= k < 64 ==> s.table[k].state != Ready
  {
    var d := Scan(s.table, s.current, 0);
    if d < 64 {
      assert ReadyAt(s.table, s.current, d);
    }
    forall k | 0 <= k < 64 && d == 64 ensures s.table[k].state != Ready {
      assert !ReadyAt(s.table, s.current, Dist(s.current, k));
    }
  }

  /** The thread on the CPU has lost its slot. */
  predicate Adrift(s: Sched) {
    Shaped(s) && s.table[s.current].state == Unused
  }

  /** What gives the slot of a thread adrift a state again: a creation that takes the slot, or an exit. */
  predicate Reclaims(s: Sched, e: Event)
    requires Shaped(s)
  {
    e.Exited? || (e == Created(true) && FirstUnused(s.table) == s.current)
  }

  lemma AdriftStep(s: Sched, e: Event)
    requires Adrift(s) && (e.Freed? ==> e.slot < 64)
    ensures Shaped(Step(s, e))
    ensures Adrift(Step(s, e)) && Step(s, e).current == s.current <==> !Reclaims(s, e)
    ensures e.Tick? ==> Step(s, e) == s
  {
    if e.Exited? {
      var z := s.(table := s.table[s.current := s.table[s.current].(state := Zombie)]);
      ScheduleIdles(z);
      assert Schedule(z).table[s.current].state != Unused;
    }
  }

  /** A run of steps of any kind, disciplined or not. */
  ghost predicate IsAnyRun(states: seq<Sched>, events: seq<Event>) {
    && |states| == |events| + 1
    && forall i :: 0 <= i < |events| ==>
         Shaped(states[i]) && (events[i].Freed? ==> events[i].slot < 64) && states[i + 1] == Step(states[i], events[i])
  }

  /**
   A thread that frees itself stops scheduling: over any run that follows, it stays without a slot, and every call of
   `schedule` leaves the table as it is, if and only if no creation takes the slot and the thread does not exit.
   */
  lemma {:induction false} FreedCurrentStops(states: seq<Sched>, events: seq<Event>, n: nat)
    requires IsAnyRun(states, events) && Adrift(states[0]) && n <= |events|
    ensures (forall k :: 0 <= k <= n ==> AdriftFrom(states[0], states[k])) <==>
            (forall k :: 0 <= k < n ==> Shaped(states[k]) && !Reclaims(states[k], events[k]))
    ensures forall k :: 0 <= k < n && Adrift(states[k]) && events[k].Tick? ==> states[k + 1] == states[k]
  {
    if n > 0 {
      FreedCurrentStops(states, events, n - 1);
      if Adrift(states[n - 1]) {
        AdriftStep(states[n - 1], events[n - 1]);
      }
      if forall k :: 0 <= k < n ==> Shaped(states[k]) && !Reclaims(states[k], events[k]) {
        assert AdriftFrom(states[0], states[n - 1]) && AdriftFrom(states[0], states[n]);
      }
      if forall k :: 0 <= k <= n ==> AdriftFrom(states[0], states[k]) {
        assert AdriftFrom(states[0], states[n - 1]) && AdriftFrom(states[0], states[n]);
        assert !Reclaims(states[n - 1], events[n - 1]);
      }
    }
  }

  predicate AdriftFrom(s: Sched, t: Sched) {
    Adrift(t) && t.current == s.current
  }

  /** Once a creation has taken the slot, the next call of `schedule` makes a switch again. */
  lemma SchedulingResumes(s: Sched)
    requires Adrift(s) && Reclaims(s, Created(true))
    ensures Schedule(Create(s, true)) != Create(s, true) && Schedule(Create(s, true)).table[s.current].state == Running
  {
    assert ReadyAt(Create(s, true).table, s.current, 0);
  }

  lemma StepInv(s: Sched, e: Event)
    requires Inv(s) && Enabled(s, e)
    ensures Inv(Step(s, e))
  {
    match e
    case Tick => ScheduleInv(s);
    case Created(gotStack) => CreateInv(s, gotStack);
    case Exited => ExitInv(s);
    case Freed(k) => FreeInv(s, k);
  }

  /**
   The slot that a step is about: the lowest unused one for a creation, the running one for an exit, the one named for a
   freeing, unless it has PID 0; none for a tick.
   */
  ghost predicate Concerns(s: Sched, e: Event, k: nat)
    requires Shaped(s) && k < 64
  {
    match e
    case Tick => false
    case Created(_) => s.table[k].state == Unused && forall j :: 0 <= j < k ==> s.table[j].state != Unused
    case Exited => k == s.current
    case Freed(j) => k == j && s.table[k].pid != 0
  }

  /** What becomes of that slot. */
  lemma StepConcerned(s: Sched, e: Event, k: nat)
    requires Inv(s) && Enabled(s, e) && k < 64 && Concerns(s, e, k)
    ensures Shaped(Step(s, e))
    ensures Step(s, e).table[k] ==
            match e
            case Created(gotStack) => Slot(if gotStack then Ready else Unused, s.nextPid)
            case Exited => Slot(Zombie, s.table[k].pid)
            case _ => Slot(Unused, 0)
  {
    match e
    case Created(_) =>
      assert FirstUnused(s.table) == k;
    case Exited => ExitInv(s);
    case Freed(_) =>
  }

  /**
   Every other slot is as it was, but that a tick and an exit pass the CPU on: a slot that can run still can, and takes
   no other part in it.
   */
  lemma StepSpares(s: Sched, e: Event, k: nat)
    requires Inv(s) && Enabled(s, e) && k < 64 && !Concerns(s, e, k)
    ensures Shaped(Step(s, e)) && Step(s, e).table[k].pid == s.table[k].pid
    ensures Runnable(s.table[k]) ==> Runnable(Step(s, e).table[k])
    ensures !Runnable(s.table[k]) || e.Created? || e.Freed? ==> Step(s, e).table[k] == s.table[k]
    ensures e.Created? || e.Freed? ==> Step(s, e).current == s.current
  {
    if e.Exited? {
      ExitInv(s);
    }
  }

  /** The PID counter moves by one exactly for a creation that finds a slot. */
  lemma StepCounts(s: Sched, e: Event)
    requires Inv(s) && Enabled(s, e)
    ensures Shaped(Step(s, e))
    ensures Step(s, e).nextPid == s.nextPid + if e.Created? && exists k :: 0 <= k < 64 && s.table[k].state == Unused then 1 else 0
  {
    var i := FirstUnused(s.table);
    assert i < 64 ==> s.table[i].state == Unused;
  }

  // ---- Whole runs ----

  ghost predicate IsRun(states: seq<Sched>, events: seq<Event>) {
    && |states| == |events| + 1
    && forall i :: 0 <= i < |events| ==>
         Shaped(states[i]) && Enabled(states[i], events[i]) && states[i + 1] == Step(states[i], events[i])
  }

  lemma {:induction false} InvForever(states: seq<Sched>, events: seq<Event>, i: nat)
    requires IsRun(states, events) && Inv(states[0]) && i < |states|
    ensures Inv(states[i])
  {
    if i > 0 {
      InvForever(states, events, i - 1);
      StepInv(states[i - 1], events[i - 1]);
    }
  }

  /** Every run from `process_init` keeps the invariant at every step. */
  lemma BootRuns(states: seq<Sched>, events: seq<Event>)
    requires IsRun(states, events) && states[0] == Boot()
    ensures forall i :: 0 <= i < |states| ==> Inv(states[i])
  {
    forall i | 0 <= i < |states| ensures Inv(states[i]) {
      InvForever(states, events, i);
    }
  }

  lemma ZombieStep(s: Sched, e: Event, k: nat)
    requires Inv(s) && Enabled(s, e) && k < 64 && s.table[k].state == Zombie && e != Freed(k)
    ensures Inv(Step(s, e)) && Step(s, e).table[k] == s.table[k]
  {
    StepInv(s, e);
  }

  lemma ZombieNext(states: seq<Sched>, events: seq<Event>, j: nat, k: nat)
    requires IsRun(states, events) && Inv(states[0]) && j < |events| && k < 64
    requires Shaped(states[j]) && states[j].table[k].state == Zombie && events[j] != Freed(k)
    ensures Shaped(states[j + 1]) && states[j + 1].table[k] == states[j].table[k]
  {
    InvForever(states, events, j);
    ZombieStep(states[j], events[j], k);
  }

  lemma {:induction false} ZombieKept(states: seq<Sched>, events: seq<Event>, i: nat, j: nat, k: nat)
    requires IsRun(states, events) && Inv(states[0]) && i <= j < |states| && k < 64
    requires Shaped(states[i]) && states[i].table[k].state == Zombie && Freed(k) !in events[i..j]
    ensures Shaped(states[j]) && states[j].table[k] == states[i].table[k]
  {
    if i < j {
      assert events[i..j] == events[i..j - 1] + [events[j - 1]];
      ZombieKept(states, events, i, j - 1, k);
      ZombieNext(states, events, j - 1, k);
    }
  }

  /** An exited thread never runs again: its slot stays as it is until it is freed. */
  lemma ZombieStays(states: seq<Sched>, events: seq<Event>, i: nat, j: nat, k: nat)
    requires IsRun(states, events) && Inv(states[0]) && i <= j < |states| && k < 64
    requires Shaped(states[i]) && states[i].table[k].state == Zombie && Freed(k) !in events[i..j]
    ensures Shaped(states[j]) && states[j].table[k] == states[i].table[k] && states[j].current != k
  {
    ZombieKept(states, events, i, j, k);
    InvForever(states, events, j);
  }

  predicate Live(s: Sched, k: nat)
    requires Shaped(s)
  {
    k < 64 && s.table[k].state != Unused
  }

  /** Every live PID of `t` that `s` could know, `s` knew, in the same slot. */
  ghost predicate Precedes(s: Sched, t: Sched) {
    && Shaped(s) && Shaped(t) && s.nextPid <= t.nextPid
    && forall k :: 0 <= k < 64 && Live(t, k) && t.table[k].pid < s.nextPid ==> Live(s, k) && s.table[k].pid == t.table[k].pid
  }

  lemma StepPrecedes(s: Sched, e: Event)
    requires Inv(s) && Enabled(s, e)
    ensures Precedes(s, Step(s, e))
  {
    StepInv(s, e);
  }

  lemma PrecedesChains(s: Sched, t: Sched, u: Sched)
    requires Precedes(s, t) && Precedes(t, u)
    ensures Precedes(s, u)
  {
  }

  lemma {:induction false} RunPrecedes(states: seq<Sched>, events: seq<Event>, i: nat, j: nat)
    requires IsRun(states, events) && Inv(states[0]) && i <= j < |states|
    ensures Precedes(states[i], states[j])
  {
    if i == j {
      InvForever(states, events, i);
    } else {
      RunPrecedes(states, events, i, j - 1);
      InvForever(states, events, j - 1);
      StepPrecedes(states[j - 1], events[j - 1]);
      PrecedesChains(states[i], states[j - 1], states[j]);
    }
  }

  /** A PID names one slot for the whole run: it is never given out again, not even after its thread is gone. */
  lemma PidNeverReused(states: seq<Sched>, events: seq<Event>, i: nat, j: nat, a: nat, b: nat)
    requires IsRun(states, events) && states[0] == Boot() && i <= j < |states|
    requires Shaped(states[i]) && Shaped(states[j]) && Live(states[i], a) && Live(states[j], b)
    requires states[i].table[a].pid == states[j].table[b].pid
    ensures a == b
    ensures forall m :: i <= m <= j ==> Shaped(states[m]) && Live(states[m], a) && states[m].table[a].pid == states[i].table[a].pid
  {
    InvForever(states, events, i);
    RunPrecedes(states, events, i, j);
    assert a == b;
    forall m | i <= m <= j
      ensures Shaped(states[m]) && Live(states[m], a) && states[m].table[a].pid == states[i].table[a].pid
    {
      RunPrecedes(states, events, i, m);
      RunPrecedes(states, events, m, j);
    }
  }

  // ---- Runs that go wrong ----

  lemma SecondSlotFirst(table: seq<Slot>)
    requires |table| == 64 && table[0].state != Unused && table[1].state == Unused
    ensures FirstUnused(table) == 1
  {
    assert FirstUnused(table) < 2;
  }

  /** A thread created at boot and switched to that frees itself: slot 1 is current and unused. */
  lemma SelfFreed()
    ensures var s := Schedule(Create(Boot(), true)); Inv(s) && s.current == 1 && s.table[1].pid == 1 && Adrift(Free(s, 1))
  {
    var c := Create(Boot(), true);
    SecondSlotFirst(Boot().table);
    assert c.table[1] == Slot(Ready, 1) && Inv(c);
    ScheduleLands(c, 1);
    ScheduleInv(c);
  }

  /** The table after `n` creations that found no stack: each has used up a PID. */
  function Wasted(n: nat): (s: Sched)
    ensures Shaped(s)
  {
    if n == 0 then Boot() else Sched(Boot().table[1 := Slot(Unused, n)], 0, n + 1)
  }

  lemma WastedRun(n: nat)
    requires n + 2 < TWO32
    ensures Enabled(Wasted(n), Created(false)) && Step(Wasted(n), Created(false)) == Wasted(n + 1)
  {
    SecondSlotFirst(Wasted(n).table);
  }

  lemma {:induction false} WastedReached(n: nat) returns (states: seq<Sched>, events: seq<Event>)
    requires n + 1 < TWO32
    ensures IsRun(states, events) && states[0] == Boot() && |events| == n && states[n] == Wasted(n)
  {
    if n == 0 {
      states, events := [Boot()], [];
    } else {
      states, events := WastedReached(n - 1);
      WastedRun(n - 1);
      states, events := states + [Wasted(n)], events + [Created(false)];
    }
  }

  /** A run from boot reaches the last PID; the next creation wraps the counter, and the one after has the kernel's PID. */
  lemma PidsWrap()
    ensures var s := Wasted(0xFFFF_FFFE);
            var t := Create(Create(s, true), true);
            Inv(s) && !Inv(Create(s, true)) && t.table[0].pid == t.table[2].pid == 0 && t.table[2].state == Ready
  {
    var states, events := WastedReached(0xFFFF_FFFE);
    assert Inv(Boot());
    InvForever(states, events, 0xFFFF_FFFE);
    var s := Wasted(0xFFFF_FFFE);
    SecondSlotFirst(s.table);
    CreateInv(s, true);
    var c := Create(s, true);
    assert c.nextPid == 0;
    ThirdSlotFirst(c.table);
  }

  lemma ThirdSlotFirst(table: seq<Slot>)
    requires |table| == 64 && table[0].state != Unused && table[1].state != Unused && table[2].state == Unused
    ensures FirstUnused(table) == 2
  {
    assert table[1..][1..] == table[2..];
  }

  // ---- Bounded waiting ----

  predicate IsCall(e: Event) {
    e.Tick? || e.Exited?
  }

  /** How often `schedule` is called. */
  function Calls(events: seq<Event>): nat {
    if events == [] then 0 else Calls(events[..|events| - 1]) + if IsCall(events[|events| - 1]) then 1 else 0
  }

  /** While slot `k` waits, every call of `schedule` brings the running slot closer to it. */
  lemma WaitFalls(s: Sched, e: Event, k: nat)
    requires Inv(s) && Enabled(s, e) && k < 64
    requires s.table[k].state == Ready && Step(s, e).table[k].state == Ready
    ensures Shaped(Step(s, e))
    ensures Dist(Step(s, e).current, k) + (if IsCall(e) then 1 else 0) <= Dist(s.current, k)
  {
    StepInv(s, e);
    match e
    case Tick => ScheduleLands(s, k);
    case Exited => ScheduleLands(s.(table := s.table[s.current := s.table[s.current].(state := Zombie)]), k);
    case Created(_) =>
    case Freed(_) =>
  }

  ghost predicate Waits(states: seq<Sched>, k: nat) {
    forall i :: 0 <= i < |states| ==> Inv(states[i]) && k < 64 && states[i].table[k].state == Ready
  }

  lemma {:induction false} CallsWhileWaiting(states: seq<Sched>, events: seq<Event>, k: nat, n: nat)
    requires IsRun(states, events) && Waits(states, k) && n <= |events|
    ensures Calls(events[..n]) + Dist(states[n].current, k) <= Dist(states[0].current, k)
  {
    if n > 0 {
      CallsWhileWaiting(states, events, k, n - 1);
      assert events[..n][..n - 1] == events[..n - 1];
      assert Inv(states[n - 1]) && Inv(states[n]) && states[n] == Step(states[n - 1], events[n - 1]);
      WaitFalls(states[n - 1], events[n - 1], k);
    }
  }

  /** No runnable thread waits through 63 calls of `schedule`, whatever else is created, exits or is freed. */
  lemma BoundedWait(states: seq<Sched>, events: seq<Event>, k: nat)
    requires IsRun(states, events) && Inv(states[0]) && k < 64
    requires forall i :: 0 <= i < |states| ==> Shaped(states[i]) && states[i].table[k].state == Ready
    ensures Calls(events) < Dist(states[0].current, k) <= 63
  {
    forall i | 0 <= i < |states| ensures Inv(states[i]) {
      InvForever(states, events, i);
    }
    CallsWhileWaiting(states, events, k, |events|);
    assert events[..|events|] == events;
  }

  /** The step takes slot `k` out of scheduling. */
  predicate Ends(s: Sched, e: Event, k: nat)
    requires Shaped(s) && k < 64
  {
    (e.Exited? && s.current == k) || (e == Freed(k) && s.table[k].pid != 0)
  }

  lemma StillRunnable(s: Sched, e: Event, k: nat)
    requires Inv(s) && Enabled(s, e) && k < 64 && Runnable(s.table[k]) && !Ends(s, e, k)
    ensures Inv(Step(s, e)) && Runnable(Step(s, e).table[k]) && Step(s, e).table[k].pid == s.table[k].pid
  {
    StepInv(s, e);
    StepSpares(s, e, k);
  }

  /** A thread that can run still can, in every later state of every run, until it exits or is freed. */
  lemma {:induction false} StaysRunnable(states: seq<Sched>, events: seq<Event>, k: nat, n: nat)
    requires IsRun(states, events) && Inv(states[0]) && k < 64 && Runnable(states[0].table[k]) && n < |states|
    requires forall i :: 0 <= i < n ==> Shaped(states[i]) && !Ends(states[i], events[i], k)
    ensures Inv(states[n]) && Runnable(states[n].table[k]) && states[n].table[k].pid == states[0].table[k].pid
  {
    if n > 0 {
      StaysRunnable(states, events, k, n - 1);
      assert states[n - 1 + 1] == Step(states[n - 1], events[n - 1]);
      StillRunnable(states[n - 1], events[n - 1], k);
    }
  }

  /** So it gets the CPU within 63 calls of `schedule`, whatever else is created, exits or is freed. */
  lemma GetsTheCpu(states: seq<Sched>, events: seq<Event>, k: nat)
    requires IsRun(states, events) && Inv(states[0]) && k < 64 && Runnable(states[0].table[k])
    requires forall i :: 0 <= i < |events| ==> Shaped(states[i]) && !Ends(states[i], events[i], k)
    requires Calls(events) >= 63
    ensures exists i :: 0 <= i < |states| && states[i].current == k
  {
    if forall i :: 0 <= i < |states| ==> states[i].current != k {
      forall i | 0 <= i < |states| ensures Shaped(states[i]) && states[i].table[k].state == Ready {
        StaysRunnable(states, events, k, i);
        assert states[i].current != k;
      }
      BoundedWait(states, events, k);
    }
  }

  // ---- Round robin ----

  function Ticks(s: Sched, n: nat): (t: Sched)
    requires Shaped(s)
    ensures Shaped(t)
  {
    if n == 0 then s else Schedule(Ticks(s, n - 1))
  }

  ghost function Runners(s: Sched): set<nat>
    requires Shaped(s)
  {
    set k: nat | k < 64 && Runnable(s.table[k])
  }

  lemma ScheduleRunners(s: Sched)
    requires Inv(s)
    ensures Runners(Schedule(s)) == Runners(s) && s.current in Runners(s)
  {
    var t := Schedule(s);
    forall k: nat | k < 64 ensures Runnable(t.table[k]) == Runnable(s.table[k]) {
    }
  }

  lemma ScheduleKeeps(s: Sched)
    requires Inv(s)
    ensures Inv(Schedule(s)) && Runners(Schedule(s)) == Runners(s) && Schedule(s).current in Runners(s)
  {
    ScheduleInv(s);
    ScheduleRunners(s);
    ScheduleRunners(Schedule(s));
  }

  lemma {:induction false} TicksKeep(s: Sched, n: nat)
    requires Inv(s)
    ensures Inv(Ticks(s, n)) && Runners(Ticks(s, n)) == Runners(s) && Ticks(s, n).current in Runners(s)
  {
    if n == 0 {
      ScheduleRunners(s);
    } else {
      TicksKeep(s, n - 1);
      var t := Ticks(s, n - 1);
      assert Ticks(s, n) == Schedule(t);
      ScheduleKeeps(t);
    }
  }

  // The cyclic order of a set of slots, counted from slot `c0`.

  predicate Slots(r: set<nat>) {
    forall x :: x in r ==> x < 64
  }

  /** Measured from a third slot, the scan passes the later slots first and then wraps. */
  lemma DistFrom(c0: nat, c: nat, x: nat)
    requires c0 < 64 && c < 64 && x < 64
    ensures Dist(c, x) == Dist(c0, x) - Dist(c0, c) + if Dist(c0, x) < Dist(c0, c) then 64 else 0
  {
  }

  ghost function Before(r: set<nat>, c0: nat, c: nat): set<nat>
    requires Slots(r) && c0 < 64 && c < 64
  {
    set x: nat | x in r && Dist(c0, x) < Dist(c0, c)
  }

  ghost predicate IsLast(r: set<nat>, c0: nat, c: nat)
    requires Slots(r) && c0 < 64 && c < 64
  {
    forall x :: x in r ==> Dist(c0, x) <= Dist(c0, c)
  }

  lemma RankIsLast(r: set<nat>, c0: nat, c: nat)
    requires Slots(r) && c0 < 64 && c in r
    ensures |Before(r, c0, c)| + 1 <= |r|
    ensures |Before(r, c0, c)| + 1 == |r| <==> IsLast(r, c0, c)
  {
    var upTo := Before(r, c0, c) + {c};
    SmallerSet(upTo, r);
    if IsLast(r, c0, c) {
      assert upTo == r;
    } else {
      var x :| x in r && Dist(c0, x) > Dist(c0, c);
      SmallerSet(upTo + {x}, r);
    }
  }

  /** The nearest other slot of `r` after `c` is the next in cyclic order from `c0`, or `c0` itself after the last. */
  lemma NearestIsNext(r: set<nat>, c0: nat, c: nat, n: nat)
    requires Slots(r) && c0 in r && c in r && n in r && n != c
    requires forall x :: x in r && x != c ==> Dist(c, n) <= Dist(c, x)
    ensures IsLast(r, c0, c) ==> n == c0
    ensures !IsLast(r, c0, c) ==> Before(r, c0, n) == Before(r, c0, c) + {c}
  {
    forall x | x in r && x != c
      ensures Dist(c, n) <= Dist(c, x) == Dist(c0, x) - Dist(c0, c) + if Dist(c0, x) < Dist(c0, c) then 64 else 0
      ensures Dist(c0, x) != Dist(c0, c)
    {
      DistFrom(c0, c, x);
    }
  }

  /** `c` starts in `r` and moves, at each step, to the nearest other slot of `r`; `|r|` steps in all. */
  ghost predicate Tour(r: set<nat>, c: seq<nat>) {
    && Slots(r) && |c| == |r| + 1 >= 3
    && (forall j :: 0 <= j < |c| ==> c[j] in r)
    && (forall j :: 0 <= j < |r| ==> Nearest(r, c[j], c[j + 1]))
  }

  ghost predicate Nearest(r: set<nat>, c: nat, n: nat)
    requires Slots(r)
  {
    c in r && n in r && n != c && forall x :: x in r && x != c ==> Dist(c, n) <= Dist(c, x)
  }

  ghost predicate RankIs(r: set<nat>, c: seq<nat>, j: nat)
    requires Tour(r, c) && j < |r|
  {
    |Before(r, c[0], c[j])| == j
  }

  /** After the last slot in cyclic order the tour is back where it began; before, it is one further on. */
  lemma RankStep(r: set<nat>, c: seq<nat>, j: nat)
    requires Tour(r, c) && j < |r| && RankIs(r, c, j)
    ensures j + 1 == |r| ==> c[j + 1] == c[0] && IsLast(r, c[0], c[j])
    ensures j + 1 < |r| ==> RankIs(r, c, j + 1) && Before(r, c[0], c[j + 1]) == Before(r, c[0], c[j]) + {c[j]}
  {
    RankIsLast(r, c[0], c[j]);
    assert Nearest(r, c[j], c[j + 1]);
    NearestIsNext(r, c[0], c[j], c[j + 1]);
  }

  /** After `j` steps, fewer than there are slots, the tour is at the `j`-th slot in cyclic order. */
  lemma {:induction false} RankAfter(r: set<nat>, c: seq<nat>, j: nat)
    requires Tour(r, c) && j < |r|
    ensures RankIs(r, c, j)
  {
    if j == 0 {
      assert Before(r, c[0], c[0]) == {};
    } else {
      RankAfter(r, c, j - 1);
      RankStep(r, c, j - 1);
    }
  }

  lemma {:induction false} VisitedBefore(r: set<nat>, c: seq<nat>, j: nat, x: nat)
    requires Tour(r, c) && j < |r| && x in Before(r, c[0], c[j])
    ensures exists i :: 0 <= i < j && c[i] == x
  {
    RankAfter(r, c, j);
    if j > 0 {
      RankAfter(r, c, j - 1);
      RankStep(r, c, j - 1);
      if c[j - 1] != x {
        VisitedBefore(r, c, j - 1, x);
      }
    }
  }

  lemma TourDistinct(r: set<nat>, c: seq<nat>, i: nat, j: nat)
    requires Tour(r, c) && 1 <= i < j <= |r|
    ensures c[i] != c[j]
  {
    RankAfter(r, c, i);
    RankAfter(r, c, j - 1);
    if j < |r| {
      RankAfter(r, c, j);
    } else {
      RankStep(r, c, j - 1);
      assert Before(r, c[0], c[0]) == {};
    }
  }

  /** A tour visits every slot. */
  lemma TourVisits(r: set<nat>, c: seq<nat>, x: nat)
    requires Tour(r, c) && x in r
    ensures exists i :: 1 <= i <= |r| && c[i] == x
  {
    var n := |r|;
    RankAfter(r, c, n - 1);
    RankStep(r, c, n - 1);
    if x == c[0] {
      assert c[n] == x;
    } else if x != c[n - 1] {
      assert Dist(c[0], x) <= Dist(c[0], c[n - 1]);
      assert x in Before(r, c[0], c[n - 1]);
      VisitedBefore(r, c, n - 1, x);
      var i :| 0 <= i < n - 1 && c[i] == x;
      assert i != 0;
    }
  }

  /** A tick moves to the nearest other runnable slot. */
  lemma TickMoves(s: Sched)
    requires Inv(s) && |Runners(s)| >= 2
    ensures Nearest(Runners(s), s.current, Schedule(s).current)
  {
    ScheduleRunners(s);
    assert |Runners(s) - {s.current}| >= 1;
    var y :| y in Runners(s) - {s.current};
    ScheduleLands(s, y);
  }

  lemma TicksNearest(s: Sched, j: nat)
    requires Inv(s) && |Runners(s)| >= 2
    ensures Ticks(s, j).current in Runners(s)
    ensures Nearest(Runners(s), Ticks(s, j).current, Ticks(s, j + 1).current)
  {
    TicksKeep(s, j);
    TickMoves(Ticks(s, j));
  }

  /** The `n`-th tick gives the CPU to slot `x`. */
  ghost predicate Dispatches(s: Sched, n: nat, x: nat)
    requires Shaped(s)
  {
    Ticks(s, n).current == x
  }

  /** The running slots after 0, 1, ..., `n` ticks. */
  ghost function Currents(s: Sched, n: nat): (c: seq<nat>)
    requires Shaped(s)
    ensures |c| == n + 1
  {
    if n == 0 then [s.current] else Currents(s, n - 1) + [Ticks(s, n).current]
  }

  lemma {:induction false} CurrentsAt(s: Sched, n: nat, i: nat)
    requires Shaped(s) && i <= n
    ensures Dispatches(s, i, Currents(s, n)[i])
  {
    if i < n {
      CurrentsAt(s, n - 1, i);
    }
  }

  lemma CurrentsNearest(s: Sched, n: nat, j: nat)
    requires Inv(s) && |Runners(s)| >= 2 && j < n
    ensures Nearest(Runners(s), Currents(s, n)[j], Currents(s, n)[j + 1])
  {
    CurrentsAt(s, n, j);
    CurrentsAt(s, n, j + 1);
    TicksNearest(s, j);
  }

  lemma TicksTour(s: Sched)
    requires Inv(s) && |Runners(s)| >= 2
    ensures Tour(Runners(s), Currents(s, |Runners(s)|))
    ensures Currents(s, |Runners(s)|)[0] == s.current
  {
    var n := |Runners(s)|;
    var c := Currents(s, n);
    CurrentsAt(s, n, 0);
    forall j | 0 <= j < |c| ensures c[j] in Runners(s) {
      CurrentsAt(s, n, j);
      TicksKeep(s, j);
    }
    forall j | 0 <= j < n ensures Nearest(Runners(s), c[j], c[j + 1]) {
      CurrentsNearest(s, n, j);
    }
  }

  /**
   * Round robin: with N runnable threads, N at least 2, every one of them is dispatched exactly once in N ticks,
   * and the last of these ticks gives the CPU back to the thread that had it.
   */
  lemma RoundRobin(s: Sched)
    requires Inv(s) && |Runners(s)| >= 2
    ensures Dispatches(s, |Runners(s)|, s.current)
    ensures forall x :: x in Runners(s) ==> exists i :: 1 <= i <= |Runners(s)| && Dispatches(s, i, x)
    ensures forall i, j, x :: 1 <= i < j <= |Runners(s)| && Dispatches(s, i, x) ==> !Dispatches(s, j, x)
  {
    var n, r := |Runners(s)|, Runners(s);
    var c := Currents(s, n);
    TicksTour(s);
    RankAfter(r, c, n - 1);
    RankStep(r, c, n - 1);
    CurrentsAt(s, n, n);
    forall x | x in r ensures exists i :: 1 <= i <= n && Dispatches(s, i, x) {
      TourVisits(r, c, x);
      var i :| 1 <= i <= n && c[i] == x;
      CurrentsAt(s, n, i);
    }
    forall i, j, x | 1 <= i < j <= n && Dispatches(s, i, x) ensures !Dispatches(s, j, x) {
      TourDistinct(r, c, i, j);
      CurrentsAt(s, n, i);
      CurrentsAt(s, n, j);
    }
  }
}
