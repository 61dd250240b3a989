/** boot/context_switch.asm and kthread_create: the swap of kernel stacks, and what a resumed thread finds. */
module ContextSwitch {
  import opened Words
  import opened Scheduler

  /** Memory as 32-bit words by byte address; every address used below is a multiple of 4. */
  type Memory = map<nat, nat>

  function Read(mem: Memory, a: nat): nat {
    if a in mem then mem[a] else 0
  }

  /** The registers `context_switch` keeps, and the program counter. */
  datatype Registers = Registers(esp: nat, ebp: nat, ebx: nat, esi: nat, edi: nat, eip: nat)

  datatype Machine = Machine(mem: Memory, regs: Registers)

  /** The registers that popping four of them and returning from stack pointer `p` gives. */
  function Unpack(mem: Memory, p: nat): Registers {
    Registers(Wrap(p + 20), Read(mem, Wrap(p + 12)), Read(mem, Wrap(p + 8)), Read(mem, Wrap(p + 4)), Read(mem, p),
              Read(mem, Wrap(p + 16)))
  }

  /** Memory after the four pushes and the save of esp; the first argument of the call is the address it is saved at. */
  function Parked(m: Machine): Memory {
    var r := m.regs;
    m.mem[Wrap(r.esp - 4) := r.ebp][Wrap(r.esp - 8) := r.ebx][Wrap(r.esp - 12) := r.esi][Wrap(r.esp - 16) := r.edi]
    [Read(m.mem, Wrap(r.esp + 4)) := Wrap(r.esp - 16)]
  }

  /** `context_switch`, from its first instruction to the one its `ret` reaches; its second argument is the new esp. */
  function Switch(m: Machine): Machine {
    Machine(Parked(m), Unpack(Parked(m), Read(m.mem, Wrap(m.regs.esp + 8))))
  }

  class Cpu {
    var mem: Memory
    var esp: nat
    var ebp: nat
    var ebx: nat
    var esi: nat
    var edi: nat
    var eip: nat

    ghost function View(): Machine
      reads this
    {
      Machine(mem, Registers(esp, ebp, ebx, esi, edi, eip))
    }

    method Push(v: nat)
      modifies this`mem, this`esp
      ensures esp == Wrap(old(esp) - 4) && mem == old(mem)[esp := v]
    {
      esp := Wrap(esp - 4);
      mem := mem[esp := v];
    }

    method Pop() returns (v: nat)
      modifies this`esp
      ensures v == Read(mem, old(esp)) && esp == Wrap(old(esp) + 4)
    {
      v := Read(mem, esp);
      esp := Wrap(esp + 4);
    }

    method SaveRegisters()
      modifies this`mem, this`esp
      ensures esp == Wrap(old(esp) - 16)
      ensures mem == old(mem[Wrap(esp - 4) := ebp][Wrap(esp - 8) := ebx][Wrap(esp - 12) := esi][Wrap(esp - 16) := edi])
    {
      WrapSum(esp - 4, -4);
      WrapSum(esp - 8, -4);
      WrapSum(esp - 12, -4);
      Push(ebp);
      Push(ebx);
      Push(esi);
      Push(edi);
    }

    method LoadRegisters()
      modifies this`esp, this`ebp, this`ebx, this`esi, this`edi, this`eip
      ensures Registers(esp, ebp, ebx, esi, edi, eip) == Unpack(mem, old(esp))
    {
      WrapSum(esp + 4, 4);
      WrapSum(esp + 8, 4);
      WrapSum(esp + 12, 4);
      WrapSum(esp + 16, 4);
      edi := Pop();
      esi := Pop();
      ebx := Pop();
      ebp := Pop();
      eip := Pop();
    }

    /** `context_switch`. */
    method SwitchStacks()
      modifies this
      ensures View() == Switch(old(View()))
    {
      var eax := Read(mem, Wrap(esp + 4));
      var ecx := Read(mem, Wrap(esp + 8));
      SaveRegisters();
      mem := mem[eax := esp];
      esp := ecx;
      LoadRegisters();
    }

    /** The frame `kthread_create` builds at the top of a new stack; `sp` is the saved kernel esp. */
    method BuildFrame(stack: nat, entry: nat, trampoline: nat) returns (sp: nat)
      requires stack + 8192 < TWO32
      modifies this`mem
      ensures sp == stack + 8168 && mem == WithFrame(old(mem), stack, entry, trampoline)
    {
      sp := stack + 8192;
      sp := sp - 4;
      mem := mem[sp := 0];
      sp := sp - 4;
      mem := mem[sp := trampoline];
      sp := sp - 4;
      mem := mem[sp := 0];
      sp := sp - 4;
      mem := mem[sp := entry];
      sp := sp - 4;
      mem := mem[sp := 0];
      sp := sp - 4;
      mem := mem[sp := 0];
    }
  }

  /** Memory with the six words at the top of a new thread's stack. */
  function WithFrame(mem: Memory, stack: nat, entry: nat, trampoline: nat): Memory {
    mem[stack + 8188 := 0][stack + 8184 := trampoline][stack + 8180 := 0]
    [stack + 8176 := entry][stack + 8172 := 0][stack + 8168 := 0]
  }

  // ---- The machine under the scheduler ----

  datatype Stack = Stack(lo: nat, hi: nat)

  /** Where the process table lies, and the address of `kthread_trampoline`. */
  datatype Layout = Layout(table: nat, trampoline: nat)

  datatype System = System(sched: Sched, stacks: seq<Stack>, machine: Machine)

  /** The address of `kernel_esp` in slot `k`: 120 bytes into a record of 136. */
  function Cell(l: Layout, k: nat): nat {
    l.table + 136 * k + 120
  }

  predicate InTable(l: Layout, a: nat) {
    l.table <= a < l.table + 136 * 64
  }

  predicate In(st: Stack, a: nat) {
    st.lo <= a < st.hi
  }

  predicate Apart(st: Stack, other: Stack) {
    st.hi <= other.lo || other.hi <= st.lo
  }

  /** A stack inside the address space that does not meet the process table. */
  predicate Sound(l: Layout, st: Stack) {
    st.lo <= st.hi < TWO32 && (st.hi <= l.table || l.table + 136 * 64 <= st.lo)
  }

  /** What slot `k` will find in its registers when it is next switched to. */
  function Saved(l: Layout, s: System, k: nat): Registers {
    Unpack(s.machine.mem, Read(s.machine.mem, Cell(l, k)))
  }

  /** The saved esp of slot `k` points at a whole frame on its own stack. */
  predicate Resumable(l: Layout, s: System, k: nat)
    requires k < |s.stacks|
  {
    var p := Read(s.machine.mem, Cell(l, k));
    s.stacks[k].lo <= p && p + 20 <= s.stacks[k].hi
  }

  predicate Alive(s: System, k: nat)
    requires Shaped(s.sched)
  {
    k < 64 && s.sched.table[k].state != Unused
  }

  /** Live threads have disjoint stacks, and every one that is not running can be resumed. */
  ghost predicate Ok(l: Layout, s: System) {
    && Scheduler.Inv(s.sched)
    && |s.stacks| == 64
    && (forall k :: 0 <= k < 64 && Alive(s, k) ==> Sound(l, s.stacks[k]))
    && (forall j, k :: 0 <= j < k < 64 && Alive(s, j) && Alive(s, k) ==> Apart(s.stacks[j], s.stacks[k]))
    && (forall k :: 0 <= k < 64 && Alive(s, k) && k != s.sched.current ==> Resumable(l, s, k))
  }

  /** A step of the running thread, or of the kernel on its behalf; or a call into the process code. */
  datatype Action = Work(next: Machine) | Call(exiting: bool) | Spawn(stack: nat, entry: nat, gotStack: bool) | Reap(slot: nat)

  /** The running thread may change its registers and any memory but other threads' stacks and the process table. */
  ghost predicate Respects(l: Layout, s: System, next: Memory)
    requires Shaped(s.sched) && |s.stacks| == 64
  {
    && (forall a: nat :: InTable(l, a) ==> Read(next, a) == Read(s.machine.mem, a))
    && (forall k, a: nat :: 0 <= k < 64 && Alive(s, k) && k != s.sched.current && In(s.stacks[k], a) ==>
          Read(next, a) == Read(s.machine.mem, a))
  }

  function Rescheduled(s: Sched, exiting: bool): Sched
    requires Shaped(s)
  {
    if exiting then Exit(s) else Schedule(s)
  }

  /** At a call of `context_switch`: room for four words, the return address and the arguments are on the stack. */
  predicate Calling(l: Layout, s: System, next: nat)
    requires Shaped(s.sched) && |s.stacks| == 64
  {
    var e, mem, st := s.machine.regs.esp, s.machine.mem, s.stacks[s.sched.current];
    && st.lo + 16 <= e && e + 12 <= st.hi && e % 4 == 0
    && Read(mem, e + 4) == Cell(l, s.sched.current)
    && Read(mem, e + 8) == Read(mem, Cell(l, next))
  }

  ghost predicate Possible(l: Layout, s: System, a: Action)
    requires Shaped(s.sched) && |s.stacks| == 64
  {
    match a
    case Work(next) => Respects(l, s, next.mem)
    case Call(exiting) =>
      && Enabled(s.sched, if exiting then Exited else Tick)
      && (Rescheduled(s.sched, exiting).current != s.sched.current ==>
            Calling(l, s, Rescheduled(s.sched, exiting).current))
    case Spawn(stack, _, gotStack) =>
      && Enabled(s.sched, Created(gotStack))
      && Sound(l, Stack(stack, stack + 8192)) && stack % 4 == 0
      && (forall k :: 0 <= k < 64 && Alive(s, k) ==> Apart(s.stacks[k], Stack(stack, stack + 8192)))
    case Reap(k) => Enabled(s.sched, Freed(k))
  }

  function Next(l: Layout, s: System, a: Action): System
    requires Shaped(s.sched) && |s.stacks| == 64 && (a.Reap? ==> a.slot < 64)
  {
    match a
    case Work(next) => s.(machine := next)
    case Call(exiting) =>
      var t := Rescheduled(s.sched, exiting);
      s.(sched := t, machine := if t.current == s.sched.current then s.machine else Switch(s.machine))
    case Spawn(stack, entry, gotStack) =>
      var k := FirstUnused(s.sched.table);
      var t := s.(sched := Create(s.sched, gotStack));
      if k == 64 then t
      else if !gotStack then t.(machine := s.machine.(mem := s.machine.mem[Cell(l, k) := 0]))
      else
        var mem := WithFrame(s.machine.mem, stack, entry, l.trampoline)[Cell(l, k) := stack + 8168];
        t.(stacks := s.stacks[k := Stack(stack, stack + 8192)], machine := s.machine.(mem := mem))
    case Reap(k) =>
      if s.sched.table[k].pid == 0 then s
      else s.(sched := Free(s.sched, k), machine := s.machine.(mem := s.machine.mem[Cell(l, k) := 0]))
  }

  /** The registers and return address with which the call of `context_switch` at `m` is to come back. */
  function Returned(m: Machine): Registers {
    m.regs.(esp := m.regs.esp + 4, eip := Read(m.mem, m.regs.esp))
  }

  /** What parking leaves on the caller's stack unpacks to what its call is to return with. */
  lemma ParkUnpacks(m: Machine, cell: nat)
    requires 16 <= m.regs.esp && m.regs.esp + 12 < TWO32 && cell == Read(m.mem, m.regs.esp + 4)
    requires cell < m.regs.esp - 16 || m.regs.esp + 4 <= cell
    ensures Read(Parked(m), cell) == m.regs.esp - 16
    ensures Unpack(Parked(m), m.regs.esp - 16) == Returned(m)
  {
    var e := m.regs.esp;
    assert Wrap(e - 4) == e - 4 && Wrap(e - 8) == e - 8 && Wrap(e - 12) == e - 12 && Wrap(e - 16) == e - 16;
    assert Wrap(e + 4) == e + 4 && Wrap(e) == e;
  }

  /** Parking writes only the four words below esp and the cell the call names. */
  lemma ParkSpares(m: Machine, a: nat)
    requires 16 <= m.regs.esp && m.regs.esp + 12 < TWO32
    requires a != Read(m.mem, m.regs.esp + 4) && (a < m.regs.esp - 16 || m.regs.esp <= a)
    ensures Read(Parked(m), a) == Read(m.mem, a)
  {
  }

  /** A parked frame is safe from every change outside its stack and its cell. */
  lemma FrameKept(l: Layout, s: System, t: System, k: nat)
    requires k < |s.stacks| == |t.stacks| && t.stacks[k] == s.stacks[k] && Sound(l, s.stacks[k]) && Resumable(l, s, k)
    requires Read(t.machine.mem, Cell(l, k)) == Read(s.machine.mem, Cell(l, k))
    requires forall a: nat :: In(s.stacks[k], a) ==> Read(t.machine.mem, a) == Read(s.machine.mem, a)
    ensures Resumable(l, t, k) && Saved(l, t, k) == Saved(l, s, k)
  {
    var p := Read(s.machine.mem, Cell(l, k));
    assert Wrap(p + 4) == p + 4 && Wrap(p + 8) == p + 8 && Wrap(p + 12) == p + 12 && Wrap(p + 16) == p + 16;
  }

  /** `k` is parked in `s` and lies there untouched in `t`. */
  ghost predicate StillParked(l: Layout, s: System, t: System, k: nat)
    requires Shaped(s.sched) && Shaped(t.sched) && |s.stacks| == 64 && |t.stacks| == 64
  {
    && Alive(t, k) && t.stacks[k] == s.stacks[k] && Resumable(l, t, k) && Saved(l, t, k) == Saved(l, s, k)
    && (forall a: nat :: In(s.stacks[k], a) ==> Read(t.machine.mem, a) == Read(s.machine.mem, a))
  }

  lemma WorkKeeps(l: Layout, s: System, next: Machine, k: nat)
    requires Ok(l, s) && Possible(l, s, Work(next)) && Alive(s, k) && k != s.sched.current
    ensures StillParked(l, s, Next(l, s, Work(next)), k)
  {
    assert InTable(l, Cell(l, k));
    FrameKept(l, s, Next(l, s, Work(next)), k);
  }

  lemma SpawnKeeps(l: Layout, s: System, a: Action, k: nat)
    requires Ok(l, s) && a.Spawn? && Possible(l, s, a) && Alive(s, k) && k != s.sched.current
    ensures Shaped(Next(l, s, a).sched) && StillParked(l, s, Next(l, s, a), k)
  {
    FrameKept(l, s, Next(l, s, a), k);
  }

  lemma ReapKeeps(l: Layout, s: System, a: Action, k: nat)
    requires Ok(l, s) && a.Reap? && Possible(l, s, a) && Alive(s, k) && k != s.sched.current && k != a.slot
    ensures Shaped(Next(l, s, a).sched) && StillParked(l, s, Next(l, s, a), k)
  {
    FrameKept(l, s, Next(l, s, a), k);
  }

  lemma RescheduledKeeps(s: Sched, exiting: bool)
    requires Inv(s) && Enabled(s, if exiting then Exited else Tick)
    ensures Inv(Rescheduled(s, exiting))
    ensures forall k :: 0 <= k < 64 ==> (s.table[k].state == Unused <==> Rescheduled(s, exiting).table[k].state == Unused)
  {
    StepInv(s, if exiting then Exited else Tick);
  }

  /** The words of another thread's stack and cell survive the caller's parking. */
  lemma ParkSparesThread(l: Layout, s: System, next: nat, k: nat)
    requires Ok(l, s) && next < 64 && Calling(l, s, next) && Alive(s, k) && k != s.sched.current
    ensures Read(Parked(s.machine), Cell(l, k)) == Read(s.machine.mem, Cell(l, k))
    ensures forall a: nat :: In(s.stacks[k], a) ==> Read(Parked(s.machine), a) == Read(s.machine.mem, a)
  {
    assert Alive(s, s.sched.current);
    ParkSpares(s.machine, Cell(l, k));
    forall a: nat | In(s.stacks[k], a) ensures Read(Parked(s.machine), a) == Read(s.machine.mem, a) {
      ParkSpares(s.machine, a);
    }
  }

  lemma CallKeeps(l: Layout, s: System, exiting: bool, k: nat)
    requires Ok(l, s) && Possible(l, s, Call(exiting)) && Alive(s, k) && k != s.sched.current
    ensures Shaped(Next(l, s, Call(exiting)).sched) && StillParked(l, s, Next(l, s, Call(exiting)), k)
  {
    RescheduledKeeps(s.sched, exiting);
    var next := Rescheduled(s.sched, exiting).current;
    if next != s.sched.current {
      ParkSparesThread(l, s, next, k);
      FrameKept(l, s, Next(l, s, Call(exiting)), k);
    }
  }

  lemma CallerParked(l: Layout, s: System, next: nat)
    requires Ok(l, s) && next < 64 && Calling(l, s, next)
    ensures Read(Parked(s.machine), Cell(l, s.sched.current)) == s.machine.regs.esp - 16
    ensures Unpack(Parked(s.machine), s.machine.regs.esp - 16) == Returned(s.machine)
  {
    assert Alive(s, s.sched.current);
    ParkUnpacks(s.machine, Cell(l, s.sched.current));
  }

  lemma NextLoaded(l: Layout, s: System, next: nat)
    requires Ok(l, s) && Alive(s, next) && next != s.sched.current && Calling(l, s, next)
    ensures Switch(s.machine).regs == Saved(l, s, next)
  {
    var t := s.(machine := Switch(s.machine));
    assert Alive(s, s.sched.current);
    assert Wrap(s.machine.regs.esp + 8) == s.machine.regs.esp + 8;
    ParkSparesThread(l, s, next, next);
    FrameKept(l, s, t, next);
  }

  /** A call that switches: the caller is parked with what it is to return with, the next thread gets what it had saved. */
  lemma CallSwitches(l: Layout, s: System, exiting: bool)
    requires Ok(l, s) && Possible(l, s, Call(exiting))
    requires Rescheduled(s.sched, exiting).current != s.sched.current
    ensures var t := Next(l, s, Call(exiting));
            && Saved(l, t, s.sched.current) == Returned(s.machine)
            && Resumable(l, t, s.sched.current)
            && t.machine.regs == Saved(l, s, t.sched.current)
  {
    var next := Rescheduled(s.sched, exiting).current;
    RescheduledKeeps(s.sched, exiting);
    CallerParked(l, s, next);
    NextLoaded(l, s, next);
  }

  /** The caller's stack, from its esp upwards, survives its own parking. */
  lemma CallerStackKept(l: Layout, s: System, next: nat, a: nat)
    requires Ok(l, s) && next < 64 && Calling(l, s, next)
    requires s.machine.regs.esp <= a < s.stacks[s.sched.current].hi
    ensures Read(Switch(s.machine).mem, a) == Read(s.machine.mem, a)
  {
    assert Alive(s, s.sched.current);
    ParkSpares(s.machine, a);
  }

  lemma FrameUnpacks(mem: Memory, stack: nat, entry: nat, trampoline: nat, cell: nat, v: nat)
    requires stack + 8192 < TWO32 && (cell < stack || stack + 8192 <= cell)
    ensures Unpack(WithFrame(mem, stack, entry, trampoline)[cell := v], stack + 8168) ==
            Registers(stack + 8188, 0, entry, 0, 0, trampoline)
  {
    var p := stack + 8168;
    assert Wrap(p + 4) == p + 4 && Wrap(p + 8) == p + 8 && Wrap(p + 12) == p + 12 && Wrap(p + 16) == p + 16 && Wrap(p + 20) == p + 20;
  }

  /** A new thread is parked so that its first resume reaches the trampoline with its entry point in ebx. */
  lemma SpawnParks(l: Layout, s: System, stack: nat, entry: nat)
    requires Ok(l, s) && Possible(l, s, Spawn(stack, entry, true)) && FirstUnused(s.sched.table) < 64
    ensures var t, k := Next(l, s, Spawn(stack, entry, true)), FirstUnused(s.sched.table);
            && Resumable(l, t, k)
            && Saved(l, t, k) == Registers(stack + 8188, 0, entry, 0, 0, l.trampoline)
  {
    FrameUnpacks(s.machine.mem, stack, entry, l.trampoline, Cell(l, FirstUnused(s.sched.table)), stack + 8168);
  }

  lemma NextKeeps(l: Layout, s: System, a: Action, k: nat)
    requires Ok(l, s) && Possible(l, s, a) && Alive(s, k) && k != s.sched.current && a != Reap(k)
    ensures Shaped(Next(l, s, a).sched) && StillParked(l, s, Next(l, s, a), k)
  {
    match a
    case Work(next) => WorkKeeps(l, s, next, k);
    case Call(exiting) => CallKeeps(l, s, exiting, k);
    case Spawn(_, _, _) => SpawnKeeps(l, s, a, k);
    case Reap(_) => ReapKeeps(l, s, a, k);
  }

  lemma CallOk(l: Layout, s: System, exiting: bool)
    requires Ok(l, s) && Possible(l, s, Call(exiting))
    ensures Ok(l, Next(l, s, Call(exiting)))
  {
    var t := Next(l, s, Call(exiting));
    RescheduledKeeps(s.sched, exiting);
    if t.sched.current != s.sched.current {
      CallSwitches(l, s, exiting);
    }
    forall k | 0 <= k < 64 && Alive(t, k) && k != t.sched.current ensures Resumable(l, t, k) {
      if k != s.sched.current {
        CallKeeps(l, s, exiting, k);
      }
    }
  }

  lemma SpawnOk(l: Layout, s: System, a: Action)
    requires Ok(l, s) && a.Spawn? && Possible(l, s, a)
    ensures Ok(l, Next(l, s, a))
  {
    var t := Next(l, s, a);
    StepInv(s.sched, Created(a.gotStack));
    if a.gotStack && FirstUnused(s.sched.table) < 64 {
      SpawnParks(l, s, a.stack, a.entry);
    }
    forall k | 0 <= k < 64 && Alive(t, k) && k != t.sched.current ensures Resumable(l, t, k) {
      if Alive(s, k) {
        SpawnKeeps(l, s, a, k);
      }
    }
  }

  lemma NextOk(l: Layout, s: System, a: Action)
    requires Ok(l, s) && Possible(l, s, a)
    ensures Ok(l, Next(l, s, a))
  {
    var t := Next(l, s, a);
    match a
    case Work(next) =>
      forall k | 0 <= k < 64 && Alive(t, k) && k != t.sched.current ensures Resumable(l, t, k) {
        WorkKeeps(l, s, next, k);
      }
    case Call(exiting) => CallOk(l, s, exiting);
    case Spawn(_, _, _) => SpawnOk(l, s, a);
    case Reap(slot) =>
      StepInv(s.sched, Freed(slot));
      forall k | 0 <= k < 64 && Alive(t, k) && k != t.sched.current ensures Resumable(l, t, k) {
        if k != slot {
          ReapKeeps(l, s, a, k);
        }
      }
  }

  // ---- Whole runs ----

  ghost predicate IsRun(l: Layout, states: seq<System>, actions: seq<Action>) {
    && |states| == |actions| + 1
    && forall i :: 0 <= i < |actions| ==>
         && Shaped(states[i].sched) && |states[i].stacks| == 64
         && Possible(l, states[i], actions[i]) && states[i + 1] == Next(l, states[i], actions[i])
  }

  /** The state `process_init` leaves: PID 0 alone, on the boot stack. */
  lemma BootOk(l: Layout, s: System)
    requires s.sched == Boot() && |s.stacks| == 64 && Sound(l, s.stacks[0])
    ensures Ok(l, s)
  {
    assert forall k :: 0 <= k < 64 && Alive(s, k) ==> k == 0;
  }

  /** In every run live threads keep disjoint stacks, and every one that is not running can be resumed. */
  lemma {:induction false} OkForever(l: Layout, states: seq<System>, actions: seq<Action>, i: nat)
    requires IsRun(l, states, actions) && Ok(l, states[0]) && i < |states|
    ensures Ok(l, states[i])
  {
    if i > 0 {
      OkForever(l, states, actions, i - 1);
      NextOk(l, states[i - 1], actions[i - 1]);
    }
  }

  /** Slot `k` does not run in any of the states from `i` to `j`, and is not freed between them. */
  ghost predicate Away(states: seq<System>, actions: seq<Action>, i: nat, j: nat, k: nat)
    requires i <= j < |states| == |actions| + 1
  {
    && (forall m :: i <= m <= j ==> states[m].sched.current != k)
    && Reap(k) !in actions[i..j]
  }

  lemma AwayLast(states: seq<System>, actions: seq<Action>, i: nat, j: nat, k: nat)
    requires i < j < |states| == |actions| + 1 && Away(states, actions, i, j, k)
    ensures Away(states, actions, i, j - 1, k) && states[j - 1].sched.current != k && actions[j - 1] != Reap(k)
  {
    assert actions[i..j] == actions[i..j - 1] + [actions[j - 1]];
  }

  ghost predicate Fits(s: System) {
    Shaped(s.sched) && |s.stacks| == 64
  }

  lemma StillParkedChains(l: Layout, s: System, t: System, u: System, k: nat)
    requires Fits(s) && Fits(t) && Fits(u) && StillParked(l, s, t, k) && StillParked(l, t, u, k)
    ensures StillParked(l, s, u, k)
  {
  }

  lemma RunKeeps(l: Layout, states: seq<System>, actions: seq<Action>, j: nat, k: nat)
    requires IsRun(l, states, actions) && Ok(l, states[0]) && j < |actions|
    requires Fits(states[j]) && Alive(states[j], k) && states[j].sched.current != k && actions[j] != Reap(k)
    ensures Fits(states[j + 1]) && StillParked(l, states[j], states[j + 1], k)
  {
    OkForever(l, states, actions, j);
    NextKeeps(l, states[j], actions[j], k);
  }

  /** While a thread is away, nothing touches its stack and its saved registers. */
  lemma {:induction false} ParkedForever(l: Layout, states: seq<System>, actions: seq<Action>, i: nat, j: nat, k: nat)
    requires IsRun(l, states, actions) && Ok(l, states[0]) && i <= j < |states|
    requires Fits(states[i]) && StillParked(l, states[i], states[i], k) && Away(states, actions, i, j, k)
    ensures Fits(states[j]) && StillParked(l, states[i], states[j], k)
  {
    if i < j {
      AwayLast(states, actions, i, j, k);
      ParkedForever(l, states, actions, i, j - 1, k);
      RunKeeps(l, states, actions, j - 1, k);
      StillParkedChains(l, states[i], states[j - 1], states[j], k);
    }
  }

  /** A thread comes back to the CPU, at step `j`, with what it had saved. */
  lemma ComesBack(l: Layout, states: seq<System>, actions: seq<Action>, j: nat)
    requires IsRun(l, states, actions) && Ok(l, states[0]) && j < |actions|
    requires states[j + 1].sched.current != states[j].sched.current
    ensures actions[j].Call? && states[j + 1].machine.regs == Saved(l, states[j], states[j + 1].sched.current)
  {
    OkForever(l, states, actions, j);
    assert actions[j].Call?;
    CallSwitches(l, states[j], actions[j].exiting);
  }

  /** The top of the running thread's stack, from its esp up, reads the same in `mem`. */
  ghost predicate SameStack(s: System, mem: Memory)
    requires Fits(s)
  {
    forall a: nat :: s.machine.regs.esp <= a < s.stacks[s.sched.current].hi ==> Read(mem, a) == Read(s.machine.mem, a)
  }

  /** A thread that leaves the CPU, at step `i`, lies parked with what its call is to return with. */
  lemma Leaves(l: Layout, states: seq<System>, actions: seq<Action>, i: nat)
    requires IsRun(l, states, actions) && Ok(l, states[0]) && i < |actions|
    requires states[i + 1].sched.current != states[i].sched.current
    ensures var s, t, k := states[i], states[i + 1], states[i].sched.current;
            && Fits(s) && Fits(t) && t.stacks == s.stacks && StillParked(l, t, t, k)
            && Saved(l, t, k) == Returned(s.machine) && SameStack(s, t.machine.mem)
            && s.stacks[k].lo <= s.machine.regs.esp
  {
    var s, t := states[i], states[i + 1];
    OkForever(l, states, actions, i);
    assert actions[i].Call?;
    CallSwitches(l, s, actions[i].exiting);
    RescheduledKeeps(s.sched, actions[i].exiting);
    forall a: nat | s.machine.regs.esp <= a < s.stacks[s.sched.current].hi ensures Read(t.machine.mem, a) == Read(s.machine.mem, a) {
      CallerStackKept(l, s, t.sched.current, a);
    }
  }

  /**
   * A thread that loses the CPU at step `i` and next gets it back at step `j` finds the registers of its call of
   * `context_switch`, returned from, and its stack as it left it, whatever the other threads did in between.
   */
  lemma ThreadResumes(l: Layout, states: seq<System>, actions: seq<Action>, i: nat, j: nat)
    requires IsRun(l, states, actions) && Ok(l, states[0]) && i < j < |actions|
    requires Away(states, actions, i + 1, j, states[i].sched.current)
    requires states[j + 1].sched.current == states[i].sched.current
    ensures states[j + 1].machine.regs == Returned(states[i].machine)
    ensures Fits(states[i]) && SameStack(states[i], states[j + 1].machine.mem)
  {
    var k := states[i].sched.current;
    Leaves(l, states, actions, i);
    ParkedForever(l, states, actions, i + 1, j, k);
    ComesBack(l, states, actions, j);
    RunKeeps(l, states, actions, j, k);
    StillParkedChains(l, states[i + 1], states[j], states[j + 1], k);
  }

  /** A thread created at step `i` and first dispatched at step `j` starts in the trampoline with its entry in ebx. */
  lemma NewThreadStarts(l: Layout, states: seq<System>, actions: seq<Action>, i: nat, j: nat, k: nat)
    requires IsRun(l, states, actions) && Ok(l, states[0]) && i < j < |actions|
    requires actions[i].Spawn? && actions[i].gotStack && Shaped(states[i].sched) && k == FirstUnused(states[i].sched.table) < 64
    requires Away(states, actions, i + 1, j, k) && states[j + 1].sched.current == k
    ensures states[j + 1].machine.regs == Registers(actions[i].stack + 8188, 0, actions[i].entry, 0, 0, l.trampoline)
  {
    OkForever(l, states, actions, i);
    SpawnParks(l, states[i], actions[i].stack, actions[i].entry);
    OkForever(l, states, actions, i + 1);
    ParkedForever(l, states, actions, i + 1, j, k);
    ComesBack(l, states, actions, j);
  }
}
