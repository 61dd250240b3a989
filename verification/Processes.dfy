/** kernel/process.c and kernel/scheduler.c as they run: the process table in place. */
module Processes {
  import opened Words
  import opened Scheduler

  class ProcessTable {
    const table: array<Slot>
    var current: nat
    var nextPid: nat
    var enabled: bool

    ghost predicate Valid()
      reads this, table
    {
      table.Length == 64 && current < 64 && nextPid < TWO32
    }

    ghost function View(): (s: Sched)
      requires Valid()
      reads this, table
      ensures Shaped(s)
    {
      Sched(table[..], current, nextPid)
    }

    /** `process_init`. */
    constructor ()
      ensures Valid() && View() == Boot() && !enabled
    {
      var t := new Slot[64](i => Slot(Unused, 0));
      t[0] := Slot(Running, 0);
      table := t;
      current, nextPid, enabled := 0, 1, false;
    }

    /** `scheduler_init`. */
    method Enable()
      requires Valid()
      modifies this
      ensures Valid() && enabled && View() == old(View())
    {
      enabled := true;
    }

    /** `process_get_by_slot`, and whether what it returns is the current process. */
    predicate IsCurrentSlot(i: nat)
      requires i < table.Length
      reads this, table
    {
      table[i].state != Unused && i == current
    }

    /** The first loop of `schedule`: the slot the current process sits in, if any. */
    method CurrentSlot() returns (slot: Option<nat>)
      requires Valid()
      ensures slot == if table[current].state == Unused then None else Some(current)
    {
      var i := 0;
      while i < 64
        invariant 0 <= i <= 64 && forall k :: 0 <= k < i ==> !IsCurrentSlot(k)
      {
        if IsCurrentSlot(i) {
          return Some(i);
        }
        i := i + 1;
      }
      assert !IsCurrentSlot(current);
      return None;
    }

    /** The second loop of `schedule`: the nearest ready slot. */
    method NextSlot(slot: nat) returns (next: Option<nat>)
      requires Valid() && slot < 64
      ensures next == if Scan(table[..], slot, 0) == 64 then None else Some(Around(slot, Scan(table[..], slot, 0)))
    {
      var i := 0;
      while i < 64
        invariant 0 <= i <= 64 && Scan(table[..], slot, 0) == Scan(table[..], slot, i)
      {
        var k := (slot + i) % 64;
        if table[k].state != Unused && table[k].state == Ready {
          return Some(k);
        }
        i := i + 1;
      }
      return None;
    }

    /** `schedule`, up to the switch of stacks. */
    method Schedule()
      requires Valid()
      modifies this`current, table
      ensures Valid() && View() == if enabled then Scheduler.Schedule(old(View())) else old(View())
    {
      if !enabled {
        return;
      }
      var slot := CurrentSlot();
      if slot.None? {
        return;
      }
      var next := NextSlot(slot.value);
      if next.None? {
        return;
      }
      if table[current].state == Running {
        table[current] := table[current].(state := Ready);
      }
      table[next.value] := table[next.value].(state := Running);
      current := next.value;
    }

    /** `process_alloc`; `gotStack` says whether the kernel stack could be allocated. */
    method Allocate(gotStack: bool) returns (slot: Option<nat>)
      requires Valid()
      modifies this`nextPid, table
      ensures Valid() && View() == Create(old(View()), gotStack)
      ensures slot.Some? <==> gotStack && exists k :: 0 <= k < 64 && old(table[k].state) == Unused
      ensures slot.Some? ==> slot.value < 64 && old(table[slot.value].state) == Unused
      ensures slot.Some? ==> table[slot.value] == Slot(Ready, old(nextPid))
      ensures forall k :: 0 <= k < 64 && old(table[k].state) != Unused ==> table[k] == old(table[k])
    {
      var i := 0;
      while i < 64 && table[i].state != Unused
        invariant 0 <= i <= 64 && forall k :: 0 <= k < i ==> table[k].state != Unused
      {
        i := i + 1;
      }
      assert i == FirstUnused(table[..]);
      if i == 64 {
        return None;
      }
      table[i] := Slot(Ready, nextPid);
      nextPid := Wrap(nextPid + 1);
      if !gotStack {
        table[i] := table[i].(state := Unused);
        return None;
      }
      return Some(i);
    }

    /** `process_free` of the process in slot `k`. */
    method Release(k: nat)
      requires Valid() && k < 64
      modifies table
      ensures Valid() && View() == Free(old(View()), k)
      ensures forall j :: 0 <= j < 64 && j != k ==> table[j] == old(table[j])
      ensures table[k] == if old(table[k].pid) == 0 then old(table[k]) else Slot(Unused, 0)
    {
      if table[k].pid != 0 {
        table[k] := Slot(Unused, 0);
      }
    }

    /** `process_get`: the one live slot with this PID, if there is one. */
    method Find(pid: nat) returns (slot: Option<nat>)
      requires Valid()
      ensures slot.Some? ==> Live(View(), slot.value) && table[slot.value].pid == pid
      ensures slot.None? ==> forall k :: 0 <= k < 64 ==> !(Live(View(), k) && table[k].pid == pid)
      ensures Inv(View()) ==> forall k :: 0 <= k < 64 && Live(View(), k) && table[k].pid == pid ==> slot == Some(k)
    {
      var i := 0;
      while i < 64
        invariant 0 <= i <= 64 && forall k :: 0 <= k < i ==> !(table[k].state != Unused && table[k].pid == pid)
      {
        if table[i].state != Unused && table[i].pid == pid {
          return Some(i);
        }
        i := i + 1;
      }
      return None;
    }

    /** `kthread_exit`, up to the switch of stacks. */
    method ExitThread()
      requires Valid()
      modifies this`current, table
      ensures Valid()
      ensures enabled ==> View() == Exit(old(View()))
      ensures !enabled ==> current == old(current) && table[..] == old(table[..][current := table[current].(state := Zombie)])
    {
      table[current] := table[current].(state := Zombie);
      assert table[..] == old(table[..][current := table[current].(state := Zombie)]);
      Schedule();
    }
  }
}
