/** The scheduler of kernel/pc/pc.c as the code keeps it: the pcb table and curr_proc. */
module Scheduler {
  import opened Bits
  import opened SchedulerSpec

  /** x & 7, on the bits of x */
  lemma LowThree(x: nat)
    ensures And(x, 7) == x % SLOTS
  {
    hide And;
    Pow2Values();
    AndLowMask(x, 3);
  }

  class Processes {
    const pcb: array<Task>
    var curr: nat

    ghost predicate Valid()
      reads this, pcb
    {
      pcb.Length == SLOTS && curr < SLOTS
    }

    ghost function State(): (s: State)
      requires Valid()
      reads this, pcb
      ensures Shape(s) && s.pcb == pcb[..] && s.curr == curr
    {
      SchedulerSpec.State.State(pcb[..], curr)
    }

    /** init_pc, on a table that may hold anything */
    constructor (table: array<Task>)
      requires table.Length == SLOTS
      modifies table
      ensures pcb == table && Valid() && State() == Init(old(table[..]))
    {
      pcb := table;
      curr := 0;
      new;
      var i := 1;
      while i < 8
        invariant 1 <= i <= 8 && pcb == table && curr == 0
        invariant forall k :: 1 <= k < i ==> pcb[k] == old(table[k]).(asid := -1)
        invariant forall k :: i <= k < 8 || k == 0 ==> pcb[k] == old(table[k])
        modifies table
      {
        pcb[i] := pcb[i].(asid := -1);
        i := i + 1;
      }
      pcb[0] := pcb[0].(asid := 0);
      assert pcb[..] == Init(old(table[..])).pcb;
    }

    /** pc_schedule, given the registers at the interrupt; valid is false where the code reports an
        invalid PCB and loops for ever. */
    method PcSchedule(regs: Context) returns (valid: bool, next: Context)
      requires Valid()
      modifies this`curr, pcb
      ensures Valid()
      ensures valid <==> Schedule(old(State()), regs).Switched?
      ensures valid ==> State() == Schedule(old(State()), regs).state && next == Schedule(old(State()), regs).regs
    {
      hide Search;
      pcb[curr] := pcb[curr].(context := regs);
      assert State() == Save(old(State()), regs);
      valid := NextLive();
      next := pcb[curr].context;
    }

    /** The search loop of pc_schedule. */
    method NextLive() returns (found: bool)
      requires Valid()
      modifies this`curr
      ensures Valid()
      ensures found <==> Search(old(State()), old(curr), SLOTS) < SLOTS
      ensures found ==> curr == Search(old(State()), old(curr), SLOTS)
    {
      hide And;
      ghost var s := State();
      var i := 0;
      while i < 8
        invariant i <= 8 && curr < SLOTS && pcb[..] == s.pcb
        invariant Search(s, curr, 8 - i) == Search(s, s.curr, 8)
      {
        LowThree(curr + 1);
        curr := And(curr + 1, 7);
        if pcb[curr].asid >= 0 { break; }
        i := i + 1;
      }
      found := i < 8;
    }

    /** pc_peek: the first free slot, or -1. */
    method PcPeek() returns (slot: int)
      requires Valid()
      ensures -1 <= slot < SLOTS
      ensures slot >= 0 ==> !Live(State(), slot)
      ensures forall p: nat :: p < SLOTS && (slot < 0 || p < slot) ==> Live(State(), p)
    {
      var i := 0;
      while i < 8
        invariant i <= 8 && forall p: nat :: p < i ==> Live(State(), p)
      {
        if pcb[i].asid < 0 { return i; }
        i := i + 1;
      }
      slot := -1;
    }

    /** pc_create */
    method PcCreate(asid: nat, func: nat, sp: nat, gp: nat)
      requires Valid() && asid < SLOTS
      modifies pcb
      ensures Valid() && State() == Create(old(State()), asid, func, sp, gp)
      ensures forall q: nat :: q < SLOTS ==> (Live(State(), q) <==> q == asid || Live(old(State()), q))
    {
      pcb[asid] := pcb[asid].(context := pcb[asid].context.(epc := func));
      pcb[asid] := pcb[asid].(context := pcb[asid].context.(sp := sp));
      pcb[asid] := pcb[asid].(context := pcb[asid].context.(gp := gp));
      pcb[asid] := pcb[asid].(asid := asid);
    }

    /** pc_kill */
    method PcKill(proc: int) returns (code: nat)
      requires Valid()
      modifies pcb
      ensures Valid() && State() == Kill(old(State()), proc) && code == KillCode(old(State()), proc)
    {
      var p := proc % 8;
      if p != 0 && pcb[p].asid >= 0 {
        pcb[p] := pcb[p].(asid := -1);
        return 0;
      } else if p == 0 {
        return 1;
      }
      code := 2;
    }

    /** pc_kill_syscall */
    method PcKillSyscall(regs: Context) returns (valid: bool, next: Context)
      requires Valid()
      modifies this`curr, pcb
      ensures Valid()
      ensures valid <==> KillSyscall(old(State()), regs).Switched?
      ensures valid ==> State() == KillSyscall(old(State()), regs).state && next == KillSyscall(old(State()), regs).regs
    {
      if curr != 0 {
        pcb[curr] := pcb[curr].(asid := -1);
        assert State() == Die(old(State()), old(curr));
        valid, next := PcSchedule(regs);
        return;
      }
      valid, next := true, regs;
    }
  }
}
