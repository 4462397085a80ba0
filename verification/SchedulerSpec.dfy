/** The round-robin scheduler of kernel/pc/pc.c on values, and its runs. */
module SchedulerSpec {

  const SLOTS: nat := 8

  /** The saved registers; rest stands for the 29 that pc_create does not set. */
  datatype Context = Context(epc: nat, sp: nat, gp: nat, rest: seq<nat>)

  datatype Task = Task(context: Context, asid: int)

  datatype State = State(pcb: seq<Task>, curr: nat)

  predicate Shape(s: State)
  {
    |s.pcb| == SLOTS && s.curr < SLOTS
  }

  predicate Live(s: State, p: nat)
    requires Shape(s) && p < SLOTS
  {
    s.pcb[p].asid >= 0
  }

  /** What every run keeps: process 0 is live. */
  predicate Inv(s: State)
  {
    Shape(s) && Live(s, 0)
  }

  /** init_pc */
  function Init(pcb: seq<Task>): (s: State)
    requires |pcb| == SLOTS
    ensures Inv(s) && s.curr == 0 && s.pcb[0].asid == 0
    ensures forall p: nat :: p < SLOTS ==> (Live(s, p) <==> p == 0) && s.pcb[p].context == pcb[p].context
  {
    State(seq(SLOTS, i requires 0 <= i < SLOTS => pcb[i].(asid := if i == 0 then 0 else -1)), 0)
  }

  // ----- pc_schedule -----

  /** The search loop of pc_schedule with n turns left: the slot found, or SLOTS. */
  function Search(s: State, from: nat, n: nat): (p: nat)
    requires Shape(s)
    ensures p <= SLOTS && (p < SLOTS ==> Live(s, p))
    decreases n
  {
    if n == 0 then SLOTS
    else
      var next := (from + 1) % SLOTS;
      if Live(s, next) then next else Search(s, next, n - 1)
  }

  /** Either the state after a switch and the registers loaded, or the endless loop after the
      invalid-PCB message. */
  datatype Outcome = Switched(state: State, regs: Context) | Invalid

  function Save(s: State, regs: Context): (r: State)
    requires Shape(s)
    ensures Shape(r)
  {
    s.(pcb := s.pcb[s.curr := s.pcb[s.curr].(context := regs)])
  }

  function Schedule(s: State, regs: Context): (o: Outcome)
    requires Shape(s)
    ensures o.Switched? ==> Shape(o.state)
  {
    var saved := Save(s, regs);
    var p := Search(saved, s.curr, SLOTS);
    if p == SLOTS then Invalid else Switched(saved.(curr := p), saved.pcb[p].context)
  }

  /** Turns the search takes from one slot to reach another: 1 to 8, itself last. */
  function Distance(p: nat, from: nat): (d: nat)
    requires p < SLOTS && from < SLOTS
    ensures 1 <= d <= SLOTS
  {
    if p > from then p - from else SLOTS + p - from
  }

  /** The search finds the nearest live slot, and none within n turns if it fails. */
  lemma {:induction false} SearchIsNearest(s: State, from: nat, n: nat, q: nat)
    requires Shape(s) && from < SLOTS && n <= SLOTS && q < SLOTS
    ensures var p := Search(s, from, n);
      && (p == SLOTS ==> (Live(s, q) ==> Distance(q, from) > n))
      && (p < SLOTS ==> Distance(p, from) <= n && (Live(s, q) ==> Distance(p, from) <= Distance(q, from)))
    decreases n
  {
    hide Live, Distance;
    if n > 0 {
      var next := (from + 1) % SLOTS;
      DistanceNext(q, from);
      DistanceNext(next, from);
      if !Live(s, next) {
        SearchIsNearest(s, next, n - 1, q);
        var p := Search(s, next, n - 1);
        if p < SLOTS { DistanceNext(p, from); }
      }
    }
  }

  lemma DistanceNext(p: nat, from: nat)
    requires p < SLOTS && from < SLOTS
    ensures var next := (from + 1) % SLOTS;
      next < SLOTS && Distance(p, from) == if p == next then 1 else Distance(p, next) + 1
  {
  }

  /** Of two slots ahead, the nearer one has the other at a smaller distance. */
  lemma DistanceFrom(c: nat, p: nat, from: nat)
    requires c < SLOTS && p < SLOTS && from < SLOTS && Distance(c, from) <= Distance(p, from)
    ensures c == p || Distance(p, c) < Distance(p, from)
  {
  }

  /** The invalid-PCB branch is taken exactly when no slot is live. */
  lemma InvalidIff(s: State, regs: Context)
    requires Shape(s)
    ensures Schedule(s, regs).Invalid? <==> forall p: nat :: p < SLOTS ==> !Live(s, p)
  {
    var saved := Save(s, regs);
    forall p: nat | p < SLOTS ensures Live(saved, p) == Live(s, p) {}
    forall p: nat | p < SLOTS ensures Schedule(s, regs).Invalid? ==> !Live(s, p) {
      SearchIsNearest(saved, s.curr, SLOTS, p);
    }
  }

  /** pc_schedule switches to the live process that comes first after the current one. */
  lemma ScheduleIsNearest(s: State, regs: Context, q: nat)
    requires Inv(s) && q < SLOTS && Live(s, q)
    ensures var o := Schedule(s, regs);
      && o.Switched? && Live(s, o.state.curr) && Inv(o.state)
      && Distance(o.state.curr, s.curr) <= Distance(q, s.curr)
  {
    InvalidIff(s, regs);
    SearchIsNearest(Save(s, regs), s.curr, SLOTS, q);
  }

  // ----- the other operations -----

  /** pc_create into slot asid. */
  function Create(s: State, asid: nat, func: nat, sp: nat, gp: nat): (r: State)
    requires Shape(s) && asid < SLOTS
    ensures Shape(r) && (Inv(s) ==> Inv(r))
  {
    var t := s.pcb[asid];
    s.(pcb := s.pcb[asid := Task(t.context.(epc := func, sp := sp, gp := gp), asid)])
  }

  /** Creating makes the slot live under its own number with the three registers given; its other
      registers, every other slot and the current process stay. */
  lemma CreateExact(s: State, asid: nat, func: nat, sp: nat, gp: nat, q: nat)
    requires Shape(s) && asid < SLOTS && q < SLOTS
    ensures var t := Create(s, asid, func, sp, gp);
      && (Live(t, q) <==> q == asid || Live(s, q)) && t.pcb[asid].asid == asid && t.curr == s.curr
      && (q != asid ==> t.pcb[q] == s.pcb[q])
      && var c := t.pcb[asid].context;
         c.epc == func && c.sp == sp && c.gp == gp && c.rest == s.pcb[asid].context.rest
  {
  }

  function Die(s: State, p: nat): (r: State)
    requires Shape(s) && p < SLOTS
    ensures Shape(r)
  {
    s.(pcb := s.pcb[p := s.pcb[p].(asid := -1)])
  }

  /** pc_kill; proc is cut to its low three bits. */
  function Kill(s: State, proc: int): (r: State)
    requires Shape(s)
    ensures Shape(r)
  {
    var p := proc % SLOTS;
    if p != 0 && Live(s, p) then Die(s, p) else s
  }

  /** What pc_kill returns. */
  function KillCode(s: State, proc: int): nat
    requires Shape(s)
  {
    var p := proc % SLOTS;
    if p != 0 && Live(s, p) then 0 else if p == 0 then 1 else 2
  }

  /** Killing makes one slot dead, never slot 0, and returns 0 exactly when it was live until then;
      no other slot and no context changes. */
  lemma KillExact(s: State, proc: int, q: nat)
    requires Inv(s) && q < SLOTS
    ensures var t := Kill(s, proc);
      && (Live(t, q) <==> Live(s, q) && (q == 0 || q != proc % SLOTS))
      && t.pcb[q].context == s.pcb[q].context && t.curr == s.curr
      && (KillCode(s, proc) == 0 <==> Live(s, proc % SLOTS) && !Live(t, proc % SLOTS))
      && (KillCode(s, proc) == 1 <==> proc % SLOTS == 0) && KillCode(s, proc) <= 2
      && (q == proc % SLOTS != 0 || t.pcb[q].asid == s.pcb[q].asid)
  {
  }

  /** pc_kill_syscall */
  function KillSyscall(s: State, regs: Context): (o: Outcome)
    requires Shape(s)
    ensures o.Switched? ==> Shape(o.state)
  {
    if s.curr != 0 then Schedule(Die(s, s.curr), regs) else Switched(s, regs)
  }

  /** Exiting kills the current process, and no other, and switches to another one; process 0 goes on
      as if it had not called. */
  lemma ExitExact(s: State, regs: Context, q: nat)
    requires Inv(s) && q < SLOTS
    ensures var o := KillSyscall(s, regs);
      && o.Switched? && (Live(o.state, q) <==> Live(s, q) && (q == 0 || q != s.curr))
      && (s.curr != 0 ==> o.state.curr != s.curr)
      && (s.curr == 0 ==> o.state == s && o.regs == regs)
  {
    if s.curr != 0 {
      hide Search, Distance;
      ScheduleIsNearest(Die(s, s.curr), regs, 0);
      ScheduleKeepsLive(Die(s, s.curr), regs, q);
      ScheduleKeepsLive(Die(s, s.curr), regs, s.curr);
    }
  }

  // ----- runs -----

  /** The timer interrupt and the exit system call come with whatever registers the running process
      has by then. */
  datatype Event =
    | Timer(regs: Context)
    | Exit(regs: Context)
    | Created(asid: nat, func: nat, sp: nat, gp: nat)
    | Killed(proc: int)

  predicate Possible(e: Event)
  {
    e.Created? ==> e.asid < SLOTS
  }

  function Handle(s: State, e: Event): (o: Outcome)
    requires Shape(s) && Possible(e)
    ensures o.Switched? ==> Shape(o.state)
  {
    match e
    case Timer(regs) => Schedule(s, regs)
    case Exit(regs) => KillSyscall(s, regs)
    case Created(asid, func, sp, gp) => Switched(Create(s, asid, func, sp, gp), s.pcb[asid].context)
    case Killed(proc) => Switched(Kill(s, proc), s.pcb[0].context)
  }

  /** The events that run pc_schedule. */
  predicate Schedules(s: State, e: Event)
  {
    e.Timer? || (e.Exit? && s.curr != 0)
  }

  /** No event ever reaches the invalid-PCB branch, and process 0 stays live. */
  lemma HandleKeeps(s: State, e: Event)
    requires Inv(s) && Possible(e)
    ensures Handle(s, e).Switched? && Inv(Handle(s, e).state)
    ensures !Schedules(s, e) ==> Handle(s, e).state.curr == s.curr
  {
    match e
    case Timer(regs) => ScheduleIsNearest(s, regs, 0);
    case Exit(regs) => if s.curr != 0 { ScheduleIsNearest(Die(s, s.curr), regs, 0); }
    case Created(_, _, _, _) =>
    case Killed(_) =>
  }

  function After(s: State, e: Event): (r: State)
    requires Inv(s) && Possible(e)
    ensures Inv(r)
  {
    HandleKeeps(s, e);
    Handle(s, e).state
  }

  predicate AllPossible(es: seq<Event>)
  {
    forall i :: 0 <= i < |es| ==> Possible(es[i])
  }

  function Run(s: State, es: seq<Event>): (r: State)
    requires Inv(s) && AllPossible(es)
    ensures Inv(r)
    decreases |es|
  {
    if es == [] then s else Run(After(s, es[0]), es[1..])
  }

  /** From start-up, every event of every run is handled without reaching the invalid-PCB branch. */
  lemma NeverInvalid(pcb: seq<Task>, es: seq<Event>, e: Event)
    requires |pcb| == SLOTS && AllPossible(es) && Possible(e)
    ensures Live(Run(Init(pcb), es), 0) && Handle(Run(Init(pcb), es), e).Switched?
  {
    HandleKeeps(Run(Init(pcb), es), e);
  }

  // ----- bounded waiting -----

  predicate LiveThroughout(s: State, es: seq<Event>, p: nat)
    requires Inv(s) && AllPossible(es) && p < SLOTS
    decreases |es|
  {
    Live(s, p) && (es != [] ==> LiveThroughout(After(s, es[0]), es[1..], p))
  }

  /** How often pc_schedule runs. */
  function Switches(s: State, es: seq<Event>): nat
    requires Inv(s) && AllPossible(es)
    decreases |es|
  {
    if es == [] then 0 else (if Schedules(s, es[0]) then 1 else 0) + Switches(After(s, es[0]), es[1..])
  }

  /** One of the first n runs of pc_schedule chooses p. */
  predicate ChosenWithin(s: State, es: seq<Event>, p: nat, n: nat)
    requires Inv(s) && AllPossible(es)
    decreases |es|
  {
    if es == [] then false
    else
      var t := After(s, es[0]);
      if Schedules(s, es[0]) then n > 0 && (t.curr == p || ChosenWithin(t, es[1..], p, n - 1))
      else ChosenWithin(t, es[1..], p, n)
  }

  lemma DieKeeps(s: State, p: nat)
    requires Inv(s) && p < SLOTS
    ensures p != 0 ==> Inv(Die(s, p))
    ensures Die(s, p).curr == s.curr
  {
  }

  lemma ScheduleKeepsLive(s: State, regs: Context, p: nat)
    requires Shape(s) && p < SLOTS && Schedule(s, regs).Switched?
    ensures Live(Schedule(s, regs).state, p) == Live(s, p)
  {
    hide Search;
  }

  /** One run of pc_schedule chooses a live process or brings it nearer. */
  lemma Nearer(s: State, e: Event, p: nat)
    requires Inv(s) && Possible(e) && p < SLOTS && Schedules(s, e) && Live(After(s, e), p)
    ensures After(s, e).curr == p || Distance(p, After(s, e).curr) < Distance(p, s.curr)
  {
    hide Schedule, Distance, Live;
    var before := if e.Exit? then Die(s, s.curr) else s;
    DieKeeps(s, s.curr);
    assert Handle(s, e) == Schedule(before, e.regs);
    ScheduleIsNearest(before, e.regs, 0);
    ScheduleKeepsLive(before, e.regs, p);
    ScheduleIsNearest(before, e.regs, p);
    DistanceFrom(After(s, e).curr, p, s.curr);
  }

  /** Whatever is created and killed meanwhile, a process that stays live is chosen within as many
      runs of pc_schedule as its cyclic distance from the current one, so within eight. */
  lemma {:induction false} BoundedWaiting(s: State, es: seq<Event>, p: nat, n: nat)
    requires Inv(s) && AllPossible(es) && p < SLOTS && LiveThroughout(s, es, p)
    requires Distance(p, s.curr) <= n <= Switches(s, es)
    ensures ChosenWithin(s, es, p, n)
    decreases |es|
  {
    hide Live, Schedules, Distance, Inv, AllPossible;
    AllPossibleTail(es);
    var t := After(s, es[0]);
    LiveHead(s, es, p);
    if Schedules(s, es[0]) {
      Nearer(s, es[0], p);
      if t.curr != p { BoundedWaiting(t, es[1..], p, n - 1); }
    } else {
      HandleKeeps(s, es[0]);
      BoundedWaiting(t, es[1..], p, n);
    }
  }

  lemma AllPossibleTail(es: seq<Event>)
    requires AllPossible(es)
    ensures es != [] ==> Possible(es[0]) && AllPossible(es[1..])
  {
  }

  lemma LiveHead(s: State, es: seq<Event>, p: nat)
    requires Inv(s) && AllPossible(es) && p < SLOTS && LiveThroughout(s, es, p) && es != []
    ensures Live(After(s, es[0]), p) && LiveThroughout(After(s, es[0]), es[1..], p)
  {
  }

  lemma OneTurn(s: State, regs: Context)
    requires Inv(s) && forall p: nat :: p < SLOTS ==> Live(s, p)
    ensures var o := Schedule(s, regs);
      o.Switched? && o.state.curr == (s.curr + 1) % SLOTS && forall p: nat :: p < SLOTS ==> Live(o.state, p)
  {
    var next: nat := (s.curr + 1) % SLOTS;
    assert Live(s, next);
    assert Live(Save(s, regs), next);
    assert Schedule(s, regs).Switched? && Schedule(s, regs).state.curr == next;
    forall p: nat | p < SLOTS ensures Live(Schedule(s, regs).state, p) {
      ScheduleKeepsLive(s, regs, p);
    }
  }

  /** The bound is met: with every slot live, n timer interrupts move on by n slots, so a process
      waits exactly its distance. */
  lemma {:induction false} AllLiveWait(s: State, es: seq<Event>)
    requires Inv(s) && AllPossible(es) && (forall p: nat :: p < SLOTS ==> Live(s, p))
    requires forall i :: 0 <= i < |es| ==> es[i].Timer?
    ensures Run(s, es).curr == (s.curr + |es|) % SLOTS
    decreases |es|
  {
    hide Schedule;
    if es != [] {
      var t := After(s, es[0]);
      OneTurn(s, es[0].regs);
      AllLiveWait(t, es[1..]);
    }
  }

  // ----- saved contexts -----

  /** Process p is not current in any state of the run, the last included. */
  predicate Waiting(s: State, es: seq<Event>, p: nat)
    requires Inv(s) && AllPossible(es)
    decreases |es|
  {
    s.curr != p && (es != [] ==> Waiting(After(s, es[0]), es[1..], p))
  }

  /** The registers of a process after the creations into its slot. */
  function Recreated(regs: Context, es: seq<Event>, p: nat): Context
    decreases |es|
  {
    if es == [] then regs
    else
      var e := es[0];
      Recreated(if e.Created? && e.asid == p then regs.(epc := e.func, sp := e.sp, gp := e.gp) else regs, es[1..], p)
  }

  lemma HandleContext(s: State, e: Event, p: nat)
    requires Inv(s) && Possible(e) && p < SLOTS && s.curr != p
    ensures After(s, e).pcb[p].context == Recreated(s.pcb[p].context, [e], p)
  {
    assert [e][1..] == [];
    HandleKeeps(s, e);
  }

  lemma {:induction false} ContextKept(s: State, es: seq<Event>, p: nat)
    requires Inv(s) && AllPossible(es) && p < SLOTS && Waiting(s, es, p)
    ensures Run(s, es).pcb[p].context == Recreated(s.pcb[p].context, es, p) && Run(s, es).curr != p
    decreases |es|
  {
    if es != [] {
      HandleContext(s, es[0], p);
      var c := s.pcb[p].context;
      assert [es[0]][1..] == [];
      assert Recreated(c, es, p) == Recreated(Recreated(c, [es[0]], p), es[1..], p);
      ContextKept(After(s, es[0]), es[1..], p);
    }
  }

  /** A preempted process resumes, on a timer interrupt or on another process's exit, with the
      registers it was preempted with, but for the program counter, stack and global pointer of
      creations into its slot meanwhile. */
  lemma Resumes(s: State, regs: Context, es: seq<Event>, e: Event)
    requires Inv(s) && AllPossible(es) && Possible(e)
    requires Waiting(After(s, Timer(regs)), es, s.curr)
    requires Schedules(Run(After(s, Timer(regs)), es), e)
    ensures var o := Handle(Run(After(s, Timer(regs)), es), e);
      o.Switched? && (o.state.curr == s.curr ==> o.regs == Recreated(regs, es, s.curr))
  {
    hide Schedule, Distance, Live;
    var t := After(s, Timer(regs));
    ScheduleIsNearest(s, regs, 0);
    ScheduleContexts(s, regs);
    assert t.pcb[s.curr].context == regs;
    ContextKept(t, es, s.curr);
    var u := Run(t, es);
    HandleLoads(u, e, s.curr);
  }

  /** What a switch loads for a process that is not the current one. */
  lemma HandleLoads(u: State, e: Event, p: nat)
    requires Inv(u) && Possible(e) && Schedules(u, e) && p < SLOTS && p != u.curr
    ensures Handle(u, e).Switched?
    ensures Handle(u, e).state.curr == p ==> Handle(u, e).regs == u.pcb[p].context
  {
    hide Schedule, Distance, Live;
    var before := if e.Exit? then Die(u, u.curr) else u;
    DieKeeps(u, u.curr);
    assert before.pcb[p].context == u.pcb[p].context;
    assert Handle(u, e) == Schedule(before, e.regs);
    ScheduleIsNearest(before, e.regs, 0);
    ScheduleContexts(before, e.regs);
  }

  /** pc_schedule saves one context and loads another. */
  lemma ScheduleContexts(s: State, regs: Context)
    requires Shape(s) && Schedule(s, regs).Switched?
    ensures var o := Schedule(s, regs);
      && (forall p: nat :: p < SLOTS ==> o.state.pcb[p].context == if p == s.curr then regs else s.pcb[p].context)
      && o.regs == o.state.pcb[o.state.curr].context
  {
    hide Search;
  }

  /** With no other live process the current one goes on with its own registers. */
  lemma ResumesItself(s: State, regs: Context)
    requires Inv(s) && Schedule(s, regs).Switched? && Schedule(s, regs).state.curr == s.curr
    ensures Schedule(s, regs).regs == regs
    ensures forall q: nat :: q < SLOTS && Live(s, q) ==> q == s.curr
  {
    forall q: nat | q < SLOTS && Live(s, q) ensures q == s.curr {
      ScheduleIsNearest(s, regs, q);
    }
  }

  // ----- created processes -----

  /** The events neither kill process p nor create anything in its slot. */
  predicate Untouched(es: seq<Event>, p: nat)
  {
    forall i :: 0 <= i < |es| ==>
      (es[i].Killed? ==> es[i].proc % 8 != p) && (es[i].Created? ==> es[i].asid != p)
  }

  /** One of the first n runs of pc_schedule chooses p, and the first that does loads regs. */
  predicate StartsWithin(s: State, es: seq<Event>, p: nat, n: nat, regs: Context)
    requires Inv(s) && AllPossible(es)
    decreases |es|
  {
    if es == [] then false
    else
      var o := Handle(s, es[0]);
      HandleKeeps(s, es[0]);
      if !Schedules(s, es[0]) then StartsWithin(o.state, es[1..], p, n, regs)
      else n > 0 && if o.state.curr == p then o.regs == regs else StartsWithin(o.state, es[1..], p, n - 1, regs)
  }

  /** A process that waits, and that nothing touches, stays live with its registers while it waits. */
  lemma WaitingKept(s: State, e: Event, p: nat)
    requires Inv(s) && Possible(e) && p < SLOTS && Live(s, p) && s.curr != p && Untouched([e], p)
    ensures Live(After(s, e), p) && After(s, e).pcb[p].context == s.pcb[p].context
  {
    hide Search, Distance;
    assert [e][0] == e;
    HandleKeeps(s, e);
    match e
    case Timer(regs) =>
      ScheduleKeepsLive(s, regs, p);
      ScheduleContexts(s, regs);
    case Exit(regs) =>
      if s.curr != 0 {
        ScheduleKeepsLive(Die(s, s.curr), regs, p);
        ScheduleContexts(Die(s, s.curr), regs);
      }
    case Created(_, _, _, _) =>
    case Killed(_) =>
  }

  lemma {:induction false} WaitingStarts(s: State, es: seq<Event>, p: nat, n: nat)
    requires Inv(s) && AllPossible(es) && p < SLOTS && Live(s, p) && s.curr != p && Untouched(es, p)
    requires Distance(p, s.curr) <= n <= Switches(s, es)
    ensures StartsWithin(s, es, p, n, s.pcb[p].context)
    decreases |es|
  {
    hide Schedule, Distance, Live, Inv, Handle, Schedules;
    var e, t := es[0], After(s, es[0]);
    assert [e][0] == e && Untouched([e], p);
    HandleKeeps(s, e);
    WaitingKept(s, e, p);
    if Schedules(s, e) {
      HandleLoads(s, e, p);
      Nearer(s, e, p);
      if t.curr != p { WaitingStarts(t, es[1..], p, n - 1); }
    } else {
      WaitingStarts(t, es[1..], p, n);
    }
  }

  /** A process created in a slot other than the current one, and neither killed nor replaced, is chosen
      by one of the next eight runs of pc_schedule, and starts at func with the stack and global pointer
      given and the slot's old values in the other registers. */
  lemma CreatedStarts(s: State, asid: nat, func: nat, sp: nat, gp: nat, es: seq<Event>)
    requires Inv(s) && asid < SLOTS && asid != s.curr && AllPossible(es) && Untouched(es, asid)
    requires Switches(Create(s, asid, func, sp, gp), es) >= 8
    ensures StartsWithin(Create(s, asid, func, sp, gp), es, asid, 8, Context(func, sp, gp, s.pcb[asid].context.rest))
  {
    hide Distance;
    WaitingStarts(Create(s, asid, func, sp, gp), es, asid, 8);
  }

  /** In the current slot the registers given are lost: the next run of pc_schedule saves those of the
      process running there over them. */
  lemma CreatedOverCurrent(s: State, func: nat, sp: nat, gp: nat, regs: Context)
    requires Inv(s)
    ensures var o := Schedule(Create(s, s.curr, func, sp, gp), regs);
      o.Switched? && o.state.pcb[s.curr].context == regs
  {
    var t := Create(s, s.curr, func, sp, gp);
    ScheduleIsNearest(t, regs, 0);
    ScheduleContexts(t, regs);
  }
}
