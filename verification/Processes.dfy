// The process operations of mp3/student-distrib (pcb.c, system.c, scheduler.c): the
// table, the mapped program frame and the scheduled group, step by step.
module Processes {
  import opened KernelLimits
  import opened ProcessForest
  import opened GroupChains

  class Kernel {
    const live: array<bool>
    const pcbs: array<Pcb>
    const active: array<int>
    var currentGroup: int
    var progPage: int
    var esp0: int
    ghost var chains: seq<seq<int>>

    function State(): Table
      reads live, pcbs, active
    {
      Table(live[..], pcbs[..], active[..])
    }

    ghost predicate Sized() {
      live.Length == pcbs.Length == MAX_PID && active.Length == MAX_PROCESS_GROUPS
    }

    ghost predicate Valid()
      reads this, live, pcbs, active
    {
      Sized() && 0 <= currentGroup < MAX_PROCESS_GROUPS && Forest(State(), chains)
    }

    /** The program page shows the frame of the process that is running. */
    ghost predicate Mapped()
      reads this, active
      requires Sized() && 0 <= currentGroup < MAX_PROCESS_GROUPS
    {
      progPage == ProgPhysAddr(active[currentGroup])
    }

    constructor ()
      ensures Sized() && fresh(live) && fresh(pcbs) && fresh(active)
    {
      live := new bool[MAX_PID];
      pcbs := new Pcb[MAX_PID];
      active := new int[MAX_PROCESS_GROUPS];
      currentGroup, progPage, esp0, chains := 0, 0, KERNEL_LOC_END, [];
    }

    /** scheduler_init and pcb_init. */
    method PcbInit()
      requires Sized()
      modifies this, live, pcbs, active
      ensures Valid() && currentGroup == 0 && chains == [[], [], []]
      ensures live[..] == [true, false, false, false, false, false, false] && active[..] == [0, 0, 0]
    {
      currentGroup := 0;
      for i := 0 to MAX_PID
        invariant forall j | 0 <= j < i :: !live[j]
        invariant currentGroup == 0
      {
        live[i] := false;
      }
      for i := 0 to MAX_PROCESS_GROUPS
        invariant forall j | 0 <= j < i :: active[j] == 0
        invariant forall j | 0 <= j < MAX_PID :: !live[j]
        invariant currentGroup == 0
      {
        active[i] := 0;
      }
      live[active[currentGroup]] := true;
      pcbs[active[currentGroup]] := Pcb(active[currentGroup], -1);
      chains := [[], [], []];
    }

    method GetNewPid() returns (pid: int)
      requires Sized()
      ensures FirstFree(live[..], pid)
    {
      pid := 0;
      while pid < MAX_PID
        invariant 0 <= pid <= MAX_PID
        invariant forall q | 0 <= q < pid :: live[q]
      {
        if !live[pid] {
          return;
        }
        pid := pid + 1;
      }
      pid := FAILURE;
    }

    method PcbSetup(childPid: int) returns (ok: bool)
      requires Sized() && 0 <= currentGroup < MAX_PROCESS_GROUPS && FAILURE <= childPid < MAX_PID
      modifies live, pcbs, active
      ensures ok == (childPid != FAILURE)
      ensures State() == if ok then Spawned(old(State()), currentGroup, childPid) else old(State())
    {
      if childPid == FAILURE {
        return false;
      }
      live[childPid] := true;
      var parentPid := active[currentGroup];
      active[currentGroup] := childPid;
      pcbs[childPid] := Pcb(childPid, parentPid);
      ok := true;
    }

    method PcbTeardown()
      requires Sized() && 0 <= currentGroup < MAX_PROCESS_GROUPS && 0 <= active[currentGroup] < MAX_PID
      modifies live, pcbs, active, `esp0
      ensures State() == Torn(old(State()), currentGroup)
      ensures esp0 == KstackAddr(active[currentGroup])
    {
      var pid := active[currentGroup];
      live[pid] := false;
      active[currentGroup] := pcbs[pid].parent;
      esp0 := KstackAddr(active[currentGroup]);
      pcbs[pid] := Pcb(0, 0);
    }

    /** system_execute up to the point where the child runs, or its failure. */
    method Execute(loads: bool) returns (pid: int)
      requires Valid()
      modifies this, live, pcbs, active
      ensures Valid() && currentGroup == old(currentGroup)
      ensures pid != FAILURE <==> loads && exists q :: 0 <= q < MAX_PID && !old(live[q])
      ensures |old(chains)| == MAX_PROCESS_GROUPS
      ensures pid != FAILURE ==> FirstFree(old(live[..]), pid) && State() == Spawned(old(State()), currentGroup, pid)
      ensures pid != FAILURE ==> chains == old(chains)[currentGroup := old(chains)[currentGroup] + [pid]]
      ensures pid != FAILURE ==> esp0 == KstackAddr(pid)
      ensures pid == FAILURE ==> live[..] == old(live[..]) && active[..] == old(active[..]) && chains == old(chains)
      ensures pid == FAILURE ==> forall q | 0 <= q < MAX_PID && live[q] :: pcbs[q] == old(pcbs[q])
      ensures pid == FAILURE && (exists q :: 0 <= q < MAX_PID && !live[q]) ==> esp0 == KstackAddr(active[currentGroup])
      ensures (forall q | 0 <= q < MAX_PID :: old(live[q])) ==> progPage == old(progPage) && esp0 == old(esp0)
      ensures old(Mapped()) || (exists q :: 0 <= q < MAX_PID && !old(live[q])) ==> Mapped()
    {
      hide Forest;
      ghost var was := State();
      ParentIsItself(was, chains, currentGroup);
      var childPid := GetNewPid();
      KernelSlot(was, chains);
      var parentPid := active[currentGroup];
      var ok := PcbSetup(childPid);
      if !ok {
        return FAILURE;
      }
      SpawnKeepsForest(was, chains, currentGroup, childPid);
      progPage := ProgPhysAddr(pcbs[childPid].pid);
      if !loads {
        progPage := ProgPhysAddr(pcbs[parentPid].pid);
        ghost var spawned := chains[currentGroup := chains[currentGroup] + [childPid]];
        TearKeepsForest(State(), spawned, currentGroup);
        PcbTeardown();
        SpawnThenTear(was, chains, currentGroup, childPid);
        assert spawned[currentGroup := spawned[currentGroup][..|spawned[currentGroup]| - 1]] == chains;
        return FAILURE;
      }
      esp0 := KstackAddr(childPid);
      chains := chains[currentGroup := chains[currentGroup] + [childPid]];
      pid := childPid;
    }

    /** system_halt, and the end of the parent's system_execute. */
    method HaltProcess()
      requires Valid() && active[currentGroup] != 0
      modifies this, live, pcbs, active
      ensures Valid() && Mapped() && currentGroup == old(currentGroup)
      ensures |old(chains)| == MAX_PROCESS_GROUPS && old(chains)[currentGroup] != []
      ensures State() == Torn(old(State()), currentGroup) && esp0 == KstackAddr(active[currentGroup])
      ensures chains == old(chains)[currentGroup := old(chains)[currentGroup][..|old(chains)[currentGroup]| - 1]]
    {
      hide Forest;
      ParentIsItself(State(), chains, currentGroup);
      TearKeepsForest(State(), chains, currentGroup);
      var parentPid := pcbs[active[currentGroup]].parent;
      chains := chains[currentGroup := chains[currentGroup][..|chains[currentGroup]| - 1]];
      ParentIsItself(Torn(State(), currentGroup), chains, currentGroup);
      progPage := ProgPhysAddr(pcbs[parentPid].pid);
      PcbTeardown();
    }

    /** schedule_next: the next group round-robin, and its active process mapped. */
    method ScheduleNext()
      requires Valid()
      modifies this
      ensures Valid() && Mapped() && State() == old(State()) && chains == old(chains)
      ensures currentGroup == (old(currentGroup) + 1) % MAX_PROCESS_GROUPS
    {
      hide Forest;
      currentGroup := currentGroup + 1;
      if currentGroup >= MAX_PROCESS_GROUPS {
        currentGroup := 0;
      }
      ParentIsItself(State(), chains, currentGroup);
      progPage := ProgPhysAddr(pcbs[active[currentGroup]].pid);
    }

    /** static_start_shell, called at boot from the kernel with group 0 current.
        When the shell does not load, pcb_teardown meets active_pid[0] already reset
        to 0 and clears the kernel's own slot. */
    method StaticStartShell(pid: int, loads: bool) returns (ok: bool)
      requires Valid() && currentGroup == 0 && active[0] == 0
      requires 2 <= pid <= 3 ==> !live[pid] && active[pid - 1] == 0
      modifies this, live, pcbs, active
      ensures Sized() && currentGroup == 0
      ensures ok == (2 <= pid <= 3 && loads)
      ensures !(2 <= pid <= 3) ==> Valid() && State() == old(State()) && chains == old(chains)
      ensures |old(chains)| == MAX_PROCESS_GROUPS
      ensures ok ==> Valid() && State() == Spawned(old(State()), pid - 1, pid)
      ensures ok ==> chains == old(chains)[pid - 1 := old(chains)[pid - 1] + [pid]]
      ensures 2 <= pid <= 3 && !loads ==> live[..] == old(live[..])[pid := true][0 := false]
      ensures 2 <= pid <= 3 && !loads ==> active[..] == old(active[..])[0 := -1]
      ensures 2 <= pid <= 3 ==> (loads <==> exists c :: Forest(State(), c))
    {
      hide Forest;
      KernelSlot(State(), chains);
      ParentIsItself(State(), chains, 0);
      if pid < 2 || pid > 3 {
        return false;
      }
      ghost var was := State();
      var placed := PcbSetup(pid);
      active[0] := 0;
      pcbs[pid] := pcbs[pid].(parent := 0);
      progPage := ProgPhysAddr(pcbs[pid].pid);
      if !loads {
        progPage := ProgPhysAddr(pcbs[pid].parent);
        PcbTeardown();
        NoKernelNoForest(State());
        return false;
      }
      active[pid - 1] := pid;
      SpawnKeepsForest(was, chains, pid - 1, pid);
      assert State() == Spawned(was, pid - 1, pid);
      chains := chains[pid - 1 := chains[pid - 1] + [pid]];
      ok := true;
    }

    /** The boot of kernel.c up to the first shell. Nothing is modelled past a base
        shell that does not load. */
    method Boot(loads3: bool, loads2: bool, loads1: bool) returns (up: bool)
      requires Sized()
      modifies this, live, pcbs, active
      ensures up == (loads3 && loads2)
      ensures up ==> Valid() && Mapped() && chains == [if loads1 then [1] else [], [2], [3]]
      ensures !up ==> Sized() && !live[0]
    {
      hide Forest;
      PcbInit();
      up := StaticStartShell(3, loads3);
      if up {
        assert [] + [3] == [3] && [] + [2] == [2] && [] + [1] == [1];
        assert chains == [[], [], [3]];
        up := StaticStartShell(2, loads2);
        if up {
          assert State().live == [true, false, true, true, false, false, false];
          assert State().active == [0, 2, 3] && live[0] && !live[1];
          assert chains == [[], [2], [3]];
          var pid := Execute(loads1);
          assert loads1 ==> pid == 1;
        }
      }
    }

    /** One event, as what it does to the chains. */
    method Happen(e: Event)
      requires Valid() && Mapped()
      modifies this, live, pcbs, active
      ensures Valid() && Mapped()
      ensures |old(chains)| == MAX_PROCESS_GROUPS && chains == Next(old(chains), old(currentGroup), e)
      ensures currentGroup == NextGroup(old(currentGroup), e)
    {
      hide Forest, FirstUnused;
      ghost var t, c := State(), chains;
      ActiveOnTop(t, c, currentGroup);
      match e
      case Exec(loads) =>
        var pid := Execute(loads);
        if loads {
          assert FirstFree(t.live, pid);
          UnusedIsFree(t, c, pid);
        }
      case Halt =>
        // The kernel itself never halts.
        if active[currentGroup] != 0 {
          HaltProcess();
        }
      case Tick =>
        ScheduleNext();
    }

    /** Any interleaving of execute, halt and timer ticks keeps the forest and the
        mapping, and does to each group's chain what its own events do. */
    method Run(events: seq<Event>)
      requires Valid() && Mapped()
      modifies this, live, pcbs, active
      ensures Valid() && Mapped() && |old(chains)| == MAX_PROCESS_GROUPS
      ensures chains == ChainsAfter(old(chains), old(currentGroup), events)
      ensures currentGroup == GroupAfter(old(currentGroup), events)
    {
      hide Forest, Next, NextGroup, ChainsAfter, GroupAfter;
      ghost var c, g := chains, currentGroup;
      ActiveOnTop(State(), c, g);
      NothingHappens(c, g, events);
      for i := 0 to |events|
        invariant Valid() && Mapped()
        invariant chains == ChainsAfter(c, g, events[..i]) && currentGroup == GroupAfter(g, events[..i])
      {
        OneMoreEvent(c, g, events, i);
        Happen(events[i]);
      }
      assert events[..|events|] == events;
    }
  }
}
