// What execute, halt and timer ticks do to the chains of the process groups of
// mp3/student-distrib, in any interleaving.
module GroupChains {
  import opened KernelLimits
  import opened ProcessForest

  /** What happens to the table at run time. `loads` says whether __load_program
      found an executable. */
  datatype Event = Exec(loads: bool) | Halt | Tick

  /** p is the first free slot, or -1 when there is none. */
  ghost predicate FirstFree(live: seq<bool>, p: int) {
    && (p == FAILURE <==> forall q | 0 <= q < |live| :: live[q])
    && (p != FAILURE ==> 0 <= p < |live| && !live[p] && forall q | 0 <= q < p :: live[q])
  }

  /** The first PID from `from` on that no group uses, or -1. */
  ghost function FirstUnused(chains: seq<seq<int>>, from: nat): int
    decreases MAX_PID - from
  {
    if from >= MAX_PID then FAILURE
    else if !OnSomeChain(chains, from) then from
    else FirstUnused(chains, from + 1)
  }

  lemma {:induction false} FirstUnusedIsFree(t: Table, chains: seq<seq<int>>, p: int, from: nat)
    requires Forest(t, chains) && FirstFree(t.live, p) && 1 <= from <= MAX_PID
    requires forall q | 0 <= q < from :: t.live[q]
    ensures FirstUnused(chains, from) == p
    decreases MAX_PID - from
  {
    hide Linked, Apart;
    if from < MAX_PID {
      if t.live[from] {
        assert OnSomeChain(chains, from);
        FirstUnusedIsFree(t, chains, p, from + 1);
      } else {
        OffTheChains(t, chains, from);
      }
    }
  }

  /** The process that group g's next execute starts is the first free PID. */
  lemma UnusedIsFree(t: Table, chains: seq<seq<int>>, p: int)
    requires Forest(t, chains) && FirstFree(t.live, p)
    ensures FirstUnused(chains, 1) == p
  {
    FirstUnusedIsFree(t, chains, p, 1);
  }

  // ----- one event, and many -----

  /** Execute pushes a process on the chain of the group that is running, unless the
      program does not load or no PID is left; halt pops it; a tick only changes the
      group. The kernel itself never halts. */
  ghost function Next(chains: seq<seq<int>>, g: int, e: Event): (r: seq<seq<int>>)
    requires 0 <= g < |chains|
    ensures |r| == |chains|
  {
    match e
    case Exec(loads) =>
      var p := FirstUnused(chains, 1);
      if loads && p != FAILURE then chains[g := chains[g] + [p]] else chains
    case Halt => if chains[g] == [] then chains else chains[g := chains[g][..|chains[g]| - 1]]
    case Tick => chains
  }

  function NextGroup(g: int, e: Event): int {
    if e.Tick? then (g + 1) % MAX_PROCESS_GROUPS else g
  }

  /** The group that runs after the events. */
  function GroupAfter(g: int, events: seq<Event>): (r: int)
    requires 0 <= g < MAX_PROCESS_GROUPS
    ensures 0 <= r < MAX_PROCESS_GROUPS
  {
    if events == [] then g else NextGroup(GroupAfter(g, events[..|events| - 1]), events[|events| - 1])
  }

  ghost function ChainsAfter(chains: seq<seq<int>>, g: int, events: seq<Event>): (r: seq<seq<int>>)
    requires |chains| == MAX_PROCESS_GROUPS && 0 <= g < MAX_PROCESS_GROUPS
    ensures |r| == MAX_PROCESS_GROUPS
  {
    if events == [] then chains
    else
      var front := events[..|events| - 1];
      Next(ChainsAfter(chains, g, front), GroupAfter(g, front), events[|events| - 1])
  }

  /** Ticks let the groups run in turn. */
  lemma {:induction false} TicksGoRound(g: int, ticks: seq<Event>)
    requires 0 <= g < MAX_PROCESS_GROUPS && forall k | 0 <= k < |ticks| :: ticks[k].Tick?
    ensures GroupAfter(g, ticks) == (g + |ticks|) % 3
  {
    if ticks != [] {
      TicksGoRound(g, ticks[..|ticks| - 1]);
    }
  }

  lemma NothingHappens(chains: seq<seq<int>>, g: int, events: seq<Event>)
    requires |chains| == MAX_PROCESS_GROUPS && 0 <= g < MAX_PROCESS_GROUPS
    ensures ChainsAfter(chains, g, events[..0]) == chains && GroupAfter(g, events[..0]) == g
  {
  }

  lemma OneMoreEvent(chains: seq<seq<int>>, g: int, events: seq<Event>, k: nat)
    requires |chains| == MAX_PROCESS_GROUPS && 0 <= g < MAX_PROCESS_GROUPS && k < |events|
    ensures ChainsAfter(chains, g, events[..k + 1])
         == Next(ChainsAfter(chains, g, events[..k]), GroupAfter(g, events[..k]), events[k])
    ensures GroupAfter(g, events[..k + 1]) == NextGroup(GroupAfter(g, events[..k]), events[k])
  {
    assert events[..k + 1][..k] == events[..k];
  }

  /** No event touches the chain of a group that is not running. */
  lemma OthersKeepTheirChains(chains: seq<seq<int>>, g: int, e: Event, h: int)
    requires 0 <= g < |chains| && 0 <= h < |chains| && h != g
    ensures Next(chains, g, e)[h] == chains[h]
  {
  }

  /** Group h's chain has at least n processes all through the events. */
  ghost predicate StaysAbove(chains: seq<seq<int>>, g: int, events: seq<Event>, h: int, n: nat)
    requires |chains| == MAX_PROCESS_GROUPS && 0 <= g < MAX_PROCESS_GROUPS && 0 <= h < MAX_PROCESS_GROUPS
  {
    forall k | 0 <= k <= |events| :: |ChainsAfter(chains, g, events[..k])[h]| >= n
  }

  /** What lies below the lowest point a chain reaches is never touched, whatever
      happens above it and in the other groups. */
  lemma {:induction false} BottomStays(chains: seq<seq<int>>, g: int, events: seq<Event>, h: int, n: nat)
    requires |chains| == MAX_PROCESS_GROUPS && 0 <= g < MAX_PROCESS_GROUPS && 0 <= h < MAX_PROCESS_GROUPS
    requires StaysAbove(chains, g, events, h, n)
    ensures |chains[h]| >= n && |ChainsAfter(chains, g, events)[h]| >= n
    ensures ChainsAfter(chains, g, events)[h][..n] == chains[h][..n]
    decreases |events|
  {
    hide StaysAbove, FirstUnused;
    AboveAtEnds(chains, g, events, h, n);
    if events != [] {
      var front := events[..|events| - 1];
      AboveInFront(chains, g, events, h, n);
      BottomStays(chains, g, front, h, n);
      var before := ChainsAfter(chains, g, front)[h];
      assert |before| >= n;
      assert ChainsAfter(chains, g, events)[h][..n] == before[..n];
    }
  }

  lemma AboveAtEnds(chains: seq<seq<int>>, g: int, events: seq<Event>, h: int, n: nat)
    requires |chains| == MAX_PROCESS_GROUPS && 0 <= g < MAX_PROCESS_GROUPS && 0 <= h < MAX_PROCESS_GROUPS
    requires StaysAbove(chains, g, events, h, n)
    ensures |chains[h]| >= n && |ChainsAfter(chains, g, events)[h]| >= n
  {
    hide Next;
    assert events[..|events|] == events && |ChainsAfter(chains, g, events[..|events|])[h]| >= n;
    NothingHappens(chains, g, events);
    assert |ChainsAfter(chains, g, events[..0])[h]| >= n;
  }

  lemma AboveInFront(chains: seq<seq<int>>, g: int, events: seq<Event>, h: int, n: nat)
    requires |chains| == MAX_PROCESS_GROUPS && 0 <= g < MAX_PROCESS_GROUPS && 0 <= h < MAX_PROCESS_GROUPS
    requires StaysAbove(chains, g, events, h, n) && events != []
    ensures StaysAbove(chains, g, events[..|events| - 1], h, n)
  {
    hide Next;
    var front := events[..|events| - 1];
    forall k | 0 <= k <= |front| ensures |ChainsAfter(chains, g, front[..k])[h]| >= n {
      assert front[..k] == events[..k];
    }
  }

  /** A halt undoes the latest execute of its group that is still running, whatever ran
      in between: if group g executes a program, and later, back at that depth, halts,
      its chain and its active process are what they were. */
  lemma HaltUndoesExecute(chains: seq<seq<int>>, g: int, mid: seq<Event>)
    requires |chains| == MAX_PROCESS_GROUPS && 0 <= g < MAX_PROCESS_GROUPS && FirstUnused(chains, 1) != FAILURE
    requires var started := Next(chains, g, Exec(true));
      && StaysAbove(started, g, mid, g, |chains[g]| + 1) && GroupAfter(g, mid) == g
      && |ChainsAfter(started, g, mid)[g]| == |chains[g]| + 1
    ensures Next(ChainsAfter(Next(chains, g, Exec(true)), g, mid), g, Halt)[g] == chains[g]
  {
    hide StaysAbove, ChainsAfter, GroupAfter, FirstUnused;
    var started, n := Next(chains, g, Exec(true)), |chains[g]|;
    BottomStays(started, g, mid, g, n + 1);
    var end := ChainsAfter(started, g, mid);
    assert end[g] == end[g][..n + 1] == started[g][..n + 1] == chains[g] + [FirstUnused(chains, 1)];
    assert Next(end, g, Halt)[g] == end[g][..n];
  }

  // ----- when the PIDs run out -----

  /** A list without repetitions has as many members as places. */
  lemma {:induction false} AsManyAsPlaces(s: seq<int>)
    requires forall j, k | 0 <= j < k < |s| :: s[j] != s[k]
    ensures |set x | x in s| == |s|
  {
    if s != [] {
      var front := s[..|s| - 1];
      AsManyAsPlaces(front);
      assert (set x | x in s) == (set x | x in front) + {s[|s| - 1]};
    } else {
      assert (set x | x in s) == {};
    }
  }

  ghost function AllPids(n: nat): (r: set<int>)
    ensures |r| == n && forall p :: p in r <==> 1 <= p <= n
  {
    if n == 0 then {} else AllPids(n - 1) + {n}
  }

  lemma SubsetOfSameSize<T>(a: set<T>, b: set<T>)
    requires a <= b && |a| == |b|
    ensures a == b
  {
    assert b == a + (b - a) && |b - a| == 0;
  }

  /** The PIDs in use: as many as the chains are long together. */
  lemma UsedPids(t: Table, chains: seq<seq<int>>) returns (used: set<int>)
    requires Forest(t, chains)
    ensures |chains| == MAX_PROCESS_GROUPS && |used| == |chains[0]| + |chains[1]| + |chains[2]|
    ensures used <= AllPids(MAX_PID - 1) && forall p :: p in used <==> OnSomeChain(chains, p)
  {
    NoRepetition(t, chains);
    InRange(t, chains);
    Members(chains);
    hide *;
    var all := chains[0] + chains[1] + chains[2];
    AsManyAsPlaces(all);
    used := set x | x in all;
    EveryPid(used);
  }

  lemma EveryPid(used: set<int>)
    requires forall p | p in used :: 1 <= p < MAX_PID
    ensures used <= AllPids(MAX_PID - 1)
  {
  }

  lemma AllOrNot(used: set<int>, n: nat)
    requires used <= AllPids(n)
    ensures |used| == n <==> forall p | 1 <= p <= n :: p in used
  {
    if |used| == n {
      SubsetOfSameSize(used, AllPids(n));
    }
    if forall p | 1 <= p <= n :: p in used {
      assert used == AllPids(n);
    }
  }

  /** Execute runs out of PIDs exactly when six processes are running. */
  lemma FullAtSix(t: Table, chains: seq<seq<int>>)
    requires Forest(t, chains)
    ensures |chains| == MAX_PROCESS_GROUPS
    ensures FirstUnused(chains, 1) == FAILURE <==> |chains[0]| + |chains[1]| + |chains[2]| == MAX_PID - 1
  {
    hide Forest, OnSomeChain, FirstUnused, AllPids;
    var used := UsedPids(t, chains);
    UsedUp(chains, 1);
    AllOrNot(used, MAX_PID - 1);
  }

  lemma NoRepetition(t: Table, chains: seq<seq<int>>)
    requires Forest(t, chains)
    ensures |chains| == MAX_PROCESS_GROUPS
    ensures var all := chains[0] + chains[1] + chains[2];
      forall j, k | 0 <= j < k < |all| :: all[j] != all[k]
  {
    hide Linked, Covered;
    var all, m, n := chains[0] + chains[1] + chains[2], |chains[0]|, |chains[0]| + |chains[1]|;
    forall j, k | 0 <= j < k < |all| ensures all[j] != all[k] {
      var g := if j < m then 0 else if j < n then 1 else 2;
      var h := if k < m then 0 else if k < n then 1 else 2;
      var a := if j < m then j else if j < n then j - m else j - n;
      var b := if k < m then k else if k < n then k - m else k - n;
      assert all[j] == chains[g][a] && all[k] == chains[h][b];
    }
  }

  lemma InRange(t: Table, chains: seq<seq<int>>)
    requires Forest(t, chains)
    ensures |chains| == MAX_PROCESS_GROUPS
    ensures forall x | x in chains[0] + chains[1] + chains[2] :: 1 <= x < MAX_PID
  {
    hide Apart, Covered;
    assert Linked(t, chains[0]) && Linked(t, chains[1]) && Linked(t, chains[2]);
  }

  lemma Members(chains: seq<seq<int>>)
    requires |chains| == MAX_PROCESS_GROUPS
    ensures forall p :: OnSomeChain(chains, p) <==> p in chains[0] + chains[1] + chains[2]
  {
    forall p ensures OnSomeChain(chains, p) <==> p in chains[0] + chains[1] + chains[2] {
      assert p in chains[0] + chains[1] + chains[2] <==> p in chains[0] || p in chains[1] || p in chains[2];
      if OnSomeChain(chains, p) {
        var g, k :| 0 <= g < |chains| && 0 <= k < |chains[g]| && chains[g][k] == p;
        assert p in chains[g];
      }
    }
  }

  lemma {:induction false} UsedUp(chains: seq<seq<int>>, from: nat)
    ensures FirstUnused(chains, from) == FAILURE <==> forall p | from <= p < MAX_PID :: OnSomeChain(chains, p)
    decreases MAX_PID - from
  {
    if from < MAX_PID {
      UsedUp(chains, from + 1);
    }
  }
}
