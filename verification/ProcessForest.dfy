// The process table of mp3/student-distrib: PIDs, parents and the three process
// groups, as a forest of chains that all end at the kernel, PID 0.
module ProcessForest {
  import opened KernelLimits

  const MAX_PID := 7

  datatype Pcb = Pcb(pid: int, parent: int)

  /** The table: which slots of pid_array hold a PCB, the PCB blocks, and the
      active process of each group. */
  datatype Table = Table(live: seq<bool>, pcbs: seq<Pcb>, active: seq<int>)

  /** The process on top of a chain; the kernel when the chain is empty. */
  function Top(chain: seq<int>): int {
    if chain == [] then 0 else chain[|chain| - 1]
  }

  /** The chain runs from the kernel downwards: each process is live, sits in its
      own slot and has the one before it as parent. */
  ghost predicate Linked(t: Table, chain: seq<int>)
    requires |t.live| == |t.pcbs| == MAX_PID
  {
    forall k | 0 <= k < |chain| ::
      1 <= chain[k] < MAX_PID && t.live[chain[k]] && t.pcbs[chain[k]] == Pcb(chain[k], Top(chain[..k]))
  }

  /** No process is at two places. */
  ghost predicate Apart(chains: seq<seq<int>>) {
    forall g, h, j, k | 0 <= g < |chains| && 0 <= j < |chains[g]| && 0 <= h < |chains| && 0 <= k < |chains[h]|
                     && chains[g][j] == chains[h][k] :: g == h && j == k
  }

  ghost predicate OnSomeChain(chains: seq<seq<int>>, p: int) {
    exists g, k :: 0 <= g < |chains| && 0 <= k < |chains[g]| && chains[g][k] == p
  }

  ghost predicate Covered(live: seq<bool>, chains: seq<seq<int>>) {
    forall p | 1 <= p < |live| && live[p] :: OnSomeChain(chains, p)
  }

  /** `chains` lists, for each group, its processes from the first child of the
      kernel to the active one. */
  ghost predicate Forest(t: Table, chains: seq<seq<int>>) {
    && |t.live| == |t.pcbs| == MAX_PID && |t.active| == |chains| == MAX_PROCESS_GROUPS
    && t.live[0] && t.pcbs[0] == Pcb(0, -1)
    && (forall g | 0 <= g < MAX_PROCESS_GROUPS :: t.active[g] == Top(chains[g]))
    && (forall g | 0 <= g < MAX_PROCESS_GROUPS :: Linked(t, chains[g]))
    && Apart(chains)
    && Covered(t.live, chains)
  }

  /** The table after a new process p has become the active one of group g. */
  function Spawned(t: Table, g: int, p: int): Table
    requires |t.live| == |t.pcbs| == MAX_PID && |t.active| == MAX_PROCESS_GROUPS
    requires 0 <= g < MAX_PROCESS_GROUPS && 0 <= p < MAX_PID
  {
    Table(t.live[p := true], t.pcbs[p := Pcb(p, t.active[g])], t.active[g := p])
  }

  /** The table after the active process of group g has gone. */
  function Torn(t: Table, g: int): Table
    requires |t.live| == |t.pcbs| == MAX_PID && |t.active| == MAX_PROCESS_GROUPS
    requires 0 <= g < MAX_PROCESS_GROUPS && 0 <= t.active[g] < MAX_PID
  {
    var p := t.active[g];
    Table(t.live[p := false], t.pcbs[p := Pcb(0, 0)], t.active[g := t.pcbs[p].parent])
  }

  lemma ApartAfterPush(chains: seq<seq<int>>, g: int, p: int)
    requires Apart(chains) && 0 <= g < |chains| && !OnSomeChain(chains, p)
    ensures Apart(chains[g := chains[g] + [p]])
  {
    var c' := chains[g := chains[g] + [p]];
    forall a, b, j, k | 0 <= a < |c'| && 0 <= j < |c'[a]| && 0 <= b < |c'| && 0 <= k < |c'[b]| && c'[a][j] == c'[b][k]
      ensures a == b && j == k
    {
      assert (a == g && j == |chains[g]|) || (j < |chains[a]| && c'[a][j] == chains[a][j]);
      assert (b == g && k == |chains[g]|) || (k < |chains[b]| && c'[b][k] == chains[b][k]);
    }
  }

  lemma ApartAfterPop(chains: seq<seq<int>>, g: int)
    requires Apart(chains) && 0 <= g < |chains| && chains[g] != []
    ensures Apart(chains[g := chains[g][..|chains[g]| - 1]])
    ensures !OnSomeChain(chains[g := chains[g][..|chains[g]| - 1]], Top(chains[g]))
  {
    var c' := chains[g := chains[g][..|chains[g]| - 1]];
    assert forall a, j | 0 <= a < |c'| && 0 <= j < |c'[a]| :: c'[a][j] == chains[a][j];
  }

  /** A chain is still linked when the table keeps the slots it uses. */
  lemma LinkedKept(t: Table, t': Table, chain: seq<int>)
    requires |t.live| == |t.pcbs| == |t'.live| == |t'.pcbs| == MAX_PID && Linked(t, chain)
    requires forall q | 0 <= q < MAX_PID && q in chain :: t'.live[q] == t.live[q] && t'.pcbs[q] == t.pcbs[q]
    ensures Linked(t', chain)
  {
    forall k | 0 <= k < |chain|
      ensures 1 <= chain[k] < MAX_PID && t'.live[chain[k]] && t'.pcbs[chain[k]] == Pcb(chain[k], Top(chain[..k]))
    {
      assert chain[k] in chain;
    }
  }

  lemma LinkedPush(t: Table, chain: seq<int>, p: int)
    requires |t.live| == |t.pcbs| == MAX_PID && Linked(t, chain)
    requires 1 <= p < MAX_PID && t.live[p] && t.pcbs[p] == Pcb(p, Top(chain))
    ensures Linked(t, chain + [p])
  {
    var c' := chain + [p];
    forall k | 0 <= k < |c'|
      ensures 1 <= c'[k] < MAX_PID && t.live[c'[k]] && t.pcbs[c'[k]] == Pcb(c'[k], Top(c'[..k]))
    {
      if k == |chain| {
        assert c'[..k] == chain;
      } else {
        assert c'[k] == chain[k] && c'[..k] == chain[..k];
      }
    }
  }

  lemma LinkedPop(t: Table, chain: seq<int>)
    requires |t.live| == |t.pcbs| == MAX_PID && Linked(t, chain) && chain != []
    ensures Linked(t, chain[..|chain| - 1])
  {
    var c' := chain[..|chain| - 1];
    forall k | 0 <= k < |c'|
      ensures 1 <= c'[k] < MAX_PID && t.live[c'[k]] && t.pcbs[c'[k]] == Pcb(c'[k], Top(c'[..k]))
    {
      assert c'[k] == chain[k] && c'[..k] == chain[..k];
    }
  }

  lemma OffTheChains(t: Table, chains: seq<seq<int>>, p: int)
    requires |t.live| == |t.pcbs| == MAX_PID && forall g | 0 <= g < |chains| :: Linked(t, chains[g])
    requires 0 <= p < MAX_PID && (p == 0 || !t.live[p])
    ensures !OnSomeChain(chains, p)
    ensures forall g | 0 <= g < |chains| :: p !in chains[g]
  {
  }

  lemma CoveredAfterPush(live: seq<bool>, chains: seq<seq<int>>, g: int, p: int)
    requires Covered(live, chains) && 0 <= g < |chains| && 1 <= p < |live|
    ensures Covered(live[p := true], chains[g := chains[g] + [p]])
  {
    var c' := chains[g := chains[g] + [p]];
    forall q | 1 <= q < |live| && live[p := true][q] ensures OnSomeChain(c', q) {
      if q == p {
        assert c'[g][|chains[g]|] == p;
      } else {
        var h, k :| 0 <= h < |chains| && 0 <= k < |chains[h]| && chains[h][k] == q;
        assert c'[h][k] == q;
      }
    }
  }

  lemma CoveredAfterPop(live: seq<bool>, chains: seq<seq<int>>, g: int, p: int)
    requires Covered(live, chains) && 0 <= g < |chains| && chains[g] != [] && p == Top(chains[g]) && 0 <= p < |live|
    ensures Covered(live[p := false], chains[g := chains[g][..|chains[g]| - 1]])
  {
    var c' := chains[g := chains[g][..|chains[g]| - 1]];
    forall q | 1 <= q < |live| && live[p := false][q] ensures OnSomeChain(c', q) {
      var h, k :| 0 <= h < |chains| && 0 <= k < |chains[h]| && chains[h][k] == q;
      assert c'[h][k] == q;
    }
  }

  lemma SpawnKeepsForest(t: Table, chains: seq<seq<int>>, g: int, p: int)
    requires Forest(t, chains) && 0 <= g < MAX_PROCESS_GROUPS && 1 <= p < MAX_PID && !t.live[p]
    ensures Forest(Spawned(t, g, p), chains[g := chains[g] + [p]])
  {
    hide Linked, Apart, Covered, OnSomeChain;
    var t', c' := Spawned(t, g, p), chains[g := chains[g] + [p]];
    OffTheChains(t, chains, p);
    ApartAfterPush(chains, g, p);
    CoveredAfterPush(t.live, chains, g, p);
    forall h | 0 <= h < MAX_PROCESS_GROUPS ensures Linked(t', c'[h]) {
      assert p !in chains[h];
      LinkedKept(t, t', chains[h]);
      if h == g {
        LinkedPush(t', chains[g], p);
      }
    }
  }

  lemma LastOnChain(t: Table, chain: seq<int>)
    requires |t.live| == |t.pcbs| == MAX_PID && Linked(t, chain) && Top(chain) != 0
    ensures chain != [] && 1 <= Top(chain) < MAX_PID && t.live[Top(chain)]
    ensures t.pcbs[Top(chain)] == Pcb(Top(chain), Top(chain[..|chain| - 1]))
  {
  }

  lemma TearKeepsForest(t: Table, chains: seq<seq<int>>, g: int)
    requires Forest(t, chains) && 0 <= g < MAX_PROCESS_GROUPS && t.active[g] != 0
    ensures 1 <= t.active[g] < MAX_PID && chains[g] != []
    ensures Forest(Torn(t, g), chains[g := chains[g][..|chains[g]| - 1]])
  {
    hide Linked, Apart, Covered, OnSomeChain;
    var p, n := t.active[g], |chains[g]| - 1;
    LastOnChain(t, chains[g]);
    var t', c' := Torn(t, g), chains[g := chains[g][..n]];
    ApartAfterPop(chains, g);
    CoveredAfterPop(t.live, chains, g, p);
    forall h | 0 <= h < MAX_PROCESS_GROUPS ensures Linked(t', c'[h]) {
      if h == g {
        LinkedPop(t, chains[g]);
      }
      NotOnOtherChains(c', p, h);
      LinkedKept(t, t', c'[h]);
    }
  }

  lemma NotOnOtherChains(chains: seq<seq<int>>, p: int, h: int)
    requires !OnSomeChain(chains, p) && 0 <= h < |chains|
    ensures p !in chains[h]
  {
  }

  lemma KernelSlot(t: Table, chains: seq<seq<int>>)
    requires Forest(t, chains)
    ensures |t.live| == |t.pcbs| == MAX_PID && t.live[0] && t.pcbs[0] == Pcb(0, -1)
  {
  }

  lemma NoKernelNoForest(t: Table)
    requires |t.live| > 0 && !t.live[0]
    ensures !exists chains :: Forest(t, chains)
  {
  }

  /** The active process of a group has its own number in its PCB. */
  lemma ParentIsItself(t: Table, chains: seq<seq<int>>, g: int)
    requires Forest(t, chains) && 0 <= g < MAX_PROCESS_GROUPS
    ensures |t.live| == |t.pcbs| == MAX_PID && |t.active| == |chains| == MAX_PROCESS_GROUPS
    ensures 0 <= t.active[g] < MAX_PID && t.pcbs[t.active[g]].pid == t.active[g]
  {
    if chains[g] != [] {
      LastOnChain(t, chains[g]);
    }
  }

  /** A group runs the kernel exactly when its chain is empty. */
  lemma ActiveOnTop(t: Table, chains: seq<seq<int>>, g: int)
    requires Forest(t, chains) && 0 <= g < MAX_PROCESS_GROUPS
    ensures |chains| == |t.active| == MAX_PROCESS_GROUPS && t.active[g] == Top(chains[g])
    ensures t.active[g] == 0 <==> chains[g] == []
  {
    if chains[g] != [] {
      assert Linked(t, chains[g]);
    }
  }

  /** Spawning and then tearing down gives back the slots and the active PIDs. */
  lemma SpawnThenTear(t: Table, chains: seq<seq<int>>, g: int, p: int)
    requires Forest(t, chains) && 0 <= g < MAX_PROCESS_GROUPS && 1 <= p < MAX_PID && !t.live[p]
    ensures Torn(Spawned(t, g, p), g).live == t.live && Torn(Spawned(t, g, p), g).active == t.active
    ensures forall q | 0 <= q < MAX_PID && t.live[q] :: Torn(Spawned(t, g, p), g).pcbs[q] == t.pcbs[q]
  {
  }

  // ----- the chains, from the PCBs alone -----

  /** The n-th ancestor of p, following the PCBs. */
  ghost function Ancestor(t: Table, p: int, n: nat): int {
    if n == 0 then p
    else
      var q := Ancestor(t, p, n - 1);
      if 0 <= q < |t.pcbs| then t.pcbs[q].parent else q
  }

  lemma {:induction false} AncestorOnChain(t: Table, chain: seq<int>, n: nat)
    requires |t.live| == |t.pcbs| == MAX_PID && Linked(t, chain) && n <= |chain|
    ensures Ancestor(t, Top(chain), n) == Top(chain[..|chain| - n])
  {
    var m := |chain|;
    if n == 0 {
      assert chain[..m] == chain;
    } else {
      AncestorOnChain(t, chain, n - 1);
      var k := m - n;
      assert Top(chain[..k + 1]) == chain[k];
      assert t.pcbs[chain[k]] == Pcb(chain[k], Top(chain[..k]));
    }
  }

  /** Beyond the kernel there is nothing: ancestors past the end of a chain are -1. */
  lemma {:induction false} BeyondTheKernel(t: Table, chain: seq<int>, n: nat)
    requires |t.live| == |t.pcbs| == MAX_PID && Linked(t, chain) && t.pcbs[0] == Pcb(0, -1) && n > |chain|
    ensures Ancestor(t, Top(chain), n) == -1
  {
    if n == |chain| + 1 {
      AncestorOnChain(t, chain, n - 1);
    } else {
      BeyondTheKernel(t, chain, n - 1);
    }
  }

  lemma OnAChain(t: Table, chains: seq<seq<int>>, p: int)
    requires Forest(t, chains) && OnSomeChain(chains, p)
    ensures exists g, n: nat :: 0 <= g < MAX_PROCESS_GROUPS && Ancestor(t, t.active[g], n) == p
  {
    var g, k :| 0 <= g < |chains| && 0 <= k < |chains[g]| && chains[g][k] == p;
    hide Linked, Apart, Covered, OnSomeChain, Ancestor;
    AncestorOnChain(t, chains[g], |chains[g]| - (k + 1));
    assert Top(chains[g][..k + 1]) == p;
  }

  /** Every live process but the kernel is an ancestor of the active process of
      exactly one group, and every group's ancestry ends at the kernel. */
  lemma OneGroupPerProcess(t: Table, chains: seq<seq<int>>, p: int)
    requires Forest(t, chains) && 1 <= p < MAX_PID && t.live[p]
    ensures exists g, n: nat :: 0 <= g < MAX_PROCESS_GROUPS && Ancestor(t, t.active[g], n) == p
    ensures forall g, h, m: nat, n: nat | 0 <= g < MAX_PROCESS_GROUPS && 0 <= h < MAX_PROCESS_GROUPS
      && Ancestor(t, t.active[g], m) == p && Ancestor(t, t.active[h], n) == p :: g == h && m == n
    ensures forall g | 0 <= g < MAX_PROCESS_GROUPS :: Ancestor(t, t.active[g], |chains[g]|) == 0
  {
    hide Linked, Apart, OnSomeChain, Ancestor;
    OnAChain(t, chains, p);
    hide Covered;
    forall a, b, m: nat, n: nat | 0 <= a < MAX_PROCESS_GROUPS && 0 <= b < MAX_PROCESS_GROUPS
      && Ancestor(t, t.active[a], m) == p && Ancestor(t, t.active[b], n) == p
      ensures a == b && m == n
    {
      SamePlace(t, chains, a, b, m, n);
    }
    forall a | 0 <= a < MAX_PROCESS_GROUPS ensures Ancestor(t, t.active[a], |chains[a]|) == 0 {
      AncestorOnChain(t, chains[a], |chains[a]|);
    }
  }

  lemma SamePlace(t: Table, chains: seq<seq<int>>, g: int, h: int, m: nat, n: nat)
    requires |t.live| == |t.pcbs| == MAX_PID && t.pcbs[0] == Pcb(0, -1)
    requires Apart(chains) && 0 <= g < |chains| && 0 <= h < |chains|
    requires Linked(t, chains[g]) && Linked(t, chains[h])
    requires Ancestor(t, Top(chains[g]), m) == Ancestor(t, Top(chains[h]), n) > 0
    ensures g == h && m == n
  {
    hide Linked, Ancestor;
    var p := Ancestor(t, Top(chains[g]), m);
    var j := PlaceOnChain(t, chains[g], m, p);
    var k := PlaceOnChain(t, chains[h], n, p);
  }

  lemma PlaceOnChain(t: Table, chain: seq<int>, n: nat, p: int) returns (k: nat)
    requires |t.live| == |t.pcbs| == MAX_PID && Linked(t, chain) && t.pcbs[0] == Pcb(0, -1)
    requires Ancestor(t, Top(chain), n) == p && p > 0
    ensures n < |chain| && k == |chain| - 1 - n && chain[k] == p
  {
    if n > |chain| {
      BeyondTheKernel(t, chain, n);
    } else {
      AncestorOnChain(t, chain, n);
    }
    k := |chain| - 1 - n;
  }

  // ----- addresses -----

  const KERNEL_LOC := 0x400000
  const KERNEL_LOC_END := 0x800000
  const PROG_PAGE_SIZE := 0x400000
  const PCB_BLK_SIZE := 0x2000

  function ProgPhysAddr(pid: int): int {
    KERNEL_LOC_END + (pid - 1) * PROG_PAGE_SIZE
  }

  function PcbAddr(pid: int): int {
    if pid < 0 || pid >= MAX_PID then 0 else KERNEL_LOC_END - PCB_BLK_SIZE * (pid + 1)
  }

  function KstackAddr(pid: int): int {
    if pid < 0 || pid >= MAX_PID then 0 else KERNEL_LOC_END - PCB_BLK_SIZE * pid - 4
  }

  /** The frames follow the kernel's page, 4 MB each and aligned as 4 MB pages have to be;
      the PCB blocks go down from its end, 8 KB each and aligned, and each kernel stack
      starts at the last word of its block. */
  lemma AddressesAre(p: int)
    requires 0 <= p < MAX_PID
    ensures ProgPhysAddr(p) == 0x40_0000 * (p + 1) && ProgPhysAddr(p) % 0x40_0000 == 0
    ensures PcbAddr(p) == 0x80_0000 - 0x2000 * (p + 1) && PcbAddr(p) % 0x2000 == 0
    ensures KstackAddr(p) + 4 == PcbAddr(p) + 0x2000
  {
  }

  /** Different processes have disjoint program frames, none of them in kernel
      memory, and disjoint PCB blocks with their kernel stacks inside. */
  lemma ProcessesAreApart(p: int, q: int)
    requires 0 <= p < MAX_PID && 0 <= q < MAX_PID && p < q
    ensures ProgPhysAddr(p) + PROG_PAGE_SIZE <= ProgPhysAddr(q)
    ensures KERNEL_LOC_END <= ProgPhysAddr(q)
    ensures KERNEL_LOC <= PcbAddr(q) < KstackAddr(q) && KstackAddr(q) + 4 <= PcbAddr(p)
    ensures KstackAddr(p) + 4 <= KERNEL_LOC_END && PcbAddr(p) + PCB_BLK_SIZE == KstackAddr(p) + 4
  {
  }
}
