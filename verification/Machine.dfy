/**
 `ker/fork.c`, `ker/exit.c` and `umap` on the process table, the physical memory and the hole list,
 proved to be the steps of `Processes`.
 */
module Machine {
  import opened Processes
  import opened Options
  import A = Arena
  import B = Boot
  import Holes

  class Machine {
    const procs: array<Pcb>
    const mem: array<Byte>
    const holes: Holes.HoleAllocator
    ghost var live: set<nat>

    ghost predicate Separate()
      reads this
    {
      procs as object != mem && procs as object != holes.tab && mem as object != holes.tab
    }

    ghost predicate Valid()
      reads this, procs, mem, holes, holes.tab
    {
      Separate() && holes.Valid() && Inv(Abs())
    }

    ghost function Abs(): Sys
      requires holes.Valid()
      reads this, procs, mem, holes, holes.tab
    {
      Sys(procs[..], holes.Abs(), mem[..], live)
    }

    /** `mem_init` for a memory of `end` bytes, and `proc_init` with `userstack` inside the kernel image. */
    constructor (tasks: nat, userstack: nat, descriptors: nat, end: nat)
      requires tasks > INIT && userstack + B.IDLE_STACK + B.INIT_STACK <= B.MEMORY_START
      requires B.Memory(end, descriptors)
      ensures Valid() && fresh(procs) && fresh(mem) && fresh(holes) && fresh(holes.tab)
      ensures B.Booted(Abs(), descriptors) && mem.Length == end && procs.Length == tasks
      ensures procs[IDLE] == B.FirstPcb(IDLE, userstack, B.IDLE_STACK)
      ensures procs[INIT] == B.FirstPcb(INIT, userstack + B.IDLE_STACK, B.INIT_STACK)
    {
      procs := new Pcb[tasks](t requires t >= 0 => Pcb(false, B.Selector(t), 0, 0, 0, 0, 0, 0));
      mem := new Byte[end](_ => 0);
      var allocator := new Holes.HoleAllocator(descriptors, B.MEMORY_START, end);
      var kmemBase := allocator.KmemAlloc(B.HEAP);
      holes, live := allocator, {};
      new;
      ProcInit(userstack);
      B.BootedInv(Abs(), descriptors);
    }

    /** The loop of `proc_init` over the first two entries. */
    method ProcInit(userstack: nat)
      requires procs.Length > INIT
      requires forall t :: 0 <= t < procs.Length ==> !procs[t].inUse && procs[t].ldt == B.Selector(t)
      modifies procs
      ensures procs[IDLE] == B.FirstPcb(IDLE, userstack, B.IDLE_STACK)
      ensures procs[INIT] == B.FirstPcb(INIT, userstack + B.IDLE_STACK, B.INIT_STACK)
      ensures forall t :: INIT < t < procs.Length ==> procs[t] == old(procs[t])
    {
      var t, tstkbase := 0, userstack;
      while t < 2
        invariant t <= 2 && (t == 0 ==> tstkbase == userstack) && (t == 1 ==> tstkbase == userstack + B.IDLE_STACK)
        invariant t > 0 ==> procs[0] == B.FirstPcb(0, userstack, B.IDLE_STACK)
        invariant t > 1 ==> procs[1] == B.FirstPcb(1, userstack + B.IDLE_STACK, B.INIT_STACK)
        invariant forall i :: t <= i < procs.Length ==> procs[i] == old(procs[i])
      {
        var size := if t == 0 then B.IDLE_STACK else B.INIT_STACK;
        procs[t] := Pcb(true, procs[t].ldt, 0, 0, tstkbase + size, tstkbase, 0, size);
        tstkbase := tstkbase + size;
        t := t + 1;
      }
    }

    /** `get_free_proc_struct`; `procs.Length` stands for NULL. */
    method GetFreeProc() returns (t: nat)
      ensures t == FreeProc(procs[..])
    {
      t := 0;
      while t < procs.Length
        invariant t <= procs.Length
        invariant forall i :: 0 <= i < t ==> procs[i].inUse
      {
        if !procs[t].inUse {
          break;
        }
        t := t + 1;
      }
      FreeProcIs(procs[..], t);
    }

    /** One byte of `rep_movsb`: what the bus delivers goes where there is memory. */
    method MoveByte(from: nat, to: nat)
      modifies mem
      ensures mem[..] == Poke(old(mem[..]), to, Peek(old(mem[..]), from))
    {
      var b := if from < mem.Length then mem[from] else OPEN;
      if to < mem.Length {
        mem[to] := b;
      }
    }

    /** `rep_movsb`. */
    method CopyBytes(from: nat, to: nat, n: nat)
      requires from + n <= to || to + n <= from
      modifies mem
      ensures mem[..] == Copy(old(mem[..]), from, to, n)
    {
      ghost var was := mem[..];
      var i := 0;
      assert Copy(was, from, to, 0) == was;
      while i < n
        invariant i <= n && mem[..] == Copy(was, from, to, i)
      {
        CopyStep(was, from, to, i);
        MoveByte(from + i, to + i);
        i := i + 1;
      }
    }

    /** `do_fork` for the running process `father`; None is the result -1. */
    method DoFork(father: nat) returns (pid: Option<nat>)
      requires Valid() && father in Subjects(Abs()) && father < procs.Length
      modifies this`live, procs, mem, holes, holes.tab
      ensures Valid() && Abs() == ForkStep(old(Abs()), father).0
      ensures pid == ForkStep(old(Abs()), father).1
      ensures holes.irqOn == old(holes.irqOn)
    {
      ghost var t := ForkStep(Abs(), father).0;
      ForkKeeps(Abs(), father);
      pid := ForkChild(father);
      assert Abs() == t;
    }

    /** Lines 49-74. */
    method ForkChild(father: nat) returns (pid: Option<nat>)
      requires Valid() && father in Subjects(Abs()) && father < procs.Length
      modifies this`live, procs, mem, holes, holes.tab
      ensures holes.Valid() && (Abs(), pid) == ForkStep(old(Abs()), father)
      ensures holes.irqOn == old(holes.irqOn)
    {
      ghost var s := Abs();
      Bounds(s, father);
      var child := GetFreeProc();
      if child == procs.Length {
        return None;
      }
      ForkArea(s, father);
      ForkUnfold(s, father);
      CopyEntry(father, child);
      var ok := MemCopy(father, child);
      if !ok {
        return None;
      }
      live := live + {child};
      return Some(child);
    }

    /** Lines 55-59: the child starts as a copy, the flag P_IN_USE included, but keeps its LDT selector. */
    method CopyEntry(father: nat, child: nat)
      requires father < procs.Length && child < procs.Length
      modifies procs
      ensures procs[..] == old(procs[..])[child := old(procs[father]).(ldt := old(procs[child]).ldt)]
    {
      var selector := procs[child].ldt;
      procs[child] := procs[father];
      procs[child] := procs[child].(ldt := selector);
    }

    /** Lines 23-25: the allocation, with the interrupt flag put back whatever `Kmem_alloc` did to it. */
    method AllocQuietly(size: nat) returns (base: nat)
      requires holes.Valid()
      modifies holes, holes.tab
      ensures holes.Valid() && holes.Abs() == A.Alloc(old(holes.Abs()), size).0
      ensures holes.irqOn == old(holes.irqOn)
      ensures match A.Alloc(old(holes.Abs()), size).1
              case None => base == 0
              case Some(at) => base == at > 0
    {
      ghost var a := holes.Abs();
      if A.Alloc(a, size).1.Some? {
        A.AllocGrants(a, size);
      }
      var flags := holes.irqOn;
      holes.irqOn := false;
      base := holes.KmemAlloc(size);
      holes.irqOn := flags;
    }

    /** `mem_copy`, and line 70, which sets a flag that the copy of the parent's entry already has. */
    method MemCopy(p: nat, c: nat) returns (ok: bool)
      requires Separate() && holes.Valid() && p < procs.Length && c < procs.Length && Copied(procs[p], procs[c])
      requires var r := A.Alloc(holes.Abs(), procs[p].dataSize).1;
               r.Some? ==> procs[p].dataPhys + procs[p].dataSize <= r.value || r.value + procs[p].dataSize <= procs[p].dataPhys
      modifies procs, mem, holes, holes.tab
      ensures holes.Valid() && holes.irqOn == old(holes.irqOn)
      ensures var r := MemCopyStep(old(procs[..]), old(mem[..]), old(holes.Abs()), p, c);
              ok == r.0 && procs[..] == r.1 && mem[..] == r.2 && holes.Abs() == r.3
    {
      var f := procs[p];
      var size := f.stackSize + (f.stackVir - f.dataVir);
      assert size == f.dataSize;
      var base := AllocQuietly(size);
      if base == 0 {
        return false;
      }
      Fill(c, f, base, size);
      return true;
    }

    /** Lines 29-32 and line 70. */
    method Fill(c: nat, f: Pcb, base: nat, size: nat)
      requires Separate() && c < procs.Length && Copied(f, procs[c])
      requires f.dataPhys + size <= base || base + size <= f.dataPhys
      modifies procs, mem
      ensures mem[..] == Copy(old(mem[..]), f.dataPhys, base, size)
      ensures procs[..] == old(procs[..])[c := Placed(old(procs[c]), base)]
    {
      CopyBytes(f.dataPhys, base, size);
      Place(c, f, base);
    }

    /** Lines 31-32 and line 70. */
    method Place(c: nat, f: Pcb, base: nat)
      requires c < procs.Length && Copied(f, procs[c])
      modifies procs
      ensures procs[..] == old(procs[..])[c := Placed(old(procs[c]), base)]
    {
      procs[c] := procs[c].(dataPhys := base);
      procs[c] := procs[c].(stackPhys := procs[c].dataPhys + (f.stackVir - f.dataVir));
      procs[c] := procs[c].(inUse := true);
    }

    /** `do_exit` before the process is marked and `schedule` is called. */
    method DoExit(curr: nat)
      requires Valid() && curr in live
      modifies this`live, procs, holes, holes.tab
      ensures Valid() && Abs() == ExitStep(old(Abs()), curr)
    {
      ghost var t := ExitStep(Abs(), curr);
      ExitKeeps(Abs(), curr);
      procs[curr] := procs[curr].(inUse := false);
      holes.KmemFree(procs[curr].dataPhys);
      procs[curr] := procs[curr].(ldt := 0);
      live := live - {curr};
      assert procs[..] == t.procs;
    }
  }

  /** The entry of a child before `mem_copy`: its parent's, but for the LDT selector. */
  predicate Copied(f: Pcb, c: Pcb) {
    Mapped(f) && f.stackVir >= f.dataVir && c == f.(ldt := c.ldt)
  }

  /** The entry after `mem_copy`. */
  function Placed(c: Pcb, base: nat): Pcb
    requires c.stackVir >= c.dataVir
  {
    c.(inUse := true, dataPhys := base, stackPhys := base + (c.stackVir - c.dataVir))
  }

  lemma CopyStep(mem: seq<Byte>, from: nat, to: nat, i: nat)
    requires from + i < to || to + i <= from
    ensures Copy(mem, from, to, i + 1) == Poke(Copy(mem, from, to, i), to + i, Peek(Copy(mem, from, to, i), from + i))
  {
    assert Peek(Copy(mem, from, to, i), from + i) == Peek(mem, from + i);
  }

  /** The block a child would get does not meet its parent's memory. */
  lemma ForkArea(s: Sys, p: nat)
    requires Inv(s) && p in Subjects(s)
    ensures p < |s.procs| && CopySize(s.procs[p]) == s.procs[p].dataSize
    ensures var f := s.procs[p]; var r := A.Alloc(s.arena, f.dataSize).1;
            r.Some? ==> f.dataPhys + f.dataSize <= r.value || r.value + f.dataSize <= f.dataPhys
  {
    Bounds(s, p);
    if A.Alloc(s.arena, s.procs[p].dataSize).1.Some? {
      A.AllocGrants(s.arena, s.procs[p].dataSize);
    }
  }

  /** What `mem_copy` leaves: the result, the table, the memory and the arena. */
  ghost function MemCopyStep(procs: seq<Pcb>, mem: seq<Byte>, arena: A.Arena, p: nat, c: nat)
    : (bool, seq<Pcb>, seq<Byte>, A.Arena)
    requires p < |procs| && c < |procs| && Copied(procs[p], procs[c])
  {
    var f := procs[p];
    var (arena', r) := A.Alloc(arena, f.dataSize);
    if r.None? then (false, procs, mem, arena')
    else (true, procs[c := Placed(procs[c], r.value)], Copy(mem, f.dataPhys, r.value, f.dataSize), arena')
  }

  /** `ForkStep` is `mem_copy` on the table with the parent's entry copied. */
  lemma ForkUnfold(s: Sys, p: nat)
    requires Inv(s) && p in Subjects(s) && FreeProc(s.procs) < |s.procs|
    ensures p < |s.procs| && FreeProc(s.procs) != p
    ensures var c := FreeProc(s.procs); var child := s.procs[p].(ldt := s.procs[c].ldt);
            && Copied(s.procs[p], child)
            && var (ok, procs, mem, arena) := MemCopyStep(s.procs[c := child], s.mem, s.arena, p, c);
               ForkStep(s, p) == (Sys(procs, arena, mem, if ok then s.live + {c} else s.live),
                                  if ok then Some(c) else None)
  {
    Bounds(s, p);
    if A.Alloc(s.arena, s.procs[p].dataSize).1.Some? {
      var c, f, at := FreeProc(s.procs), s.procs[p], A.Alloc(s.arena, s.procs[p].dataSize).1.value;
      var child := f.(ldt := s.procs[c].ldt);
      assert s.procs[c := child][c := Placed(child, at)] == s.procs[c := Placed(child, at)];
    }
  }

  lemma FreeProcIs(procs: seq<Pcb>, c: nat)
    requires c <= |procs| && (c < |procs| ==> !procs[c].inUse)
    requires forall i :: 0 <= i < c ==> procs[i].inUse
    ensures FreeProc(procs) == c
  {
  }
}
