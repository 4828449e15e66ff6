/**
 `kmalloc` and `kfree` as methods on the page table, and what whole runs of them leave behind.
 */
module PageHeap {
  import opened Segments
  import opened Pages
  import A = Arena

  // ---------- runs, on run lists and on tables ----------

  datatype Op = Get(size: nat) | Put(page: nat)

  /** A request the scan serves correctly, or the release of a live block. */
  predicate Proper(s: seq<Seg>, op: Op) {
    match op
    case Get(size) => size > 0 && NoOvercount(s, CalcCount(size))
    case Put(page) => A.FindBusy(s, 0, page) < |s|
  }

  function Step(s: seq<Seg>, op: Op): seq<Seg> {
    match op
    case Get(size) =>
      var c := CalcCount(size);
      var f := A.FirstFit(s, c);
      if f == |s| then s else Carve(s, f, c, size)
    case Put(page) => A.Free(A.Arena(0, s, 0), page).segs
  }

  function StepWords(w: Words, op: Op): Words {
    match op
    case Get(size) => Kmalloc(w, size).0
    case Put(page) => if page < |w| then Kfree(w, page) else w
  }

  predicate ProperRun(s: seq<Seg>, ops: seq<Op>)
    decreases |ops|
  {
    ops == [] || (Proper(s, ops[0]) && ProperRun(Step(s, ops[0]), ops[1..]))
  }

  function Run(s: seq<Seg>, ops: seq<Op>): seq<Seg>
    decreases |ops|
  {
    if ops == [] then s else Run(Step(s, ops[0]), ops[1..])
  }

  function RunWords(w: Words, ops: seq<Op>): Words
    decreases |ops|
  {
    if ops == [] then w else RunWords(StepWords(w, ops[0]), ops[1..])
  }

  lemma FreeIsRelease(s: seq<Seg>, page: nat)
    requires A.FindBusy(s, 0, page) < |s|
    ensures var k := A.FindBusy(s, 0, page);
            s[k].Busy? && Start(s, 0, k) == page && A.Free(A.Arena(0, s, 0), page).segs == Release(s, k)
  {
    A.FindBusyIs(s, 0, page);
  }

  lemma StepDescribes(w: Words, s: seq<Seg>, g: nat, op: Op)
    requires Describes(w, s, g) && Proper(s, op)
    ensures Describes(StepWords(w, op), Step(s, op), g)
    ensures Total(Step(s, op)) == Total(s)
  {
    match op {
      case Get(size) =>
        KmallocCarves(w, s, g, size);
        var c := CalcCount(size);
        var f := A.FirstFit(s, c);
        if f < |s| {
          CarveLive(s, 0, f, c, size);
        }
      case Put(page) =>
        FreeIsRelease(s, page);
        KfreeReleases(w, s, g, A.FindBusy(s, 0, page));
        ReleaseLive(s, 0, A.FindBusy(s, 0, page));
    }
  }

  /** The table describes the run list throughout a proper run: live blocks stay disjoint and merged. */
  lemma {:induction false} RunDescribes(w: Words, s: seq<Seg>, g: nat, ops: seq<Op>)
    requires Describes(w, s, g) && ProperRun(s, ops)
    ensures Describes(RunWords(w, ops), Run(s, ops), g)
    ensures Total(Run(s, ops)) == Total(s)
    decreases |ops|
  {
    if ops != [] {
      StepDescribes(w, s, g, ops[0]);
      RunDescribes(StepWords(w, ops[0]), Step(s, ops[0]), g, ops[1..]);
    }
  }

  /** After proper runs with the same live blocks, the tables are word for word the same. */
  lemma TableHistoryIndependent(w: Words, s: seq<Seg>, g: nat, ops: seq<Op>, ops': seq<Op>)
    requires Describes(w, s, g) && ProperRun(s, ops) && ProperRun(s, ops')
    requires Live(Run(s, ops), 0) == Live(Run(s, ops'), 0)
    ensures RunWords(w, ops) == RunWords(w, ops')
  {
    RunDescribes(w, s, g, ops);
    RunDescribes(w, s, g, ops');
    CanonicalUnique(Run(s, ops), Run(s, ops'), 0);
  }

  /** Freeing what was just granted restores every word of the table. */
  lemma KfreeUndoesKmalloc(w: Words, s: seq<Seg>, g: nat, size: nat)
    requires Describes(w, s, g) && size > 0 && NoOvercount(s, CalcCount(size)) && Kmalloc(w, size).1.Hit?
    ensures Kmalloc(w, size).1.head < |w| && Kfree(Kmalloc(w, size).0, Kmalloc(w, size).1.head) == w
  {
    var c := CalcCount(size);
    var f := A.FirstFit(s, c);
    KmallocCarves(w, s, g, size);
    CarveStart(s, 0, f, c, size);
    KfreeReleases(Kmalloc(w, size).0, Carve(s, f, c, size), g, f);
    ReleaseUndoesCarve(s, f, c, size);
  }

  lemma KfreeOfLive(w: Words, s: seq<Seg>, g: nat, b: Block)
    requires Describes(w, s, g) && b in Live(s, 0)
    ensures b.off < |w| == |Kfree(w, b.off)|
    ensures Describes(Kfree(w, b.off), A.Free(A.Arena(0, s, 0), b.off).segs, g)
  {
    A.FreeRemoves(A.Arena(0, s, 0), b.off);
    FreeIsRelease(s, b.off);
    KfreeReleases(w, s, g, A.FindBusy(s, 0, b.off));
  }

  /** The order in which two live blocks are freed leaves no trace in the table. */
  lemma KfreesCommute(w: Words, s: seq<Seg>, g: nat, b: Block, c: Block)
    requires Describes(w, s, g) && b in Live(s, 0) && c in Live(s, 0) && b.off != c.off
    ensures b.off < |w| == |Kfree(w, b.off)| && c.off < |w| == |Kfree(w, c.off)|
    ensures Kfree(Kfree(w, b.off), c.off) == Kfree(Kfree(w, c.off), b.off)
  {
    var a := A.Arena(0, s, 0);
    TwoKfrees(w, s, g, b, c);
    TwoKfrees(w, s, g, c, b);
    A.FreesCommute(a, b.off, c.off);
  }

  lemma TwoKfrees(w: Words, s: seq<Seg>, g: nat, b: Block, c: Block)
    requires Describes(w, s, g) && b in Live(s, 0) && c in Live(s, 0) && b.off != c.off
    ensures b.off < |w| == |Kfree(w, b.off)| && c.off < |w|
    ensures Describes(Kfree(Kfree(w, b.off), c.off), A.Free(A.Free(A.Arena(0, s, 0), b.off), c.off).segs, g)
  {
    var a := A.Arena(0, s, 0);
    A.FreeRemoves(a, b.off);
    KfreeOfLive(w, s, g, b);
    KfreeOfLive(Kfree(w, b.off), A.Free(a, b.off).segs, g, c);
  }

  /** A heap used for requests of at most one page never meets an overcount. */
  lemma {:induction false} OnePageRunIsProper(s: seq<Seg>, ops: seq<Op>)
    requires PageRuns(s) && Total(s) * PAGE_SIZE < PAGE_S_CONT
    requires forall i :: 0 <= i < |ops| ==> match ops[i]
                                            case Get(size) => 0 < size <= PAGE_SIZE
                                            case Put(page) => A.FindBusy(Run(s, ops[..i]), 0, page) < |Run(s, ops[..i])|
    ensures ProperRun(s, ops)
    decreases |ops|
  {
    if ops != [] {
      match ops[0] {
        case Get(size) => OnePageIsSafe(s);
        case Put(page) => assert ops[..0] == [];
      }
      StepDescribes(Encode(s) + [1], s, 1, ops[0]);
      var t := Step(s, ops[0]);
      forall i | 0 <= i < |ops[1..]|
        ensures match ops[1..][i]
                case Get(size) => 0 < size <= PAGE_SIZE
                case Put(page) => A.FindBusy(Run(t, ops[1..][..i]), 0, page) < |Run(t, ops[1..][..i])|
      {
        assert ops[..i + 1][1..] == ops[1..][..i];
        assert ops[1..][i] == ops[i + 1];
      }
      OnePageRunIsProper(t, ops[1..]);
    }
  }

  /** The overcount of `Pages.OvercountExample` is reached from an empty heap of three pages in three calls. */
  lemma OvercountIsReachable(g: nat)
    requires Guard(g)
    ensures var s, ops := [Free(3)], [Get(1024), Get(2048), Put(0)];
            && Describes(Encode(s) + [g], s, g) && ProperRun(s, ops) && Run(s, ops) == [Free(1), Busy(2, 2048)]
            && Describes(RunWords(Encode(s) + [g], ops), Run(s, ops), g)
            && !Proper(Run(s, ops), Get(2048))
  {
    var s, ops := [Free(3)], [Get(1024), Get(2048), Put(0)];
    assert Total(s) == 3;
    var s1, s2, s3 := [Busy(1, 1024), Free(2)], [Busy(1, 1024), Busy(2, 2048)], [Free(1), Busy(2, 2048)];
    GetFirst();
    GetSecond();
    FreeFirst();
    assert ops[1..][1..] == ops[2..] && ops[2..][1..] == [];
    RunStep(s2, ops[2..]);
    RunStep(s1, ops[1..]);
    RunStep(s, ops);
    RunDescribes(Encode(s) + [g], s, g, ops);
    TooShortBefore();
  }

  lemma RunStep(s: seq<Seg>, ops: seq<Op>)
    requires ops != [] && Proper(s, ops[0]) && ProperRun(Step(s, ops[0]), ops[1..])
    ensures ProperRun(s, ops) && Run(s, ops) == Run(Step(s, ops[0]), ops[1..])
  {
  }

  lemma GetFirst()
    ensures Proper([Free(3)], Get(1024)) && Step([Free(3)], Get(1024)) == [Busy(1, 1024), Free(2)]
  {
    assert A.FirstFit([Free(3)], 1) == 0;
  }

  lemma GetSecond()
    ensures var s := [Busy(1, 1024), Free(2)];
            Proper(s, Get(2048)) && Step(s, Get(2048)) == [Busy(1, 1024), Busy(2, 2048)]
  {
    var s := [Busy(1, 1024), Free(2)];
    assert s[1..] == [Free(2)] && A.FirstFit(s, 2) == 1;
  }

  lemma TooShortBefore()
    ensures !Proper([Free(1), Busy(2, 2048)], Get(2048))
  {
    var s := [Free(1), Busy(2, 2048)];
    assert s[1..] == [Busy(2, 2048)] && [Busy(2, 2048)][1..] == [];
    NoOvercountStep(s, 2);
    assert CalcCount(2048) == 2;
  }

  lemma FreeFirst()
    ensures var s := [Busy(1, 1024), Busy(2, 2048)];
            A.FindBusy(s, 0, 0) == 0 && Step(s, Put(0)) == [Free(1), Busy(2, 2048)]
  {
    var s := [Busy(1, 1024), Busy(2, 2048)];
    assert MergeLo(s, 0) == 0 && MergeHi(s, 0) == 1;
    assert s[0..1] == [Busy(1, 1024)] && s[1..] == [Busy(2, 2048)] && s[..0] == [];
    assert Total([Busy(1, 1024)]) == 1;
  }

  // ---------- the methods ----------

  /** The scan never reports the guard word, so the word behind the last page can be read. */
  lemma {:induction false} ScanStopsInside(w: Words, i: nat, count: nat, tmp: nat, head: nat)
    requires |w| > 0 && Guard(w[|w| - 1]) && i < |w| && (tmp != count || i < |w| - 1) && head < |w|
    ensures var h := Scan(w, i, count, tmp, head); h.Hit? ==> h.head < |w| && h.last + 1 < |w|
    decreases |w| - i
  {
    var tmp' := if w[i] == PAGE_S_FREE then 1 else if w[i] == PAGE_S_CONT && tmp > 0 then tmp + 1 else tmp;
    if tmp' != count && i + 1 < |w| {
      ScanStopsInside(w, i + 1, count, tmp', if w[i] == PAGE_S_FREE then i else head);
    }
  }

  class PageHeap {
    const words: array<nat>
    const kmemBase: nat
    var irqOn: bool
    ghost var runs: seq<Seg>

    /** All pages but the guard are encoded merged runs. */
    ghost predicate Valid()
      reads this, words
    {
      words.Length > 1 && kmemBase > 0 && Describes(words[..], runs, words[words.Length - 1])
    }

    /** `kmem_page_init`; `guard` is whatever word lies behind the table. */
    constructor (pages: nat, base: nat, guard: nat)
      requires 0 < pages && pages * PAGE_SIZE < PAGE_S_CONT && base > 0 && Guard(guard)
      ensures Valid() && irqOn && runs == [Free(pages)] && kmemBase == base && fresh(words)
    {
      words := new nat[pages + 1](_ => guard);
      kmemBase, irqOn := base, true;
      new;
      var i := 0;
      while i < pages
        invariant 0 <= i <= pages && irqOn
        invariant forall j :: 0 <= j < i ==> words[j] == PAGE_S_CONT
        invariant words[pages] == guard
      {
        words[i] := PAGE_S_CONT;
        i := i + 1;
      }
      words[0] := PAGE_S_FREE;
      runs := [Free(pages)];
      EncodeSingle(Free(pages));
      assert Total([Free(pages)]) == pages;
      assert words[..] == Encode(runs) + [guard];
    }

    /**
     `kmalloc`; 0 is NULL. The table is always the one of `Pages.Kmalloc`; the heap stays valid exactly
     when no run overcounts, and a successful call returns with interrupts left off.
     */
    method Kmalloc(size: nat) returns (p: nat)
      requires Valid()
      modifies this`irqOn, this`runs, words
      ensures words[..] == Pages.Kmalloc(old(words[..]), size).0
      ensures p == match Pages.Kmalloc(old(words[..]), size).1
                   case Miss => 0
                   case Hit(head, last) => kmemBase + head * PAGE_SIZE
      ensures size > 0 && NoOvercount(old(runs), CalcCount(size)) ==> Valid() && runs == Step(old(runs), Get(size))
      ensures size > 0 && NoOvercount(old(runs), CalcCount(size)) && p != 0 ==> Granted(p, size, A.FirstFit(old(runs), CalcCount(size)))
      ensures size > 0 && !NoOvercount(old(runs), CalcCount(size)) ==> p != 0 && !WellFormed(words[..])
      ensures irqOn == (old(irqOn) && p == 0)
    {
      ghost var w := words[..];
      if size > 0 {
        KmallocFacts(w, runs, w[|w| - 1], size);
      }
      var flags := irqOn;
      irqOn := false;
      var hit := ScanTable(CalcCount(size));
      if hit.Miss? {
        irqOn := flags;
        return 0;
      }
      words[hit.head] := size;
      if words[hit.last + 1] == PAGE_S_CONT {
        words[hit.last + 1] := PAGE_S_FREE;
      }
      assert words[..] == Grant(w, hit, size);
      runs := Step(runs, Get(size));
      return kmemBase + hit.head * PAGE_SIZE;
    }

    /** Run `k` is a block for `size` bytes at address `p`, in pages of 1024 bytes; `Kfree` takes it back. */
    ghost predicate Granted(p: nat, size: nat, k: nat)
      reads this
    {
      k < |runs| && runs[k] == Busy(CalcCount(size), size) && p == kmemBase + Start(runs, 0, k) * 1024
    }

    /** The loop of lines 185-207, up to the page where the count is reached. */
    method ScanTable(count: nat) returns (hit: Hit)
      requires words.Length > 1 && Guard(words[words.Length - 1])
      ensures hit == Scan(words[..], 0, count, 0, 0)
      ensures hit.Hit? ==> hit.head < words.Length && hit.last + 1 < words.Length
    {
      ghost var w := words[..];
      ScanStopsInside(w, 0, count, 0, 0);
      var tmp, flag, head := 0, false, 0;
      var i := 0;
      while i <= words.Length - 1
        invariant 0 <= i <= words.Length && flag == (tmp > 0) && 0 <= tmp && 0 <= head < words.Length
        invariant Scan(w, 0, count, 0, 0) == Scan(w, i, count, tmp, head)
      {
        if words[i] == PAGE_S_FREE {
          tmp := 1;
          head := i;
          flag := true;
        } else if words[i] == PAGE_S_CONT {
          if flag {
            tmp := tmp + 1;
          }
        }
        if tmp == count {
          return Hit(head, i);
        }
        i := i + 1;
      }
      return Miss;
    }

    /** The backward scan of lines 225-226, from the page before run `k`. */
    method ScanBack(start: nat, ghost k: nat) returns (tmp: nat)
      requires Valid() && 0 < k < |runs| && start == Start(runs, 0, k)
      ensures start < words.Length && tmp == PrevHead(words[..], start - 1)
    {
      ghost var w := words[..];
      PrevHeadIs(w, runs, w[|w| - 1], k);
      NextHead(w, runs, w[|w| - 1], k);
      tmp := start - 1;
      while words[tmp] == PAGE_S_CONT
        invariant PrevHead(w, start - 1) <= tmp < start && PrevHead(w, start - 1) == PrevHead(w, tmp)
        decreases tmp
      {
        tmp := tmp - 1;
      }
    }

    /** `kfree` of a block that is live: its address is the one `kmalloc` returned for it. */
    method Kfree(base: nat, ghost k: nat)
      requires Valid() && k < |runs| && runs[k].Busy?
      requires base == kmemBase + Start(runs, 0, k) * PAGE_SIZE
      modifies this`irqOn, this`runs, words
      ensures Valid() && runs == Release(old(runs), k)
      ensures var p := (base - kmemBase) / PAGE_SIZE;
              0 <= p < words.Length && words[..] == Pages.Kfree(old(words[..]), p)
      ensures irqOn == old(irqOn)
    {
      ghost var w, g := words[..], words[words.Length - 1];
      var flags := irqOn;
      irqOn := false;
      var start := (base - kmemBase) / PAGE_SIZE;
      KfreeReleases(w, runs, g, k);
      NextHead(w, runs, g, k);
      assert words[start] == runs[k].tag;
      var end := start + CalcCount(words[start]) - 1;
      var merge := false;
      if start != 0 {
        var tmp := ScanBack(start, k);
        merge := words[tmp] == PAGE_S_FREE;
      }
      words[start] := if merge then PAGE_S_CONT else PAGE_S_FREE;
      if words[end + 1] == PAGE_S_FREE {
        words[end + 1] := PAGE_S_CONT;
      }
      assert words[..] == Pages.Kfree(w, start);
      runs := Release(runs, k);
      irqOn := flags;
    }
  }

  /** What `Kmalloc` leaves, for the method above. */
  lemma KmallocFacts(w: Words, s: seq<Seg>, g: nat, size: nat)
    requires Describes(w, s, g) && size > 0
    ensures NoOvercount(s, CalcCount(size)) ==> Describes(Pages.Kmalloc(w, size).0, Step(s, Get(size)), g)
    ensures NoOvercount(s, CalcCount(size)) && Pages.Kmalloc(w, size).1.Miss? ==> Step(s, Get(size)) == s
    ensures NoOvercount(s, CalcCount(size)) && Pages.Kmalloc(w, size).1.Hit? ==>
              var t, k := Step(s, Get(size)), A.FirstFit(s, CalcCount(size));
              k < |t| && t[k] == Busy(CalcCount(size), size) && Start(t, 0, k) == Pages.Kmalloc(w, size).1.head
    ensures !NoOvercount(s, CalcCount(size)) ==> Pages.Kmalloc(w, size).1.Hit? && !WellFormed(Pages.Kmalloc(w, size).0)
  {
    if NoOvercount(s, CalcCount(size)) {
      KmallocCarves(w, s, g, size);
      StepDescribes(w, s, g, Get(size));
      if A.FirstFit(s, CalcCount(size)) < |s| {
        CarveStart(s, 0, A.FirstFit(s, CalcCount(size)), CalcCount(size), size);
      }
    } else {
      KmallocRuins(w, s, g, size);
    }
  }
}
