/**
 Following a file's cluster chain (`read_map` of `fs/inode.c`) and reading the file (`fs/read.c`), on
 values: what the block map holds, what one call reads, and what any sequence of calls reads.
 */
module FatFile {
  import opened FatTable

  /** Words of the inode's block array; what is written behind its end is seen by the reader, too. */
  const BLOCKS: nat := 10

  // ---------- the chain ----------

  /** The entry of a cluster, and the end marks, as functions to follow. */
  type Links = nat -> nat
  type Marks = nat -> bool

  function Entries(d: Medium, sb: Super): Links {
    (n: nat) => EntryVal(d, sb, n)
  }

  function EndMarks(k: Type): Marks {
    (v: nat) => EndOfChain(k, v)
  }

  /** The `i`-fold successor of a cluster. */
  function Succ(next: Links, first: nat, i: nat): nat {
    if i == 0 then first else next(Succ(next, first, i - 1))
  }

  lemma {:induction false} SuccShift(next: Links, first: nat, i: nat)
    ensures Succ(next, first, i + 1) == Succ(next, next(first), i)
  {
    if i > 0 {
      SuccShift(next, first, i - 1);
    }
  }

  /** `do_cdiv`: the quotient rounded up. */
  function Cdiv(s: nat, d: nat): nat
    requires d > 0
  {
    s / d + if s % d != 0 then 1 else 0
  }

  /** The clusters a file needs: so many hold it, and one fewer would not. */
  lemma CdivIs(size: nat, c: nat)
    requires c > 0
    ensures size <= Cdiv(size, c) * c < size + c
  {
    assert size == size / c * c + size % c;
  }

  /** The words the do-while loop of `read_map` stores, in order. */
  function Walk(next: Links, last: Marks, index: nat, count: nat): seq<nat>
    decreases count
  {
    [index] + if last(next(index)) || count == 0 then [] else Walk(next, last, next(index), count - 1)
  }

  /** Successors of the first cluster, none of them behind an end mark, until one comes or the count is used up. */
  ghost predicate IsWalk(next: Links, last: Marks, index: nat, count: nat, w: seq<nat>) {
    && 1 <= |w| <= count + 1
    && (forall i :: 0 <= i < |w| ==> w[i] == Succ(next, index, i))
    && (forall i :: 1 <= i < |w| ==> !last(w[i]))
    && (|w| == count + 1 || last(Succ(next, index, |w|)))
  }

  lemma WalkStep(next: Links, last: Marks, index: nat, count: nat, v: seq<nat>)
    requires count > 0 && !last(next(index)) && IsWalk(next, last, next(index), count - 1, v)
    ensures IsWalk(next, last, index, count, [index] + v)
  {
    var w := [index] + v;
    forall i | 0 <= i <= |w|
      ensures i > 0 ==> Succ(next, index, i) == Succ(next, next(index), i - 1)
    {
      if i > 0 {
        SuccShift(next, index, i - 1);
      }
    }
    forall i | 0 <= i < |w|
      ensures w[i] == Succ(next, index, i) && (i > 0 ==> !last(w[i]))
    {
      if i > 0 {
        assert w[i] == v[i - 1];
        assert v[0] == next(index);
      }
    }
  }

  /** On every table, cyclic ones included, the walk ends after at most `count + 1` clusters of the chain. */
  lemma {:induction false} WalkIsSucc(next: Links, last: Marks, index: nat, count: nat)
    ensures IsWalk(next, last, index, count, Walk(next, last, index, count))
    decreases count
  {
    if !last(next(index)) && count > 0 {
      WalkIsSucc(next, last, next(index), count - 1);
      WalkStep(next, last, index, count, Walk(next, last, next(index), count - 1));
    } else {
      assert Succ(next, index, 1) == next(index);
    }
  }

  /** Exactly `n` clusters, then an end mark. */
  ghost predicate ChainOf(next: Links, last: Marks, first: nat, n: nat) {
    && n > 0
    && (forall i :: 1 <= i < n ==> !last(Succ(next, first, i)))
    && last(Succ(next, first, n))
  }

  /** No end mark among the first `n` clusters: the chain has at least so many, or never ends. */
  ghost predicate ChainAtLeast(next: Links, last: Marks, first: nat, n: nat) {
    forall i :: 1 <= i < n ==> !last(Succ(next, first, i))
  }

  /** A chain is captured whole when it ends within the bound, and cut off at the bound otherwise. */
  lemma WalkCaptures(next: Links, last: Marks, first: nat, count: nat, n: nat)
    requires ChainOf(next, last, first, n)
    ensures |Walk(next, last, first, count)| == if n <= count + 1 then n else count + 1
  {
    WalkIsSucc(next, last, first, count);
    var w := Walk(next, last, first, count);
    if |w| > n {
      assert false;
    }
  }

  // ---------- reading ----------

  datatype Inode = Inode(sb: Super, size: nat, blocks: seq<nat>)

  function ClusterBytes(sb: Super): nat {
    sb.clusterSize * SECTOR
  }

  /** `FstSecofDataClu`, in unsigned arithmetic. */
  function FirstSector(sb: Super, n: nat): nat {
    ((n - 2) * sb.clusterSize + sb.dataFirstSec) % 0x1_0000_0000
  }

  /** An inode as `open` leaves it: a positive cluster size and a map. */
  predicate Readable(f: Inode) {
    f.sb.clusterSize > 0 && |f.blocks| > BLOCKS
  }

  /** Byte `pos` of the file, through the block map. */
  function FileByte(d: Medium, f: Inode, pos: nat): Byte
    requires Readable(f) && pos < (BLOCKS + 1) * ClusterBytes(f.sb)
  {
    var c := ClusterBytes(f.sb);
    ClusterIndex(pos, c);
    d(FirstSector(f.sb, f.blocks[pos / c]) * SECTOR + pos % c)
  }

  lemma ClusterIndex(pos: nat, c: nat)
    requires 0 < c && pos < (BLOCKS + 1) * c
    ensures 0 <= pos / c <= BLOCKS && pos == pos / c * c + pos % c
  {
    assert pos == pos / c * c + pos % c;
  }

  function Slice(d: Medium, f: Inode, lo: nat, hi: nat): (r: seq<Byte>)
    requires Readable(f) && lo <= hi <= (BLOCKS + 1) * ClusterBytes(f.sb)
    ensures |r| == hi - lo && forall i :: 0 <= i < hi - lo ==> r[i] == FileByte(d, f, lo + i)
  {
    seq<Byte>(hi - lo, i requires 0 <= i < hi - lo => FileByte(d, f, lo + i))
  }

  lemma SliceJoin(d: Medium, f: Inode, a: nat, b: nat, c: nat)
    requires Readable(f) && a <= b <= c <= (BLOCKS + 1) * ClusterBytes(f.sb)
    ensures Slice(d, f, a, b) + Slice(d, f, b, c) == Slice(d, f, a, c)
  {
  }

  function Min(a: int, b: int): int {
    if a < b then a else b
  }

  /** The part of the file the reader can reach: `ClusterRead` skips cluster numbers above ten. */
  function Reach(f: Inode, pos: nat): nat {
    Min(pos, (BLOCKS + 1) * ClusterBytes(f.sb))
  }

  /** Where a read of `size` bytes from `pos` stops. */
  function EndOf(f: Inode, pos: nat, size: int): nat {
    if size <= 0 || f.size <= pos then pos else Min(pos + size, f.size)
  }

  /** What `filp_read` puts out. */
  function Output(d: Medium, f: Inode, pos: nat, size: int): seq<Byte>
    requires Readable(f)
  {
    Slice(d, f, Reach(f, pos), Reach(f, EndOf(f, pos, size)))
  }

  // ---------- any sequence of reads ----------

  function EndAfter(f: Inode, pos: nat, sizes: seq<int>): nat
    decreases |sizes|
  {
    if sizes == [] then pos else EndAfter(f, EndOf(f, pos, sizes[0]), sizes[1..])
  }

  function Outputs(d: Medium, f: Inode, pos: nat, sizes: seq<int>): seq<Byte>
    requires Readable(f)
    decreases |sizes|
  {
    if sizes == [] then [] else Output(d, f, pos, sizes[0]) + Outputs(d, f, EndOf(f, pos, sizes[0]), sizes[1..])
  }

  /** Bytes asked for. */
  function Asked(sizes: seq<int>): nat {
    if sizes == [] then 0 else (if sizes[0] > 0 then sizes[0] else 0) + Asked(sizes[1..])
  }

  /** However a read is cut into calls, the outputs together are one slice of the file. */
  lemma {:induction false} OutputsAreSlice(d: Medium, f: Inode, pos: nat, sizes: seq<int>)
    requires Readable(f)
    ensures EndAfter(f, pos, sizes) == if f.size <= pos then pos else Min(pos + Asked(sizes), f.size)
    ensures pos <= EndAfter(f, pos, sizes)
    ensures Outputs(d, f, pos, sizes) == Slice(d, f, Reach(f, pos), Reach(f, EndAfter(f, pos, sizes)))
    decreases |sizes|
  {
    if sizes != [] {
      var mid := EndOf(f, pos, sizes[0]);
      OutputsAreSlice(d, f, mid, sizes[1..]);
      SliceJoin(d, f, Reach(f, pos), Reach(f, mid), Reach(f, EndAfter(f, pos, sizes)));
    }
  }

  // ---------- from the medium to the reader ----------

  /** Byte `pos` of the file that starts at cluster `first`, as the chain along `next` defines it. */
  function ChainByte(d: Medium, sb: Super, next: Links, first: nat, pos: nat): Byte
    requires sb.clusterSize > 0
  {
    d(FirstSector(sb, Succ(next, first, pos / ClusterBytes(sb))) * SECTOR + pos % ClusterBytes(sb))
  }

  /** The map after `read_map`: its words, over whatever the array and the memory behind it held. */
  function Mapped(was: seq<nat>, w: seq<nat>): (r: seq<nat>)
    ensures |r| == if |w| >= |was| then |w| else |was|
    ensures forall i :: 0 <= i < |r| ==> r[i] == if i < |w| then w[i] else was[i]
  {
    if |w| >= |was| then w else w + was[|w|..]
  }

  /** `read_map` stays inside the array. */
  predicate MapFits(d: Medium, sb: Super, first: nat, size: nat)
    requires sb.clusterSize > 0
  {
    |Walk(Entries(d, sb), EndMarks(sb.kind), first, Cdiv(size, ClusterBytes(sb)))| <= BLOCKS
  }

  /** The bytes `[lo, hi)` of the chain. */
  function ChainSlice(d: Medium, sb: Super, next: Links, first: nat, lo: nat, hi: nat): (r: seq<Byte>)
    requires sb.clusterSize > 0 && lo <= hi
    ensures |r| == hi - lo && forall i :: 0 <= i < hi - lo ==> r[i] == ChainByte(d, sb, next, first, lo + i)
  {
    seq<Byte>(hi - lo, i requires 0 <= i < hi - lo => ChainByte(d, sb, next, first, lo + i))
  }

  /** The inode after `read_map`. */
  function Opened(d: Medium, sb: Super, first: nat, size: nat, blocks: seq<nat>): Inode
    requires sb.clusterSize > 0
  {
    Inode(sb, size, Mapped(blocks, Walk(Entries(d, sb), EndMarks(sb.kind), first, Cdiv(size, ClusterBytes(sb)))))
  }

  /**
   End to end: for a file whose chain has at least the clusters its size needs (an empty file needs none),
   `read_map` and then any sequence of reads put out exactly the bytes of the chain, up to the eleventh
   cluster.
   */
  lemma FileIsRead(d: Medium, sb: Super, first: nat, size: nat, blocks: seq<nat>, pos: nat, sizes: seq<int>)
    requires sb.clusterSize > 0 && |blocks| > BLOCKS && pos <= size
    requires ChainAtLeast(Entries(d, sb), EndMarks(sb.kind), first, Cdiv(size, ClusterBytes(sb)))
    ensures var f := Opened(d, sb, first, size, blocks);
            var end := Min(pos + Asked(sizes), size);
            && EndAfter(f, pos, sizes) == end
            && Outputs(d, f, pos, sizes) == ChainSlice(d, sb, Entries(d, sb), first, Reach(f, pos), Reach(f, end))
  {
    var f := Opened(d, sb, first, size, blocks);
    OutputsAreSlice(d, f, pos, sizes);
    MappedSlice(d, sb, first, size, blocks, Reach(f, pos), Reach(f, EndAfter(f, pos, sizes)));
  }

  lemma MappedSlice(d: Medium, sb: Super, first: nat, size: nat, blocks: seq<nat>, lo: nat, hi: nat)
    requires sb.clusterSize > 0 && |blocks| > BLOCKS && lo <= hi <= size && hi <= (BLOCKS + 1) * ClusterBytes(sb)
    requires ChainAtLeast(Entries(d, sb), EndMarks(sb.kind), first, Cdiv(size, ClusterBytes(sb)))
    ensures Slice(d, Opened(d, sb, first, size, blocks), lo, hi) == ChainSlice(d, sb, Entries(d, sb), first, lo, hi)
  {
    var x, y := Slice(d, Opened(d, sb, first, size, blocks), lo, hi), ChainSlice(d, sb, Entries(d, sb), first, lo, hi);
    forall i | 0 <= i < hi - lo
      ensures x[i] == y[i]
    {
      MappedByte(d, sb, first, size, blocks, lo + i);
    }
  }

  /** Below the file size the block map leads to the cluster the chain prescribes. */
  lemma MappedByte(d: Medium, sb: Super, first: nat, size: nat, blocks: seq<nat>, pos: nat)
    requires sb.clusterSize > 0 && |blocks| > BLOCKS && pos < size && pos < (BLOCKS + 1) * ClusterBytes(sb)
    requires ChainAtLeast(Entries(d, sb), EndMarks(sb.kind), first, Cdiv(size, ClusterBytes(sb)))
    ensures FileByte(d, Opened(d, sb, first, size, blocks), pos) == ChainByte(d, sb, Entries(d, sb), first, pos)
  {
    var n := Cdiv(size, ClusterBytes(sb));
    InsideChain(pos, size, ClusterBytes(sb));
    ClusterIndex(pos, ClusterBytes(sb));
    WalkIsSucc(Entries(d, sb), EndMarks(sb.kind), first, n);
    var w := Walk(Entries(d, sb), EndMarks(sb.kind), first, n);
    assert |w| >= n;
  }

  /** The reads are complete, nothing skipped, exactly when they end within eleven clusters or ask for nothing. */
  lemma ReadsAreCompleteIff(d: Medium, f: Inode, pos: nat, sizes: seq<int>)
    requires Readable(f)
    ensures |Outputs(d, f, pos, sizes)| == EndAfter(f, pos, sizes) - pos
            <==> EndAfter(f, pos, sizes) == pos || EndAfter(f, pos, sizes) <= (BLOCKS + 1) * ClusterBytes(f.sb)
  {
    OutputsAreSlice(d, f, pos, sizes);
  }

  lemma InsideChain(pos: nat, size: nat, c: nat)
    requires c > 0 && pos < size
    ensures 0 <= pos / c < Cdiv(size, c)
  {
    assert pos == pos / c * c + pos % c && size == size / c * c + size % c;
    if pos / c > size / c {
      MulMono(size / c + 1, pos / c, c);
      assert false;
    }
  }

  lemma MulMono(a: nat, b: nat, c: nat)
    requires a <= b
    ensures a * c <= b * c
  {
  }

  /**
   On every table, cyclic ones included, `read_map` stays inside its ten words exactly when an end mark comes
   within ten clusters or the file size needs fewer than ten.
   */
  lemma MapFitsIff(d: Medium, sb: Super, first: nat, size: nat)
    requires sb.clusterSize > 0
    ensures MapFits(d, sb, first, size) <==>
              (exists n :: 1 <= n <= BLOCKS && EndsAt(d, sb, first, n)) || Cdiv(size, ClusterBytes(sb)) < BLOCKS
  {
    var count := Cdiv(size, ClusterBytes(sb));
    var w := Walk(Entries(d, sb), EndMarks(sb.kind), first, count);
    WalkIsSucc(Entries(d, sb), EndMarks(sb.kind), first, count);
    if |w| <= count {
      assert EndsAt(d, sb, first, |w|);
    }
    assert forall n :: 1 <= n < |w| ==> w[n] == Succ(Entries(d, sb), first, n);
    assert forall n :: 1 <= n < |w| ==> !EndsAt(d, sb, first, n);
  }

  /** The entry of the `n`-th cluster is an end mark. */
  predicate EndsAt(d: Medium, sb: Super, first: nat, n: nat) {
    EndMarks(sb.kind)(Succ(Entries(d, sb), first, n))
  }

  // ---------- a file of twelve clusters ----------

  /** A FAT16 volume with one-sector clusters and its FAT in sector 1. */
  const SMALL: Super := Super(0, 1, 1, 100, Fat16)

  /** A FAT in which each entry names the next cluster and entry 13 is an end mark. */
  function TwelveChain(): Medium {
    (a: nat) => if a == 538 || a == 539 then 0xFF
                else if 512 <= a < 538 && a % 2 == 0 then (a - 512) / 2 + 1
                else 0
  }

  lemma TwelveEntries(n: nat)
    requires 2 <= n <= 13
    ensures EntryVal(TwelveChain(), SMALL, n) == if n < 13 then n + 1 else 0xFFFF
  {
    assert 2 * n / SECTOR == 0 && 2 * n % SECTOR == 2 * n;
    assert (512 + 2 * n) % 2 == 0 && (512 + 2 * n + 1) % 2 == 1;
  }

  lemma {:induction false} TwelveSucc(i: nat)
    requires i <= 12
    ensures Succ(Entries(TwelveChain(), SMALL), 2, i) == if i < 12 then 2 + i else 0xFFFF
  {
    if i > 0 {
      TwelveSucc(i - 1);
      TwelveEntries(2 + (i - 1));
    }
  }

  /** The map runs over its ten words, and a read puts out eleven clusters while the position moves over twelve. */
  lemma TwelveClusterExample(blocks: seq<nat>)
    requires |blocks| > BLOCKS
    ensures var d, size := TwelveChain(), 12 * SECTOR; var f := Opened(d, SMALL, 2, size, blocks);
            && ChainOf(Entries(d, SMALL), EndMarks(Fat16), 2, 12) && !MapFits(d, SMALL, 2, size)
            && EndAfter(f, 0, [size]) == size && |Outputs(d, f, 0, [size])| == 11 * SECTOR
  {
    var d, size := TwelveChain(), 12 * SECTOR;
    TwelveIsChain();
    assert ClusterBytes(SMALL) == SECTOR && Cdiv(size, SECTOR) == 12;
    WalkCaptures(Entries(d, SMALL), EndMarks(Fat16), 2, 12, 12);
    TwelveIsCutOff(d, Opened(d, SMALL, 2, size, blocks));
  }

  lemma TwelveIsChain()
    ensures ChainOf(Entries(TwelveChain(), SMALL), EndMarks(Fat16), 2, 12)
  {
    forall i | 1 <= i <= 12
      ensures Succ(Entries(TwelveChain(), SMALL), 2, i) == if i < 12 then 2 + i else 0xFFFF
    {
      TwelveSucc(i);
    }
  }

  lemma TwelveIsCutOff(d: Medium, f: Inode)
    requires Readable(f) && f.sb == SMALL && f.size == 12 * SECTOR
    ensures EndAfter(f, 0, [f.size]) == f.size && |Outputs(d, f, 0, [f.size])| == 11 * SECTOR
  {
    OutputsAreSlice(d, f, 0, [f.size]);
    assert [f.size][1..] == [];
    assert Asked([f.size]) == f.size;
  }

  // ---------- from the packed table to the reader ----------

  /** The chain as the table itself gives it. */
  function TableLinks(k: Type, t: seq<nat>): Links {
    (n: nat) => if n < |t| then EntryMeaning(k, t[n]) else 0
  }

  /** Inside the table, looking entries up on the medium is looking them up in the table. */
  lemma {:induction false} SuccOfTable(d: Medium, sb: Super, t: seq<nat>, first: nat, i: nat)
    requires Holds(d, sb, t)
    requires forall j :: 0 <= j < i ==> Succ(TableLinks(sb.kind, t), first, j) < |t|
    ensures Succ(Entries(d, sb), first, i) == Succ(TableLinks(sb.kind, t), first, i)
  {
    if i > 0 {
      SuccOfTable(d, sb, t, first, i - 1);
      EntryDecodes(d, sb, t, Succ(TableLinks(sb.kind, t), first, i - 1));
    }
  }

  /** The first `n` clusters of a chain of the packed table are those `read_map` finds. */
  lemma ChainOfTable(d: Medium, sb: Super, t: seq<nat>, first: nat, n: nat)
    requires Holds(d, sb, t) && ChainAtLeast(TableLinks(sb.kind, t), EndMarks(sb.kind), first, n)
    requires forall j :: 0 <= j < n ==> Succ(TableLinks(sb.kind, t), first, j) < |t|
    ensures ChainAtLeast(Entries(d, sb), EndMarks(sb.kind), first, n)
    ensures forall i :: 0 <= i <= n ==> Succ(Entries(d, sb), first, i) == Succ(TableLinks(sb.kind, t), first, i)
  {
    forall i | 0 <= i <= n
      ensures Succ(Entries(d, sb), first, i) == Succ(TableLinks(sb.kind, t), first, i)
    {
      SuccOfTable(d, sb, t, first, i);
    }
  }

  /** From the packed FAT to the output: any reads put out the bytes of the clusters the table lists. */
  lemma FileOfTableIsRead(d: Medium, sb: Super, t: seq<nat>, first: nat, size: nat, blocks: seq<nat>, pos: nat, sizes: seq<int>)
    requires sb.clusterSize > 0 && |blocks| > BLOCKS && pos <= size && Holds(d, sb, t)
    requires ChainAtLeast(TableLinks(sb.kind, t), EndMarks(sb.kind), first, Cdiv(size, ClusterBytes(sb)))
    requires forall j :: 0 <= j < Cdiv(size, ClusterBytes(sb)) ==> Succ(TableLinks(sb.kind, t), first, j) < |t|
    ensures var f := Opened(d, sb, first, size, blocks);
            Outputs(d, f, pos, sizes)
            == ChainSlice(d, sb, TableLinks(sb.kind, t), first, Reach(f, pos), Reach(f, Min(pos + Asked(sizes), size)))
  {
    var f := Opened(d, sb, first, size, blocks);
    ChainOfTable(d, sb, t, first, Cdiv(size, ClusterBytes(sb)));
    FileIsRead(d, sb, first, size, blocks, pos, sizes);
    SameSlice(d, sb, Entries(d, sb), TableLinks(sb.kind, t), first, size, Reach(f, pos),
              Reach(f, Min(pos + Asked(sizes), size)));
  }

  /** Chains that agree up to the size of the file hold the same bytes. */
  lemma SameSlice(d: Medium, sb: Super, next: Links, next': Links, first: nat, size: nat, lo: nat, hi: nat)
    requires sb.clusterSize > 0 && lo <= hi <= size
    requires forall i :: 0 <= i <= Cdiv(size, ClusterBytes(sb)) ==> Succ(next, first, i) == Succ(next', first, i)
    ensures ChainSlice(d, sb, next, first, lo, hi) == ChainSlice(d, sb, next', first, lo, hi)
  {
    var x, y := ChainSlice(d, sb, next, first, lo, hi), ChainSlice(d, sb, next', first, lo, hi);
    forall i | 0 <= i < hi - lo
      ensures x[i] == y[i]
    {
      InsideChain(lo + i, size, ClusterBytes(sb));
    }
  }
}
