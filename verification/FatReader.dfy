/** `read_map` and `filp_read` as they run: loops that fill the block map and advance the file position. */
module FatReader {
  import opened FatTable
  import opened FatFile
  import opened Sequences

  /** The bytes of one pass of the loop in `filp_read`: to the end of the cluster, the file or the request. */
  function Valid(size: nat, pos: nat, c: nat, left: nat): int
    requires c > 0
  {
    var valid := (if pos / c == size / c && size % c != 0 then size % c else c) - pos % c;
    if left < valid then left else valid
  }

  /** A pass makes progress, stays in one cluster, and never runs past the file or the request. */
  lemma ValidIsGood(size: nat, pos: nat, c: nat, left: nat)
    requires c > 0 && pos < size && left > 0
    ensures 0 < Valid(size, pos, c, left) <= left
    ensures pos % c + Valid(size, pos, c, left) <= c && pos + Valid(size, pos, c, left) <= size
  {
    var q, r, qs, rs := pos / c, pos % c, size / c, size % c;
    assert pos == q * c + r && size == qs * c + rs;
    if q >= qs + 1 {
      MulMono(qs + 1, q, c);
      assert false;
    }
    if q < qs {
      MulMono(q + 1, qs, c);
    }
  }

  /** Positions within one cluster. */
  lemma SameCluster(pos: nat, c: nat, i: nat)
    requires c > 0 && pos % c + i < c
    ensures (pos + i) / c == pos / c && (pos + i) % c == pos % c + i
  {
    var q := pos / c;
    assert pos + i == q * c + (pos % c + i);
    DivUnique(pos + i, c, q, pos % c + i);
  }

  lemma DivUnique(x: nat, c: nat, q: nat, r: nat)
    requires c > 0 && x == q * c + r && r < c
    ensures x / c == q && x % c == r
  {
    var q', r' := x / c, x % c;
    assert x == q' * c + r';
    if q' > q {
      MulMono(q + 1, q', c);
      assert false;
    }
    if q' < q {
      MulMono(q' + 1, q, c);
      assert false;
    }
  }

  /** What `ClusterRead` copies is the slice of the file it stands for. */
  lemma ClusterIsSlice(d: Medium, f: Inode, pos: nat, n: nat)
    requires Readable(f) && pos / ClusterBytes(f.sb) <= BLOCKS && pos % ClusterBytes(f.sb) + n <= ClusterBytes(f.sb)
    ensures pos + n <= (BLOCKS + 1) * ClusterBytes(f.sb)
    ensures var c, o := ClusterBytes(f.sb), pos % ClusterBytes(f.sb);
            GetBlock(d, FirstSector(f.sb, f.blocks[pos / c]), c)[o..o + n] == Slice(d, f, pos, pos + n)
  {
    var c := ClusterBytes(f.sb);
    assert pos == pos / c * c + pos % c;
    MulMono(pos / c, BLOCKS, c);
    var x, y := GetBlock(d, FirstSector(f.sb, f.blocks[pos / c]), c)[pos % c..pos % c + n], Slice(d, f, pos, pos + n);
    forall i | 0 <= i < n
      ensures x[i] == y[i]
    {
      SameCluster(pos, c, i);
    }
  }

  /** Positions from the twelfth cluster on are beyond the reach of the map. */
  lemma BeyondReach(f: Inode, pos: nat)
    requires Readable(f) && pos / ClusterBytes(f.sb) > BLOCKS
    ensures pos >= (BLOCKS + 1) * ClusterBytes(f.sb)
  {
    var c := ClusterBytes(f.sb);
    assert pos == pos / c * c + pos % c;
    MulMono(BLOCKS + 1, pos / c, c);
  }

  /** A read of `n` bytes from `pos` stays in one cluster. */
  predicate InCluster(f: Inode, pos: nat, n: nat) {
    f.sb.clusterSize > 0 && pos % ClusterBytes(f.sb) + n <= ClusterBytes(f.sb)
  }

  /** A read within one cluster is all within reach of the map, or all beyond. */
  lemma ReachOfPass(f: Inode, pos: nat, n: nat)
    requires Readable(f) && InCluster(f, pos, n)
    ensures var c := ClusterBytes(f.sb);
            && pos == pos / c * c + pos % c && pos % c < c
            && if pos / c > BLOCKS then Reach(f, pos) == Reach(f, pos + n)
               else Reach(f, pos) == pos && Reach(f, pos + n) == pos + n
  {
    var c := ClusterBytes(f.sb);
    assert pos == pos / c * c + pos % c;
    if pos / c > BLOCKS {
      BeyondReach(f, pos);
    } else {
      MulMono(pos / c, BLOCKS, c);
    }
  }

  /** A store into the block array, or into the memory behind it. */
  function StoreAt(s: seq<nat>, i: nat, x: nat): seq<nat> {
    if i < |s| then s[i := x] else s + [x]
  }

  class InodeRec {
    const sb: Super
    const size: nat
    /** The block array, and the words behind it that an overlong map overwrites. */
    var blocks: seq<nat>

    constructor (sb: Super, size: nat, blocks: seq<nat>)
      ensures this.sb == sb && this.size == size && this.blocks == blocks
    {
      this.sb, this.size, this.blocks := sb, size, blocks;
    }

    function Value(): Inode
      reads this
    {
      Inode(sb, size, blocks)
    }

    /** `read_map`; the first word of the array is the first cluster. */
    method ReadMap(d: Medium)
      requires sb.clusterSize > 0 && |blocks| > BLOCKS
      modifies this`blocks
      ensures Value() == Opened(d, sb, old(blocks)[0], size, old(blocks))
    {
      FillMap(Entries(d, sb), EndMarks(sb.kind), Cdiv(size, ClusterBytes(sb)));
    }

    /** The loop of lines 111-117, for any way to look up an entry and to recognize an end mark. */
    method FillMap(entry: Links, eeof: Marks, clusters: nat)
      requires |blocks| > 0
      modifies this`blocks
      ensures blocks == Mapped(old(blocks), Walk(entry, eeof, old(blocks)[0], clusters))
    {
      var index, count, i, more := blocks[0], clusters, 0, true;
      ghost var was, done, w := blocks, [], Walk(entry, eeof, index, count);
      while more
        invariant i == |done| && blocks == Mapped(was, done)
        invariant w == if more then done + Walk(entry, eeof, index, count) else done
        decreases more, count
      {
        done := MapStep(entry, eeof, was, done, index, count, w);
        blocks := StoreAt(blocks, i, index);
        i := i + 1;
        index := entry(index);
        more := !eeof(index) && count > 0;
        if more {
          count := count - 1;
        }
      }
    }
  }

  /** Storing one more word moves it from the rest of the walk to the map. */
  lemma MapStep(next: Links, last: Marks, was: seq<nat>, done: seq<nat>, index: nat, count: nat, w: seq<nat>)
    returns (done': seq<nat>)
    requires w == done + Walk(next, last, index, count)
    ensures |done'| == |done| + 1
    ensures StoreAt(Mapped(was, done), |done|, index) == Mapped(was, done')
    ensures w == if last(next(index)) || count == 0 then done' else done' + Walk(next, last, next(index), count - 1)
  {
    done' := done + [index];
    StoreWord(was, done, index, done');
    MoveFirst(done, index, if last(next(index)) || count == 0 then [] else Walk(next, last, next(index), count - 1));
  }

  lemma StoreWord(was: seq<nat>, done: seq<nat>, x: nat, done': seq<nat>)
    requires |done'| == |done| + 1 && done'[|done|] == x && forall i :: 0 <= i < |done| ==> done'[i] == done[i]
    ensures StoreAt(Mapped(was, done), |done|, x) == Mapped(was, done')
  {
    var m := Mapped(was, done);
    assert |StoreAt(m, |done|, x)| == |Mapped(was, done')|;
  }

  class File {
    const ino: InodeRec
    var fPos: nat

    constructor (ino: InodeRec, pos: nat)
      ensures this.ino == ino && fPos == pos
    {
      this.ino, fPos := ino, pos;
    }

    /** `ClusterRead`: `n` bytes of the file from `offset` in cluster `nr` on, or nothing for a number above ten. */
    method ClusterRead(d: Medium, nr: nat, offset: nat, n: nat) returns (out: seq<Byte>)
      requires Readable(ino.Value()) && offset < ClusterBytes(ino.sb) && offset + n <= ClusterBytes(ino.sb)
      ensures nr > BLOCKS ==> out == []
      ensures nr <= BLOCKS ==> var pos := nr * ClusterBytes(ino.sb) + offset;
                               pos + n <= (BLOCKS + 1) * ClusterBytes(ino.sb) && out == Slice(d, ino.Value(), pos, pos + n)
    {
      DivUnique(nr * ClusterBytes(ino.sb) + offset, ClusterBytes(ino.sb), nr, offset);
      if nr <= BLOCKS {
        ClusterIsSlice(d, ino.Value(), nr * ClusterBytes(ino.sb) + offset, n);
      }
      if nr > 10 {
        return [];
      }
      var data := GetBlock(d, FirstSector(ino.sb, ino.blocks[nr]), ClusterBytes(ino.sb));
      out := data[offset..offset + n];
    }

    /** Lines 58-70: one pass of the loop. */
    method Pass(d: Medium, left: nat) returns (valid: nat, out: seq<Byte>)
      requires Readable(ino.Value()) && left > 0 && fPos < ino.size
      ensures 0 < valid <= left && fPos + valid <= ino.size && InCluster(ino.Value(), fPos, valid)
      ensures out == Slice(d, ino.Value(), Reach(ino.Value(), fPos), Reach(ino.Value(), fPos + valid))
    {
      ValidIsGood(ino.size, fPos, ClusterBytes(ino.sb), left);
      var clu, offset, v := PassSize(left);
      valid := v;
      ReachOfPass(ino.Value(), fPos, valid);
      out := ClusterRead(d, clu, offset, valid);
    }

    /** Lines 58-68. */
    method PassSize(left: nat) returns (clu: nat, offset: nat, valid: int)
      requires Readable(ino.Value())
      ensures clu == fPos / ClusterBytes(ino.sb) && offset == fPos % ClusterBytes(ino.sb)
      ensures valid == Valid(ino.size, fPos, ClusterBytes(ino.sb), left)
    {
      var clusz := ClusterBytes(ino.sb);
      clu, offset := fPos / clusz, fPos % clusz;
      if clu == ino.size / clusz && ino.size % clusz != 0 {
        valid := ino.size % clusz;
      } else {
        valid := clusz;
      }
      valid := valid - offset;
      if left < valid {
        valid := left;
      }
    }

    /** `eofile`: true iff no read, of whatever size, would advance the position any more. */
    method Eofile() returns (r: bool)
      ensures r <==> forall size :: EndOf(ino.Value(), fPos, size) == fPos
    {
      assert fPos < ino.size ==> EndOf(ino.Value(), fPos, 1) == fPos + 1;
      r := ino.size <= fPos;
    }

    /**
     `filp_read`: the position advances to the end of the request or of the file, the return value is
     that advance, and the output is the slice in between as far as the block map reaches.
     */
    method FilpRead(d: Medium, size: int) returns (n: nat, out: seq<Byte>)
      requires Readable(ino.Value())
      modifies this`fPos
      ensures fPos == EndOf(ino.Value(), old(fPos), size)
      ensures n == fPos - old(fPos)
      ensures out == Output(d, ino.Value(), old(fPos), size)
    {
      ghost var f := ino.Value();
      var left := size;
      var oldpos := fPos;
      out := [];
      while left > 0 && ino.size > fPos
        invariant oldpos <= fPos && left == size - (fPos - oldpos)
        invariant fPos > oldpos ==> left >= 0 && fPos <= ino.size
        invariant out == Slice(d, f, Reach(f, oldpos), Reach(f, fPos))
        decreases left
      {
        var valid, piece := Pass(d, left);
        SliceJoin(d, f, Reach(f, oldpos), Reach(f, fPos), Reach(f, fPos + valid));
        out := out + piece;
        fPos := fPos + valid;
        left := left - valid;
      }
      n := fPos - oldpos;
    }
  }
}
