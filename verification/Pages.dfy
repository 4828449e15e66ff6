/**
 The kernel heap of `ker/mem.c`: `kmalloc` and `kfree` over a table with one word per page. A free run
 starts with 0, a busy block with its size in bytes, and every further page of either holds ~0.
 One word past the table is read by both functions; it is the guard.
 */
module Pages {
  import opened Segments
  import opened Sequences
  import A = Arena

  const PAGE_SIZE: nat := 1024
  const PAGE_S_CONT: nat := 0xFFFF_FFFF
  const PAGE_S_FREE: nat := 0

  type Words = seq<nat>

  /** `calc_count`: pages needed for `size` bytes. */
  function CalcCount(size: nat): (c: nat)
    ensures (c == 0 && size == 0) || (c > 0 && (c - 1) * PAGE_SIZE < size <= c * PAGE_SIZE)
  {
    size / PAGE_SIZE + if size % PAGE_SIZE > 0 then 1 else 0
  }

  // ---------- run lists and their encoding ----------

  /** A busy run holds exactly the pages its recorded size needs. */
  predicate Sized(r: Seg) {
    r.Busy? ==> 0 < r.tag < PAGE_S_CONT && r.len == CalcCount(r.tag)
  }

  /** Canonical, and every block holds exactly the pages its recorded size needs. */
  predicate PageRuns(s: seq<Seg>) {
    Canonical(s) && forall i :: 0 <= i < |s| ==> Sized(s[i])
  }

  function Conts(n: nat): (r: Words)
    ensures |r| == n && forall i :: 0 <= i < n ==> r[i] == PAGE_S_CONT
  {
    seq(n, _ => PAGE_S_CONT)
  }

  function Head(g: Seg): nat {
    if g.Free? then PAGE_S_FREE else g.tag
  }

  function Encode(s: seq<Seg>): Words {
    if s == [] then []
    else (if s[0].len == 0 then [] else [Head(s[0])] + Conts(s[0].len - 1)) + Encode(s[1..])
  }

  /** The table describes some merged run list. */
  ghost predicate WellFormed(w: Words) {
    exists s, g :: PageRuns(s) && w == Encode(s) + [g]
  }

  predicate Guard(g: nat) {
    g != PAGE_S_FREE && g != PAGE_S_CONT
  }

  lemma {:induction false} EncodeLength(s: seq<Seg>)
    ensures |Encode(s)| == Total(s)
  {
    if s != [] {
      EncodeLength(s[1..]);
    }
  }

  lemma {:induction false} EncodeConcat(a: seq<Seg>, b: seq<Seg>)
    ensures Encode(a + b) == Encode(a) + Encode(b)
  {
    if a == [] {
      assert a + b == b;
    } else {
      assert (a + b)[1..] == a[1..] + b;
      EncodeConcat(a[1..], b);
    }
  }

  /** Page `j` of run `k`. */
  lemma EncodeAt(s: seq<Seg>, k: nat, j: nat)
    requires k < |s| && j < s[k].len
    ensures Start(s, 0, k) + j < |Encode(s)| == Total(s)
    ensures Encode(s)[Start(s, 0, k) + j] == if j == 0 then Head(s[k]) else PAGE_S_CONT
  {
    CutAround(s, k);
    EncodeConcat(s[..k], [s[k]] + s[k + 1..]);
    EncodeLength(s[..k]);
    EncodeLength(s);
    assert ([s[k]] + s[k + 1..])[1..] == s[k + 1..];
  }

  /** Which run a page belongs to. */
  lemma {:induction false} PageOf(s: seq<Seg>, q: nat) returns (k: nat, j: nat)
    requires q < Total(s)
    ensures k < |s| && j < s[k].len && q == Start(s, 0, k) + j
  {
    if q < s[0].len {
      k, j := 0, q;
    } else {
      k, j := PageOf(s[1..], q - s[0].len);
      assert s[..k + 1][1..] == s[1..][..k];
      k := k + 1;
    }
  }

  // ---------- the scan of kmalloc ----------

  datatype Hit = Miss | Hit(head: nat, last: nat)

  /** Lines 185-207 from page `i` on, with the counter and the last free head seen. */
  function Scan(w: Words, i: nat, count: nat, tmp: nat, head: nat): Hit
    decreases |w| - i
  {
    if i >= |w| then Miss
    else
      var tmp' := if w[i] == PAGE_S_FREE then 1 else if w[i] == PAGE_S_CONT && tmp > 0 then tmp + 1 else tmp;
      var head' := if w[i] == PAGE_S_FREE then i else head;
      if tmp' == count then Hit(head', i) else Scan(w, i + 1, count, tmp', head')
  }

  /** What the scan does on the table of a run list: `tmp` also counts the CONT pages of busy blocks. */
  function Pick(s: seq<Seg>, off: nat, count: nat, tmp: nat, head: nat): Hit
    requires tmp < count
  {
    if s == [] then Miss
    else if s[0].Free? then
      if s[0].len >= count then Hit(off, off + count - 1)
      else Pick(s[1..], off + s[0].len, count, s[0].len, off)
    else if s[0].len == 0 || tmp == 0 then Pick(s[1..], off + s[0].len, count, tmp, head)
    else if tmp + s[0].len - 1 >= count then Hit(head, off + count - tmp)
    else Pick(s[1..], off + s[0].len, count, tmp + s[0].len - 1, head)
  }

  lemma {:induction false} ScanConts(w: Words, i: nat, n: nat, count: nat, tmp: nat, head: nat)
    requires i + n <= |w| && tmp < count
    requires forall q :: i <= q < i + n ==> w[q] == PAGE_S_CONT
    ensures Scan(w, i, count, tmp, head) ==
            if tmp == 0 then Scan(w, i + n, count, 0, head)
            else if tmp + n >= count then Hit(head, i + count - tmp - 1)
            else Scan(w, i + n, count, tmp + n, head)
    decreases n
  {
    if n > 0 && (tmp == 0 || tmp + 1 < count) {
      ScanConts(w, i + 1, n - 1, count, if tmp == 0 then 0 else tmp + 1, head);
    }
  }

  /** The words of the first run, and what is left after it. */
  lemma FirstRunWords(w: Words, s: seq<Seg>, g: nat, off: nat)
    requires PageRuns(s) && s != [] && off <= |w| && w[off..] == Encode(s) + [g]
    ensures off + s[0].len <= |w| && w[off] == Head(s[0])
    ensures forall q :: off + 1 <= q < off + s[0].len ==> w[q] == PAGE_S_CONT
    ensures w[off + s[0].len..] == Encode(s[1..]) + [g] && PageRuns(s[1..])
  {
    var n := s[0].len;
    EncodeAt(s, 0, 0);
    assert w[off] == w[off..][0];
    forall q | off + 1 <= q < off + n
      ensures w[q] == PAGE_S_CONT
    {
      EncodeAt(s, 0, q - off);
      assert w[q] == w[off..][q - off];
    }
    assert w[off + n..] == w[off..][n..];
    CanonicalTail(s);
  }

  /** The two forms of the scan agree on every encoded run list. */
  lemma {:induction false} ScanIsPick(w: Words, s: seq<Seg>, g: nat, off: nat, count: nat, tmp: nat, head: nat)
    requires PageRuns(s) && Guard(g) && tmp < count
    requires off <= |w| && w[off..] == Encode(s) + [g]
    ensures Scan(w, off, count, tmp, head) == Pick(s, off, count, tmp, head)
    decreases |s|
  {
    if s == [] {
      assert w[off] == w[off..][0] == g;
      assert Scan(w, off + 1, count, tmp, head) == Miss;
    } else {
      var n := s[0].len;
      FirstRunWords(w, s, g, off);
      var tmp', head' := if s[0].Free? then 1 else tmp, if s[0].Free? then off else head;
      if tmp' < count {
        ScanConts(w, off + 1, n - 1, count, tmp', head');
        var tmp'' := if tmp' == 0 then 0 else tmp' + n - 1;
        if tmp'' < count {
          ScanIsPick(w, s[1..], g, off + n, count, tmp'', head');
        }
      }
    }
  }

  // ---------- when the scan is first fit ----------

  /** CONT pages of the busy blocks that `s` starts with, up to the next free run. */
  function ContRun(s: seq<Seg>): nat {
    if s == [] || s[0].Free? then 0
    else (if s[0].len == 0 then 0 else s[0].len - 1) + ContRun(s[1..])
  }

  /**
   No free run that is too short reaches the requested count together with the CONT pages of the busy
   blocks behind it. A caller can read this off the table before the call.
   */
  predicate NoOvercount(s: seq<Seg>, count: nat) {
    forall k :: 0 <= k < A.FirstFit(s, count) && s[k].Free? ==> s[k].len + ContRun(s[k + 1..]) < count
  }

  /** Looking one run further. */
  lemma NoOvercountStep(s: seq<Seg>, count: nat)
    requires s != [] && !A.Fits(s[0], count)
    ensures NoOvercount(s, count) <==>
              (s[0].Free? ==> s[0].len + ContRun(s[1..]) < count) && NoOvercount(s[1..], count)
  {
    var f := A.FirstFit(s[1..], count);
    assert forall k :: 0 <= k < f ==> s[1..][k] == s[k + 1] && s[1..][k + 1..] == s[k + 2..];
    assert forall k :: 1 <= k < f + 1 ==> s[k] == s[1..][k - 1] && s[k + 1..] == s[1..][k..];
    if NoOvercount(s, count) {
      forall k | 0 <= k < f && s[1..][k].Free?
        ensures s[1..][k].len + ContRun(s[1..][k + 1..]) < count
      {
        assert s[k + 1].len + ContRun(s[k + 2..]) < count;
      }
    }
  }

  /** A scan that arrives with `tmp` pages counted finds the first run that is really large enough. */
  lemma {:induction false} PickFits(s: seq<Seg>, off: nat, count: nat, tmp: nat, head: nat)
    requires Canonical(s) && tmp < count && NoOvercount(s, count)
    requires tmp > 0 ==> tmp + ContRun(s) < count
    ensures var f := A.FirstFit(s, count);
            Pick(s, off, count, tmp, head) ==
            if f == |s| then Miss else Hit(off + Total(s[..f]), off + Total(s[..f]) + count - 1)
    decreases |s|
  {
    if s != [] && !A.Fits(s[0], count) {
      var n, f := s[0].len, A.FirstFit(s[1..], count);
      CanonicalTail(s);
      NoOvercountStep(s, count);
      var tmp' := if s[0].Free? then n else if tmp == 0 then 0 else tmp + n - 1;
      PickFits(s[1..], off + n, count, tmp', if s[0].Free? then off else head);
      assert s[..f + 1][1..] == s[1..][..f];
    }
  }

  /** What the scan reports for a free run `k` that is too short: it stops inside a later busy block. */
  predicate ShortHit(s: seq<Seg>, off: nat, count: nat, h: Hit, k: nat) {
    && k + 1 < |s| && s[k].Free? && s[k].len < count
    && h.Hit? && h.head == off + Total(s[..k])
    && h.head + s[k].len <= h.last < off + Total(s) && count <= h.last - h.head
  }

  lemma ShortHitStep(s: seq<Seg>, off: nat, count: nat, h: Hit, k: nat)
    requires s != [] && ShortHit(s[1..], off + s[0].len, count, h, k)
    ensures ShortHit(s, off, count, h, k + 1)
  {
    assert s[..k + 1][1..] == s[1..][..k];
  }

  /** A run counted too long is reported from where it was carried, `-1`, or from a run `k` of the list. */
  lemma {:induction false} PickOvercounts(s: seq<Seg>, off: nat, count: nat, tmp: nat, head: nat)
    returns (k: int)
    requires Canonical(s) && tmp < count
    requires !NoOvercount(s, count) || (tmp > 0 && tmp + ContRun(s) >= count)
    ensures var h := Pick(s, off, count, tmp, head);
            if k < 0 then && tmp > 0 && h.Hit? && h.head == head && s != [] && s[0].Busy?
                          && off <= h.last < off + Total(s) && count - tmp <= h.last - off
            else ShortHit(s, off, count, h, k)
    decreases |s|
  {
    var n := s[0].len;
    if s[0].Busy? && tmp > 0 && tmp + n - 1 >= count {
      k := -1;
    } else {
      CanonicalTail(s);
      if A.Fits(s[0], count) {
        assert false;
      }
      NoOvercountStep(s, count);
      var tmp' := if s[0].Free? then n else if tmp == 0 then 0 else tmp + n - 1;
      k := PickOvercounts(s[1..], off + n, count, tmp', if s[0].Free? then off else head);
      if k >= 0 {
        ShortHitStep(s, off, count, Pick(s, off, count, tmp, head), k);
        k := k + 1;
      } else if s[0].Free? {
        assert Total(s[..0]) == 0;
        k := 0;
      }
    }
  }

  // ---------- kmalloc on the table ----------

  /** The table after lines 200-206: the head records the size, and a left-over page becomes a free head. */
  function Grant(w: Words, hit: Hit, size: nat): Words {
    if hit.Miss? || hit.head >= |w| || hit.last + 1 >= |w| then w
    else
      var w' := w[hit.head := size];
      if w'[hit.last + 1] == PAGE_S_CONT then w'[hit.last + 1 := PAGE_S_FREE] else w'
  }

  function Kmalloc(w: Words, size: nat): (Words, Hit) {
    var hit := Scan(w, 0, CalcCount(size), 0, 0);
    (Grant(w, hit, size), hit)
  }

  /** A table, its guard and its run list; the heap is smaller than the address space. */
  predicate Describes(w: Words, s: seq<Seg>, g: nat) {
    PageRuns(s) && Guard(g) && w == Encode(s) + [g] && Total(s) * PAGE_SIZE < PAGE_S_CONT
  }

  /** Under `NoOvercount` the first run that is large enough is carved, and the table says so. */
  lemma KmallocCarves(w: Words, s: seq<Seg>, g: nat, size: nat)
    requires Describes(w, s, g) && size > 0 && NoOvercount(s, CalcCount(size))
    ensures var c := CalcCount(size); var f := A.FirstFit(s, c);
            if f == |s| then Kmalloc(w, size) == (w, Miss)
            else && Kmalloc(w, size).1 == Hit(Start(s, 0, f), Start(s, 0, f) + c - 1)
                 && Describes(Kmalloc(w, size).0, Carve(s, f, c, size), g)
  {
    var c := CalcCount(size);
    var f := A.FirstFit(s, c);
    ScanFits(w, s, g, c);
    if f < |s| {
      KmallocGrants(w, s, g, f, c, size);
    } else {
      assert Grant(w, Miss, size) == w;
    }
  }

  lemma KmallocGrants(w: Words, s: seq<Seg>, g: nat, f: nat, c: nat, size: nat)
    requires Describes(w, s, g) && size > 0 && c == CalcCount(size) && f < |s| && A.Fits(s[f], c)
    requires Scan(w, 0, c, 0, 0) == Hit(Start(s, 0, f), Start(s, 0, f) + c - 1)
    ensures Kmalloc(w, size).1 == Hit(Start(s, 0, f), Start(s, 0, f) + c - 1)
    ensures Describes(Kmalloc(w, size).0, Carve(s, f, c, size), g)
  {
    GrantDescribes(w, s, g, f, c, size, Kmalloc(w, size).0);
  }

  lemma GrantDescribes(w: Words, s: seq<Seg>, g: nat, f: nat, c: nat, size: nat, w': Words)
    requires Describes(w, s, g) && size > 0 && c == CalcCount(size) && f < |s| && A.Fits(s[f], c)
    requires w' == Grant(w, Hit(Start(s, 0, f), Start(s, 0, f) + c - 1), size)
    ensures Describes(w', Carve(s, f, c, size), g)
  {
    GrantEncodes(w, s, g, f, c, size);
    CarveDescribes(s, g, f, c, size);
  }

  lemma ScanFits(w: Words, s: seq<Seg>, g: nat, c: nat)
    requires Describes(w, s, g) && c > 0 && NoOvercount(s, c)
    ensures var f := A.FirstFit(s, c);
            Scan(w, 0, c, 0, 0) == if f == |s| then Miss else Hit(Start(s, 0, f), Start(s, 0, f) + c - 1)
  {
    assert w[0..] == w;
    ScanIsPick(w, s, g, 0, c, 0, 0);
    PickFits(s, 0, c, 0, 0);
  }

  lemma TotalPages(c: nat, total: nat)
    requires c <= total
    ensures c * PAGE_SIZE <= total * PAGE_SIZE
  {
  }

  lemma CarveDescribes(s: seq<Seg>, g: nat, f: nat, c: nat, size: nat)
    requires PageRuns(s) && Guard(g) && Total(s) * PAGE_SIZE < PAGE_S_CONT
    requires size > 0 && c == CalcCount(size) && f < |s| && A.Fits(s[f], c)
    ensures Describes(Encode(Carve(s, f, c, size)) + [g], Carve(s, f, c, size), g)
  {
    CarveCanonical(s, f, c, size);
    CarveLive(s, 0, f, c, size);
    LiveSplit(s, 0, f, f + 1);
    assert Total(s[f..f + 1]) == s[f].len;
    TotalPages(c, Total(s));
    CarveRuns(s, f, c, size);
  }

  lemma CarveRuns(s: seq<Seg>, f: nat, c: nat, size: nat)
    requires (forall i :: 0 <= i < |s| ==> Sized(s[i])) && f < |s| && A.Fits(s[f], c) && Sized(Busy(c, size))
    ensures forall i :: 0 <= i < |Carve(s, f, c, size)| ==> Sized(Carve(s, f, c, size)[i])
  {
  }

  lemma GrantConcat(a: Words, n: nat, b: Words, c: nat, size: nat)
    requires 0 < c <= n && b != [] && b[0] != PAGE_S_CONT
    ensures Grant(a + ([PAGE_S_FREE] + Conts(n - 1)) + b, Hit(|a|, |a| + c - 1), size)
            == a + ([size] + Conts(c - 1)) + (if c < n then [PAGE_S_FREE] + Conts(n - c - 1) else []) + b
  {
    var w := a + ([PAGE_S_FREE] + Conts(n - 1)) + b;
    assert w[|a| + n] == b[0];
    if c < n {
      assert w[|a| + c] == PAGE_S_CONT;
    }
  }

  lemma GrantEncodes(w: Words, s: seq<Seg>, g: nat, f: nat, c: nat, size: nat)
    requires Describes(w, s, g) && f < |s| && s[f].Free? && 0 < c <= s[f].len
    ensures Grant(w, Hit(Start(s, 0, f), Start(s, 0, f) + c - 1), size) == Encode(Carve(s, f, c, size)) + [g]
  {
    var a, b := CarveParts(s, f, c, size, g);
    GrantConcat(a, s[f].len, b, c, size);
  }

  /** The tables before and after a carving, cut around the run. */
  lemma CarveParts(s: seq<Seg>, f: nat, c: nat, size: nat, g: nat) returns (a: Words, b: Words)
    requires PageRuns(s) && Guard(g) && f < |s| && s[f].Free? && 0 < c <= s[f].len
    ensures |a| == Start(s, 0, f) && b != [] && b[0] != PAGE_S_CONT
    ensures Encode(s) + [g] == a + ([PAGE_S_FREE] + Conts(s[f].len - 1)) + b
    ensures Encode(Carve(s, f, c, size)) + [g] == a + ([size] + Conts(c - 1))
            + (if c < s[f].len then [PAGE_S_FREE] + Conts(s[f].len - c - 1) else []) + b
  {
    var n := s[f].len;
    a, b := Encode(s[..f]), Encode(s[f + 1..]) + [g];
    EncodeLength(s[..f]);
    EncodeAround(s, f);
    Assoc(a + ([PAGE_S_FREE] + Conts(n - 1)), Encode(s[f + 1..]), [g]);
    TailHead(s, f, g);
    EncodeCarve(s, f, c, size);
    Assoc(a + ([size] + Conts(c - 1)) + (if c < n then [PAGE_S_FREE] + Conts(n - c - 1) else []), Encode(s[f + 1..]), [g]);
  }

  /** What follows a run is the head of the next one or the guard. */
  lemma TailHead(s: seq<Seg>, f: nat, g: nat)
    requires PageRuns(s) && Guard(g) && f < |s|
    ensures (Encode(s[f + 1..]) + [g])[0] != PAGE_S_CONT
  {
    if s[f + 1..] != [] {
      EncodeAt(s[f + 1..], 0, 0);
    }
  }

  lemma EncodeCarve(s: seq<Seg>, f: nat, c: nat, size: nat)
    requires f < |s| && s[f].Free? && 0 < c <= s[f].len
    ensures Encode(Carve(s, f, c, size)) == Encode(s[..f]) + ([size] + Conts(c - 1))
            + (if c < s[f].len then [PAGE_S_FREE] + Conts(s[f].len - c - 1) else []) + Encode(s[f + 1..])
  {
    var a, b := s[..f], s[f + 1..];
    var rest := if c < s[f].len then [Free(s[f].len - c)] else [];
    assert Carve(s, f, c, size) == a + ([Busy(c, size)] + (rest + b));
    EncodeConcat(a, [Busy(c, size)] + (rest + b));
    EncodeConcat([Busy(c, size)], rest + b);
    EncodeConcat(rest, b);
    EncodeSingle(Busy(c, size));
    if c < s[f].len {
      EncodeSingle(Free(s[f].len - c));
    }
  }

  lemma EncodeSingle(r: Seg)
    requires r.len > 0
    ensures Encode([r]) == [Head(r)] + Conts(r.len - 1)
  {
    assert [r][1..] == [];
  }

  lemma EncodeAround(s: seq<Seg>, k: nat)
    requires k < |s| && s[k].len > 0
    ensures Encode(s) == Encode(s[..k]) + ([Head(s[k])] + Conts(s[k].len - 1)) + Encode(s[k + 1..])
  {
    CutAround(s, k);
    EncodeConcat(s[..k], [s[k]] + s[k + 1..]);
    EncodeConcat([s[k]], s[k + 1..]);
    EncodeSingle(s[k]);
    Assoc(Encode(s[..k]), Encode([s[k]]), Encode(s[k + 1..]));
  }

  /** Without `NoOvercount` the call hands out a run that is too short and ruins the table. */
  lemma KmallocRuins(w: Words, s: seq<Seg>, g: nat, size: nat)
    requires Describes(w, s, g) && size > 0 && !NoOvercount(s, CalcCount(size))
    ensures Kmalloc(w, size).1.Hit? && !WellFormed(Kmalloc(w, size).0)
  {
    var c := CalcCount(size);
    assert w[0..] == w;
    ScanIsPick(w, s, g, 0, c, 0, 0);
    var k := PickOvercounts(s, 0, c, 0, 0);
    GrantOnShortRun(w, s, g, k, Scan(w, 0, c, 0, 0), size);
    TooShort(Kmalloc(w, size).0, Scan(w, 0, c, 0, 0).head, s[k].len, c, size);
  }

  /** The head of run `k` now records the size, and the block behind it still starts where it did. */
  lemma GrantOnShortRun(w: Words, s: seq<Seg>, g: nat, k: nat, hit: Hit, size: nat)
    requires Describes(w, s, g) && k + 1 < |s| && s[k].Free? && hit.Hit?
    requires hit.head == Start(s, 0, k) && hit.head + s[k].len <= hit.last < Total(s)
    ensures var w' := Grant(w, hit, size);
            && |w'| == |w| && hit.head + s[k].len + 1 < |w|
            && w'[hit.head] == size && w'[hit.head + s[k].len] != PAGE_S_CONT
  {
    EncodeLength(s);
    StartStep(s, 0, k);
    EncodeAt(s, k + 1, 0);
  }

  /** A table in which a size head is not followed by its CONT pages encodes nothing. */
  lemma TooShort(w: Words, h: nat, n: nat, c: nat, size: nat)
    requires h + n + 1 < |w| && 0 < n < c && c == CalcCount(size) && 0 < size < PAGE_S_CONT
    requires w[h] == size && w[h + n] != PAGE_S_CONT
    ensures !WellFormed(w)
  {
    forall s, g | PageRuns(s) && w == Encode(s) + [g]
      ensures false
    {
      EncodeLength(s);
      var k, j := PageOf(s, h);
      EncodeAt(s, k, j);
      EncodeAt(s, k, n);
      assert false;
    }
  }

  /** `kmalloc` keeps the table well formed exactly when no run overcounts. */
  lemma KmallocKeepsTableIff(w: Words, s: seq<Seg>, g: nat, size: nat)
    requires Describes(w, s, g) && size > 0
    ensures WellFormed(Kmalloc(w, size).0) <==> NoOvercount(s, CalcCount(size))
  {
    if NoOvercount(s, CalcCount(size)) {
      KmallocCarves(w, s, g, size);
    } else {
      KmallocRuins(w, s, g, size);
    }
  }

  /** Requests of at most one page are always safe. */
  lemma OnePageIsSafe(s: seq<Seg>)
    requires Canonical(s)
    ensures NoOvercount(s, 1)
  {
  }

  /** The smallest failing case: one free page, a two-page block behind it, two pages requested. */
  lemma OvercountExample()
    ensures var s := [Free(1), Busy(2, 2048)];
            && Describes(Encode(s) + [1], s, 1)
            && Kmalloc(Encode(s) + [1], 2048) == ([2048, 2048, PAGE_S_CONT, 1], Hit(0, 2))
  {
    var s := [Free(1), Busy(2, 2048)];
    assert s[1..] == [Busy(2, 2048)];
    assert Encode(s) == [0] + ([2048, PAGE_S_CONT] + []);
    var w := Encode(s) + [1];
    assert w == [0, 2048, PAGE_S_CONT, 1] && CalcCount(2048) == 2;
    assert Scan(w, 2, 2, 1, 0) == Hit(0, 2);
    assert Scan(w, 1, 2, 1, 0) == Hit(0, 2);
    assert Scan(w, 0, 2, 0, 0) == Hit(0, 2);
    assert Grant(w, Hit(0, 2), 2048) == [2048, 2048, PAGE_S_CONT, 1];
  }

  /** The block at page 0 freed as two runs: its first page, and the rest of it, if any, on its own. */
  function Unmerged(s: seq<Seg>): seq<Seg>
    requires s != [] && s[0].len > 0
  {
    [Free(1), Free(s[0].len - 1)] + s[1..]
  }

  /**
   A request for no bytes is refused if page 0 is free. Otherwise it hands out page 0 and frees the block
   there, its first page apart from the rest and neither merged with what follows.
   */
  lemma ZeroRequest(w: Words, s: seq<Seg>, g: nat)
    requires Describes(w, s, g) && s != []
    ensures s[0].Free? ==> Kmalloc(w, 0) == (w, Miss)
    ensures s[0].Busy? ==> Kmalloc(w, 0) == (Encode(Unmerged(s)) + [g], Hit(0, 0))
  {
    EncodeAt(s, 0, 0);
    if s[0].Free? {
      NeverZero(w, 1, 1, 0);
    } else {
      var rest := Encode(s[1..]) + [g];
      TailHead(s, 0, g);
      EncodeUnmerged(s);
      assert w == [s[0].tag] + Conts(s[0].len - 1) + rest;
      assert Encode(Unmerged(s)) + [g] == [PAGE_S_FREE] + Split(s[0].len) + rest;
      assert Kmalloc(w, 0) == (Grant(w, Hit(0, 0), 0), Hit(0, 0));
      ZeroGrant(s[0].tag, s[0].len, rest);
    }
  }

  /** The words of a free run of `n - 1` pages. */
  function Split(n: nat): Words
    requires n > 0
  {
    if n == 1 then [] else [PAGE_S_FREE] + Conts(n - 2)
  }

  lemma EncodeUnmerged(s: seq<Seg>)
    requires s != [] && s[0].len > 0
    ensures Encode(Unmerged(s)) == [PAGE_S_FREE] + Split(s[0].len) + Encode(s[1..])
  {
    var u := Unmerged(s);
    assert u[1..] == [Free(s[0].len - 1)] + s[1..];
    assert u[1..][1..] == s[1..];
    assert Encode(u[1..]) == Split(s[0].len) + Encode(s[1..]);
    assert [PAGE_S_FREE] + Conts(0) == [PAGE_S_FREE];
    Assoc([PAGE_S_FREE], Split(s[0].len), Encode(s[1..]));
  }

  lemma ZeroGrant(tag: nat, n: nat, rest: Words)
    requires n > 0 && rest != [] && rest[0] != PAGE_S_CONT
    ensures Grant([tag] + Conts(n - 1) + rest, Hit(0, 0), 0) == [PAGE_S_FREE] + Split(n) + rest
  {
    var w := [tag] + Conts(n - 1) + rest;
    if n == 1 {
      assert w[1] == rest[0];
    } else {
      assert w[1] == PAGE_S_CONT;
    }
  }

  /** It keeps the table well formed exactly when page 0 is free, or a one-page block with nothing free behind it. */
  lemma ZeroKeepsTableIff(w: Words, s: seq<Seg>, g: nat)
    requires Describes(w, s, g) && s != []
    ensures WellFormed(Kmalloc(w, 0).0) <==> s[0].Free? || (s[0].len == 1 && (|s| == 1 || s[1].Busy?))
  {
    ZeroRequest(w, s, g);
    if s[0].Busy? {
      var w', n := Kmalloc(w, 0).0, s[0].len;
      EncodeUnmerged(s);
      EncodeLength(s);
      assert |w'| == |w|;
      if n > 1 {
        assert w'[0] == PAGE_S_FREE && w'[1] == PAGE_S_FREE;
        TwoFreeHeads(w');
      } else if |s| > 1 && s[1].Free? {
        StartStep(s, 0, 0);
        EncodeAt(s, 1, 0);
        assert w'[1] == w[1];
        TwoFreeHeads(w');
      } else {
        var s' := [Free(1)] + s[1..];
        assert s'[1..] == s[1..];
        assert w' == Encode(s') + [g];
        assert PageRuns(s');
      }
    }
  }

  /** Two free heads in a row, with a word behind them, encode nothing that is merged. */
  lemma TwoFreeHeads(w: Words)
    requires |w| > 2 && w[0] == PAGE_S_FREE && w[1] == PAGE_S_FREE
    ensures !WellFormed(w)
  {
    forall s: seq<Seg>, g | PageRuns(s) && w == Encode(s) + [g]
      ensures false
    {
      EncodeLength(s);
      EncodeAt(s, 0, 0);
      if s[0].len == 1 {
        StartStep(s, 0, 0);
        EncodeAt(s, 1, 0);
      }
      assert false;
    }
  }

  lemma {:induction false} NeverZero(w: Words, i: nat, tmp: nat, head: nat)
    requires tmp > 0
    ensures Scan(w, i, 0, tmp, head) == Miss
    decreases |w| - i
  {
    if i < |w| {
      NeverZero(w, i + 1, if w[i] == PAGE_S_FREE then 1 else if w[i] == PAGE_S_CONT then tmp + 1 else tmp,
                if w[i] == PAGE_S_FREE then i else head);
    }
  }

  // ---------- the word behind the table ----------

  /** With a guard of 0, a request for a page that a full heap must refuse is given the page behind the heap. */
  lemma FreeGuardExample()
    ensures Encode([Busy(1, 1024)]) + [PAGE_S_FREE] == [1024, PAGE_S_FREE]
    ensures Scan([1024, PAGE_S_FREE], 0, CalcCount(1024), 0, 0) == Hit(1, 1)
  {
    assert [Busy(1, 1024)][1..] == [];
    assert Scan([1024, PAGE_S_FREE], 1, 1, 0, 0) == Hit(1, 1);
  }

  /** With a guard of ~0, a heap of one free page grants two. */
  lemma ContGuardExample()
    ensures Encode([Free(1)]) + [PAGE_S_CONT] == [PAGE_S_FREE, PAGE_S_CONT]
    ensures Scan([PAGE_S_FREE, PAGE_S_CONT], 0, CalcCount(2048), 0, 0) == Hit(0, 1)
  {
    assert [Free(1)][1..] == [];
    assert Scan([PAGE_S_FREE, PAGE_S_CONT], 1, 2, 1, 0) == Hit(0, 1);
  }

  // ---------- kfree on the table ----------

  /** The backward scan of line 226. */
  function PrevHead(w: Words, q: nat): (r: nat)
    requires q < |w|
    ensures r <= q
  {
    if q > 0 && w[q] == PAGE_S_CONT then PrevHead(w, q - 1) else q
  }

  /** Lines 219-238 for the block at page `p`. */
  function Kfree(w: Words, p: nat): Words
    requires p < |w|
  {
    var next := p + CalcCount(w[p]);
    var w' := w[p := if p > 0 && w[PrevHead(w, p - 1)] == PAGE_S_FREE then PAGE_S_CONT else PAGE_S_FREE];
    if next < |w| && w'[next] == PAGE_S_FREE then w'[next := PAGE_S_CONT] else w'
  }

  lemma WordAt(w: Words, s: seq<Seg>, g: nat, k: nat, j: nat)
    requires Describes(w, s, g) && k < |s| && j < s[k].len
    ensures Start(s, 0, k) + j < |w|
    ensures w[Start(s, 0, k) + j] == if j == 0 then Head(s[k]) else PAGE_S_CONT
  {
    EncodeAt(s, k, j);
  }

  /** The backward scan stops at the head of the run before, so it stays inside the table. */
  lemma PrevHeadIs(w: Words, s: seq<Seg>, g: nat, k: nat)
    requires Describes(w, s, g) && 0 < k < |s|
    ensures Start(s, 0, k) == Start(s, 0, k - 1) + s[k - 1].len <= |w|
    ensures PrevHead(w, Start(s, 0, k) - 1) == Start(s, 0, k - 1) && w[Start(s, 0, k - 1)] == Head(s[k - 1])
  {
    StartStep(s, 0, k - 1);
    PrevHeadWithin(w, s, g, k - 1, s[k - 1].len - 1);
    WordAt(w, s, g, k - 1, 0);
  }

  lemma {:induction false} PrevHeadWithin(w: Words, s: seq<Seg>, g: nat, k: nat, j: nat)
    requires Describes(w, s, g) && k < |s| && j < s[k].len
    ensures Start(s, 0, k) + j < |w| && PrevHead(w, Start(s, 0, k) + j) == Start(s, 0, k)
  {
    WordAt(w, s, g, k, j);
    if j > 0 {
      PrevHeadWithin(w, s, g, k, j - 1);
    }
  }

  /** The word behind a run: the next head, or the guard. */
  lemma NextHead(w: Words, s: seq<Seg>, g: nat, k: nat)
    requires Describes(w, s, g) && k < |s|
    ensures Start(s, 0, k) + s[k].len < |w|
    ensures w[Start(s, 0, k) + s[k].len] == if k + 1 < |s| then Head(s[k + 1]) else g
  {
    StartStep(s, 0, k);
    EncodeLength(s);
    if k + 1 < |s| {
      EncodeAt(s, k + 1, 0);
    } else {
      assert s[..k + 1] == s;
    }
  }

  /** The two writes of `kfree`: page `p`, and page `n` when a free run starts there. */
  function Edit(w: Words, p: nat, n: nat, left: bool, right: bool): Words
    requires p < |w| && (right ==> n < |w|)
  {
    var w' := w[p := if left then PAGE_S_CONT else PAGE_S_FREE];
    if right then w'[n := PAGE_S_CONT] else w'
  }

  lemma EditInside(w: Words, a: Words, m: Words, t: Words, p: nat, n: nat, left: bool, right: bool, m': Words)
    requires w == a + m + t && p < |m| && (right ==> n < |m|)
    requires m' == Edit(m, p, n, left, right)
    ensures Edit(w, |a| + p, |a| + n, left, right) == a + m' + t
  {
    assert w[|a| + p := if left then PAGE_S_CONT else PAGE_S_FREE]
        == a + m[p := if left then PAGE_S_CONT else PAGE_S_FREE] + t;
  }

  /** Only the heads of the merged runs are not CONT. */
  lemma MiddleWords(s: seq<Seg>, k: nat)
    requires PageRuns(s) && k < |s| && s[k].Busy?
    ensures var lo, hi := MergeLo(s, k), MergeHi(s, k);
            var y, at := Encode(s[lo..hi]), if lo < k then s[k - 1].len else 0;
            && at + s[k].len <= |y| == Total(s[lo..hi])
            && (hi == k + 1 ==> |y| == at + s[k].len)
            && (hi > k + 1 ==> |y| > at + s[k].len)
            && (lo < k ==> y[0] == PAGE_S_FREE)
            && forall q :: 0 < q < |y| && q != at && q != at + s[k].len ==> y[q] == PAGE_S_CONT
  {
    var lo, hi := MergeLo(s, k), MergeHi(s, k);
    var m := s[lo..hi];
    var y, at := Encode(m), if lo < k then s[k - 1].len else 0;
    EncodeLength(m);
    EncodeAt(m, 0, 0);
    MiddleTotal(s, k);
    forall q | 0 < q < |y| && q != at && q != at + s[k].len
      ensures y[q] == PAGE_S_CONT
    {
      var i, j := PageOf(m, q);
      EncodeAt(m, i, j);
    }
  }

  /** Editing at most two words of the middle leaves a single free run. */
  lemma MiddleEdit(s: seq<Seg>, k: nat)
    requires PageRuns(s) && k < |s| && s[k].Busy?
    ensures var lo, hi := MergeLo(s, k), MergeHi(s, k);
            var y, at := Encode(s[lo..hi]), if lo < k then s[k - 1].len else 0;
            && at < |y| && (hi > k + 1 ==> at + s[k].len < |y|)
            && Edit(y, at, at + s[k].len, lo < k, hi > k + 1) == [PAGE_S_FREE] + Conts(Total(s[lo..hi]) - 1)
  {
    MiddleWords(s, k);
  }

  /** `kfree` of block `k` leaves the table of the run list with `k` released and merged. */
  lemma KfreeReleases(w: Words, s: seq<Seg>, g: nat, k: nat)
    requires Describes(w, s, g) && k < |s| && s[k].Busy?
    ensures Start(s, 0, k) < |w| && w[Start(s, 0, k)] == s[k].tag
    ensures Describes(Kfree(w, Start(s, 0, k)), Release(s, k), g)
  {
    EncodeAt(s, k, 0);
    ReleaseCanonical(s, k);
    ReleaseLive(s, 0, k);
    KfreeEncodes(w, s, g, k);
  }

  lemma KfreeEncodes(w: Words, s: seq<Seg>, g: nat, k: nat)
    requires Describes(w, s, g) && k < |s| && s[k].Busy?
    requires Start(s, 0, k) < |w| && w[Start(s, 0, k)] == s[k].tag
    ensures Kfree(w, Start(s, 0, k)) == Encode(Release(s, k)) + [g]
  {
    var left, right := MergeLo(s, k) < k, MergeHi(s, k) > k + 1;
    var at := if left then s[k - 1].len else 0;
    var a, m, t, m' := ReleaseParts(s, k, g);
    KfreeEdits(w, s, g, k);
    EditInside(w, a, m, t, at, at + s[k].len, left, right, m');
  }

  /** The tables before and after a release differ in one middle part, by the two writes. */
  lemma ReleaseParts(s: seq<Seg>, k: nat, g: nat) returns (a: Words, m: Words, t: Words, m': Words)
    requires PageRuns(s) && k < |s| && s[k].Busy?
    ensures Encode(s) + [g] == a + m + t && Encode(Release(s, k)) + [g] == a + m' + t
    ensures |a| == Start(s, 0, MergeLo(s, k))
    ensures var left, right := MergeLo(s, k) < k, MergeHi(s, k) > k + 1;
            var at := if left then s[k - 1].len else 0;
            && at < |m| && (right ==> at + s[k].len < |m|)
            && m' == Edit(m, at, at + s[k].len, left, right)
  {
    var lo, hi := MergeLo(s, k), MergeHi(s, k);
    EncodeRelease(s, k, g);
    EncodeLength(s[..lo]);
    MiddleEdit(s, k);
    a, m, t := Encode(s[..lo]), Encode(s[lo..hi]), Encode(s[hi..]) + [g];
    m' := [PAGE_S_FREE] + Conts(|m| - 1);
    EncodeLength(s[lo..hi]);
  }

  /** Which words `kfree` writes. */
  lemma KfreeEdits(w: Words, s: seq<Seg>, g: nat, k: nat)
    requires Describes(w, s, g) && k < |s| && s[k].Busy?
    requires Start(s, 0, k) < |w| && w[Start(s, 0, k)] == s[k].tag
    ensures var p := Start(s, 0, k);
            && p + s[k].len < |w|
            && p == Start(s, 0, MergeLo(s, k)) + (if MergeLo(s, k) < k then s[k - 1].len else 0)
            && Kfree(w, p) == Edit(w, p, p + s[k].len, MergeLo(s, k) < k, MergeHi(s, k) > k + 1)
  {
    NextHead(w, s, g, k);
    if k > 0 {
      PrevHeadIs(w, s, g, k);
    }
  }

  lemma EncodeRelease(s: seq<Seg>, k: nat, g: nat)
    requires PageRuns(s) && k < |s| && s[k].Busy?
    ensures var lo, hi := MergeLo(s, k), MergeHi(s, k);
            && Encode(s) + [g] == Encode(s[..lo]) + Encode(s[lo..hi]) + (Encode(s[hi..]) + [g])
            && Encode(Release(s, k)) + [g]
               == Encode(s[..lo]) + ([PAGE_S_FREE] + Conts(Total(s[lo..hi]) - 1)) + (Encode(s[hi..]) + [g])
  {
    var lo, hi := MergeLo(s, k), MergeHi(s, k);
    var a, m, b := s[..lo], s[lo..hi], s[hi..];
    assert Total(m) > 0 by { assert m[0].len > 0; }
    EncodeThree(a, m, b, g);
    EncodeThree(a, [Free(Total(m))], b, g);
    EncodeSingle(Free(Total(m)));
    CutThree(s, lo, hi);
  }

  lemma EncodeThree(a: seq<Seg>, m: seq<Seg>, b: seq<Seg>, g: nat)
    ensures Encode(a + m + b) + [g] == Encode(a) + Encode(m) + (Encode(b) + [g])
  {
    EncodeConcat(a + m, b);
    EncodeConcat(a, m);
    Assoc(Encode(a) + Encode(m), Encode(b), [g]);
  }
}
