/**
 Singly linked chains inside a table. The kernel links the entries of static arrays (`mem_hole`,
 `proc_table`) by pointers to each other; here a pointer is the index of the entry and `NIL` is NULL.
 */
module Links {
  import opened Sequences

  const NIL: int := -1

  /** Following `nxt` from `first` visits exactly the entries of `path`, then stops. */
  ghost predicate Chain(nxt: seq<int>, first: int, path: seq<int>) {
    && first == (if path == [] then NIL else path[0])
    && (forall i :: 0 <= i < |path| ==> 0 <= path[i] < |nxt|)
    && (forall i {:trigger nxt[path[i]]} :: 0 <= i < |path| ==>
          nxt[path[i]] == if i + 1 < |path| then path[i + 1] else NIL)
  }

  /** Entries off the chain can be changed freely. */
  lemma ChainFrame(nxt: seq<int>, nxt': seq<int>, first: int, path: seq<int>)
    requires Chain(nxt, first, path) && |nxt'| == |nxt|
    requires forall i :: 0 <= i < |path| ==> nxt'[path[i]] == nxt[path[i]]
    ensures Chain(nxt', first, path)
  {
  }

  lemma ChainPush(nxt: seq<int>, first: int, path: seq<int>, h: int)
    requires Chain(nxt, first, path) && 0 <= h < |nxt| && h !in path
    ensures Chain(nxt[h := first], h, [h] + path)
  {
    var nxt', path' := nxt[h := first], [h] + path;
    forall i | 0 <= i < |path'|
      ensures nxt'[path'[i]] == if i + 1 < |path'| then path'[i + 1] else NIL
    {
      if i > 0 {
        assert path'[i] == path[i - 1];
        assert nxt[path[i - 1]] == nxt'[path'[i]];
      }
    }
  }

  lemma ChainPop(nxt: seq<int>, first: int, path: seq<int>)
    requires Chain(nxt, first, path) && path != []
    ensures Chain(nxt, nxt[first], path[1..])
  {
    forall i | 0 <= i < |path[1..]|
      ensures nxt[path[1..][i]] == if i + 1 < |path[1..]| then path[1..][i + 1] else NIL
    {
      assert path[1..][i] == path[i + 1];
      assert nxt[path[i + 1]] == if i + 2 < |path| then path[i + 2] else NIL;
    }
    assert nxt[path[0]] == nxt[first];
  }

  /** `t` linked in behind `path[k]`. */
  lemma ChainInsert(nxt: seq<int>, first: int, path: seq<int>, k: nat, t: int, path': seq<int>)
    requires Chain(nxt, first, path) && Distinct(path)
    requires k < |path| && 0 <= t < |nxt| && t !in path && Inserted(path, k + 1, t, path')
    ensures Chain(nxt[t := nxt[path[k]]][path[k] := t], first, path')
  {
    DistinctOthers(path, k);
    var nxt' := nxt[t := nxt[path[k]]][path[k] := t];
    assert forall i :: 0 <= i < |path'| ==> path'[i] == if i <= k then path[i] else if i == k + 1 then t else path[i - 1];
    forall i | 0 <= i < |path'|
      ensures nxt'[path'[i]] == if i + 1 < |path'| then path'[i + 1] else NIL
    {
      if i <= k {
        assert nxt[path[i]] == nxt'[path'[i]] || i == k;
      } else if i == k + 1 {
        assert nxt'[t] == nxt[path[k]];
      } else {
        assert nxt'[path'[i]] == nxt[path[i - 1]];
      }
    }
  }

  /** The entry behind `path[k]` unlinked. */
  lemma ChainRemove(nxt: seq<int>, first: int, path: seq<int>, k: nat, path': seq<int>)
    requires Chain(nxt, first, path) && Distinct(path)
    requires k + 1 < |path| && Inserted(path', k + 1, path[k + 1], path)
    ensures Chain(nxt[path[k] := nxt[path[k + 1]]], first, path')
  {
    DistinctOthers(path, k);
    var nxt' := nxt[path[k] := nxt[path[k + 1]]];
    assert forall i :: 0 <= i < |path'| ==> path'[i] == path[if i <= k then i else i + 1];
    forall i | 0 <= i < |path'|
      ensures nxt'[path'[i]] == if i + 1 < |path'| then path'[i + 1] else NIL
    {
      if i < k {
        assert nxt'[path'[i]] == nxt[path[i]];
      } else if i == k {
        assert nxt'[path'[i]] == nxt[path[k + 1]];
      } else {
        assert nxt'[path'[i]] == nxt[path[i + 1]];
      }
    }
  }

  /** `p` linked in behind the last entry. */
  lemma ChainAppend(nxt: seq<int>, nxt': seq<int>, first: int, path: seq<int>, p: int)
    requires Chain(nxt, first, path) && |nxt'| == |nxt| && 0 <= p < |nxt|
    requires forall i :: 0 <= i < |path| - 1 ==> nxt'[path[i]] == nxt[path[i]]
    requires path != [] ==> nxt'[path[|path| - 1]] == p
    requires nxt'[p] == NIL
    ensures Chain(nxt', if path == [] then p else first, path + [p])
  {
    var path' := path + [p];
    forall i | 0 <= i < |path'|
      ensures nxt'[path'[i]] == if i + 1 < |path'| then path'[i + 1] else NIL
    {
      if i < |path| - 1 {
        assert nxt[path[i]] == nxt'[path'[i]];
      }
    }
  }

  /** The link of entry `k` cleared: the chain ends there. */
  lemma ChainCut(nxt: seq<int>, nxt': seq<int>, first: int, path: seq<int>, k: nat)
    requires Chain(nxt, first, path) && |nxt'| == |nxt| && k < |path|
    requires forall i :: 0 <= i < k ==> nxt'[path[i]] == nxt[path[i]]
    requires nxt'[path[k]] == NIL
    ensures Chain(nxt', first, path[..k + 1])
  {
    var path' := path[..k + 1];
    forall i | 0 <= i < |path'|
      ensures nxt'[path'[i]] == if i + 1 < |path'| then path'[i + 1] else NIL
    {
      if i < k {
        assert nxt[path[i]] == nxt'[path'[i]];
      }
    }
  }
}
