/**
 A FAT as a set of disjoint chains.  Entry `c` of the table holds the cluster
 after `c`, a value past the table at the end of a chain, and 0 for a free cluster.
 */
module FatChains {

  type FatTable = seq<nat>

  /** `ch` is a maximal path of the table: each cluster points to the next one, the last one nowhere. */
  ghost predicate IsChain(t: FatTable, ch: seq<nat>) {
    && ch != []
    && (forall i | 0 <= i < |ch| :: 2 <= ch[i] < |t|)
    && (forall i | 0 <= i < |ch| - 1 :: t[ch[i]] == ch[i + 1])
    && t[ch[|ch| - 1]] >= |t|
  }

  /** Cluster `c` lies on one of the chains. */
  ghost predicate On(chains: set<seq<nat>>, c: nat) {
    exists ch :: ch in chains && c in ch
  }

  ghost predicate Disjoint(chains: set<seq<nat>>) {
    forall a, b, c | a in chains && b in chains && c in a && c in b :: a == b
  }

  /** The table consists of exactly the chains in `chains`, which do not meet, and free clusters. */
  ghost predicate Partition(t: FatTable, chains: set<seq<nat>>) {
    && (forall ch | ch in chains :: IsChain(t, ch))
    && Disjoint(chains)
    && (forall c | 2 <= c < |t| :: t[c] != 0 ==> On(chains, c))
  }

  /** No chain visits a cluster twice. */
  lemma {:induction false} ChainIsAcyclic(t: FatTable, ch: seq<nat>, i: nat, j: nat)
    requires IsChain(t, ch) && i < j < |ch|
    ensures ch[i] != ch[j]
    decreases |ch| - j
  {
    if ch[i] == ch[j] {
      assert t[ch[i]] == ch[i + 1];
      if j + 1 < |ch| {
        ChainIsAcyclic(t, ch, i + 1, j + 1);
      }
    }
  }

  /** A chain is determined by its first cluster. */
  lemma {:induction false} ChainIsUnique(t: FatTable, a: seq<nat>, b: seq<nat>)
    requires IsChain(t, a) && IsChain(t, b) && a[0] == b[0]
    ensures a == b
    decreases |a|
  {
    assert |a| > 1 ==> t[a[0]] == a[1];
    assert |b| > 1 ==> t[b[0]] == b[1];
    if |a| > 1 && |b| > 1 {
      Suffix(t, a, 1);
      Suffix(t, b, 1);
      ChainIsUnique(t, a[1..], b[1..]);
    }
  }

  lemma Suffix(t: FatTable, ch: seq<nat>, k: nat)
    requires IsChain(t, ch) && k < |ch|
    ensures IsChain(t, ch[k..])
  {
  }

  /** Changing clusters that are not on a chain keeps the chain. */
  lemma ChainFrame(t: FatTable, t': FatTable, ch: seq<nat>)
    requires IsChain(t, ch) && |t| == |t'|
    requires forall i | 0 <= i < |ch| :: t'[ch[i]] == t[ch[i]]
    ensures IsChain(t', ch)
  {
  }

  // ---------- Free clusters ----------

  ghost function FreeSet(t: FatTable): set<nat> {
    set c: nat | 2 <= c < |t| && t[c] == 0
  }

  ghost function UsedSet(t: FatTable): set<nat> {
    set c: nat | 2 <= c < |t| && t[c] != 0
  }

  ghost function FreeCount(t: FatTable): nat {
    |FreeSet(t)|
  }

  ghost predicate Full(t: FatTable) {
    forall c | 2 <= c < |t| :: t[c] != 0
  }

  /** `free` is the number of free clusters, or invalid (more than the volume has clusters). */
  ghost predicate CountRight(t: FatTable, free: nat) {
    free > |t| - 2 || free == FreeCount(t)
  }

  lemma CountAfterUpdate(t: FatTable, c: nat, v: nat)
    requires 2 <= c < |t|
    ensures FreeCount(t[c := v])
         == FreeCount(t) + (if v == 0 then 1 else 0) - (if t[c] == 0 then 1 else 0)
    ensures t[c] != 0 && v == 0 ==> UsedSet(t[c := v]) < UsedSet(t)
  {
    hide UsedSet, FreeSet;
    FreeAfterUpdate(t, c, v);
    if t[c] == 0 {
      assert FreeSet(t) == FreeSet(t) - {c} + {c} == FreeSet(t) + {c};
    } else {
      assert FreeSet(t) - {c} == FreeSet(t);
    }
    if t[c] != 0 && v == 0 {
      UsedAfterFreeing(t, c);
    }
  }

  lemma FreeAfterUpdate(t: FatTable, c: nat, v: nat)
    requires 2 <= c < |t|
    ensures FreeSet(t[c := v]) == if v == 0 then FreeSet(t) + {c} else FreeSet(t) - {c}
    ensures c in FreeSet(t) <==> t[c] == 0
  {
  }

  lemma UsedAfterFreeing(t: FatTable, c: nat)
    requires 2 <= c < |t| && t[c] != 0
    ensures UsedSet(t[c := 0]) < UsedSet(t)
  {
    assert c in UsedSet(t) && c !in UsedSet(t[c := 0]);
    assert UsedSet(t[c := 0]) <= UsedSet(t);
  }

  ghost function Elements(s: seq<nat>): set<nat> {
    set c | c in s
  }

  lemma {:induction false} CountElements(s: seq<nat>)
    requires forall i, j | 0 <= i < j < |s| :: s[i] != s[j]
    ensures |Elements(s)| == |s|
  {
    if s != [] {
      CountElements(s[1..]);
      assert s == [s[0]] + s[1..];
      assert Elements(s) == Elements(s[1..]) + {s[0]};
    }
  }

  /** `more` lists the clusters that were free in `t` and are not in `t'`. */
  lemma CountTaken(t: FatTable, t': FatTable, more: seq<nat>)
    requires |t'| == |t| && (forall i, j | 0 <= i < j < |more| :: more[i] != more[j])
    requires forall c | c in more :: 2 <= c < |t| && t[c] == 0 && t'[c] != 0
    requires forall c | 2 <= c < |t| && c !in more :: t[c] == 0 <==> t'[c] == 0
    ensures FreeCount(t') + |more| == FreeCount(t)
  {
    assert FreeSet(t) == FreeSet(t') + Elements(more) && FreeSet(t') !! Elements(more);
    CountElements(more);
  }

  /** No cluster of a chain is free, and none occurs twice. */
  lemma ChainIsUsed(t: FatTable, ch: seq<nat>)
    requires ch == [] || IsChain(t, ch)
    ensures forall c | c in ch :: 2 <= c < |t| && t[c] != 0
    ensures forall i, j | 0 <= i < j < |ch| :: ch[i] != ch[j]
  {
    forall c | c in ch ensures 2 <= c < |t| && t[c] != 0 {
      EntryOnChain(t, ch, c);
    }
    forall i, j | 0 <= i < j < |ch| ensures ch[i] != ch[j] {
      ChainIsAcyclic(t, ch, i, j);
    }
  }

  /** Each cluster that a chain gains is one free cluster less. */
  lemma CountAfterGrowth(t: FatTable, t': FatTable, ch: seq<nat>, ch': seq<nat>)
    requires |t'| == |t| && ch <= ch' && (ch == [] || IsChain(t, ch)) && (ch' == [] || IsChain(t', ch'))
    requires forall c | c in ch' && c !in ch :: 2 <= c < |t| && t[c] == 0
    requires forall c | 2 <= c < |t| && c !in ch' :: t'[c] == t[c]
    ensures FreeCount(t') + |ch'| == FreeCount(t) + |ch|
  {
    hide IsChain;
    ChainIsUsed(t, ch);
    ChainIsUsed(t', ch');
    var more := ch'[|ch|..];
    assert ch' == ch + more;
    forall c | c in more ensures c !in ch {
      var j :| 0 <= j < |more| && more[j] == c;
      assert ch'[|ch| + j] == c;
    }
    CountTaken(t, t', more);
  }

  lemma {:induction false} RangeSize(lo: nat, hi: nat, s: set<nat>)
    requires lo <= hi && forall c | c in s :: lo <= c < hi
    ensures |s| <= hi - lo
    decreases hi
  {
    if lo < hi {
      RangeSize(lo, hi - 1, s - {hi - 1});
    } else {
      assert s == {};
    }
  }

  lemma CountBounds(t: FatTable)
    requires 2 <= |t|
    ensures FreeCount(t) <= |t| - 2
    ensures FreeCount(t) == 0 <==> Full(t)
    ensures forall c | 2 <= c < |t| && t[c] != 0 :: FreeCount(t) < |t| - 2
  {
    RangeSize(2, |t|, FreeSet(t));
    if FreeCount(t) == 0 {
      assert FreeSet(t) == {};
      forall c | 2 <= c < |t| ensures t[c] != 0 {
        assert c !in FreeSet(t);
      }
    } else {
      var c :| c in FreeSet(t);
    }
    forall c | 2 <= c < |t| && t[c] != 0 ensures FreeCount(t) < |t| - 2 {
      RangeSize(2, |t|, FreeSet(t) + {c});
    }
  }

  // ---------- Removing chains ----------

  datatype Removal = Removal(table: FatTable, ok: bool)

  /**
   The removal loop started at cluster `c` of any table, well formed or not: each
   pass frees one used cluster, so it ends even on a cyclic chain.
   */
  ghost function RemoveFrom(t: FatTable, c: nat): (r: Removal)
    requires 2 <= c < |t|
    ensures |r.table| == |t|
    decreases UsedSet(t)
  {
    var next := t[c];
    if next == 0 then Removal(t, true)
    else if next == 1 then Removal(t, false)
    else
      CountAfterUpdate(t, c, 0);
      var t' := t[c := 0];
      if next < |t| then RemoveFrom(t', next) else Removal(t', true)
  }

  function Zeroed(t: FatTable, cs: seq<nat>): (r: FatTable)
    ensures |r| == |t|
  {
    seq(|t|, c requires 0 <= c < |t| => if c in cs then 0 else t[c])
  }

  /** On a proper chain the loop frees exactly the clusters of the chain. */
  lemma {:induction false} RemoveFreesChain(t: FatTable, ch: seq<nat>)
    requires IsChain(t, ch)
    ensures RemoveFrom(t, ch[0]) == Removal(Zeroed(t, ch), true)
    decreases |ch|
  {
    var c := ch[0];
    var t' := t[c := 0];
    CountAfterUpdate(t, c, 0);
    if |ch| > 1 {
      var rest := ch[1..];
      Suffix(t, ch, 1);
      forall i | 0 <= i < |rest| ensures rest[i] != c {
        ChainIsAcyclic(t, ch, 0, i + 1);
      }
      ChainFrame(t, t', rest);
      RemoveFreesChain(t', rest);
      assert Zeroed(t', rest) == Zeroed(t, ch) by {
        assert ch == [c] + rest;
      }
    } else {
      assert ch == [c];
      assert t' == Zeroed(t, ch);
    }
  }

  /** Whatever the table, the loop only frees clusters, and it frees what the counter gains. */
  lemma {:induction false} RemoveOnlyFrees(t: FatTable, c: nat)
    requires 2 <= c < |t|
    ensures var r := RemoveFrom(t, c);
            && (forall d | 0 <= d < |t| :: r.table[d] == t[d] || r.table[d] == 0)
            && UsedSet(r.table) <= UsedSet(t)
            && (r.ok ==> r.table[c] == 0)
    decreases UsedSet(t)
  {
    if t[c] >= 2 {
      CountAfterUpdate(t, c, 0);
      if t[c] < |t| {
        RemoveOnlyFrees(t[c := 0], t[c]);
      }
    }
  }

  /** Removing a chain at its head removes exactly that chain from the set of chains. */
  lemma RemoveWholeChain(t: FatTable, chains: set<seq<nat>>, ch: seq<nat>)
    requires Partition(t, chains) && ch in chains
    ensures RemoveFrom(t, ch[0]).ok
    ensures Partition(RemoveFrom(t, ch[0]).table, chains - {ch})
  {
    RemoveFreesChain(t, ch);
    Replace(t, Zeroed(t, ch), chains, {ch}, {});
    assert chains - {ch} + {} == chains - {ch};
  }

  lemma ChainOfPartition(t: FatTable, chains: set<seq<nat>>, ch: seq<nat>)
    requires Partition(t, chains) && ch in chains
    ensures IsChain(t, ch) && ch != [] && forall i | 0 <= i < |ch| :: 2 <= ch[i] < |t|
  {
  }

  /** A set of one chain. */
  lemma OnSingle(a: seq<nat>)
    ensures forall c :: On({a}, c) <==> c in a
    ensures Disjoint({a})
  {
    forall c | c in a ensures On({a}, c) {
      assert a in {a};
    }
  }

  /** Cutting a chain after its first `k` clusters frees the tail and keeps the other chains. */
  lemma RemoveTail(t: FatTable, chains: set<seq<nat>>, ch: seq<nat>, k: nat, eoc: nat)
    requires Partition(t, chains) && ch in chains && 1 <= k < |ch| && eoc >= |t|
    ensures var t1 := t[ch[k - 1] := eoc];
            && RemoveFrom(t1, ch[k]) == Removal(Zeroed(t1, ch[k..]), true)
            && Partition(Zeroed(t1, ch[k..]), chains - {ch} + {ch[..k]})
  {
    CutFreesTail(t, ch, k, eoc);
    CutKeepsPartition(t, chains, ch, k, eoc);
  }

  lemma CutKeepsPartition(t: FatTable, chains: set<seq<nat>>, ch: seq<nat>, k: nat, eoc: nat)
    requires Partition(t, chains) && ch in chains && 1 <= k < |ch| && eoc >= |t|
    ensures Partition(Zeroed(t[ch[k - 1] := eoc], ch[k..]), chains - {ch} + {ch[..k]})
  {
    hide Partition, IsChain;
    ChainOfPartition(t, chains, ch);
    CutKeepsHead(t, ch, k, eoc);
    var head, tail := ch[..k], ch[k..];
    assert ch == head + tail && head[k - 1] == ch[k - 1];
    ReplaceByHead(t, Zeroed(t[ch[k - 1] := eoc], tail), chains, ch, head, tail);
  }

  lemma ReplaceByHead(t: FatTable, t': FatTable, chains: set<seq<nat>>, ch: seq<nat>, head: seq<nat>, tail: seq<nat>)
    requires Partition(t, chains) && ch in chains && |t'| == |t| && IsChain(t', head)
    requires forall c :: c in ch <==> c in head || c in tail
    requires forall c | 2 <= c < |t| && c !in head :: t'[c] == if c in tail then 0 else t[c]
    ensures Partition(t', chains - {ch} + {head})
  {
    hide Partition, IsChain, On, Disjoint;
    OnSingle(head);
    OnSingle(ch);
    Replace(t, t', chains, {ch}, {head});
  }

  /**
   The chains in `del` are replaced by the chains in `add`, which use only clusters
   of the replaced chains and free ones; nothing else changes.
   */
  lemma Replace(t: FatTable, t': FatTable, chains: set<seq<nat>>, del: set<seq<nat>>, add: set<seq<nat>>)
    requires Partition(t, chains) && del <= chains && |t'| == |t|
    requires Disjoint(add) && forall a | a in add :: IsChain(t', a)
    requires forall a, c | a in add && c in a && c < |t| :: t[c] == 0 || On(del, c)
    requires forall c | 2 <= c < |t| && !On(add, c) :: t'[c] == if On(del, c) then 0 else t[c]
    ensures Partition(t', chains - del + add)
  {
    var chains' := chains - del + add;
    forall a, c | a in chains - del && c in a ensures !On(del, c) && !On(add, c) {
      FreeIsOnNoChain(t, a, c);
    }
    forall a | a in chains - del ensures IsChain(t', a) {
      forall i | 0 <= i < |a| ensures t'[a[i]] == t[a[i]] {
        assert a[i] in a;
      }
      ChainFrame(t, t', a);
    }
    forall a, b, c | a in chains' && b in chains' && c in a && c in b ensures a == b {
      assert a in chains - del || On(add, c);
      assert b in chains - del || On(add, c);
    }
    forall c | 2 <= c < |t'| && t'[c] != 0 ensures On(chains', c) {
      if !On(add, c) {
        assert t[c] != 0 && !On(del, c);
        var a :| a in chains && c in a;
        assert a in chains';
      } else {
        var a :| a in add && c in a;
        assert a in chains';
      }
    }
  }

  /** Ending a chain at its cluster `k - 1` makes the loop free exactly the clusters after it. */
  lemma CutFreesTail(t: FatTable, ch: seq<nat>, k: nat, eoc: nat)
    requires IsChain(t, ch) && 1 <= k < |ch| && eoc >= |t|
    ensures var t1 := t[ch[k - 1] := eoc]; RemoveFrom(t1, ch[k]) == Removal(Zeroed(t1, ch[k..]), true)
  {
    var t1 := t[ch[k - 1] := eoc];
    var tail := ch[k..];
    Suffix(t, ch, k);
    forall i | 0 <= i < |tail| ensures tail[i] != ch[k - 1] {
      ChainIsAcyclic(t, ch, k - 1, k + i);
    }
    ChainFrame(t, t1, tail);
    RemoveFreesChain(t1, tail);
  }

  lemma CutKeepsHead(t: FatTable, ch: seq<nat>, k: nat, eoc: nat)
    requires IsChain(t, ch) && 1 <= k < |ch| && eoc >= |t|
    ensures IsChain(Zeroed(t[ch[k - 1] := eoc], ch[k..]), ch[..k])
  {
    var tail := ch[k..];
    forall i | 0 <= i < k ensures ch[i] !in tail {
      if ch[i] in tail {
        var j :| 0 <= j < |tail| && tail[j] == ch[i];
        ChainIsAcyclic(t, ch, i, k + j);
      }
    }
    forall i | 0 <= i < k - 1 ensures ch[i] != ch[k - 1] {
      ChainIsAcyclic(t, ch, i, k - 1);
    }
  }

  // ---------- Stretching chains ----------

  /** The table after a free cluster is marked as the end of a chain and linked from `prev`, if any. */
  function Linked(t: FatTable, prev: nat, ncl: nat, eoc: nat): (r: FatTable)
    requires ncl < |t| && prev < |t|
    ensures |r| == |t|
  {
    if prev == 0 then t[ncl := eoc] else t[ncl := eoc][prev := ncl]
  }

  /** Stretching one chain by a free cluster. */
  lemma LinkedChain(t: FatTable, ch: seq<nat>, ncl: nat, eoc: nat)
    requires IsChain(t, ch) && 2 <= ncl < |t| && t[ncl] == 0 && eoc >= |t|
    ensures IsChain(Linked(t, ch[|ch| - 1], ncl, eoc), ch + [ncl])
  {
    var t' := Linked(t, ch[|ch| - 1], ncl, eoc);
    var ch' := ch + [ncl];
    forall i | 0 <= i < |ch| ensures ch[i] != ncl {
      if i < |ch| - 1 {
        assert t[ch[i]] == ch[i + 1];
      }
    }
    forall i | 0 <= i < |ch'| - 1 ensures t'[ch'[i]] == ch'[i + 1] {
      if i < |ch| - 1 {
        ChainIsAcyclic(t, ch, i, |ch| - 1);
      }
    }
  }

  /** The entry of a cluster on a chain is neither 0 nor the reserved value 1. */
  lemma EntryOnChain(t: FatTable, ch: seq<nat>, c: nat)
    requires IsChain(t, ch) && c in ch
    ensures 2 <= c < |t| && t[c] >= 2
  {
    var i :| 0 <= i < |ch| && ch[i] == c;
    assert i < |ch| - 1 ==> t[ch[i]] == ch[i + 1];
  }

  lemma FreeIsOnNoChain(t: FatTable, ch: seq<nat>, c: nat)
    requires IsChain(t, ch) && c < |t|
    ensures t[c] == 0 ==> c !in ch
  {
    if c in ch {
      EntryOnChain(t, ch, c);
    }
  }

  /** `create_chain` at the tail of a chain appends one free cluster to it and keeps the other chains. */
  lemma StretchKeepsPartition(t: FatTable, chains: set<seq<nat>>, ch: seq<nat>, ncl: nat, eoc: nat)
    requires Partition(t, chains) && ch in chains
    requires 2 <= ncl < |t| && t[ncl] == 0 && eoc >= |t|
    ensures Partition(Linked(t, ch[|ch| - 1], ncl, eoc), chains - {ch} + {ch + [ncl]})
  {
    hide Partition, IsChain, On, Disjoint;
    ChainOfPartition(t, chains, ch);
    LinkedChain(t, ch, ncl, eoc);
    OnSingle(ch + [ncl]);
    OnSingle(ch);
    assert ch[|ch| - 1] in ch;
    Replace(t, Linked(t, ch[|ch| - 1], ncl, eoc), chains, {ch}, {ch + [ncl]});
  }

  /** `create_chain` without a chain to stretch adds a chain of one previously free cluster. */
  lemma NewChainKeepsPartition(t: FatTable, chains: set<seq<nat>>, ncl: nat, eoc: nat)
    requires Partition(t, chains)
    requires 2 <= ncl < |t| && t[ncl] == 0 && eoc >= |t|
    ensures Partition(Linked(t, 0, ncl, eoc), chains + {[ncl]})
  {
    assert ncl in [ncl];
    assert On({[ncl]}, ncl);
    Replace(t, Linked(t, 0, ncl, eoc), chains, {}, {[ncl]});
    assert chains - {} + {[ncl]} == chains + {[ncl]};
  }

  /** No entry of a well-formed table holds the reserved value 1. */
  lemma NoEntryIsOne(t: FatTable, chains: set<seq<nat>>, c: nat)
    requires Partition(t, chains) && 2 <= c < |t|
    ensures t[c] == 0 || t[c] >= 2
  {
    if t[c] != 0 {
      var ch :| ch in chains && c in ch;
      EntryOnChain(t, ch, c);
    }
  }

  // ---------- The search for a free cluster ----------

  /** Clusters that the wrap-around scan from `scl` visits before it reaches `r`. */
  predicate Passed(scl: nat, r: nat, c: nat) {
    if r > scl then scl < c < r else scl < c || c < r
  }

  /** `r` is the first free cluster of the scan. */
  ghost predicate NextFree(t: FatTable, scl: nat, r: nat) {
    && 2 <= r < |t| && t[r] == 0
    && forall c | 2 <= c < |t| && Passed(scl, r, c) :: t[c] != 0
  }

  /** The scan has at most one outcome, and it finds a cluster on every table that has a free one. */
  lemma NextFreeIsTotal(t: FatTable, scl: nat)
    requires 1 <= scl < |t|
    ensures (exists r :: NextFree(t, scl, r)) <==> !Full(t)
    ensures forall r, s | NextFree(t, scl, r) && NextFree(t, scl, s) :: r == s
  {
    if !Full(t) {
      var c :| 2 <= c < |t| && t[c] == 0;
      var r := FirstFree(t, scl, c);
    }
  }

  lemma {:induction false} FirstFree(t: FatTable, scl: nat, c: nat) returns (r: nat)
    requires 1 <= scl < |t| && 2 <= c < |t| && t[c] == 0
    ensures NextFree(t, scl, r)
    decreases if c > scl then c else c + |t|
  {
    if d :| 2 <= d < |t| && Passed(scl, c, d) && t[d] == 0 {
      r := FirstFree(t, scl, d);
    } else {
      r := c;
    }
  }
}
