/** Cluster chains over a FAT seen as an array of entries. */
module Chains {
  import opened FatDisk
  import opened Lists

  /** Link i of a chain: the entry holds the next cluster, or an end mark at the last one. */
  ghost predicate LinkAt(fat: seq<nat>, s: seq<nat>, i: nat)
    requires i < |s| && s[i] < |fat|
  {
    if i + 1 < |s| then fat[s[i]] == s[i + 1] else fat[s[i]] >= FAT_EOC
  }

  /** s is a chain: inside the table, each entry naming the next, the last one marked. */
  ghost predicate IsChain(fat: seq<nat>, s: seq<nat>) {
    && |s| > 0
    && (forall i | 0 <= i < |s| :: 2 <= s[i] < |fat|)
    && (forall i {:trigger LinkAt(fat, s, i)} | 0 <= i < |s| :: LinkAt(fat, s, i))
  }

  /** A chain is acyclic: no cluster occurs twice. */
  lemma ChainDistinct(fat: seq<nat>, s: seq<nat>)
    requires IsChain(fat, s) && |fat| <= FAT_BAD
    ensures Distinct(s)
  {
    forall i, j | 0 <= i < j < |s| ensures s[i] != s[j] {
      if s[i] == s[j] { NoRepeat(fat, s, i, j); }
    }
  }

  lemma NoRepeat(fat: seq<nat>, s: seq<nat>, i: nat, j: nat)
    requires IsChain(fat, s) && |fat| <= FAT_BAD
    requires i < j < |s| && s[i] == s[j]
    ensures false
    decreases |s| - j
  {
    assert LinkAt(fat, s, i) && LinkAt(fat, s, j);
    if j + 1 < |s| { NoRepeat(fat, s, i + 1, j + 1); }
  }

  ghost function Clusters(limit: nat): set<nat> {
    if limit <= 2 then {} else Clusters(limit - 1) + {limit - 1}
  }

  lemma ClustersCard(limit: nat)
    requires limit >= 2
    ensures |Clusters(limit)| == limit - 2 && forall x :: x in Clusters(limit) <==> 2 <= x < limit
  {
    if limit > 2 { ClustersCard(limit - 1); }
  }

  ghost function FreeClusters(fat: seq<nat>): set<nat> {
    set c | 2 <= c < |fat| && fat[c] == FAT_FREE
  }

  lemma FreeIn(fat: seq<nat>, c: nat)
    requires 2 <= c < |fat|
    ensures c in FreeClusters(fat) <==> fat[c] == FAT_FREE
  {
  }

  /** Making a free cluster a chain of its own, or linking it to the end of one, takes just that one. */
  lemma FreeTaken(fat: seq<nat>, c: nat)
    requires c in FreeClusters(fat)
    ensures FreeClusters(fat[c := FAT_EOC]) == FreeClusters(fat) - {c}
    ensures |FreeClusters(fat[c := FAT_EOC])| == |FreeClusters(fat)| - 1
  {
  }

  lemma LinkTakesOne(fat: seq<nat>, last: nat, c: nat)
    requires c in FreeClusters(fat) && c < |fat| && last < |fat| && fat[last] != FAT_FREE
    ensures FreeClusters(fat[c := FAT_EOC][last := c]) == FreeClusters(fat) - {c}
    ensures |FreeClusters(fat[c := FAT_EOC][last := c])| == |FreeClusters(fat)| - 1
  {
  }

  /** A chain is no longer than there are clusters. */
  lemma Pigeonhole(s: seq<nat>, limit: nat)
    requires Distinct(s) && limit >= 2 && forall i | 0 <= i < |s| :: 2 <= s[i] < limit
    ensures |s| <= limit - 2
  {
    ElemsCard(s);
    ClustersCard(limit);
    var a, b := Elems(s), Clusters(limit);
    assert a <= b;
    assert b == a + (b - a);
  }

  /** The chain from a given cluster is unique. */
  lemma {:induction false} ChainUnique(fat: seq<nat>, s: seq<nat>, t: seq<nat>)
    requires IsChain(fat, s) && IsChain(fat, t) && s[0] == t[0] && |fat| <= FAT_BAD
    ensures s == t
    decreases |s|
  {
    assert LinkAt(fat, s, 0) && LinkAt(fat, t, 0);
    if |s| > 1 && |t| > 1 {
      ChainTail(fat, s);
      ChainTail(fat, t);
      ChainUnique(fat, s[1..], t[1..]);
      assert s == [s[0]] + s[1..] && t == [t[0]] + t[1..];
    }
  }

  lemma ChainTail(fat: seq<nat>, s: seq<nat>)
    requires IsChain(fat, s) && |s| > 1
    ensures IsChain(fat, s[1..])
  {
    forall i | 0 <= i < |s| - 1 ensures LinkAt(fat, s[1..], i) { assert LinkAt(fat, s, i + 1); }
  }

  lemma ChainFrame(fat: seq<nat>, fat': seq<nat>, s: seq<nat>)
    requires IsChain(fat, s) && |fat'| == |fat|
    requires forall c | c in s :: fat'[c] == fat[c]
    ensures IsChain(fat', s)
  {
    forall i | 0 <= i < |s| ensures LinkAt(fat', s, i) { assert LinkAt(fat, s, i); }
  }

  // ----- conservation: the used entries are exactly the owned chains -----

  /** Neither free nor bad. */
  predicate Held(e: nat) { e != FAT_FREE && e != FAT_BAD }

  ghost predicate Disjoint(a: seq<nat>, b: seq<nat>) {
    forall c | c in a :: c !in b
  }

  ghost predicate Owned<K(!new)>(own: map<K, seq<nat>>, c: nat) {
    exists k :: k in own && c in own[k]
  }

  /** The entries in use are exactly the disjoint union of the chains in `own` (an owner may hold no
      clusters yet), and the bad ones are exactly `bad`: every other entry is free. */
  ghost predicate Conserved<K(!new)>(fat: seq<nat>, own: map<K, seq<nat>>, bad: set<nat>) {
    && |fat| <= FAT_BAD
    && (forall k | k in own :: own[k] == [] || IsChain(fat, own[k]))
    && (forall k, k' | k in own && k' in own && k != k' :: Disjoint(own[k], own[k']))
    && (forall c | 2 <= c < |fat| :: Held(fat[c]) <==> Owned(own, c))
    && (forall c | 2 <= c < |fat| :: fat[c] == FAT_BAD <==> c in bad)
    && (forall c | c in bad :: 2 <= c < |fat|)
  }

  lemma FreeNotOwned<K(!new)>(fat: seq<nat>, own: map<K, seq<nat>>, bad: set<nat>, c: nat, k: K)
    requires Conserved(fat, own, bad) && 2 <= c < |fat| && fat[c] == FAT_FREE && k in own
    ensures c !in own[k]
  {
    assert !Owned(own, c);
  }

  /** Giving a free cluster to an owner that held none. */
  lemma ConservedFirst<K(!new)>(fat: seq<nat>, own: map<K, seq<nat>>, bad: set<nat>, k: K, c: nat)
    requires Conserved(fat, own, bad) && 2 <= c < |fat| && fat[c] == FAT_FREE
    requires k in own ==> own[k] == []
    ensures Conserved(fat[c := FAT_EOC], own[k := [c]], bad)
  {
    var fat', own' := fat[c := FAT_EOC], own[k := [c]];
    assert LinkAt(fat', [c], 0);
    forall j | j in own && j != k ensures own'[j] == [] || IsChain(fat', own'[j])
      ensures c !in own'[j]
    {
      FreeNotOwned(fat, own, bad, c, j);
      if own[j] != [] { ChainFrame(fat, fat', own[j]); }
    }
    forall x | 2 <= x < |fat'| ensures Held(fat'[x]) <==> Owned(own', x) {
      if Owned(own, x) { var j :| j in own && x in own[j]; assert j != k && x in own'[j]; }
      assert c in own'[k];
    }
  }

  /** Appending a free cluster to a chain, in the order the driver writes the two entries. */
  lemma ConservedExtend<K(!new)>(fat: seq<nat>, own: map<K, seq<nat>>, bad: set<nat>, k: K, c: nat)
    requires Conserved(fat, own, bad) && 2 <= c < |fat| && fat[c] == FAT_FREE
    requires k in own && own[k] != []
    ensures own[k][|own[k]| - 1] < |fat|
    ensures Conserved(fat[c := FAT_EOC][own[k][|own[k]| - 1] := c], own[k := own[k] + [c]], bad)
  {
    var s := own[k];
    var last := s[|s| - 1];
    var fat', own' := fat[c := FAT_EOC][last := c], own[k := s + [c]];
    FreeNotOwned(fat, own, bad, c, k);
    ChainDistinct(fat, s);
    forall i | 0 <= i < |s + [c]| ensures LinkAt(fat', s + [c], i) {
      if i < |s| { assert LinkAt(fat, s, i); }
    }
    forall j | j in own && j != k ensures own'[j] == [] || IsChain(fat', own'[j])
      ensures Disjoint(own'[j], own'[k]) && Disjoint(own'[k], own'[j])
    {
      FreeNotOwned(fat, own, bad, c, j);
      assert Disjoint(own[j], s) && Disjoint(s, own[j]);
      if own[j] != [] { ChainFrame(fat, fat', own[j]); }
    }
    forall x | 2 <= x < |fat'| ensures Held(fat'[x]) <==> Owned(own', x) {
      assert c in own'[k] && last in s && Owned(own, last);
      if Owned(own, x) { var j :| j in own && x in own[j]; assert x in own'[j]; }
      if x != c && Owned(own', x) { var j :| j in own' && x in own'[j]; assert x in own[j]; }
    }
  }

  /** The table with every entry of s set free. */
  ghost function Freed(fat: seq<nat>, s: seq<nat>): (r: seq<nat>)
    ensures |r| == |fat|
  {
    seq(|fat|, c requires 0 <= c < |fat| => if c in s then FAT_FREE else fat[c])
  }

  lemma ConservedFree<K(!new)>(fat: seq<nat>, own: map<K, seq<nat>>, bad: set<nat>, k: K)
    requires Conserved(fat, own, bad) && k in own
    ensures Conserved(Freed(fat, own[k]), own - {k}, bad)
  {
    var fat', own' := Freed(fat, own[k]), own - {k};
    forall j | j in own' ensures own'[j] == [] || IsChain(fat', own'[j]) {
      assert Disjoint(own[j], own[k]);
      if own[j] != [] { ChainFrame(fat, fat', own[j]); }
    }
    forall x | 2 <= x < |fat'| ensures Held(fat'[x]) <==> Owned(own', x) {
      if x in own[k] {
        forall j | j in own' ensures x !in own'[j] { assert Disjoint(own[k], own[j]); }
      } else if Owned(own, x) {
        var j :| j in own && x in own[j];
        assert j in own' && x in own'[j];
      }
    }
  }

  // ----- walking and freeing an arbitrary table -----

  /** Every entry is free, a link inside the table, or a mark. */
  ghost predicate LinksInside(fat: seq<nat>) {
    |fat| <= FAT_BAD && forall c | 2 <= c < |fat| :: fat[c] < |fat| || fat[c] >= FAT_BAD
  }

  ghost function InUse(fat: seq<nat>): nat {
    if fat == [] then 0 else InUse(fat[..|fat| - 1]) + (if fat[|fat| - 1] == FAT_FREE then 0 else 1)
  }

  lemma InUseDrops(fat: seq<nat>, c: nat)
    requires c < |fat|
    ensures InUse(fat[c := FAT_FREE]) == InUse(fat) - (if fat[c] == FAT_FREE then 0 else 1)
  {
    var fat' := fat[c := FAT_FREE];
    if c < |fat| - 1 {
      InUseDrops(fat[..|fat| - 1], c);
      assert fat'[..|fat| - 1] == fat[..|fat| - 1][c := FAT_FREE];
    } else {
      assert fat'[..|fat| - 1] == fat[..|fat| - 1];
    }
  }

  /** The table after the freeing walk from cluster c: it ends on any table, cyclic or
      cross-linked, because each entry it visits becomes free. */
  ghost function FreeWalk(fat: seq<nat>, c: nat): (r: seq<nat>)
    requires LinksInside(fat) && (c < |fat| || c >= FAT_BAD)
    ensures |r| == |fat|
    ensures forall x | 0 <= x < |fat| :: r[x] == fat[x] || r[x] == FAT_FREE
    ensures 2 <= c < |fat| ==> r[c] == FAT_FREE
    decreases InUse(fat), c
  {
    if 2 <= c < FAT_BAD then
      InUseDrops(fat, c);
      var fat' := fat[c := FAT_FREE];
      if fat[c] >= FAT_EOC then fat' else FreeWalk(fat', fat[c])
    else fat
  }

  /** s follows the links from its first cluster. */
  ghost predicate Follows(fat: seq<nat>, s: seq<nat>) {
    && s != []
    && (forall i | 0 <= i < |s| :: 2 <= s[i] < |fat|)
    && (forall i, j | 0 <= i < |s| - 1 && j == i + 1 :: fat[s[i]] == s[j])
  }

  /** The links lead from cluster c to cluster x. */
  ghost predicate Reaches(fat: seq<nat>, c: nat, x: nat) {
    exists s :: Follows(fat, s) && s[0] == c && s[|s| - 1] == x
  }

  /** On any table, with cycles and shared tails or without: the walk frees exactly the clusters the links lead to. */
  lemma {:induction false} WalkFreesReached(fat: seq<nat>, c: nat, x: nat)
    requires LinksInside(fat) && (c < |fat| || c >= FAT_BAD) && x < |fat|
    ensures FreeWalk(fat, c)[x] == if Reaches(fat, c, x) then FAT_FREE else fat[x]
    decreases InUse(fat), c
  {
    if 2 <= c < |fat| {
      hide Reaches;
      InUseDrops(fat, c);
      var fat' := fat[c := FAT_FREE];
      if x == c {
        ReachesItself(fat, c);
      } else {
        ReachesBehind(fat, c, x);
        if fat[c] < FAT_EOC { WalkFreesReached(fat', fat[c], x); }
      }
    }
  }

  lemma WalkFrees(fat: seq<nat>, c: nat)
    requires LinksInside(fat) && (c < |fat| || c >= FAT_BAD)
    ensures forall x | 0 <= x < |fat| :: FreeWalk(fat, c)[x] == if Reaches(fat, c, x) then FAT_FREE else fat[x]
  {
    forall x | 0 <= x < |fat| ensures FreeWalk(fat, c)[x] == if Reaches(fat, c, x) then FAT_FREE else fat[x] {
      WalkFreesReached(fat, c, x);
    }
  }

  lemma ReachesItself(fat: seq<nat>, c: nat)
    requires 2 <= c < |fat|
    ensures Reaches(fat, c, c)
  {
    assert Follows(fat, [c]);
  }

  /** What else c leads to, the cluster behind it leads to once c is free. */
  lemma ReachesBehind(fat: seq<nat>, c: nat, x: nat)
    requires 2 <= c < |fat| && x != c
    ensures Reaches(fat, c, x) <==> Reaches(fat[c := FAT_FREE], fat[c], x)
  {
    var fat' := fat[c := FAT_FREE];
    if Reaches(fat, c, x) {
      var s :| Follows(fat, s) && s[0] == c && s[|s| - 1] == x;
      LastVisit(fat, c, s);
    }
    if Reaches(fat', fat[c], x) {
      var s :| Follows(fat', s) && s[0] == fat[c] && s[|s| - 1] == x;
      assert forall i, j | 0 <= i < |s| - 1 && j == i + 1 :: fat'[s[i]] == s[j] && s[j] != FAT_FREE;
      assert Follows(fat, [c] + s);
    }
  }

  /** What follows the last visit of c does not pass through it. */
  lemma {:induction false} LastVisit(fat: seq<nat>, c: nat, s: seq<nat>)
    requires Follows(fat, s) && s[0] == c && s[|s| - 1] != c
    ensures Reaches(fat[c := FAT_FREE], fat[c], s[|s| - 1])
    decreases |s|
  {
    if k :| 0 < k < |s| && s[k] == c {
      LastVisit(fat, c, s[k..]);
    } else {
      assert Follows(fat[c := FAT_FREE], s[1..]);
    }
  }

  /** On a well-formed chain the walk frees exactly that chain. */
  lemma {:induction false} FreeWalkChain(fat: seq<nat>, s: seq<nat>)
    requires IsChain(fat, s) && LinksInside(fat)
    ensures FreeWalk(fat, s[0]) == Freed(fat, s)
    decreases |s|
  {
    ChainDistinct(fat, s);
    assert LinkAt(fat, s, 0);
    var fat' := fat[s[0] := FAT_FREE];
    if |s| == 1 {
      assert Freed(fat, s) == fat';
    } else {
      ChainTail(fat, s);
      forall c | c in s[1..] ensures fat'[c] == fat[c] {}
      ChainFrame(fat, fat', s[1..]);
      FreeWalkChain(fat', s[1..]);
      forall c | 0 <= c < |fat| ensures Freed(fat', s[1..])[c] == Freed(fat, s)[c] {
        assert c in s <==> c == s[0] || c in s[1..];
      }
    }
  }

  lemma ConservedLinks<K(!new)>(fat: seq<nat>, own: map<K, seq<nat>>, bad: set<nat>)
    requires Conserved(fat, own, bad)
    ensures LinksInside(fat)
  {
    forall c | 2 <= c < |fat| ensures fat[c] < |fat| || fat[c] >= FAT_BAD {
      if Owned(own, c) {
        var k :| k in own && c in own[k];
        var i :| 0 <= i < |own[k]| && own[k][i] == c;
        assert LinkAt(fat, own[k], i);
      }
    }
  }
}
