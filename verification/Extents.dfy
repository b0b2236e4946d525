/** The sectors and bytes of a cluster chain, and how a position in them is located. */
module Extents {
  import opened Sectors
  import opened FatDisk
  import opened Lists
  import opened Chains

  /** Every cluster of s has w sectors. */
  ghost predicate Uniform(data: seq<seq<Sector>>, s: seq<nat>, w: nat) {
    forall i | 0 <= i < |s| :: s[i] < |data| && |data[s[i]]| == w
  }

  ghost predicate Within(s: seq<nat>, n: nat) {
    forall i | 0 <= i < |s| :: s[i] < n
  }

  /** The sectors of a chain, cluster after cluster (a number outside the table has none). */
  ghost function ChainSectors(data: seq<seq<Sector>>, s: seq<nat>): seq<Sector> {
    if s == [] then [] else
      var c := s[|s| - 1];
      ChainSectors(data, s[..|s| - 1]) + if c < |data| then data[c] else []
  }

  ghost function ChainBytes(data: seq<seq<Sector>>, s: seq<nat>): seq<Byte> {
    BytesOf(ChainSectors(data, s))
  }

  lemma {:induction false} ChainLength(data: seq<seq<Sector>>, s: seq<nat>, w: nat)
    requires Uniform(data, s, w)
    ensures |ChainSectors(data, s)| == Times(|s|, w)
    decreases |s|
  {
    if s != [] { ChainLength(data, s[..|s| - 1], w); }
  }

  /** Sector t of cluster j of the chain is its sector j*w + t. */
  lemma {:induction false} ChainIndex(data: seq<seq<Sector>>, s: seq<nat>, w: nat, j: nat, t: nat)
    requires Uniform(data, s, w) && j < |s| && t < w
    ensures Times(j, w) + t < |ChainSectors(data, s)| == Times(|s|, w)
    ensures ChainSectors(data, s)[Times(j, w) + t] == data[s[j]][t]
    decreases |s|
  {
    ChainLength(data, s, w);
    var r := s[..|s| - 1];
    ChainLength(data, r, w);
    TimesMonotone(j, |s|, w);
    if j < |s| - 1 {
      ChainIndex(data, r, w, j, t);
    }
  }

  lemma ChainAppend(data: seq<seq<Sector>>, s: seq<nat>, c: nat)
    requires c < |data|
    ensures ChainSectors(data, s + [c]) == ChainSectors(data, s) + data[c]
  {
    assert (s + [c])[..|s|] == s;
  }

  lemma {:induction false} ChainSectorsFrame(data: seq<seq<Sector>>, data': seq<seq<Sector>>, s: seq<nat>)
    requires |data'| == |data|
    requires forall i | 0 <= i < |s| :: s[i] < |data| && data'[s[i]] == data[s[i]]
    ensures ChainSectors(data', s) == ChainSectors(data, s)
    decreases |s|
  {
    if s != [] { ChainSectorsFrame(data, data', s[..|s| - 1]); }
  }

  /** Replacing one sector of one cluster replaces one sector of the chain. */
  lemma {:induction false} ChainUpdate(data: seq<seq<Sector>>, s: seq<nat>, w: nat, j: nat, t: nat, sec: Sector)
    requires Uniform(data, s, w) && Distinct(s) && j < |s| && t < w
    requires Times(j, w) + t < |ChainSectors(data, s)|
    ensures Uniform(SetSector(data, s[j], t, sec), s, w)
    ensures ChainSectors(SetSector(data, s[j], t, sec), s) == ChainSectors(data, s)[Times(j, w) + t := sec]
    decreases |s|
  {
    hide Times, SetSector, Uniform, Distinct;
    UniformSet(data, s, w, j, t, sec);
    var data' := SetSector(data, s[j], t, sec);
    var r, c := s[..|s| - 1], s[|s| - 1];
    var at := Times(j, w) + t;
    ChainLength(data, s, w);
    ChainLength(data, r, w);
    TimesMonotone(j, |s| - 1, w);
    if j < |s| - 1 {
      ChainIndex(data, r, w, j, t);
      ChainUpdate(data, r, w, j, t, sec);
      UpdateFirst(ChainSectors(data, r), data[c], at, sec);
    } else {
      ChainSectorsFrame(data, data', r);
      UpdateSecond(ChainSectors(data, r), data[c], data'[c], at, sec);
    }
  }

  lemma UpdateFirst(xs: seq<Sector>, ys: seq<Sector>, k: nat, sec: Sector)
    requires k < |xs|
    ensures (xs + ys)[k := sec] == xs[k := sec] + ys
  {
  }

  lemma UpdateSecond(xs: seq<Sector>, ys: seq<Sector>, zs: seq<Sector>, k: nat, sec: Sector)
    requires |xs| <= k < |xs| + |ys| == |xs| + |zs| && zs[k - |xs|] == sec
    requires forall i | 0 <= i < |ys| && i != k - |xs| :: zs[i] == ys[i]
    ensures (xs + ys)[k := sec] == xs + zs
  {
  }

  /** The clusters of a chain after a sector of one of them was replaced. */
  lemma UniformSet(data: seq<seq<Sector>>, s: seq<nat>, w: nat, j: nat, t: nat, sec: Sector)
    requires Uniform(data, s, w) && Distinct(s) && j < |s| && t < w
    ensures var r := s[..|s| - 1];
            && Uniform(data, r, w) && Distinct(r) && s[|s| - 1] < |data| && |data[s[|s| - 1]]| == w
    ensures s[j] < |data| && t < |data[s[j]]|
    ensures var data' := SetSector(data, s[j], t, sec);
            && |data'| == |data| && Uniform(data', s, w) && data'[s[j]][t] == sec
            && (forall k | 0 <= k < w && k != t :: data'[s[j]][k] == data[s[j]][k])
            && (forall i | 0 <= i < |s| && i != j :: s[i] < |data| && data'[s[i]] == data[s[i]])
  {
  }

  // ----- locating a position -----

  lemma DivUnique(x: nat, m: nat, q: nat, r: nat)
    requires x == q * m + r && r < m
    ensures x / m == q && x % m == r
  {
    assert x == x / m * m + x % m;
    QuotientUnique(m, q, r, x / m, x % m);
  }

  lemma QuotientUnique(m: nat, q: nat, r: nat, q': nat, r': nat)
    requires q * m + r == q' * m + r' && r < m && r' < m
    ensures q == q' && r == r'
  {
    if q < q' {
      ProductGrows(q, q', m);
    } else if q' < q {
      ProductGrows(q', q, m);
    }
  }

  lemma ProductGrows(a: nat, b: nat, m: nat)
    requires a < b
    ensures a * m + m <= b * m
  {
    assert b * m == a * m + (b - a) * m;
    assert (b - a) * m == m + (b - a - 1) * m;
  }

  /** Splitting a position by clusters of w*u units and then by units gives the unit the flat
      count gives. The driver uses u = 512 for bytes and u = 16 for directory entries. */
  lemma Locate(p: nat, w: nat, u: nat)
    requires w > 0 && u > 0
    ensures w * u > 0
    ensures p / u == Times(p / (w * u), w) + p % (w * u) / u
    ensures p % u == p % (w * u) % u
    ensures p % (w * u) / u < w
  {
    ProductGrows(0, w, u);
    var m := w * u;
    var q, r := p / m, p % m;
    assert p == q * m + r;
    TimesIsProduct(q, w);
    LocateSplit(p, w, u, q, r);
  }

  lemma LocateSplit(p: nat, w: nat, u: nat, q: nat, r: nat)
    requires u > 0 && p == q * (w * u) + r && r < w * u
    ensures p / u == q * w + r / u && p % u == r % u && r / u < w
  {
    var a, b := r / u, r % u;
    assert r == a * u + b;
    Distribute(q, w, u, a);
    DivUnique(p, u, q * w + a, b);
    if a >= w { ProductMonotone(w, a, u); }
  }

  lemma Distribute(q: nat, w: nat, u: nat, a: nat)
    ensures (q * w + a) * u == q * (w * u) + a * u
  {
    assert q * w * u == q * (w * u);
  }

  lemma ProductMonotone(a: nat, b: nat, m: nat)
    requires a <= b
    ensures a * m <= b * m
  {
    if a < b { ProductGrows(a, b, m); }
  }

  /** A position is inside the first n clusters exactly if its cluster number is below n. */
  lemma LocateInside(p: nat, w: nat, u: nat, n: nat)
    requires w > 0 && u > 0
    ensures w * u > 0
    ensures p / (w * u) < n <==> p < Times(n, w) * u
  {
    ProductGrows(0, w, u);
    TimesIsProduct(n, w);
    assert n * w * u == n * (w * u);
    QuotientBelow(p, w * u, n);
  }

  lemma QuotientBelow(p: nat, m: nat, n: nat)
    requires m > 0
    ensures p / m < n <==> p < n * m
  {
    var q, r := p / m, p % m;
    assert p == q * m + r;
    if q < n { ProductGrows(q, n, m); } else { ProductMonotone(n, q, m); }
  }
}
