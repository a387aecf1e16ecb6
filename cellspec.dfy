/** Value-level specification of the two operations of a map cell: the
    weighted draw of `collapse` and the arc-consistency filter of `constrain`.
    The Tile methods in module Board are proved to compute exactly these. */
module CellSpec {
  import opened TileRules

  /** A (tile index, x, y) combination already tried at a cell during one step. */
  type Attempt = (int, int, int)

  predicate NoDup<T(==)>(s: seq<T>)
  {
    forall i, j :: 0 <= i < j < |s| ==> s[i] != s[j]
  }

  // ---------------------------------------------------------------------------
  // Weighted draw

  /** The domain entries whose (tile, x, y) combination is not yet in the tried list,
      in domain order. */
  function Untried(dom: seq<TileId>, tried: seq<Attempt>, x: int, y: int): seq<TileId>
  {
    if dom == [] then []
    else
      var init := Untried(dom[..|dom| - 1], tried, x, y);
      var t := dom[|dom| - 1];
      if (t, x, y) in tried then init else init + [t]
  }

  /** A tile is an untried candidate exactly when it is in the domain and its
      combination with (x, y) has not been tried. */
  lemma {:induction false} UntriedMembers(dom: seq<TileId>, tried: seq<Attempt>, x: int, y: int)
    ensures forall t :: t in Untried(dom, tried, x, y) <==> t in dom && (t, x, y) !in tried
  {
    if dom != [] {
      UntriedMembers(dom[..|dom| - 1], tried, x, y);
      assert dom == dom[..|dom| - 1] + [dom[|dom| - 1]];
    }
  }

  /** The weights of the candidates, in candidate order. */
  function WeightsOf(c: seq<TileId>): seq<int>
  {
    seq(|c|, i requires 0 <= i < |c| => Weight(c[i]))
  }

  /** The sum of a list of integers. */
  function Sum(ws: seq<int>): int
  {
    if ws == [] then 0 else ws[0] + Sum(ws[1..])
  }

  /** The total weight of a list of candidates: never negative, because no weight is. */
  function TotalWeight(c: seq<TileId>): (w: int)
    ensures w >= 0
    ensures c != [] ==> w >= Weight(c[0])
  {
    if c == [] then 0 else Weight(c[0]) + TotalWeight(c[1..])
  }

  /** Summing the list of candidate weights gives the candidates' total weight. */
  lemma {:induction false} SumOfWeights(c: seq<TileId>)
    ensures Sum(WeightsOf(c)) == TotalWeight(c)
  {
    if c != [] {
      assert WeightsOf(c)[1..] == WeightsOf(c[1..]);
      SumOfWeights(c[1..]);
    }
  }

  /** The weighted draw: subtract the candidates' weights from r in order and take
      the first candidate at which the remainder drops to zero or below; when no
      candidate does (in particular when there are none), the draw yields tile 0. */
  function Pick(c: seq<TileId>, r: int): TileId
  {
    if c == [] then 0
    else if Weight(c[0]) >= r then c[0]
    else Pick(c[1..], r - Weight(c[0]))
  }

  /** The weight of the candidates up to and including index j. */
  function PrefixWeight(c: seq<TileId>, j: nat): int
    requires j < |c|
  {
    TotalWeight(c[..j + 1])
  }

  /** The draw yields the first candidate whose prefix weight sum reaches r. */
  lemma {:induction false} PickIsFirstReaching(c: seq<TileId>, r: int, k: nat)
    requires k < |c|
    requires PrefixWeight(c, k) >= r
    requires forall j :: 0 <= j < k ==> PrefixWeight(c, j) < r
    ensures Pick(c, r) == c[k]
  {
    var w := Weight(c[0]);
    assert c[..1][1..] == [];
    assert TotalWeight(c[..1]) == w + TotalWeight([]);
    assert PrefixWeight(c, 0) == w;
    if k > 0 {
      forall j | 0 <= j < k
        ensures PrefixWeight(c[1..], j) == PrefixWeight(c, j + 1) - w
      {
        assert c[..j + 2][1..] == c[1..][..j + 1];
      }
      assert PrefixWeight(c[1..], k - 1) >= r - w;
      assert c[1..][k - 1] == c[k];
      PickIsFirstReaching(c[1..], r - w, k - 1);
    }
  }

  /** When r does not exceed the total weight, the draw yields one of the candidates
      (so the fallback tile 0 is never taken when there is a candidate). */
  lemma {:induction false} PickInCandidates(c: seq<TileId>, r: int)
    requires c != []
    requires r <= TotalWeight(c)
    ensures Pick(c, r) in c
  {
    if Weight(c[0]) < r {
      PickInCandidates(c[1..], r - Weight(c[0]));
    }
  }

  /** The range a draw value may take: [0, total), or 0 when the total is 0. */
  predicate DrawInRange(c: seq<TileId>, r: int)
  {
    var total := TotalWeight(c);
    (0 <= r < total) || (total == 0 && r == 0)
  }

  /** A draw in range over a non-empty candidate list yields a tile of the domain
      that has not been tried at this position. */
  lemma CollapseChoosesUntried(dom: seq<TileId>, tried: seq<Attempt>, x: int, y: int, r: int)
    requires Untried(dom, tried, x, y) != []
    requires DrawInRange(Untried(dom, tried, x, y), r)
    ensures Pick(Untried(dom, tried, x, y), r) in dom
    ensures (Pick(Untried(dom, tried, x, y), r), x, y) !in tried
  {
    PickInCandidates(Untried(dom, tried, x, y), r);
    UntriedMembers(dom, tried, x, y);
  }

  /** When every domain entry has already been tried here, the draw falls through
      and yields tile 0, whether or not 0 is in the domain. */
  lemma AllTriedFallsBackToZero(dom: seq<TileId>, tried: seq<Attempt>, x: int, y: int, r: int)
    requires forall t :: t in dom ==> (t, x, y) in tried
    ensures Untried(dom, tried, x, y) == []
    ensures Pick(Untried(dom, tried, x, y), r) == 0
  {
    UntriedMembers(dom, tried, x, y);
    if Untried(dom, tried, x, y) != [] {
      assert Untried(dom, tried, x, y)[0] in Untried(dom, tried, x, y);
    }
  }

  // ---------------------------------------------------------------------------
  // Arc-consistency filter

  /** Tile t, on the far side of offset d, has a compatible tile in the neighbour's domain. */
  predicate Supported(t: TileId, nbrs: seq<TileId>, d: Offset)
  {
    exists n :: n in nbrs && Compatible(t, n, d)
  }

  /** One pass of the inner loop of `constrain`: every domain entry compatible with
      neighbour tile n and not yet safe is appended to the safe list. */
  function ScanRow(dom: seq<TileId>, n: TileId, d: Offset, safe: seq<TileId>): seq<TileId>
    decreases |dom|
  {
    if dom == [] then safe
    else
      var s := ScanRow(dom[..|dom| - 1], n, d, safe);
      var t := dom[|dom| - 1];
      if Compatible(t, n, d) && t !in s then s + [t] else s
  }

  /** The safe list `constrain` builds: one ScanRow per neighbour tile, in the
      neighbour domain's order. */
  function Survivors(dom: seq<TileId>, nbrs: seq<TileId>, d: Offset): seq<TileId>
    decreases |nbrs|
  {
    if nbrs == [] then []
    else ScanRow(dom, nbrs[|nbrs| - 1], d, Survivors(dom, nbrs[..|nbrs| - 1], d))
  }

  /** A row pass only appends: the safe list it starts from stays a prefix. */
  lemma {:induction false} ScanRowPrefix(dom: seq<TileId>, n: TileId, d: Offset, safe: seq<TileId>)
    ensures |ScanRow(dom, n, d, safe)| >= |safe|
    ensures ScanRow(dom, n, d, safe)[..|safe|] == safe
    decreases |dom|
  {
    if dom != [] {
      ScanRowPrefix(dom[..|dom| - 1], n, d, safe);
    }
  }

  /** A row pass adds exactly the compatible domain entries that were missing. */
  lemma {:induction false} ScanRowMembers(dom: seq<TileId>, n: TileId, d: Offset, safe: seq<TileId>)
    ensures forall t :: t in ScanRow(dom, n, d, safe) <==> t in safe || (t in dom && Compatible(t, n, d))
    decreases |dom|
  {
    if dom != [] {
      var init := dom[..|dom| - 1];
      ScanRowMembers(init, n, d, safe);
      assert dom == init + [dom[|dom| - 1]];
    }
  }

  /** A row pass never adds an entry twice. */
  lemma {:induction false} ScanRowNoDup(dom: seq<TileId>, n: TileId, d: Offset, safe: seq<TileId>)
    requires NoDup(safe)
    ensures NoDup(ScanRow(dom, n, d, safe))
    decreases |dom|
  {
    if dom != [] {
      ScanRowNoDup(dom[..|dom| - 1], n, d, safe);
    }
  }

  /** The three facts above together. */
  lemma ScanRowFacts(dom: seq<TileId>, n: TileId, d: Offset, safe: seq<TileId>)
    ensures |ScanRow(dom, n, d, safe)| >= |safe|
    ensures ScanRow(dom, n, d, safe)[..|safe|] == safe
    ensures forall t :: t in ScanRow(dom, n, d, safe) <==> t in safe || (t in dom && Compatible(t, n, d))
    ensures NoDup(safe) ==> NoDup(ScanRow(dom, n, d, safe))
  {
    ScanRowPrefix(dom, n, d, safe);
    ScanRowMembers(dom, n, d, safe);
    if NoDup(safe) {
      ScanRowNoDup(dom, n, d, safe);
    }
  }

  /** Running a row pass over a + b is running it over a, then over b. */
  lemma {:induction false} ScanRowSplit(a: seq<TileId>, b: seq<TileId>, n: TileId, d: Offset, safe: seq<TileId>)
    ensures ScanRow(a + b, n, d, safe) == ScanRow(b, n, d, ScanRow(a, n, d, safe))
    decreases |b|
  {
    if b == [] {
      assert a + b == a;
    } else {
      var b' := b[..|b| - 1];
      assert (a + b)[..|a + b| - 1] == a + b';
      ScanRowSplit(a, b', n, d, safe);
    }
  }

  /** A row pass over entries that are all safe already changes nothing. */
  lemma {:induction false} ScanRowSaturated(b: seq<TileId>, n: TileId, d: Offset, safe: seq<TileId>)
    requires forall t :: t in b ==> t in safe
    ensures ScanRow(b, n, d, safe) == safe
    decreases |b|
  {
    if b != [] {
      ScanRowSaturated(b[..|b| - 1], n, d, safe);
      assert b[|b| - 1] in b;
    }
  }

  /** Once every domain entry is safe, the remaining neighbour tiles change nothing:
      this is why `constrain` may stop early. */
  lemma {:induction false} SurvivorsSaturated(dom: seq<TileId>, nbrs: seq<TileId>, d: Offset, k: nat, m: nat)
    requires k <= m <= |nbrs|
    requires forall t :: t in dom ==> t in Survivors(dom, nbrs[..k], d)
    ensures Survivors(dom, nbrs[..m], d) == Survivors(dom, nbrs[..k], d)
    decreases m
  {
    if m > k {
      SurvivorsSaturated(dom, nbrs, d, k, m - 1);
      assert nbrs[..m][..m - 1] == nbrs[..m - 1];
      ScanRowSaturated(dom, nbrs[m - 1], d, Survivors(dom, nbrs[..k], d));
    }
  }

  /** The new domain holds exactly the old entries that some neighbour tile supports,
      and holds each of them once. */
  lemma {:induction false} SurvivorsMembers(dom: seq<TileId>, nbrs: seq<TileId>, d: Offset)
    ensures forall t :: t in Survivors(dom, nbrs, d) <==> t in dom && Supported(t, nbrs, d)
    ensures NoDup(Survivors(dom, nbrs, d))
    decreases |nbrs|
  {
    if nbrs != [] {
      var init := nbrs[..|nbrs| - 1];
      var last := nbrs[|nbrs| - 1];
      SurvivorsMembers(dom, init, d);
      ScanRowFacts(dom, last, d, Survivors(dom, init, d));
      assert nbrs == init + [last];
      forall t | t in dom && Supported(t, nbrs, d)
        ensures t in Survivors(dom, nbrs, d)
      {
        var n :| n in nbrs && Compatible(t, n, d);
        if n != last {
          assert n in init;
        }
      }
    }
  }

  /** The elements of a duplicate-free list are as many as its length. */
  lemma {:induction false} NoDupCard<T>(s: seq<T>)
    requires NoDup(s)
    ensures |set x | x in s| == |s|
  {
    if s != [] {
      var init := s[..|s| - 1];
      NoDupCard(init);
      assert s == init + [s[|s| - 1]];
      assert (set x | x in s) == (set x | x in init) + {s[|s| - 1]};
    }
  }

  /** A duplicate-free list whose elements all occur in another duplicate-free list
      is no longer than it, and equally long only when it holds all of its elements. */
  lemma SubListCard<T>(a: seq<T>, b: seq<T>)
    requires NoDup(a) && NoDup(b)
    requires forall x :: x in a ==> x in b
    ensures |a| <= |b|
    ensures |a| == |b| ==> forall x :: x in b ==> x in a
  {
    var sa := set x | x in a;
    var sb := set x | x in b;
    NoDupCard(a);
    NoDupCard(b);
    assert sb == sa + (sb - sa);
    assert |sb| == |sa| + |sb - sa|;
    if |a| == |b| {
      assert sb - sa == {};
      forall x | x in b ensures x in a {
        assert x in sb;
      }
    }
  }

  /** Over a duplicate-free domain, the filter never grows it, and keeps its size
      exactly when every entry is supported. */
  lemma SurvivorsSize(dom: seq<TileId>, nbrs: seq<TileId>, d: Offset)
    requires NoDup(dom)
    ensures |Survivors(dom, nbrs, d)| <= |dom|
    ensures |Survivors(dom, nbrs, d)| == |dom| <==> forall t :: t in dom ==> Supported(t, nbrs, d)
  {
    var s := Survivors(dom, nbrs, d);
    SurvivorsMembers(dom, nbrs, d);
    SubListCard(s, dom);
    if forall t :: t in dom ==> Supported(t, nbrs, d) {
      SubListCard(dom, s);
    }
  }

  /** When the safe list reaches the size of the (duplicate-free) domain in the
      middle of row i, at domain index j, it already equals the full filter: the
      early exit of `constrain` computes the same list as the full scan. */
  lemma EarlyStop(dom: seq<TileId>, nbrs: seq<TileId>, d: Offset, i: nat, j: nat)
    requires NoDup(dom)
    requires i < |nbrs| && j < |dom|
    requires |ScanRow(dom[..j + 1], nbrs[i], d, Survivors(dom, nbrs[..i], d))| == |dom|
    ensures Survivors(dom, nbrs, d) == ScanRow(dom[..j + 1], nbrs[i], d, Survivors(dom, nbrs[..i], d))
  {
    var prev := Survivors(dom, nbrs[..i], d);
    var safe := ScanRow(dom[..j + 1], nbrs[i], d, prev);
    SurvivorsMembers(dom, nbrs[..i], d);
    ScanRowFacts(dom[..j + 1], nbrs[i], d, prev);
    assert forall t :: t in dom[..j + 1] ==> t in dom;
    SubListCard(safe, dom);
    assert dom == dom[..j + 1] + dom[j + 1..];
    ScanRowSplit(dom[..j + 1], dom[j + 1..], nbrs[i], d, prev);
    ScanRowSaturated(dom[j + 1..], nbrs[i], d, safe);
    assert nbrs[..i + 1][..i] == nbrs[..i];
    assert Survivors(dom, nbrs[..i + 1], d) == safe;
    SurvivorsSaturated(dom, nbrs, d, i + 1, |nbrs|);
    assert nbrs[..|nbrs|] == nbrs;
  }
}
