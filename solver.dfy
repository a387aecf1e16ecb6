/** The solver (waveFunctionCollapse): one call of Update performs one step of the
    wave function collapse — select a cell of lowest entropy, collapse it,
    propagate the constraint depth-first, commit a snapshot, and on a
    contradiction undo steps or restart — and, once every cell is collapsed,
    runs the elevation pass over the finished map. */
module Solver {
  import opened TileRules
  import opened CellSpec
  import opened Board
  import opened Elevation

  /** How often a state may be reverted to before it is skipped when undoing. */
  const RevertThresh := 1
  /** How many undos one attempt may make before the map restarts from scratch. */
  const RevertThreshOverall := 300
  /** How many steps a contradiction undoes. */
  const NumTimesUndo := 20

  /** The value UnityEngine.Random.Range(0, n) may return: a number in [0, n),
      or 0 when the range is empty. */
  predicate RangeDraw(n: int, v: int)
  {
    if n <= 0 then v == 0 else 0 <= v < n
  }

  /** Row-major order of positions, the order of the solver's scans. */
  predicate Before(p: Pos, q: Pos)
  {
    p.0 < q.0 || (p.0 == q.0 && p.1 < q.1)
  }

  // ---------------------------------------------------------------------------
  // Selection

  /** A cell the selection may pick: uncollapsed with at least one possible tile. */
  predicate Open(c: Cell)
  {
    !c.collapsed && |c.domain| > 0
  }

  /** lowest is the smallest entropy of an open cell, capped at NumTiles + 1 (the
      scan's starting value), which it is exactly when no open cell is lower. */
  ghost predicate IsLowest(g: Grid, lowest: int)
    reads g, TilesOf(g)
  {
    Square(g) && 0 < lowest <= NumTiles + 1 &&
    (forall i, j {:trigger g[i, j].Entropy()} | InBounds(i, j) && Open(g[i, j].Value()) :: lowest <= g[i, j].Entropy()) &&
    (lowest <= NumTiles ==> exists i, j {:trigger g[i, j]} | InBounds(i, j) :: Open(g[i, j].Value()) && g[i, j].Entropy() == lowest)
  }

  /** The lowest entropy is determined by the grid. */
  lemma LowestUnique(g: Grid, a: int, b: int)
    requires IsLowest(g, a) && IsLowest(g, b)
    ensures a == b
  {
    if a <= NumTiles {
      var i, j :| InBounds(i, j) && Open(g[i, j].Value()) && g[i, j].Entropy() == a;
      assert b <= a;
    }
    if b <= NumTiles {
      var i, j :| InBounds(i, j) && Open(g[i, j].Value()) && g[i, j].Entropy() == b;
      assert a <= b;
    }
  }

  /** A cell that ties for the selection: uncollapsed with entropy `lowest`. */
  predicate Tied(c: Cell, lowest: int)
  {
    !c.collapsed && |c.domain| == lowest
  }

  /** cands lists, in row-major order and once each, exactly the positions of the
      cells that tie for the selection. */
  ghost predicate IsTiedList(g: Grid, lowest: int, cands: seq<Pos>)
    reads g, TilesOf(g)
  {
    Square(g) &&
    (forall k | 0 <= k < |cands| :: InGrid(cands[k]) && Tied(g[cands[k].0, cands[k].1].Value(), lowest)) &&
    (forall k | 0 < k < |cands| :: Before(cands[k - 1], cands[k])) &&
    (forall i, j {:trigger g[i, j]} | InBounds(i, j) && Tied(g[i, j].Value(), lowest) :: (i, j) in cands)
  }

  /** In a list in row-major order, the first entry comes before every later one. */
  lemma {:induction false} RowMajorFirst(a: seq<Pos>, k: int)
    requires forall m | 0 < m < |a| :: Before(a[m - 1], a[m])
    requires 0 < k < |a|
    ensures Before(a[0], a[k])
  {
    if k > 1 {
      RowMajorFirst(a, k - 1);
    }
  }

  /** Past a common head, a later member of one row-major list is a later
      member of the other. */
  lemma TailMember(a: seq<Pos>, b: seq<Pos>, x: Pos)
    requires forall m | 0 < m < |a| :: Before(a[m - 1], a[m])
    requires forall y :: y in a <==> y in b
    requires |a| > 0 && |b| > 0 && a[0] == b[0] && x in a[1..]
    ensures x in b[1..]
  {
    var k :| 1 <= k < |a| && a[k] == x;
    RowMajorFirst(a, k);
    assert x in a;
    var m :| 0 <= m < |b| && b[m] == x;
    assert b[1..][m - 1] == x;
  }

  /** Two lists in strict row-major order with the same members are equal. */
  lemma {:induction false} RowMajorUnique(a: seq<Pos>, b: seq<Pos>)
    requires forall m | 0 < m < |a| :: Before(a[m - 1], a[m])
    requires forall m | 0 < m < |b| :: Before(b[m - 1], b[m])
    requires forall x :: x in a <==> x in b
    ensures a == b
  {
    if b != [] {
      assert b[0] in a;
    }
    if a == [] {
    } else {
      assert a[0] in b && b[0] in a;
      var i :| 0 <= i < |a| && a[i] == b[0];
      var j :| 0 <= j < |b| && b[j] == a[0];
      if i > 0 {
        RowMajorFirst(a, i);
        if j > 0 {
          RowMajorFirst(b, j);
        }
        assert false;
      }
      forall x
        ensures x in a[1..] <==> x in b[1..]
      {
        if x in a[1..] {
          TailMember(a, b, x);
        }
        if x in b[1..] {
          TailMember(b, a, x);
        }
      }
      RowMajorUnique(a[1..], b[1..]);
      assert a == [a[0]] + a[1..] && b == [b[0]] + b[1..];
    }
  }

  /** The tie-break list is determined by the grid and the lowest entropy. */
  lemma TiedListUnique(g: Grid, lowest: int, a: seq<Pos>, b: seq<Pos>)
    requires IsTiedList(g, lowest, a) && IsTiedList(g, lowest, b)
    ensures a == b
  {
    forall x
      ensures x in a <==> x in b
    {
      if x in a {
        var k :| 0 <= k < |a| && a[k] == x;
        assert InGrid(x) && Tied(g[x.0, x.1].Value(), lowest);
      }
      if x in b {
        var k :| 0 <= k < |b| && b[k] == x;
        assert InGrid(x) && Tied(g[x.0, x.1].Value(), lowest);
      }
    }
    RowMajorUnique(a, b);
  }

  /** The first scan of Update from (i, j) on, row by row, starting from acc:
      an uncollapsed cell of positive entropy below acc lowers it to that entropy. */
  ghost function ScanLowest(g: Grid, i: int, j: int, acc: int): int
    requires Square(g) && 0 <= i <= MapSize && 0 <= j <= MapSize
    reads g, TilesOf(g)
    decreases MapSize - i, MapSize - j
  {
    if i == MapSize then acc
    else if j == MapSize then ScanLowest(g, i + 1, 0, acc)
    else
      var e := g[i, j].Entropy();
      ScanLowest(g, i, j + 1, if e < acc && e > 0 && !g[i, j].collapsed then e else acc)
  }

  /** The second scan of Update from (i, j) on, row by row: every uncollapsed
      cell of entropy lowest is appended to acc. */
  ghost function ScanTied(g: Grid, lowest: int, i: int, j: int, acc: seq<Pos>): seq<Pos>
    requires Square(g) && 0 <= i <= MapSize && 0 <= j <= MapSize
    reads g, TilesOf(g)
    decreases MapSize - i, MapSize - j
  {
    if i == MapSize then acc
    else if j == MapSize then ScanTied(g, lowest, i + 1, 0, acc)
    else ScanTied(g, lowest, i, j + 1, if g[i, j].Entropy() == lowest && !g[i, j].collapsed then acc + [(i, j)] else acc)
  }

  /** The entropy the selection settles on. */
  ghost function Lowest(g: Grid): int
    requires Square(g)
    reads g, TilesOf(g)
  {
    ScanLowest(g, 0, 0, NumTiles + 1)
  }

  /** The cells the selection chooses among, in the order of the scan. */
  ghost function Selection(g: Grid): seq<Pos>
    requires Square(g)
    reads g, TilesOf(g)
  {
    ScanTied(g, Lowest(g), 0, 0, [])
  }

  /** A first scan resumed at (i, j), with acc the lowest entropy (or the cap)
      of the open cells before (i, j), ends with the lowest entropy of all. */
  lemma {:induction false} ScanLowestIsLowest(g: Grid, i: int, j: int, acc: int)
    requires Square(g) && 0 <= i <= MapSize && 0 <= j <= MapSize && 0 < acc <= NumTiles + 1
    requires forall a, b | InBounds(a, b) && Before((a, b), (i, j)) && Open(g[a, b].Value()) :: acc <= g[a, b].Entropy()
    requires acc <= NumTiles ==>
               exists a, b | InBounds(a, b) && Before((a, b), (i, j)) :: Open(g[a, b].Value()) && g[a, b].Entropy() == acc
    ensures IsLowest(g, ScanLowest(g, i, j, acc))
    decreases MapSize - i, MapSize - j
  {
    if i == MapSize {
    } else if j == MapSize {
      ScanLowestIsLowest(g, i + 1, 0, acc);
    } else {
      var e := g[i, j].Entropy();
      if e < acc && e > 0 && !g[i, j].collapsed {
        assert Open(g[i, j].Value()) && Before((i, j), (i, j + 1));
        ScanLowestIsLowest(g, i, j + 1, e);
      } else {
        ScanLowestIsLowest(g, i, j + 1, acc);
      }
    }
  }

  /** A second scan resumed at (i, j), with acc the row-major list of the tied
      cells before (i, j), ends with the list of all tied cells. */
  lemma {:induction false} ScanTiedIsTiedList(g: Grid, lowest: int, i: int, j: int, acc: seq<Pos>)
    requires Square(g) && 0 <= i <= MapSize && 0 <= j <= MapSize
    requires forall k | 0 <= k < |acc| ::
               InGrid(acc[k]) && Before(acc[k], (i, j)) && Tied(g[acc[k].0, acc[k].1].Value(), lowest)
    requires forall k | 0 < k < |acc| :: Before(acc[k - 1], acc[k])
    requires forall a, b | InBounds(a, b) && Before((a, b), (i, j)) && Tied(g[a, b].Value(), lowest) :: (a, b) in acc
    ensures IsTiedList(g, lowest, ScanTied(g, lowest, i, j, acc))
    decreases MapSize - i, MapSize - j
  {
    if i == MapSize {
    } else if j == MapSize {
      ScanTiedIsTiedList(g, lowest, i + 1, 0, acc);
    } else if g[i, j].Entropy() == lowest && !g[i, j].collapsed {
      var acc' := acc + [(i, j)];
      assert acc'[|acc|] == (i, j);
      ScanTiedIsTiedList(g, lowest, i, j + 1, acc');
    } else {
      ScanTiedIsTiedList(g, lowest, i, j + 1, acc);
    }
  }

  /** The selection's entropy and list are the ones IsLowest and IsTiedList
      describe, and no other entropy or list is. */
  lemma SelectionSpec(g: Grid, lowest: int, cands: seq<Pos>)
    requires Square(g)
    ensures IsLowest(g, Lowest(g)) && IsTiedList(g, Lowest(g), Selection(g))
    ensures IsLowest(g, lowest) && IsTiedList(g, lowest, cands) ==> lowest == Lowest(g) && cands == Selection(g)
  {
    ScanLowestIsLowest(g, 0, 0, NumTiles + 1);
    ScanTiedIsTiedList(g, Lowest(g), 0, 0, []);
    if IsLowest(g, lowest) && IsTiedList(g, lowest, cands) {
      LowestUnique(g, lowest, Lowest(g));
      TiedListUnique(g, lowest, cands, Selection(g));
    }
  }

  /** A duplicate-free domain holds at most NumTiles tiles. */
  lemma DomainBound(s: seq<TileId>)
    requires NoDup(s)
    ensures |s| <= NumTiles
  {
    forall t | t in s
      ensures t in AllTiles()
    {
      assert AllTiles()[t] == t;
    }
    SubListCard(s, AllTiles());
  }

  /** Every listed cell is open and of minimal entropy among open cells, and the
      list is empty exactly when no cell is open. */
  lemma TiedListIsMinimal(g: Grid, lowest: int, cands: seq<Pos>)
    requires WellFormed(g) && IsLowest(g, lowest) && IsTiedList(g, lowest, cands)
    ensures forall k | 0 <= k < |cands| :: Open(g[cands[k].0, cands[k].1].Value())
    ensures forall k, i, j | 0 <= k < |cands| && InBounds(i, j) && Open(g[i, j].Value()) ::
              g[cands[k].0, cands[k].1].Entropy() <= g[i, j].Entropy()
    ensures cands == [] <==> forall i, j | InBounds(i, j) :: !Open(g[i, j].Value())
  {
    forall i, j | InBounds(i, j)
      ensures g[i, j].Entropy() <= NumTiles
    {
      assert g[i, j].Valid();
      DomainBound(g[i, j].possibleTiles);
    }
    if |cands| > 0 {
      assert Tied(g[cands[0].0, cands[0].1].Value(), lowest);
    }
    if lowest <= NumTiles {
      var i, j :| InBounds(i, j) && Open(g[i, j].Value()) && g[i, j].Entropy() == lowest;
      assert (i, j) in cands;
    }
  }

  /** Whether every cell is collapsed. */
  ghost predicate AllCollapsed(g: Grid)
    reads g, TilesOf(g)
  {
    Square(g) && forall i, j {:trigger g[i, j]} | InBounds(i, j) :: g[i, j].collapsed
  }

  // ---------------------------------------------------------------------------
  // Propagation

  /** The domain of every position. */
  ghost function Domains(g: Grid): map<Pos, seq<TileId>>
    requires Square(g)
    reads g, TilesOf(g)`possibleTiles
  {
    map p | p in Cells() :: g[p.0, p.1].possibleTiles
  }

  /** Domain a lists only tiles of domain b, and no more entries than b. */
  predicate Within(a: seq<TileId>, b: seq<TileId>)
  {
    (forall t | t in a :: t in b) && |a| <= |b|
  }

  /** No domain grew from before to after. */
  ghost predicate Shrunk(before: map<Pos, seq<TileId>>, after: map<Pos, seq<TileId>>)
  {
    after.Keys == before.Keys && forall p | p in before :: Within(after[p], before[p])
  }

  /** The domain at p lost an entry, or is empty: what makes propagation push p. */
  ghost predicate Narrowed(before: map<Pos, seq<TileId>>, after: map<Pos, seq<TileId>>, p: Pos)
    requires p in before && p in after
  {
    |after[p]| < |before[p]| || after[p] == []
  }

  /** Every entry of the domain at offset d from c has a compatible tile in the
      domain of c: the arc from c to that neighbour is consistent. */
  ghost predicate Arc(doms: map<Pos, seq<TileId>>, c: Pos, d: Offset)
  {
    c in doms && Step(c, d) in doms ==>
      forall t | t in doms[Step(c, d)] :: Supported(t, doms[c], d)
  }

  /** The sum of the entropies of the listed positions: the measure that
      propagation decreases. */
  function TotalEntropy(doms: map<Pos, seq<TileId>>, ps: seq<Pos>): nat
  {
    if ps == [] then 0
    else (if ps[0] in doms then |doms[ps[0]]| else 0) + TotalEntropy(doms, ps[1..])
  }

  /** Replacing one domain by a list no longer than it does not raise the total
      entropy, and lowers it when the list is shorter and the position is counted. */
  lemma {:induction false} EntropyShrinks(doms: map<Pos, seq<TileId>>, q: Pos, s: seq<TileId>, ps: seq<Pos>)
    requires q in doms && |s| <= |doms[q]|
    ensures TotalEntropy(doms[q := s], ps) <= TotalEntropy(doms, ps)
    ensures q in ps && |s| < |doms[q]| ==> TotalEntropy(doms[q := s], ps) < TotalEntropy(doms, ps)
  {
    if ps != [] {
      EntropyShrinks(doms, q, s, ps[1..]);
      if q in ps && ps[0] != q {
        var k :| 0 <= k < |ps| && ps[k] == q;
        assert ps[1..][k - 1] == q;
      }
    }
  }

  /** The filter keeps a domain within itself. */
  lemma SurvivorsWithin(dom: seq<TileId>, nbrs: seq<TileId>, d: Offset)
    requires NoDup(dom)
    ensures Within(Survivors(dom, nbrs, d), dom) && NoDup(Survivors(dom, nbrs, d))
    ensures forall t | t in Survivors(dom, nbrs, d) :: Supported(t, nbrs, d)
  {
    SurvivorsMembers(dom, nbrs, d);
    SurvivorsSize(dom, nbrs, d);
  }

  /** A supporting tile found in a domain is still found in any domain holding
      all of that domain's tiles. */
  lemma SupportedGrows(t: TileId, a: seq<TileId>, b: seq<TileId>, d: Offset)
    requires Supported(t, a, d)
    requires forall x | x in a :: x in b
    ensures Supported(t, b, d)
  {
    var n :| n in a && Compatible(t, n, d);
    assert n in b;
  }

  /** All four arcs out of c are consistent. */
  ghost predicate Settled(doms: map<Pos, seq<TileId>>, c: Pos)
  {
    Arc(doms, c, (1, 0)) && Arc(doms, c, (-1, 0)) && Arc(doms, c, (0, 1)) && Arc(doms, c, (0, -1))
  }

  /** An arc stays consistent when one domain is narrowed, as long as the domain
      at the arc's origin, if it is the one narrowed, keeps all its tiles. */
  lemma ArcAfter(doms: map<Pos, seq<TileId>>, n: Pos, s: seq<TileId>, q: Pos, d: Offset)
    requires IsUnit(d) && n in doms && Arc(doms, q, d)
    requires forall t | t in s :: t in doms[n]
    requires q == n ==> forall t | t in doms[n] :: t in s
    ensures Arc(doms[n := s], q, d)
  {
    var after := doms[n := s];
    if q in after && Step(q, d) in after {
      forall t | t in after[Step(q, d)]
        ensures Supported(t, after[q], d)
      {
        if q == n {
          SupportedGrows(t, doms[q], s, d);
        }
      }
    }
  }

  lemma SettledAfter(doms: map<Pos, seq<TileId>>, n: Pos, s: seq<TileId>, q: Pos)
    requires n in doms && Settled(doms, q)
    requires forall t | t in s :: t in doms[n]
    requires q == n ==> forall t | t in doms[n] :: t in s
    ensures Settled(doms[n := s], q)
  {
    ArcAfter(doms, n, s, q, (1, 0));
    ArcAfter(doms, n, s, q, (-1, 0));
    ArcAfter(doms, n, s, q, (0, 1));
    ArcAfter(doms, n, s, q, (0, -1));
  }

  /** ds lists, once each, exactly the unit offsets that lead from c to a
      position of the map. */
  ghost predicate Around(c: Pos, ds: seq<Offset>)
  {
    (forall k | 0 <= k < |ds| :: IsUnit(ds[k]) && InGrid(Step(c, ds[k]))) &&
    (forall a, b | 0 <= a < b < |ds| :: ds[a] != ds[b]) &&
    (forall d | IsUnit(d) && InGrid(Step(c, d)) :: d in ds)
  }

  /** The offsets Directions gives for the tile at c are exactly those leading
      from c to a position of the map, each once. */
  lemma DirectionsAround(t: Tile, c: Pos)
    requires InGrid(c) && t.x == c.0 && t.y == c.1
    ensures Around(c, t.Directions(MapSize))
  {
    var ds := t.Directions(MapSize);
    t.DirectionsOrdered(MapSize);
    forall a, b | 0 <= a < b < |ds|
      ensures ds[a] != ds[b]
    {
      assert Rank(ds[a]) < Rank(ds[b]);
    }
  }

  lemma CellsInGrid()
    ensures forall p | p in Cells() :: InGrid(p)
  {
  }

  /** The domains of a well-formed grid are duplicate-free and keyed by the
      positions of the map. */
  lemma DomainsFacts(g: Grid)
    requires WellFormed(g)
    ensures forall p | p in Domains(g) :: InGrid(p) && NoDup(Domains(g)[p])
    ensures forall p | InGrid(p) :: p in Domains(g)
  {
    CellsInGrid();
    forall p | InGrid(p)
      ensures p in Domains(g)
    {
      InCells(p);
    }
  }

  /** The total entropy did not rise, and fell if anything was pushed. */
  ghost predicate EntropyFell(din: map<Pos, seq<TileId>>, doms: map<Pos, seq<TileId>>, stack0: seq<Pos>, stack: seq<Pos>)
  {
    TotalEntropy(doms, Cells()) <= TotalEntropy(din, Cells()) &&
    (TotalEntropy(doms, Cells()) < TotalEntropy(din, Cells()) || stack == stack0)
  }

  /** Exactly the narrowed positions were pushed on top of stack0. */
  ghost predicate PushedNarrowed(din: map<Pos, seq<TileId>>, doms: map<Pos, seq<TileId>>, stack0: seq<Pos>, stack: seq<Pos>)
    requires |stack0| <= |stack| && din.Keys == doms.Keys
  {
    (forall k | |stack0| <= k < |stack| :: stack[k] in din && Narrowed(din, doms, stack[k])) &&
    (forall p | p in din && |doms[p]| < |din[p]| :: p in stack[|stack0|..])
  }

  /** The arcs from c through the first i offsets of ds are consistent. */
  ghost predicate ArcsFrom(doms: map<Pos, seq<TileId>>, c: Pos, ds: seq<Offset>, i: int)
    requires 0 <= i <= |ds|
  {
    forall k | 0 <= k < i :: Arc(doms, c, ds[k])
  }

  /** Positions settled at the start and off the stack are still settled. */
  ghost predicate KeptSettled(din: map<Pos, seq<TileId>>, doms: map<Pos, seq<TileId>>, stack: seq<Pos>)
  {
    forall q | Settled(din, q) && q !in stack :: Settled(doms, q)
  }

  /** No domain that was non-empty became empty. */
  ghost predicate NoneEmptied(din: map<Pos, seq<TileId>>, doms: map<Pos, seq<TileId>>)
    requires din.Keys == doms.Keys
  {
    forall p | p in din && din[p] != [] :: doms[p] != []
  }

  /** Some domain is empty: the contradiction propagation stops at. */
  ghost predicate SomeEmptied(doms: map<Pos, seq<TileId>>)
  {
    exists p | p in doms :: doms[p] == []
  }

  /** Propagation pushed, on top of stack0, a position whose domain is empty. */
  ghost predicate Aborted(doms: map<Pos, seq<TileId>>, stack0: seq<Pos>, stack: seq<Pos>)
  {
    |stack0| < |stack| && stack[..|stack0|] == stack0 &&
    stack[|stack| - 1] in doms && doms[stack[|stack| - 1]] == []
  }

  /** The state of propagation while the neighbours of c are constrained one by
      one, from domains din and stack stack0 (c already popped) to domains doms and
      stack `stack` after the first i offsets of ds: no domain grew, c's domain is
      unchanged, the total entropy did not rise and fell if anything was pushed,
      exactly the narrowed positions were pushed, the arcs from c to the neighbours
      handled so far are consistent, settled positions off the stack stay settled,
      and no domain was emptied. */
  ghost predicate Scanning(din: map<Pos, seq<TileId>>, doms: map<Pos, seq<TileId>>, c: Pos, ds: seq<Offset>,
                           i: int, stack0: seq<Pos>, stack: seq<Pos>)
  {
    0 <= i <= |ds| && c in din &&
    |stack0| <= |stack| && stack[..|stack0|] == stack0 &&
    Shrunk(din, doms) && doms[c] == din[c] &&
    EntropyFell(din, doms, stack0, stack) &&
    PushedNarrowed(din, doms, stack0, stack) &&
    ArcsFrom(doms, c, ds, i) &&
    KeptSettled(din, doms, stack) &&
    NoneEmptied(din, doms)
  }

  /** The parts of one constrain step: the neighbour n of c has its domain
      replaced by s, a duplicate-free part of it, and is pushed or not. */
  lemma StepShrunk(din: map<Pos, seq<TileId>>, doms: map<Pos, seq<TileId>>, c: Pos, n: Pos, s: seq<TileId>)
    requires Shrunk(din, doms) && n in doms && c in doms && n != c && doms[c] == din[c]
    requires Within(s, doms[n])
    ensures Shrunk(din, doms[n := s]) && doms[n := s][c] == din[c]
  {
  }

  lemma StepEntropy(din: map<Pos, seq<TileId>>, doms: map<Pos, seq<TileId>>, n: Pos, s: seq<TileId>,
                    stack0: seq<Pos>, stack: seq<Pos>, pushed: bool)
    requires EntropyFell(din, doms, stack0, stack) && n in doms && InGrid(n)
    requires |s| <= |doms[n]| && (pushed ==> |s| < |doms[n]|)
    ensures EntropyFell(din, doms[n := s], stack0, if pushed then stack + [n] else stack)
  {
    EntropyShrinks(doms, n, s, Cells());
    InCells(n);
  }

  lemma StepPushed(din: map<Pos, seq<TileId>>, doms: map<Pos, seq<TileId>>, n: Pos, s: seq<TileId>,
                   stack0: seq<Pos>, stack: seq<Pos>, pushed: bool)
    requires |stack0| <= |stack| && Shrunk(din, doms) && n in doms
    requires PushedNarrowed(din, doms, stack0, stack)
    requires |s| <= |doms[n]| && (pushed ==> |s| < |doms[n]|) && (!pushed ==> |s| == |doms[n]|)
    ensures PushedNarrowed(din, doms[n := s], stack0, if pushed then stack + [n] else stack)
  {
    var after := doms[n := s];
    var stack' := if pushed then stack + [n] else stack;
    forall k | |stack0| <= k < |stack'|
      ensures stack'[k] in din && Narrowed(din, after, stack'[k])
    {
      if k < |stack| {
        assert stack'[k] == stack[k];
      }
    }
    forall p | p in din && |after[p]| < |din[p]|
      ensures p in stack'[|stack0|..]
    {
      if p != n || !pushed {
        assert p in stack[|stack0|..];
        assert stack[|stack0|..] <= stack'[|stack0|..];
      } else {
        assert stack'[|stack'| - 1] == n;
      }
    }
  }

  lemma StepArcs(doms: map<Pos, seq<TileId>>, c: Pos, ds: seq<Offset>, i: int)
    requires Around(c, ds) && 0 <= i < |ds| && ArcsFrom(doms, c, ds, i)
    requires Step(c, ds[i]) in doms && c in doms
    ensures ArcsFrom(doms[Step(c, ds[i]) := Survivors(doms[Step(c, ds[i])], doms[c], ds[i])], c, ds, i + 1)
  {
    var n := Step(c, ds[i]);
    var s := Survivors(doms[n], doms[c], ds[i]);
    SurvivorsMembers(doms[n], doms[c], ds[i]);
    forall k | 0 <= k < i + 1
      ensures Arc(doms[n := s], c, ds[k])
    {
      if k < i {
        assert ds[k] != ds[i];
        assert Step(c, ds[k]) != n;
      }
    }
  }

  lemma StepSettled(din: map<Pos, seq<TileId>>, doms: map<Pos, seq<TileId>>, n: Pos, s: seq<TileId>,
                    stack: seq<Pos>, pushed: bool)
    requires KeptSettled(din, doms, stack) && n in doms
    requires forall t | t in s :: t in doms[n]
    requires !pushed ==> forall t | t in doms[n] :: t in s
    ensures KeptSettled(din, doms[n := s], if pushed then stack + [n] else stack)
  {
    var stack' := if pushed then stack + [n] else stack;
    forall q | Settled(din, q) && q !in stack'
      ensures Settled(doms[n := s], q)
    {
      assert q !in stack by {
        assert stack <= stack';
      }
      SettledAfter(doms, n, s, q);
    }
  }

  /** Constraining the neighbour at offset ds[i] keeps the scanning state, unless
      it pushes a position whose domain is empty, which aborts propagation. */
  lemma ConstrainStep(din: map<Pos, seq<TileId>>, doms: map<Pos, seq<TileId>>, c: Pos, ds: seq<Offset>,
                      i: int, stack0: seq<Pos>, stack: seq<Pos>, constrained: bool)
    requires Scanning(din, doms, c, ds, i, stack0, stack) && i < |ds| && Around(c, ds)
    requires forall p | p in doms :: NoDup(doms[p])
    requires Step(c, ds[i]) in doms
    requires !constrained <==>
               |doms[Step(c, ds[i])]| > 0 &&
               |Survivors(doms[Step(c, ds[i])], doms[c], ds[i])| == |doms[Step(c, ds[i])]|
    requires !(constrained && Survivors(doms[Step(c, ds[i])], doms[c], ds[i]) == [])
    ensures Scanning(din, doms[Step(c, ds[i]) := Survivors(doms[Step(c, ds[i])], doms[c], ds[i])], c, ds, i + 1,
                     stack0, if constrained then stack + [Step(c, ds[i])] else stack)
  {
    var n := Step(c, ds[i]);
    var s := Survivors(doms[n], doms[c], ds[i]);
    var stack' := if constrained then stack + [n] else stack;
    SurvivorsWithin(doms[n], doms[c], ds[i]);
    if !constrained {
      SubListCard(s, doms[n]);
    }
    StepShrunk(din, doms, c, n, s);
    StepEntropy(din, doms, n, s, stack0, stack, constrained);
    StepPushed(din, doms, n, s, stack0, stack, constrained);
    StepArcs(doms, c, ds, i);
    StepSettled(din, doms, n, s, stack, constrained);
    assert stack'[..|stack0|] == stack0;
  }

  /** Once every arc from c to a neighbour listed in ds is consistent, c is settled. */
  lemma SettledFromArcs(doms: map<Pos, seq<TileId>>, c: Pos, ds: seq<Offset>)
    requires Around(c, ds) && ArcsFrom(doms, c, ds, |ds|)
    requires forall p | p in doms :: InGrid(p)
    ensures Settled(doms, c)
  {
    forall d | IsUnit(d) && InGrid(Step(c, d))
      ensures Arc(doms, c, d)
    {
      var k :| 0 <= k < |ds| && ds[k] == d;
    }
  }

  lemma ShrunkTrans(a: map<Pos, seq<TileId>>, b: map<Pos, seq<TileId>>, c: map<Pos, seq<TileId>>)
    requires Shrunk(a, b) && Shrunk(b, c)
    ensures Shrunk(a, c)
  {
  }

  /** The state of propagation at the head of its loop, from domains d0 at the
      start to domains doms now: no domain grew and none was emptied, the start
      position and every narrowed position are on the stack or done, and every
      done position off the stack is settled. */
  ghost predicate Propagating(d0: map<Pos, seq<TileId>>, doms: map<Pos, seq<TileId>>, start: Pos,
                              stack: seq<Pos>, done: set<Pos>)
  {
    Shrunk(d0, doms) && NoneEmptied(d0, doms) &&
    (start in stack || start in done) &&
    (forall p | p in d0 && |doms[p]| < |d0[p]| :: p in stack || p in done) &&
    (forall q | q in done && q !in stack :: Settled(doms, q))
  }

  /** Popping c and constraining its neighbours keeps the propagation state. */
  lemma PropagateStep(d0: map<Pos, seq<TileId>>, din: map<Pos, seq<TileId>>, doms: map<Pos, seq<TileId>>,
                      start: Pos, popped: seq<Pos>, rest: seq<Pos>, c: Pos, stack: seq<Pos>, done: set<Pos>)
    requires Propagating(d0, din, start, popped, done)
    requires |popped| > 0 && rest == popped[..|popped| - 1] && c == popped[|popped| - 1]
    requires Shrunk(din, doms) && NoneEmptied(din, doms) && Settled(doms, c)
    requires |rest| <= |stack| && stack[..|rest|] == rest
    requires PushedNarrowed(din, doms, rest, stack) && KeptSettled(din, doms, stack)
    ensures Propagating(d0, doms, start, stack, done + {c})
  {
    assert popped == rest + [c];
    ShrunkTrans(d0, din, doms);
    assert forall p | p in rest :: p in stack by {
      assert rest <= stack;
    }
    forall p | p in d0 && |doms[p]| < |d0[p]|
      ensures p in stack || p in done + {c}
    {
      if |doms[p]| < |din[p]| {
        assert p in stack[|rest|..];
      } else {
        assert p in rest + [c] || p in done;
      }
    }
    forall q | q in done + {c} && q !in stack
      ensures Settled(doms, q)
    {
      if q != c {
        assert q !in rest + [c];
      }
    }
  }

  // ---------------------------------------------------------------------------
  // Initial state

  /** Fills the grid with new tiles, the tile at (i, j) knowing its position. */
  method ResetTiles(g: Grid)
    requires Square(g)
    modifies g
    ensures WellFormed(g)
    ensures forall i, j | InBounds(i, j) :: fresh(g[i, j]) && g[i, j].Value() == FreshCell(i, j)
  {
    var i := 0;
    while i < MapSize
      invariant 0 <= i <= MapSize
      invariant forall a, b | 0 <= a < i && 0 <= b < MapSize ::
                  fresh(g[a, b]) && g[a, b].Valid() && g[a, b].Value() == FreshCell(a, b)
    {
      var j := 0;
      while j < MapSize
        invariant 0 <= j <= MapSize
        invariant forall a, b | 0 <= a < i && 0 <= b < MapSize ::
                    fresh(g[a, b]) && g[a, b].Valid() && g[a, b].Value() == FreshCell(a, b)
        invariant forall b | 0 <= b < j ::
                    fresh(g[i, b]) && g[i, b].Valid() && g[i, b].Value() == FreshCell(i, b)
      {
        g[i, j] := new Tile(i, j);
        j := j + 1;
      }
      i := i + 1;
    }
  }

  /** The cell values of a map of new tiles. */
  function FreshCells(): (cells: seq<seq<Cell>>)
    ensures GoodCells(cells)
  {
    seq(MapSize, i => seq(MapSize, j => FreshCell(i, j)))
  }

  /** A grid of new tiles holds the cell values of FreshCells. */
  lemma FreshMatch(g: Grid, cells: seq<seq<Cell>>)
    requires Matches(g, cells)
    requires forall i, j | InBounds(i, j) :: g[i, j].Value() == FreshCell(i, j)
    ensures cells == FreshCells()
  {
    assert forall i | 0 <= i < MapSize :: cells[i] == FreshCells()[i];
  }

  // ---------------------------------------------------------------------------
  // Undo

  /** The placements of the snapshots above the first m of the history, in the
      order undoing pops them: top first. */
  function Popped(h: seq<Snapshot>, m: int): seq<Handle>
    requires 0 <= m <= |h|
  {
    seq(|h| - m, k requires 0 <= k < |h| - m => h[|h| - 1 - k].placed)
  }

  /** s in reverse order. */
  function Reverse<T>(s: seq<T>): seq<T>
  {
    if s == [] then [] else Reverse(s[1..]) + [s[0]]
  }

  /** The placements recorded in the snapshots of h, bottom first. */
  function Placements(h: seq<Snapshot>): seq<Handle>
  {
    if h == [] then [] else [h[0].placed] + Placements(h[1..])
  }

  /** Undoing down to height m disposes of the placements above m from the top
      down: the reverse of their order in the history. */
  lemma {:induction false} PoppedReversed(h: seq<Snapshot>, m: int)
    requires 0 <= m <= |h|
    ensures Popped(h, m) == Reverse(Placements(h[m..]))
    decreases |h| - m
  {
    if m < |h| {
      PoppedReversed(h, m + 1);
      PoppedOneMore(h, m + 1);
      assert h[m..][1..] == h[m + 1..];
    }
  }

  /** Undoing after a push disposes first of the pushed snapshot's placement,
      then of those of the snapshots below it. */
  lemma PoppedPush(h: seq<Snapshot>, h1: seq<Snapshot>, m: int)
    requires |h1| == |h| + 1 && h1[..|h|] == h && 0 <= m <= |h|
    ensures Popped(h1, m) == [h1[|h|].placed] + Popped(h, m)
  {
    assert forall k | 0 <= k < |h| :: h1[k] == h[k];
  }

  /** Popping one more snapshot adds its placement at the end. */
  lemma PoppedOneMore(h: seq<Snapshot>, m: int)
    requires 0 < m <= |h|
    ensures Popped(h, m - 1) == Popped(h, m) + [h[m - 1].placed]
  {
  }

  /** How many snapshots the first undo loop leaves: it pops NumTimesUndo of
      them, or all but the bottom one when there are not that many. */
  function AfterUndoSteps(n: int): int
  {
    if n - NumTimesUndo >= 1 then n - NumTimesUndo else 1
  }

  /** A grid holds one set of cell values only. */
  lemma MatchesUnique(g: Grid, a: seq<seq<Cell>>, b: seq<seq<Cell>>)
    requires Matches(g, a) && Matches(g, b)
    ensures a == b
  {
    forall i | 0 <= i < MapSize
      ensures a[i] == b[i]
    {
      assert forall j | 0 <= j < MapSize :: a[i][j] == g[i, j].Value() == b[i][j];
    }
  }

  /** c is an open cell of lowest entropy: the cells Update may collapse. */
  ghost predicate Candidate(g: Grid, c: Pos)
    reads g, TilesOf(g)
  {
    Square(g) && InGrid(c) && Open(g[c.0, c.1].Value()) &&
    forall i, j {:trigger g[i, j]} | InBounds(i, j) && Open(g[i, j].Value()) :: g[c.0, c.1].Entropy() <= g[i, j].Entropy()
  }

  /** The tile the weighted draw gives for domain dom at c, given the attempts
      already made from the current state and the random source draw. */
  ghost function Drawn(dom: seq<TileId>, tried: seq<Attempt>, c: Pos, draw: int -> int): TileId
  {
    var cands := Untried(dom, tried, c.0, c.1);
    Pick(cands, draw(TotalWeight(cands)))
  }

  /** Every cliff-edge tile (chosen tile at most 7) is marked raised. */
  ghost predicate EdgesRaised(v: map<Pos, TileId>, raised: set<Pos>)
  {
    forall p | p in v && v[p] <= 7 :: p in raised
  }

  /** What one call of Update did. */
  datatype StepResult =
    | Stuck                                          // no cell open: the source indexes an empty list
    | Contradicted(restarted: bool)                  // propagation emptied a domain; steps were undone
    | Collapsed(at: Pos, tile: TileId, finished: bool) // one cell collapsed and propagated
    | Raised                                         // the elevation pass ran over the finished map
    | RaiseFailed                                    // a cliff walk left the map: the source throws
    | Idle                                           // both phases are over

  /** After a collapse and a propagation that found no contradiction: no domain
      grew or emptied, and the collapsed cell and every narrowed cell are
      arc-consistent with their neighbours. */
  ghost predicate Consistent(before: map<Pos, seq<TileId>>, after: map<Pos, seq<TileId>>, c: Pos)
  {
    Shrunk(before, after) && NoneEmptied(before, after) && Settled(after, c) &&
    forall p | p in before && |after[p]| < |before[p]| :: Settled(after, p)
  }

  /** h is h0 with one snapshot pushed: a copy of the grid g with handle hd. */
  ghost predicate Pushed(h0: seq<Snapshot>, h: seq<Snapshot>, g: Grid, hd: Handle)
    reads g, TilesOf(g)
  {
    |h| == |h0| + 1 && h[..|h0|] == h0 && h[|h0|].placed == hd && Matches(g, h[|h0|].cells)
  }

  /** After an undo without restart, the history is a strict prefix of h0 still
      longer than NumTimesUndo, and the grid g is a copy of its top. */
  ghost predicate Undone(h0: seq<Snapshot>, h: seq<Snapshot>, g: Grid)
    reads g, TilesOf(g)
  {
    NumTimesUndo < |h| < |h0| && h == h0[..|h|] && Matches(g, h[|h| - 1].cells)
  }

  /** Every cell of g is a new tile. */
  ghost predicate Reset(g: Grid)
    reads g, TilesOf(g)
  {
    Square(g) && forall i, j {:trigger g[i, j]} | InBounds(i, j) :: g[i, j].Value() == FreshCell(i, j)
  }

  /** The revert counts of the snapshots of h, bottom first. */
  ghost function Reverts(h: seq<Snapshot>): seq<nat>
    reads h
  {
    seq(|h|, k reads h requires 0 <= k < |h| => h[k].numTimesReverted)
  }

  /** kept is the height at which the undo that answers a contradiction in a
      step that pushed a snapshot onto a history with revert counts r0 stops:
      inside that history, at or below where the first loop stops (it pops
      NumTimesUndo snapshots of the pushed history, or all but the bottom one),
      and exactly where the second loop, popping snapshots reverted to more than
      RevertThresh times while more than NumTimesUndo remain, stops. */
  ghost predicate StopsAt(r0: seq<nat>, kept: int)
  {
    1 <= kept <= |r0| && kept <= AfterUndoSteps(|r0| + 1) &&
    (kept == AfterUndoSteps(|r0| + 1) || kept >= NumTimesUndo) &&
    (forall m | kept <= m < AfterUndoSteps(|r0| + 1) :: r0[m] > RevertThresh) &&
    !(r0[kept - 1] > RevertThresh && kept > NumTimesUndo)
  }

  /** The revert counts r0 with the one at kept - 1 raised by one. */
  function RevertedOnce(r0: seq<nat>, kept: int): seq<nat>
    requires 1 <= kept <= |r0|
  {
    r0[kept - 1 := r0[kept - 1] + 1]
  }

  /** The history h and undo count u after the undo that answers a contradiction
      in a step that pushed a snapshot onto h0 stopped at height kept, from the
      undo count u0: the solver
      restarts when too few snapshots remain or too many undos were made, and
      otherwise keeps h0 up to kept and counts the pops. */
  ghost predicate UndoCounted(h0: seq<Snapshot>, u0: nat, kept: int, restarted: bool, h: seq<Snapshot>, u: nat)
    requires 1 <= kept <= |h0|
  {
    (restarted <==> kept <= NumTimesUndo || u0 + (|h0| + 1 - kept) > RevertThreshOverall) &&
    (!restarted ==> h == h0[..kept] && u == u0 + (|h0| + 1 - kept)) &&
    (restarted ==> u == 0 && |h| == 1 && h[0].cells == h0[kept - 1].cells && h[0].placed == NoObject)
  }

  /** Undo's outcome on the history h1, which pushed one snapshot with handle hd
      onto h, read as its outcome on h: the undo stops inside h, disposes of the
      pushed placement first and counts its pops on top of the pushed one. */
  lemma UndoAfterPush(h: seq<Snapshot>, h1: seq<Snapshot>, d0: seq<Handle>, u0: nat,
                      hd: Handle, kept: int, restarted: bool,
                      h2: seq<Snapshot>, d: seq<Handle>, u: nat)
    requires |h| >= 1 && |h1| == |h| + 1 && h1[..|h|] == h && h1[|h|].placed == hd
    requires 1 <= kept <= AfterUndoSteps(|h1|)
    requires d == d0 + Popped(h1, kept)
    requires restarted <==> kept <= NumTimesUndo || u0 + (|h1| - kept) > RevertThreshOverall
    requires !restarted ==> h2 == h1[..kept] && u == u0 + (|h1| - kept)
    requires restarted ==> u == 0 && |h2| == 1 && h2[0].cells == h1[kept - 1].cells && h2[0].placed == NoObject
    ensures kept <= |h| && forall k | 0 <= k < kept :: h1[k] == h[k]
    ensures d == d0 + [hd] + Popped(h, kept)
    ensures UndoCounted(h, u0, kept, restarted, h2, u)
  {
    assert forall k | 0 <= k < |h| :: h1[k] == h[k];
    PoppedPush(h, h1, kept);
    assert d == d0 + ([hd] + Popped(h, kept));
    assert d0 + ([hd] + Popped(h, kept)) == d0 + [hd] + Popped(h, kept);
    if !restarted {
      assert h1[..kept] == h[..kept];
    }
  }

  /** An undo after a push, without restart, goes back below the pushed
      snapshot and below the previous top, and disposes first of the object the
      pushed snapshot placed. */
  lemma UndoBelowPush(h: seq<Snapshot>, h1: seq<Snapshot>, kept: int)
    requires |h1| == |h| + 1 && h1[..|h|] == h
    requires 1 <= kept <= AfterUndoSteps(|h1|) && kept > NumTimesUndo
    ensures kept < |h| && h1[..kept] == h[..kept]
    ensures Popped(h1, kept)[0] == h1[|h|].placed
  {
    assert h1[..kept] == h1[..|h|][..kept];
  }

  /** One cell of the elevation pass: a cliff-edge tile (chosen tile at most 7)
      not yet marked raised has its cliff line found and raised. Afterwards the
      cell, if it is a cliff edge, is marked raised, unless the raise walk
      stepped off the map. */
  method RaiseCell(re: RaiseElevation, i: int, j: int) returns (walked: bool)
    requires Positioned(re.grid) && InBounds(i, j)
    modifies TilesOf(re.grid)`level, TilesOf(re.grid)`hasBeenRaised
    ensures Positioned(re.grid) && ChosenView(re.grid) == old(ChosenView(re.grid))
    ensures old(RaisedSet(re.grid)) <= RaisedSet(re.grid)
    ensures (i, j) in ChosenView(re.grid)
    ensures walked && ChosenView(re.grid)[(i, j)] <= 7 ==> (i, j) in RaisedSet(re.grid)
  {
    var g := re.grid;
    InCells((i, j));
    walked := true;
    if g[i, j].chosenTile <= 7 && !g[i, j].hasBeenRaised {
      var cliffLine := re.FindCliffLine(i, j);
      assert (i, j) in Members(cliffLine);
      var currentList, currentDirs;
      ghost var seeds;
      walked, currentList, currentDirs, seeds := re.RaiseTiles(cliffLine);
    }
  }

  // ---------------------------------------------------------------------------
  // The solver

  class WaveFunctionCollapse {
    /** The map: one tile per position. */
    var mapTileInfo: Grid
    /** The history of states, bottom first: the last entry is the top of the stack. */
    var changeHistory: seq<Snapshot>
    /** Steps undone since the last restart. */
    var numTimesUndone: nat
    /** Set once a step leaves every cell collapsed: the collapse is finished. */
    var isNetEntropyZero: bool
    /** Set once the elevation pass has run over the finished map. */
    var tilesAllRaised: bool
    /** The handles of the placements that undoing disposed of, in order. */
    var disposed: seq<Handle>

    /** The history is a non-empty stack of distinct, well-formed snapshots. */
    ghost predicate History()
      reads this
    {
      |changeHistory| >= 1 &&
      (forall k | 0 <= k < |changeHistory| :: changeHistory[k].Valid()) &&
      forall a, b | 0 <= a < b < |changeHistory| :: changeHistory[a] != changeHistory[b]
    }

    /** The map is a placed grid of duplicate-free domains, and the history is
        well formed. */
    ghost predicate Valid()
      reads this, mapTileInfo, TilesOf(mapTileInfo)`possibleTiles
    {
      WellFormed(mapTileInfo) && History()
    }

    /** Start: a map of new tiles, and a history holding one snapshot of it with
        no placement. */
    constructor ()
      ensures Valid() && fresh(mapTileInfo)
      ensures forall i, j | InBounds(i, j) :: fresh(mapTileInfo[i, j]) && mapTileInfo[i, j].Value() == FreshCell(i, j)
      ensures |changeHistory| == 1 && fresh(changeHistory[0])
      ensures changeHistory[0].cells == FreshCells()
      ensures changeHistory[0].placed == NoObject && changeHistory[0].numTimesReverted == 0
      ensures changeHistory[0].tried == []
      ensures numTimesUndone == 0 && !isNetEntropyZero && !tilesAllRaised && disposed == []
    {
      var filler := new Tile(0, 0);
      var g := new Tile[MapSize, MapSize]((i, j) => filler);
      ResetTiles(g);
      var s := new Snapshot(g, NoObject);
      FreshMatch(g, s.cells);
      mapTileInfo := g;
      changeHistory := [s];
      numTimesUndone := 0;
      isNetEntropyZero, tilesAllRaised := false, false;
      disposed := [];
    }

    /** Constrains the tile at n against the domain nbrs of its neighbour at
        offset -d, and reports whether propagation must push it. */
    method ConstrainAt(n: Pos, nbrs: seq<TileId>, d: Offset) returns (constrained: bool)
      requires WellFormed(mapTileInfo) && InGrid(n)
      modifies {mapTileInfo[n.0, n.1]}`possibleTiles
      ensures WellFormed(mapTileInfo) && n in old(Domains(mapTileInfo))
      ensures Domains(mapTileInfo) ==
                old(Domains(mapTileInfo))[n := Survivors(old(Domains(mapTileInfo))[n], nbrs, d)]
      ensures !constrained <==>
                (|old(Domains(mapTileInfo))[n]| > 0 && |Domains(mapTileInfo)[n]| == |old(Domains(mapTileInfo))[n]|)
    {
      InCells(n);
      var g := mapTileInfo;
      var tile := g[n.0, n.1];
      assert tile.Valid();
      constrained := tile.Constrain(nbrs, d);
      forall i, j | InBounds(i, j)
        ensures g[i, j].Valid()
      {
        if (i, j) != n {
          assert g[i, j] != tile;
          assert old(g[i, j].Valid());
        }
      }
      assert Domains(g) == old(Domains(g))[n := tile.possibleTiles];
    }

    /** One round of the inner loop of propagation: constrains the neighbour of c
        at offset ds[i] against c's domain, and pushes it when that narrowed it
        (or found it empty); aborts when the pushed neighbour has no tile left. */
    method ConstrainDirection(ghost din: map<Pos, seq<TileId>>, c: Pos, tile: Tile, ds: seq<Offset>, i: int,
                              ghost stack0: seq<Pos>, stack: seq<Pos>) returns (stack': seq<Pos>, abort: bool)
      requires WellFormed(mapTileInfo) && AllInGrid(stack) && InGrid(c) && tile == mapTileInfo[c.0, c.1]
      requires Around(c, ds) && 0 <= i < |ds|
      requires Scanning(din, Domains(mapTileInfo), c, ds, i, stack0, stack) && tile.possibleTiles == din[c]
      modifies TilesOf(mapTileInfo)`possibleTiles
      ensures WellFormed(mapTileInfo) && AllInGrid(stack') && tile.possibleTiles == din[c]
      ensures abort ==> Shrunk(din, Domains(mapTileInfo)) && Aborted(Domains(mapTileInfo), stack0, stack')
      ensures !abort ==> Scanning(din, Domains(mapTileInfo), c, ds, i + 1, stack0, stack')
    {
      var g := mapTileInfo;
      var n := Step(c, ds[i]);
      ghost var doms := Domains(g);
      DomainsFacts(g);
      InCells(n);
      InCells(c);
      ghost var s := Survivors(doms[n], doms[c], ds[i]);
      var constrained := ConstrainAt(n, tile.possibleTiles, ds[i]);
      assert Domains(g) == doms[n := s];
      assert g[n.0, n.1] != tile;
      stack', abort := stack, false;
      if constrained {
        stack' := stack' + [n];
        if g[n.0, n.1].Entropy() == 0 {
          abort := true;
          SurvivorsWithin(doms[n], doms[c], ds[i]);
          StepShrunk(din, doms, c, n, s);
          assert stack'[..|stack0|] == stack[..|stack0|];
          return;
        }
      }
      ConstrainStep(din, doms, c, ds, i, stack0, stack, constrained);
    }

    /** The inner loop of propagation: constrains every neighbour of c, in the
        order of Directions, against c's domain, pushing those it narrows (or
        finds empty), and aborts as soon as a pushed neighbour has no tile left. */
    method ConstrainNeighbours(c: Pos, stack: seq<Pos>) returns (stack': seq<Pos>, abort: bool)
      requires WellFormed(mapTileInfo) && InGrid(c) && AllInGrid(stack)
      modifies TilesOf(mapTileInfo)`possibleTiles
      ensures WellFormed(mapTileInfo) && AllInGrid(stack')
      ensures |stack| <= |stack'| && stack'[..|stack|] == stack
      ensures Shrunk(old(Domains(mapTileInfo)), Domains(mapTileInfo))
      ensures abort ==> Aborted(Domains(mapTileInfo), stack, stack')
      ensures !abort ==> EntropyFell(old(Domains(mapTileInfo)), Domains(mapTileInfo), stack, stack')
      ensures !abort ==> PushedNarrowed(old(Domains(mapTileInfo)), Domains(mapTileInfo), stack, stack')
      ensures !abort ==> KeptSettled(old(Domains(mapTileInfo)), Domains(mapTileInfo), stack')
      ensures !abort ==> NoneEmptied(old(Domains(mapTileInfo)), Domains(mapTileInfo))
      ensures !abort ==> Settled(Domains(mapTileInfo), c)
    {
      var g := mapTileInfo;
      var tile := g[c.0, c.1];
      var directions := tile.Directions(MapSize);
      ghost var din := Domains(g);
      InCells(c);
      DirectionsAround(tile, c);
      stack', abort := stack, false;
      var i := 0;
      while i < |directions|
        invariant WellFormed(g) && AllInGrid(stack') && tile.possibleTiles == din[c]
        invariant Scanning(din, Domains(g), c, directions, i, stack, stack')
      {
        stack', abort := ConstrainDirection(din, c, tile, directions, i, stack, stack');
        if abort {
          return;
        }
        i := i + 1;
      }
      DomainsFacts(g);
      SettledFromArcs(Domains(g), c, directions);
    }

    /** The propagation loop: pop the last pushed position and constrain its
        neighbours, until the stack is empty or a contradiction aborts. It ends
        because every push lowers the total entropy and every other round shortens
        the stack. Without a contradiction, the collapsed position and every
        position whose domain lost an entry end with all their arcs consistent. */
    method Propagate(start: Pos) returns (abort: bool)
      requires WellFormed(mapTileInfo) && InGrid(start)
      modifies TilesOf(mapTileInfo)`possibleTiles
      ensures WellFormed(mapTileInfo)
      ensures Shrunk(old(Domains(mapTileInfo)), Domains(mapTileInfo))
      ensures abort ==> SomeEmptied(Domains(mapTileInfo))
      ensures !abort ==> NoneEmptied(old(Domains(mapTileInfo)), Domains(mapTileInfo))
      ensures !abort ==> Settled(Domains(mapTileInfo), start)
      ensures !abort ==> forall p | p in old(Domains(mapTileInfo)) &&
                                    |Domains(mapTileInfo)[p]| < |old(Domains(mapTileInfo))[p]| ::
                           Settled(Domains(mapTileInfo), p)
    {
      var g := mapTileInfo;
      ghost var d0 := Domains(g);
      ghost var done: set<Pos> := {};
      var stack := [start];
      abort := false;
      while |stack| > 0
        invariant WellFormed(g) && AllInGrid(stack) && !abort
        invariant Propagating(d0, Domains(g), start, stack, done)
        decreases TotalEntropy(Domains(g), Cells()), |stack|
      {
        var current := stack[|stack| - 1];
        var rest := stack[..|stack| - 1];
        ghost var popped, din := stack, Domains(g);
        stack, abort := ConstrainNeighbours(current, rest);
        if abort {
          ShrunkTrans(d0, din, Domains(g));
          ghost var empty := stack[|stack| - 1];
          assert empty in Domains(g) && Domains(g)[empty] == [];
          return;
        }
        PropagateStep(d0, din, Domains(g), start, popped, rest, current, stack, done);
        done := done + {current};
      }
    }

    /** The first undo loop: pops NumTimesUndo snapshots, disposing of their
        placements and counting each undo, but stops when only the bottom one is
        left; returns the new top, the state to revert to. */
    method UndoSteps() returns (top: Snapshot)
      requires |changeHistory| >= 2
      modifies this`changeHistory, this`numTimesUndone, this`disposed
      ensures changeHistory == old(changeHistory)[..AfterUndoSteps(|old(changeHistory)|)]
      ensures top == changeHistory[|changeHistory| - 1]
      ensures numTimesUndone == old(numTimesUndone) + (|old(changeHistory)| - |changeHistory|)
      ensures disposed == old(disposed) + Popped(old(changeHistory), |changeHistory|)
    {
      ghost var h := changeHistory;
      top := changeHistory[|changeHistory| - 1];
      var i := 0;
      while i < NumTimesUndo
        invariant 0 <= i <= NumTimesUndo && |h| - i >= 2
        invariant changeHistory == h[..|h| - i] && top == changeHistory[|changeHistory| - 1]
        invariant numTimesUndone == old(numTimesUndone) + i
        invariant disposed == old(disposed) + Popped(h, |h| - i)
      {
        var stateToUndo := changeHistory[|changeHistory| - 1];
        changeHistory := changeHistory[..|changeHistory| - 1];
        top := changeHistory[|changeHistory| - 1];
        PoppedOneMore(h, |h| - i);
        disposed := disposed + [stateToUndo.placed];
        numTimesUndone := numTimesUndone + 1;
        if |changeHistory| <= 1 {
          return;
        }
        i := i + 1;
      }
    }

    /** The second undo loop: keeps popping while the top snapshot has been
        reverted to more than RevertThresh times and more than NumTimesUndo
        snapshots remain. */
    method SkipReverted(top: Snapshot) returns (top': Snapshot)
      requires |changeHistory| >= 1 && top == changeHistory[|changeHistory| - 1]
      modifies this`changeHistory, this`numTimesUndone, this`disposed
      ensures 1 <= |changeHistory| <= |old(changeHistory)|
      ensures changeHistory == old(changeHistory)[..|changeHistory|]
      ensures top' == changeHistory[|changeHistory| - 1]
      ensures |changeHistory| == |old(changeHistory)| || |changeHistory| >= NumTimesUndo
      ensures forall m | |changeHistory| <= m < |old(changeHistory)| ::
                old(changeHistory)[m].numTimesReverted > RevertThresh
      ensures !(top'.numTimesReverted > RevertThresh && |changeHistory| > NumTimesUndo)
      ensures numTimesUndone == old(numTimesUndone) + (|old(changeHistory)| - |changeHistory|)
      ensures disposed == old(disposed) + Popped(old(changeHistory), |changeHistory|)
    {
      ghost var h := changeHistory;
      top' := top;
      while top'.numTimesReverted > RevertThresh && |changeHistory| > NumTimesUndo
        invariant 1 <= |changeHistory| <= |h| && changeHistory == h[..|changeHistory|]
        invariant top' == changeHistory[|changeHistory| - 1]
        invariant |changeHistory| == |h| || |changeHistory| >= NumTimesUndo
        invariant forall m | |changeHistory| <= m < |h| :: h[m].numTimesReverted > RevertThresh
        invariant numTimesUndone == old(numTimesUndone) + (|h| - |changeHistory|)
        invariant disposed == old(disposed) + Popped(h, |changeHistory|)
        decreases |changeHistory|
      {
        var stateToUndo := changeHistory[|changeHistory| - 1];
        changeHistory := changeHistory[..|changeHistory| - 1];
        PoppedOneMore(h, |changeHistory| + 1);
        disposed := disposed + [stateToUndo.placed];
        numTimesUndone := numTimesUndone + 1;
        top' := changeHistory[|changeHistory| - 1];
      }
    }

    /** The end of contradiction handling: the map becomes a copy of the state
        on top of the history, and that state counts one more revert; the solver
        then restarts from scratch when too few states remain or too many undos
        were made. On a restart the new bottom snapshot copies the reverted map
        before the map is reset to new tiles. */
    method Revert(stateToRevertTo: Snapshot) returns (restarted: bool)
      requires History() && stateToRevertTo == changeHistory[|changeHistory| - 1]
      modifies this`mapTileInfo, this`changeHistory, this`numTimesUndone, stateToRevertTo`numTimesReverted
      ensures Valid() && fresh(mapTileInfo)
      ensures stateToRevertTo.numTimesReverted == old(stateToRevertTo.numTimesReverted) + 1
      ensures restarted <==> |old(changeHistory)| <= NumTimesUndo || old(numTimesUndone) > RevertThreshOverall
      ensures !restarted ==> changeHistory == old(changeHistory) && numTimesUndone == old(numTimesUndone)
      ensures !restarted ==> Matches(mapTileInfo, stateToRevertTo.cells)
      ensures restarted ==> numTimesUndone == 0 && |changeHistory| == 1 && fresh(changeHistory[0])
      ensures restarted ==> changeHistory[0].cells == stateToRevertTo.cells
      ensures restarted ==> changeHistory[0].placed == NoObject && changeHistory[0].numTimesReverted == 0 &&
                            changeHistory[0].tried == []
      ensures restarted ==> Reset(mapTileInfo)
      ensures fresh(TilesOf(mapTileInfo))
      ensures forall k | 0 <= k < |changeHistory| :: changeHistory[k] in old(changeHistory) || fresh(changeHistory[k])
    {
      mapTileInfo := stateToRevertTo.GetMapTileInfo();
      stateToRevertTo.RevertToThisState();
      restarted := false;
      if |changeHistory| <= NumTimesUndo || numTimesUndone > RevertThreshOverall {
        restarted := true;
        numTimesUndone := 0;
        var bottom := new Snapshot(mapTileInfo, NoObject);
        MatchesUnique(mapTileInfo, bottom.cells, stateToRevertTo.cells);
        changeHistory := [bottom];
        ResetTiles(mapTileInfo);
      }
    }

    /** Handling of a contradiction: undo up to NumTimesUndo steps, skip the
        states reverted to too often, then revert to the state left on top
        (restarting when the thresholds say so). `kept` is the height the
        history had after the pops. */
    method Undo() returns (restarted: bool, ghost kept: int)
      requires Valid() && |changeHistory| >= 2
      modifies this`mapTileInfo, this`changeHistory, this`numTimesUndone, this`disposed,
               changeHistory`numTimesReverted
      ensures Valid() && fresh(mapTileInfo)
      ensures 1 <= kept <= AfterUndoSteps(|old(changeHistory)|)
      ensures kept == AfterUndoSteps(|old(changeHistory)|) || kept >= NumTimesUndo
      ensures forall m | kept <= m < AfterUndoSteps(|old(changeHistory)|) ::
                old(changeHistory[m].numTimesReverted) > RevertThresh
      ensures !(old(changeHistory[kept - 1].numTimesReverted) > RevertThresh && kept > NumTimesUndo)
      ensures disposed == old(disposed) + Popped(old(changeHistory), kept)
      ensures old(changeHistory)[kept - 1].numTimesReverted == old(changeHistory[kept - 1].numTimesReverted) + 1
      ensures forall k | 0 <= k < |old(changeHistory)| && k != kept - 1 ::
                old(changeHistory)[k].numTimesReverted == old(changeHistory[k].numTimesReverted)
      ensures restarted <==>
                kept <= NumTimesUndo || old(numTimesUndone) + (|old(changeHistory)| - kept) > RevertThreshOverall
      ensures !restarted ==> changeHistory == old(changeHistory)[..kept]
      ensures !restarted ==> numTimesUndone == old(numTimesUndone) + (|old(changeHistory)| - kept)
      ensures !restarted ==> Matches(mapTileInfo, changeHistory[kept - 1].cells)
      ensures restarted ==> numTimesUndone == 0 && |changeHistory| == 1 && fresh(changeHistory[0])
      ensures restarted ==> changeHistory[0].cells == old(changeHistory)[kept - 1].cells
      ensures restarted ==> changeHistory[0].placed == NoObject && changeHistory[0].numTimesReverted == 0 &&
                            changeHistory[0].tried == []
      ensures restarted ==> Reset(mapTileInfo)
      ensures fresh(TilesOf(mapTileInfo))
      ensures forall k | 0 <= k < |changeHistory| :: changeHistory[k] in old(changeHistory) || fresh(changeHistory[k])
    {
      ghost var h := changeHistory;
      var stateToRevertTo := UndoSteps();
      stateToRevertTo := SkipReverted(stateToRevertTo);
      kept := |changeHistory|;
      assert History() by {
        assert forall k | 0 <= k < kept :: changeHistory[k] == h[k];
      }
      restarted := Revert(stateToRevertTo);
      assert forall k | 0 <= k < |h| && k != kept - 1 :: h[k] != stateToRevertTo;
    }

    /** The first scan of Update: the lowest entropy of an open cell. */
    method LowestEntropy() returns (lowest: int)
      requires Valid()
      ensures lowest == Lowest(mapTileInfo) && IsLowest(mapTileInfo, lowest)
    {
      var g := mapTileInfo;
      lowest := NumTiles + 1;
      var i := 0;
      while i < MapSize
        invariant 0 <= i <= MapSize && ScanLowest(g, i, 0, lowest) == Lowest(g)
      {
        var j := 0;
        while j < MapSize
          invariant 0 <= j <= MapSize && ScanLowest(g, i, j, lowest) == Lowest(g)
        {
          if g[i, j].Entropy() < lowest && g[i, j].Entropy() > 0 && !g[i, j].collapsed {
            lowest := g[i, j].Entropy();
          }
          j := j + 1;
        }
        i := i + 1;
      }
      SelectionSpec(g, lowest, []);
    }

    /** The second scan of Update: the positions of the cells that tie for the
        selection, in row-major order. */
    method TiedCells(lowest: int) returns (cands: seq<Pos>)
      requires Valid()
      ensures cands == ScanTied(mapTileInfo, lowest, 0, 0, []) && IsTiedList(mapTileInfo, lowest, cands)
    {
      var g := mapTileInfo;
      cands := [];
      var i := 0;
      while i < MapSize
        invariant 0 <= i <= MapSize && ScanTied(g, lowest, i, 0, cands) == ScanTied(g, lowest, 0, 0, [])
      {
        var j := 0;
        while j < MapSize
          invariant 0 <= j <= MapSize && ScanTied(g, lowest, i, j, cands) == ScanTied(g, lowest, 0, 0, [])
        {
          if g[i, j].Entropy() == lowest && !g[i, j].collapsed {
            cands := cands + [(i, j)];
          }
          j := j + 1;
        }
        i := i + 1;
      }
      ScanTiedIsTiedList(g, lowest, 0, 0, []);
    }

    /** The completion scan of Update: whether every cell is collapsed. */
    method CheckComplete() returns (done: bool)
      requires Valid()
      ensures done <==> AllCollapsed(mapTileInfo)
    {
      var g := mapTileInfo;
      done := true;
      var i := 0;
      while i < MapSize
        invariant 0 <= i <= MapSize
        invariant done <==> forall a, b | 0 <= a < i && 0 <= b < MapSize :: g[a, b].collapsed
      {
        var j := 0;
        while j < MapSize
          invariant 0 <= j <= MapSize
          invariant done <==> (forall a, b | 0 <= a < i && 0 <= b < MapSize :: g[a, b].collapsed) &&
                              (forall b | 0 <= b < j :: g[i, b].collapsed)
        {
          if !g[i, j].collapsed {
            done := false;
          }
          j := j + 1;
        }
        i := i + 1;
      }
    }

    /** The flags agree with the map: the collapse is marked finished only when
        every cell is collapsed, and the elevation pass only after the collapse
        and with every cliff edge raised. */
    ghost predicate Progress()
      reads this, mapTileInfo, TilesOf(mapTileInfo)
    {
      Square(mapTileInfo) &&
      (isNetEntropyZero ==> AllCollapsed(mapTileInfo)) &&
      (tilesAllRaised ==> isNetEntropyZero && EdgesRaised(ChosenView(mapTileInfo), RaisedSet(mapTileInfo)))
    }

    /** Selection: the entry tieBreak(count) of the list of open cells of lowest
        entropy. found is false when no cell is open (the source then indexes an
        empty list and throws). */
    method Select(tieBreak: int -> int) returns (found: bool, c: Pos)
      requires Valid() && forall n :: RangeDraw(n, tieBreak(n))
      ensures found <==> Selection(mapTileInfo) != []
      ensures found ==> 0 <= tieBreak(|Selection(mapTileInfo)|) < |Selection(mapTileInfo)| &&
                        c == Selection(mapTileInfo)[tieBreak(|Selection(mapTileInfo)|)]
      ensures found <==> exists i, j | InBounds(i, j) :: Open(mapTileInfo[i, j].Value())
      ensures found ==> Candidate(mapTileInfo, c)
    {
      var low := LowestEntropy();
      var tied := TiedCells(low);
      SelectionSpec(mapTileInfo, low, tied);
      TiedListIsMinimal(mapTileInfo, low, tied);
      var which := tieBreak(|tied|);
      found := |tied| > 0;
      if found {
        c := tied[which];
      } else {
        c := (0, 0);
      }
    }

    /** Collapses the tile at c by the weighted draw over its untried tiles (the
        random source draw is asked for a number below their total weight),
        recording the attempt in the snapshot on top of the history. */
    method CollapseAt(c: Pos, top: Snapshot, draw: int -> int) returns (chosen: TileId)
      requires Valid() && InGrid(c) && top == changeHistory[|changeHistory| - 1]
      requires forall n :: RangeDraw(n, draw(n))
      modifies {mapTileInfo[c.0, c.1]}`possibleTiles, {mapTileInfo[c.0, c.1]}`collapsed,
               {mapTileInfo[c.0, c.1]}`chosenTile, top`tried
      ensures Valid() && c in old(Domains(mapTileInfo))
      ensures chosen == Drawn(old(Domains(mapTileInfo))[c], old(top.tried), c, draw)
      ensures Untried(old(Domains(mapTileInfo))[c], old(top.tried), c.0, c.1) != [] ==>
                chosen in old(Domains(mapTileInfo))[c] && (chosen as int, c.0, c.1) !in old(top.tried)
      ensures Domains(mapTileInfo) == old(Domains(mapTileInfo))[c := [chosen]]
      ensures mapTileInfo[c.0, c.1].collapsed && mapTileInfo[c.0, c.1].chosenTile == chosen
      ensures top.tried == old(top.tried) + [(chosen as int, c.0, c.1)]
    {
      InCells(c);
      var g := mapTileInfo;
      var tile := g[c.0, c.1];
      var cands := Untried(tile.possibleTiles, top.tried, c.0, c.1);
      var r := draw(TotalWeight(cands));
      if cands != [] {
        CollapseChoosesUntried(tile.possibleTiles, top.tried, c.0, c.1, r);
      }
      chosen := tile.Collapse(top, r);
      forall i, j | InBounds(i, j)
        ensures g[i, j].Valid()
      {
        if (i, j) != c {
          assert g[i, j] != tile;
          assert old(g[i, j].Valid());
        }
      }
      assert Domains(g) == old(Domains(g))[c := tile.possibleTiles];
    }

    /** Commit: pushes a snapshot of the map, with the handle of the object
        placed in this step. */
    method Commit(h: Handle)
      requires Valid()
      modifies this`changeHistory
      ensures Valid() && |changeHistory| == |old(changeHistory)| + 1
      ensures changeHistory[..|old(changeHistory)|] == old(changeHistory)
      ensures fresh(changeHistory[|old(changeHistory)|])
      ensures Matches(mapTileInfo, changeHistory[|old(changeHistory)|].cells)
      ensures changeHistory[|old(changeHistory)|].placed == h
      ensures changeHistory[|old(changeHistory)|].numTimesReverted == 0
      ensures changeHistory[|old(changeHistory)|].tried == []
    {
      var s := new Snapshot(mapTileInfo, h);
      changeHistory := changeHistory + [s];
    }


    /** The first half of a collapse step from cell c: the weighted draw over
        its untried tiles, recorded in the snapshot top on top of the history,
        then propagation from c. */
    method Place(c: Pos, top: Snapshot, draw: int -> int) returns (chosen: TileId, abort: bool)
      requires Valid() && InGrid(c) && top == changeHistory[|changeHistory| - 1] && forall n :: RangeDraw(n, draw(n))
      modifies TilesOf(mapTileInfo)`possibleTiles, {mapTileInfo[c.0, c.1]}`collapsed,
               {mapTileInfo[c.0, c.1]}`chosenTile, top`tried
      ensures Valid()
      ensures c in old(Domains(mapTileInfo))
      ensures chosen == Drawn(old(Domains(mapTileInfo))[c], old(top.tried), c, draw)
      ensures top.tried == old(top.tried) + [(chosen as int, c.0, c.1)]
      ensures mapTileInfo[c.0, c.1].collapsed && mapTileInfo[c.0, c.1].chosenTile == chosen
      ensures abort ==> SomeEmptied(Domains(mapTileInfo))
      ensures !abort ==> Consistent(old(Domains(mapTileInfo))[c := [chosen]], Domains(mapTileInfo), c)
    {
      var g := mapTileInfo;
      chosen := CollapseAt(c, top, draw);
      ghost var d1 := Domains(g);
      abort := Propagate(c);
      assert !abort ==> Consistent(d1, Domains(g), c);
    }

    /** The contradiction path of a step that pushed the snapshot of h's
        successor with the handle spawned: the flag is cleared, and the undo
        disposes of that object first. */
    method Recover(ghost h: seq<Snapshot>, ghost counts: seq<nat>, spawned: nat) returns (restarted: bool, ghost kept: int)
      requires Valid() && |h| >= 1 && |changeHistory| == |h| + 1 && changeHistory[..|h|] == h
      requires changeHistory[|h|].placed == Handle.Placed(spawned)
      requires |counts| == |h| && forall k | 0 <= k < |h| :: counts[k] == h[k].numTimesReverted
      modifies this`mapTileInfo, this`changeHistory, this`numTimesUndone, this`disposed,
               changeHistory`numTimesReverted
      ensures Valid() && fresh(mapTileInfo)
      ensures StopsAt(counts, kept)
      ensures forall k | 0 <= k < |h| :: h[k].numTimesReverted == RevertedOnce(counts, kept)[k]
      ensures disposed == old(disposed) + [Handle.Placed(spawned)] + Popped(h, kept)
      ensures UndoCounted(h, old(numTimesUndone), kept, restarted, changeHistory, numTimesUndone)
      ensures restarted ==> Reset(mapTileInfo)
      ensures !restarted ==> Undone(h, changeHistory, mapTileInfo)
      ensures fresh(TilesOf(mapTileInfo))
      ensures forall k | 0 <= k < |changeHistory| :: changeHistory[k] in old(changeHistory) || fresh(changeHistory[k])
    {
      ghost var h1 := changeHistory;
      ghost var d0, u0 := disposed, numTimesUndone;
      assert forall k | 0 <= k < |h| :: h1[k] == h[k];
      restarted, kept := Undo();
      UndoAfterPush(h, h1, d0, u0, Handle.Placed(spawned), kept, restarted, changeHistory, disposed, numTimesUndone);
      if !restarted {
        UndoBelowPush(h, h1, kept);
      }
    }

    /** The second half of a collapse step: the commit of a snapshot holding
        the handle of the object placed in the step, then on a contradiction
        the finished flag is cleared and Recover undoes steps, and otherwise
        the flag becomes the verdict of the completion check. counts are the
        revert counts of the history's snapshots. */
    method Settle(abort: bool, spawned: nat, ghost counts: seq<nat>) returns (restarted: bool, finished: bool, ghost kept: int)
      requires Valid()
      requires |counts| == |changeHistory| && forall k | 0 <= k < |counts| :: counts[k] == changeHistory[k].numTimesReverted
      modifies this, changeHistory`numTimesReverted
      ensures Valid() && tilesAllRaised == old(tilesAllRaised) && isNetEntropyZero == (!abort && finished)
      ensures !abort ==> mapTileInfo == old(mapTileInfo) && Domains(mapTileInfo) == old(Domains(mapTileInfo))
      ensures !abort ==>
                Pushed(old(changeHistory), changeHistory, mapTileInfo, Handle.Placed(spawned)) &&
                numTimesUndone == old(numTimesUndone) && disposed == old(disposed) &&
                (finished <==> AllCollapsed(mapTileInfo))
      ensures !abort ==> forall k | 0 <= k < |counts| :: old(changeHistory)[k].numTimesReverted == counts[k]
      ensures abort ==> fresh(mapTileInfo) && fresh(TilesOf(mapTileInfo)) && StopsAt(counts, kept)
      ensures abort ==>
                forall k | 0 <= k < |counts| :: old(changeHistory)[k].numTimesReverted == RevertedOnce(counts, kept)[k]
      ensures abort ==> disposed == old(disposed) + [Handle.Placed(spawned)] + Popped(old(changeHistory), kept)
      ensures abort ==> UndoCounted(old(changeHistory), old(numTimesUndone), kept, restarted, changeHistory, numTimesUndone)
      ensures abort && restarted ==> Reset(mapTileInfo)
      ensures abort && !restarted ==> Undone(old(changeHistory), changeHistory, mapTileInfo)
      ensures forall k | 0 <= k < |changeHistory| :: changeHistory[k] in old(changeHistory) || fresh(changeHistory[k])
    {
      ghost var h := changeHistory;
      Commit(Handle.Placed(spawned));
      finished := false;
      restarted := false;
      kept := 0;
      if abort {
        isNetEntropyZero := false;
        restarted, kept := Recover(h, counts, spawned);
      } else {
        finished := CheckComplete();
        isNetEntropyZero := finished;
      }
    }

    /** One collapse step from cell c: Place, then Settle. chosen is the tile
        drawn for c, after the view of the domains Place leaves, counts the
        revert counts of the history's snapshots before the step, and kept the
        height of the history after an undo. */
    method Advance(c: Pos, draw: int -> int, spawned: nat)
      returns (result: StepResult, ghost chosen: TileId, ghost after: map<Pos, seq<TileId>>,
               ghost counts: seq<nat>, ghost kept: int)
      requires Valid() && InGrid(c) && forall n :: RangeDraw(n, draw(n))
      modifies this, changeHistory`numTimesReverted, {changeHistory[|changeHistory| - 1]}`tried,
               TilesOf(mapTileInfo)`possibleTiles, {mapTileInfo[c.0, c.1]}`collapsed,
               {mapTileInfo[c.0, c.1]}`chosenTile
      ensures Valid() && tilesAllRaised == old(tilesAllRaised) && isNetEntropyZero == (result.Collapsed? && result.finished)
      ensures result.Collapsed? || result.Contradicted?
      ensures c in old(Domains(mapTileInfo)) &&
              chosen == Drawn(old(Domains(mapTileInfo))[c], old(changeHistory[|changeHistory| - 1].tried), c, draw)
      ensures old(changeHistory)[|old(changeHistory)| - 1].tried ==
                old(changeHistory[|changeHistory| - 1].tried) + [(chosen as int, c.0, c.1)]
      ensures |counts| == |old(changeHistory)| &&
              forall k | 0 <= k < |counts| :: counts[k] == old(changeHistory[k].numTimesReverted)
      ensures result.Collapsed? ==> result.at == c && result.tile == chosen
      ensures result.Collapsed? ==>
                mapTileInfo == old(mapTileInfo) &&
                mapTileInfo[c.0, c.1].collapsed && mapTileInfo[c.0, c.1].chosenTile == chosen &&
                Domains(mapTileInfo) == after && Consistent(old(Domains(mapTileInfo))[c := [chosen]], after, c)
      ensures result.Collapsed? ==>
                Pushed(old(changeHistory), changeHistory, mapTileInfo, Handle.Placed(spawned)) &&
                numTimesUndone == old(numTimesUndone) && disposed == old(disposed) &&
                (result.finished <==> AllCollapsed(mapTileInfo))
      ensures result.Collapsed? ==>
                forall k | 0 <= k < |counts| :: old(changeHistory)[k].numTimesReverted == counts[k]
      ensures result.Contradicted? ==> fresh(mapTileInfo) && fresh(TilesOf(mapTileInfo)) && StopsAt(counts, kept)
      ensures result.Contradicted? ==>
                forall k | 0 <= k < |counts| :: old(changeHistory)[k].numTimesReverted == RevertedOnce(counts, kept)[k]
      ensures result.Contradicted? ==>
                disposed == old(disposed) + [Handle.Placed(spawned)] + Popped(old(changeHistory), kept)
      ensures result.Contradicted? ==>
                UndoCounted(old(changeHistory), old(numTimesUndone), kept, result.restarted, changeHistory, numTimesUndone)
      ensures result.Contradicted? && result.restarted ==> Reset(mapTileInfo)
      ensures result.Contradicted? && !result.restarted ==> Undone(old(changeHistory), changeHistory, mapTileInfo)
      ensures forall k | 0 <= k < |changeHistory| :: changeHistory[k] in old(changeHistory) || fresh(changeHistory[k])
    {
      counts := Reverts(changeHistory);
      var top := changeHistory[|changeHistory| - 1];
      var tile, abort := Place(c, top, draw);
      chosen := tile;
      after := Domains(mapTileInfo);
      var restarted, finished;
      restarted, finished, kept := Settle(abort, spawned, counts);
      if abort {
        result := Contradicted(restarted);
      } else {
        result := Collapsed(c, tile, finished);
      }
    }

    /** The elevation pass over the finished map: in row-major order, every
        cliff-edge tile (chosen tile at most 7) not yet marked raised has its
        cliff line found and raised. ok is false when a raise walk stepped off
        the map: the source throws there and the pass is not marked done. */
    method RaiseAll() returns (ok: bool)
      requires Positioned(mapTileInfo)
      modifies TilesOf(mapTileInfo)`level, TilesOf(mapTileInfo)`hasBeenRaised
      ensures Positioned(mapTileInfo) && ChosenView(mapTileInfo) == old(ChosenView(mapTileInfo))
      ensures old(RaisedSet(mapTileInfo)) <= RaisedSet(mapTileInfo)
      ensures ok ==> EdgesRaised(ChosenView(mapTileInfo), RaisedSet(mapTileInfo))
    {
      var g := mapTileInfo;
      var re := new RaiseElevation(g);
      ghost var v := ChosenView(g);
      ghost var r0 := RaisedSet(g);
      var i := 0;
      while i < MapSize
        invariant 0 <= i <= MapSize
        invariant Positioned(g) && ChosenView(g) == v && r0 <= RaisedSet(g)
        invariant forall p | p in v && v[p] <= 7 && p.0 < i :: p in RaisedSet(g)
      {
        var j := 0;
        while j < MapSize
          invariant 0 <= j <= MapSize
          invariant Positioned(g) && ChosenView(g) == v && r0 <= RaisedSet(g)
          invariant forall p | p in v && v[p] <= 7 && (p.0 < i || (p.0 == i && p.1 < j)) :: p in RaisedSet(g)
        {
          var walked := RaiseCell(re, i, j);
          if !walked {
            return false;
          }
          j := j + 1;
        }
        i := i + 1;
      }
      return true;
    }

    /** The collapse branch of Update: selection, then Advance. Stuck when no cell is open (the source then
        indexes an empty list and throws, changing nothing). */
    method CollapseStep(tieBreak: int -> int, draw: int -> int, spawned: nat) returns (result: StepResult)
      requires Valid() && Progress() && !isNetEntropyZero
      requires forall n :: RangeDraw(n, tieBreak(n))
      requires forall n :: RangeDraw(n, draw(n))
      modifies this, changeHistory, TilesOf(mapTileInfo)
      ensures Valid() && Progress()
      ensures result.Stuck? || result.Collapsed? || result.Contradicted?
      ensures result.Stuck? <==> !old(exists i, j | InBounds(i, j) :: Open(mapTileInfo[i, j].Value()))
      ensures result.Stuck? ==> unchanged(this) && unchanged(TilesOf(mapTileInfo))
      ensures result.Collapsed? ==> old(Candidate(mapTileInfo, result.at)) && (isNetEntropyZero <==> result.finished)
      ensures result.Contradicted? ==> !isNetEntropyZero
      ensures mapTileInfo == old(mapTileInfo) || fresh(TilesOf(mapTileInfo))
      ensures forall k | 0 <= k < |changeHistory| :: changeHistory[k] in old(changeHistory) || fresh(changeHistory[k])
    {
      var found, c := Select(tieBreak);
      if found {
        ghost var chosen, after, counts, kept;
        result, chosen, after, counts, kept := Advance(c, draw, spawned);
      } else {
        result := Stuck;
      }
    }

    /** The elevation branch of Update: the pass over the finished map, marked
        done when no raise walk stepped off the map. */
    method RaiseStep() returns (result: StepResult)
      requires Valid() && Progress() && isNetEntropyZero && !tilesAllRaised
      modifies this`tilesAllRaised, TilesOf(mapTileInfo)`level, TilesOf(mapTileInfo)`hasBeenRaised
      ensures Valid() && Progress()
      ensures result.Raised? || result.RaiseFailed?
      ensures result.Raised? <==> tilesAllRaised
    {
      var ok := RaiseAll();
      if ok {
        tilesAllRaised := true;
        result := Raised;
      } else {
        result := RaiseFailed;
      }
    }

    /** One frame: a collapse step while the collapse is unfinished, else the
        elevation pass once, else nothing. tieBreak and draw stand for
        UnityEngine.Random.Range over [0, n), spawned for the object placed for
        the collapsed cell. */
    method Update(tieBreak: int -> int, draw: int -> int, spawned: nat) returns (result: StepResult)
      requires Valid() && Progress()
      requires forall n :: RangeDraw(n, tieBreak(n))
      requires forall n :: RangeDraw(n, draw(n))
      modifies this, changeHistory, TilesOf(mapTileInfo)
      ensures Valid() && Progress()
      ensures !old(isNetEntropyZero) ==> result.Stuck? || result.Collapsed? || result.Contradicted?
      ensures result.Stuck? ==> !old(exists i, j | InBounds(i, j) :: Open(mapTileInfo[i, j].Value()))
      ensures result.Collapsed? ==> old(Candidate(mapTileInfo, result.at)) && (isNetEntropyZero <==> result.finished)
      ensures result.Contradicted? ==> !isNetEntropyZero
      ensures old(isNetEntropyZero) && !old(tilesAllRaised) ==> result.Raised? || result.RaiseFailed?
      ensures result.Raised? ==> tilesAllRaised
      ensures old(isNetEntropyZero) && old(tilesAllRaised) ==> result.Idle? && unchanged(this)
      ensures mapTileInfo == old(mapTileInfo) || fresh(TilesOf(mapTileInfo))
      ensures forall k | 0 <= k < |changeHistory| :: changeHistory[k] in old(changeHistory) || fresh(changeHistory[k])
    {
      if !isNetEntropyZero {
        result := CollapseStep(tieBreak, draw, spawned);
      } else if !tilesAllRaised {
        result := RaiseStep();
      } else {
        result := Idle;
      }
    }
  }
}
