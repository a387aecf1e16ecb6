/** The map's cells (Tile), the N x N grid of them, and the history snapshots
    (changesMade). Tile and changesMade use each other (a collapse records its
    draw in the current snapshot; a snapshot copies tiles), so they share a module. */
module Board {
  import opened TileRules
  import opened CellSpec

  /** Side length of the square map. */
  const MapSize := 30

  /** Every tile index, in order: the domain of a new cell. */
  function AllTiles(): seq<TileId>
  {
    seq(NumTiles, i requires 0 <= i < NumTiles => i)
  }

  /** The state of one cell, as a value: position, domain, collapsed flag,
      chosen tile (0 until a collapse sets it), elevation level and raised flag. */
  datatype Cell = Cell(x: int, y: int, domain: seq<TileId>, collapsed: bool,
                       chosen: TileId, level: nat, raised: bool)

  /** The offsets of ds appear in strictly increasing Rank. */
  predicate RankOrdered(ds: seq<Offset>)
  {
    forall a, b :: 0 <= a < b < |ds| ==> Rank(ds[a]) < Rank(ds[b])
  }

  /** Two rank-ordered lists, every rank of the first below every rank of the
      second, concatenate to a rank-ordered list. */
  lemma RankOrderedConcat(p: seq<Offset>, q: seq<Offset>)
    requires RankOrdered(p) && RankOrdered(q)
    requires forall i, j :: 0 <= i < |p| && 0 <= j < |q| ==> Rank(p[i]) < Rank(q[j])
    ensures RankOrdered(p + q)
  {
    forall a, b | 0 <= a < b < |p + q|
      ensures Rank((p + q)[a]) < Rank((p + q)[b])
    {
      if b < |p| {
        assert (p + q)[a] == p[a] && (p + q)[b] == p[b];
      } else if a < |p| {
        assert (p + q)[a] == p[a] && (p + q)[b] == q[b - |p|];
      } else {
        assert (p + q)[a] == q[a - |p|] && (p + q)[b] == q[b - |p|];
      }
    }
  }

  /** A new cell at (x, y): every tile possible, nothing chosen, level 0, not raised. */
  function FreshCell(x: int, y: int): Cell
  {
    Cell(x, y, AllTiles(), false, 0, 0, false)
  }

  /** An opaque handle to an object placed in the scene (null before any placement). */
  datatype Handle = NoObject | Placed(id: nat)

  /** Position of a unit offset in the fixed order in which getDirections lists them. */
  function Rank(d: Offset): nat
  {
    if d == (1, 0) then 0
    else if d == (-1, 0) then 1
    else if d == (0, 1) then 2
    else if d == (0, -1) then 3
    else 4
  }

  predicate InBounds(i: int, j: int)
  {
    0 <= i < MapSize && 0 <= j < MapSize
  }

  class Tile {
    const x: int
    const y: int
    var possibleTiles: seq<TileId>
    var collapsed: bool
    var chosenTile: TileId
    var level: nat
    var hasBeenRaised: bool

    /** The domain never lists a tile twice. */
    ghost predicate Valid()
      reads this`possibleTiles
    {
      NoDup(possibleTiles)
    }

    function Value(): Cell
      reads this
    {
      Cell(x, y, possibleTiles, collapsed, chosenTile, level, hasBeenRaised)
    }

    function Entropy(): nat
      reads this
    {
      |possibleTiles|
    }

    /** A new tile: domain [0..NumTiles) in order, uncollapsed, level 0, not raised. */
    constructor (x: int, y: int)
      ensures Valid() && Value() == FreshCell(x, y)
    {
      this.x, this.y := x, y;
      new;
      possibleTiles := [];
      var i := 0;
      while i < NumTiles
        invariant 0 <= i <= NumTiles
        invariant |possibleTiles| == i
        invariant forall k :: 0 <= k < i ==> possibleTiles[k] == k
      {
        possibleTiles := possibleTiles + [i];
        i := i + 1;
      }
      assert possibleTiles == AllTiles();
      collapsed, chosenTile, level, hasBeenRaised := false, 0, 0, false;
    }

    /** A copy of a tile whose state was taken earlier (the clone of a stored tile). */
    constructor FromCell(c: Cell)
      requires NoDup(c.domain)
      ensures Valid() && Value() == c
    {
      x, y := c.x, c.y;
      possibleTiles, collapsed, chosenTile := c.domain, c.collapsed, c.chosen;
      level, hasBeenRaised := c.level, c.raised;
    }

    /** The offsets of the in-bounds neighbours, in the order (1,0), (-1,0), (0,1), (0,-1). */
    function Directions(n: int): (ds: seq<Offset>)
      ensures (1, 0) in ds <==> x + 1 < n
      ensures (-1, 0) in ds <==> x - 1 >= 0
      ensures (0, 1) in ds <==> y + 1 < n
      ensures (0, -1) in ds <==> y - 1 >= 0
      ensures forall k :: 0 <= k < |ds| ==> IsUnit(ds[k])
      ensures 0 <= x < n && 0 <= y < n ==>
                forall k :: 0 <= k < |ds| ==> 0 <= x + ds[k].0 < n && 0 <= y + ds[k].1 < n
    {
      (if x + 1 < n then [(1, 0)] else []) +
      (if x - 1 >= 0 then [(-1, 0)] else []) +
      (if y + 1 < n then [(0, 1)] else []) +
      (if y - 1 >= 0 then [(0, -1)] else [])
    }

    /** Directions lists its offsets in the fixed order (1,0), (-1,0), (0,1), (0,-1). */
    lemma DirectionsOrdered(n: int)
      ensures RankOrdered(Directions(n))
    {
      var east: seq<Offset> := if x + 1 < n then [(1, 0)] else [];
      var west: seq<Offset> := if x - 1 >= 0 then [(-1, 0)] else [];
      var south: seq<Offset> := if y + 1 < n then [(0, 1)] else [];
      var north: seq<Offset> := if y - 1 >= 0 then [(0, -1)] else [];
      RankOrderedConcat(east, west);
      RankOrderedConcat(east + west, south);
      RankOrderedConcat(east + west + south, north);
    }

    /** Weighted draw over the domain minus the combinations already tried here in
        this step (r is the random value drawn from [0, total weight)); the cell is
        then collapsed to the drawn tile and the draw is recorded in the snapshot. */
    method Collapse(cm: Snapshot, r: int) returns (chosen: TileId)
      requires DrawInRange(Untried(possibleTiles, cm.tried, x, y), r)
      modifies this`possibleTiles, this`collapsed, this`chosenTile, cm`tried
      ensures chosen == Pick(Untried(old(possibleTiles), old(cm.tried), x, y), r)
      ensures collapsed && possibleTiles == [chosen] && chosenTile == chosen
      ensures cm.tried == old(cm.tried) + [(chosen as int, x, y)]
      ensures Valid()
    {
      var tried := cm.tried;
      var candidates: seq<TileId> := [];
      var i := 0;
      while i < |possibleTiles|
        invariant 0 <= i <= |possibleTiles|
        invariant candidates == Untried(possibleTiles[..i], tried, x, y)
      {
        if (possibleTiles[i] as int, x, y) !in tried {
          candidates := candidates + [possibleTiles[i]];
        }
        assert possibleTiles[..i + 1][..i] == possibleTiles[..i];
        i := i + 1;
      }
      assert possibleTiles[..i] == possibleTiles;

      var weights: seq<int> := [];
      i := 0;
      while i < |candidates|
        invariant 0 <= i <= |candidates|
        invariant weights == WeightsOf(candidates[..i])
      {
        weights := weights + [Weight(candidates[i])];
        i := i + 1;
      }
      assert candidates[..i] == candidates;
      ghost var weightSum := Sum(weights);
      SumOfWeights(candidates);
      assert weightSum == TotalWeight(candidates);

      var randomSum := r;
      chosen := 0;
      i := 0;
      while i < |weights|
        invariant 0 <= i <= |weights| == |candidates|
        invariant Pick(candidates, r) == Pick(candidates[i..], randomSum)
      {
        randomSum := randomSum - weights[i];
        if randomSum <= 0 {
          chosen := candidates[i];
          break;
        }
        assert candidates[i..][1..] == candidates[i + 1..];
        i := i + 1;
      }
      assert chosen == Pick(candidates, r);

      collapsed := true;
      cm.TryTile(chosen, x, y);
      possibleTiles := [chosen];
      chosenTile := chosen;
    }

    /** One row of the scan in `constrain`, for neighbour tile nbrs[i]: the domain
        entries compatible with it that are not yet safe are appended to prev, the
        safe list left by nbrs[..i]. The scan stops (full) as soon as the safe list
        is as long as the domain, which then equals the filter over all of nbrs. */
    method ScanNeighbour(nbrs: seq<TileId>, i: nat, d: Offset, prev: seq<TileId>)
      returns (safe: seq<TileId>, full: bool)
      requires Valid() && i < |nbrs|
      requires prev == Survivors(possibleTiles, nbrs[..i], d)
      requires |prev| < |possibleTiles| || possibleTiles == []
      ensures NoDup(safe)
      ensures !full ==> safe == Survivors(possibleTiles, nbrs[..i + 1], d) &&
                        (|safe| < |possibleTiles| || possibleTiles == [])
      ensures full ==> safe == Survivors(possibleTiles, nbrs, d) && |safe| == |possibleTiles| > 0
    {
      var dom := possibleTiles;
      SurvivorsMembers(dom, nbrs[..i], d);
      safe, full := prev, false;
      var thisSide := SideOf(d);
      var oppositeSide := Opposite(thisSide);
      var j := 0;
      while j < |dom|
        invariant 0 <= j <= |dom|
        invariant NoDup(safe) && forall t :: t in safe ==> t in dom
        invariant safe == ScanRow(dom[..j], nbrs[i], d, prev)
        invariant |safe| < |dom| || dom == []
      {
        var t := dom[j];
        assert dom[..j + 1] == dom[..j] + [t];
        if EdgeCode(t, thisSide) == EdgeCode(nbrs[i], oppositeSide) &&
           !(BlackCode(t, thisSide) == BlackCode(nbrs[i], oppositeSide) && BlackCode(t, thisSide) != 0) &&
           t !in safe
        {
          safe := safe + [t];
          SubListCard(safe, dom);
          if |safe| == |dom| {
            EarlyStop(dom, nbrs, d, i, j);
            full := true;
            return;
          }
        }
        j := j + 1;
      }
      assert dom[..j] == dom;
      assert nbrs[..i + 1][..i] == nbrs[..i];
    }

    /** Arc consistency against one neighbour: keep the domain entries that some
        entry of the neighbour's domain nbrs is compatible with, the neighbour lying
        at offset -d (this cell is at offset d from it). Reports whether the domain
        may have changed: false exactly when a non-empty domain kept every entry. */
    method Constrain(nbrs: seq<TileId>, d: Offset) returns (constrained: bool)
      requires Valid()
      modifies this`possibleTiles
      ensures possibleTiles == Survivors(old(possibleTiles), nbrs, d)
      ensures !constrained <==> |old(possibleTiles)| > 0 && |possibleTiles| == |old(possibleTiles)|
      ensures Valid()
    {
      var safe: seq<TileId> := [];
      constrained := true;
      var i := 0;
      while i < |nbrs|
        invariant 0 <= i <= |nbrs| && possibleTiles == old(possibleTiles) && Valid()
        invariant NoDup(safe) && safe == Survivors(possibleTiles, nbrs[..i], d)
        invariant |safe| < |possibleTiles| || possibleTiles == []
      {
        var full;
        safe, full := ScanNeighbour(nbrs, i, d, safe);
        if full {
          constrained := false;
          break;
        }
        i := i + 1;
      }
      if constrained {
        assert nbrs[..i] == nbrs;
      }
      possibleTiles := safe;
    }

    method AddLevel()
      modifies this`level
      ensures level == old(level) + 1
    {
      level := level + 1;
    }

    method Raise()
      modifies this`hasBeenRaised
      ensures hasBeenRaised
    {
      hasBeenRaised := true;
    }
  }

  // ---------------------------------------------------------------------------
  // The grid

  type Grid = array2<Tile>

  ghost function TilesOf(g: Grid): set<Tile>
    reads g
  {
    set i, j | 0 <= i < g.Length0 && 0 <= j < g.Length1 :: g[i, j]
  }

  /** An N x N grid whose tile at (i, j) knows it is at (i, j), so no tile
      occurs twice. */
  ghost predicate Positioned(g: Grid)
    reads g
  {
    g.Length0 == MapSize && g.Length1 == MapSize &&
    forall i, j {:trigger g[i, j]} | InBounds(i, j) :: g[i, j].x == i && g[i, j].y == j
  }

  /** A placed grid whose every tile has a duplicate-free domain. */
  ghost predicate WellFormed(g: Grid)
    reads g, TilesOf(g)`possibleTiles
  {
    Positioned(g) && forall i, j {:trigger g[i, j]} | InBounds(i, j) :: g[i, j].Valid()
  }

  /** A grid value of N x N cells, the cell at (i, j) knowing its position. */
  ghost predicate GoodCells(cells: seq<seq<Cell>>)
  {
    |cells| == MapSize &&
    (forall i | 0 <= i < MapSize :: |cells[i]| == MapSize) &&
    forall i, j | InBounds(i, j) ::
      cells[i][j].x == i && cells[i][j].y == j && NoDup(cells[i][j].domain)
  }

  /** The live grid holds exactly the given cell values. */
  ghost predicate Matches(g: Grid, cells: seq<seq<Cell>>)
    reads g, TilesOf(g)
  {
    g.Length0 == MapSize && g.Length1 == MapSize &&
    |cells| == MapSize && (forall i | 0 <= i < MapSize :: |cells[i]| == MapSize) &&
    forall i, j | InBounds(i, j) :: g[i, j].Value() == cells[i][j]
  }

  // ---------------------------------------------------------------------------
  // History snapshots

  /** The state of the map at one step, kept for rollback: a deep copy of the grid
      (held as cell values, which nothing ever changes), the handle of the object
      placed at that step, how often the map was reverted to it, and the
      (tile, x, y) combinations tried when leaving it. */
  class Snapshot {
    const cells: seq<seq<Cell>>
    const placed: Handle
    var numTimesReverted: nat
    var tried: seq<Attempt>

    ghost predicate Valid()
    {
      GoodCells(cells)
    }

    /** Copies the grid cell by cell, so later changes to the live grid leave the
        snapshot alone. */
    constructor (g: Grid, h: Handle)
      requires WellFormed(g)
      ensures Valid() && Matches(g, cells)
      ensures placed == h && numTimesReverted == 0 && tried == []
    {
      var rows: seq<seq<Cell>> := [];
      var i := 0;
      while i < MapSize
        invariant 0 <= i <= MapSize && |rows| == i
        invariant forall a | 0 <= a < i :: |rows[a]| == MapSize
        invariant forall a, b | 0 <= a < i && 0 <= b < MapSize :: rows[a][b] == g[a, b].Value()
      {
        var row: seq<Cell> := [];
        var j := 0;
        while j < MapSize
          invariant 0 <= j <= MapSize && |row| == j
          invariant forall b | 0 <= b < j :: row[b] == g[i, b].Value()
        {
          row := row + [g[i, j].Value()];
          j := j + 1;
        }
        rows := rows + [row];
        i := i + 1;
      }
      cells := rows;
      placed := h;
      numTimesReverted := 0;
      tried := [];
    }

    /** A fresh grid of fresh tiles equal to the stored one. */
    method GetMapTileInfo() returns (g: Grid)
      requires Valid()
      ensures fresh(g) && WellFormed(g) && Matches(g, cells)
      ensures forall i, j | InBounds(i, j) :: fresh(g[i, j])
    {
      var filler := new Tile(0, 0);
      g := new Tile[MapSize, MapSize]((i, j) => filler);
      var i := 0;
      while i < MapSize
        invariant 0 <= i <= MapSize
        invariant forall a, b | 0 <= a < i && 0 <= b < MapSize ::
                    fresh(g[a, b]) && g[a, b].Valid() && g[a, b].Value() == cells[a][b]
      {
        var j := 0;
        while j < MapSize
          invariant 0 <= j <= MapSize
          invariant forall a, b | 0 <= a < i && 0 <= b < MapSize ::
                      fresh(g[a, b]) && g[a, b].Valid() && g[a, b].Value() == cells[a][b]
          invariant forall b | 0 <= b < j ::
                      fresh(g[i, b]) && g[i, b].Valid() && g[i, b].Value() == cells[i][b]
        {
          g[i, j] := new Tile.FromCell(cells[i][j]);
          j := j + 1;
        }
        i := i + 1;
      }
    }

    /** Marks this state as reverted to once more. */
    method RevertToThisState()
      modifies this`numTimesReverted
      ensures numTimesReverted == old(numTimesReverted) + 1
    {
      numTimesReverted := numTimesReverted + 1;
    }

    /** Records that tile index was tried at (x, y) when leaving this state. */
    method TryTile(index: int, x: int, y: int)
      modifies this`tried
      ensures tried == old(tried) + [(index, x, y)]
    {
      tried := tried + [(index, x, y)];
    }
  }
}
