/** The rule table of the tile catalog (TileRuleList).
    Every tile has four edge codes, four blacklist codes and a selection weight.
    Sides are numbered 0 = up, 1 = down, 2 = left, 3 = right; a grid offset
    (dx, dy) names the side of the FAR cell that faces the near one, and the
    near cell uses the opposite side. */
module TileRules {

  /** Number of different tiles in the catalog. */
  const NumTiles := 39

  type TileId = t: int | 0 <= t < NumTiles
  type Side = s: int | 0 <= s < 4

  /** A grid offset between two cells. */
  type Offset = (int, int)

  const Ground: TileId := 10
  const PathIntersection: TileId := 21
  const Tower: TileId := 22

  /** Selection weight of each tile, in catalog order. */
  const Weights: seq<int> := [
    4, 4, 4, 4,                  // cliff corners
    40, 40, 40, 40,              // cliffUp, cliffDown, cliffLeft, cliffRight
    25, 25,                      // flowers
    100,                         // ground
    1, 1, 1, 1, 1, 1, 1, 1,      // path corners and T-junctions
    40, 40,                      // pathHorizontal, pathVertical
    0,                           // pathIntersection
    4,                           // tower
    2, 2,                        // tower walls
    10, 10, 14, 14,              // trees
    2, 2, 2, 2, 2, 2, 2, 2,      // wall corners and crumbles
    20, 20                       // wallHorizontal, wallVertical
  ]

  /** Edge codes: 0 ground, 1 path, 2 wall, 3..6 the four cliff edges. */
  const Edges: seq<seq<int>> := [
    [0, 5, 0, 3], [0, 6, 3, 0], [5, 0, 0, 4], [6, 0, 4, 0],
    [0, 0, 3, 3], [0, 0, 4, 4], [5, 5, 0, 0], [6, 6, 0, 0],
    [0, 0, 0, 0], [0, 0, 0, 0], [0, 0, 0, 0],
    [1, 0, 1, 0], [1, 0, 0, 1], [0, 1, 1, 0], [0, 1, 0, 1],
    [1, 0, 1, 1], [0, 1, 1, 1], [1, 1, 1, 0], [1, 1, 0, 1],
    [0, 0, 1, 1], [1, 1, 0, 0], [1, 1, 1, 1],
    [0, 0, 0, 0], [0, 0, 2, 2], [2, 2, 0, 0],
    [0, 0, 0, 0], [0, 0, 0, 0], [0, 0, 0, 0], [0, 0, 0, 0],
    [2, 0, 2, 0], [2, 0, 0, 2], [0, 2, 2, 0], [0, 2, 0, 2],
    [0, 2, 0, 0], [2, 0, 0, 0], [0, 0, 0, 2], [0, 0, 2, 0],
    [0, 0, 2, 2], [2, 2, 0, 0]
  ]

  /** Blacklist codes: 0 neutral, 1 too big to be adjacent, 2 path edges,
      3 wall and cliff edges. Equal nonzero codes may not meet. */
  const BlackList: seq<seq<int>> := [
    [3, 0, 3, 0], [3, 0, 0, 3], [0, 3, 3, 0], [0, 3, 0, 3],
    [3, 0, 0, 0], [0, 3, 0, 0], [0, 0, 3, 0], [0, 0, 0, 3],
    [0, 0, 0, 0], [0, 0, 0, 0], [0, 0, 0, 0],
    [0, 2, 0, 2], [0, 2, 2, 0], [2, 0, 0, 2], [2, 0, 2, 0],
    [0, 2, 0, 0], [2, 0, 0, 0], [0, 0, 0, 2], [0, 0, 2, 0],
    [2, 2, 0, 0], [0, 0, 2, 2], [0, 0, 0, 0],
    [1, 1, 1, 1], [1, 1, 1, 1], [1, 1, 1, 1],
    [1, 1, 1, 1], [1, 1, 1, 1], [0, 0, 0, 0], [0, 0, 0, 0],
    [0, 3, 0, 3], [0, 3, 3, 0], [3, 0, 0, 3], [3, 0, 3, 0],
    [3, 0, 3, 3], [0, 3, 3, 3], [3, 3, 3, 0], [3, 3, 0, 3],
    [3, 3, 0, 0], [0, 0, 3, 3]
  ]

  /** The three tables have one entry per tile, and every row has four sides. */
  lemma TableShape()
    ensures |Weights| == NumTiles && |Edges| == NumTiles && |BlackList| == NumTiles
    ensures forall t: TileId :: |Edges[t]| == 4 && |BlackList[t]| == 4
  {
  }

  /** The weight of a tile: never negative, and zero only for the path intersection. */
  function Weight(t: TileId): (w: int)
    ensures w >= 0
    ensures w == 0 <==> t == PathIntersection
  {
    Weights[t]
  }

  /** The edge code of side s of tile t: a code in 0..6, and a cliff code
      (3 or more) only on the eight cliff tiles 0..7. */
  function EdgeCode(t: TileId, s: Side): (c: int)
    ensures 0 <= c <= 6
    ensures c >= 3 ==> t <= 7
  {
    Edges[t][s]
  }

  /** The blacklist code of side s of tile t: a code in 0..3. */
  function BlackCode(t: TileId, s: Side): (c: int)
    ensures 0 <= c <= 3
  {
    BlackList[t][s]
  }

  /** The side of the far cell that faces the near one, for the offset from
      the near cell to the far cell; any other offset falls back to side 0. */
  function SideOf(d: Offset): (s: Side)
    ensures d == (0, 1) ==> s == 0
    ensures d == (0, -1) ==> s == 1
    ensures d == (-1, 0) ==> s == 2
    ensures d == (1, 0) ==> s == 3
  {
    if d == (0, -1) then 1
    else if d == (-1, 0) then 2
    else if d == (1, 0) then 3
    else 0
  }

  /** The side facing back: up and down swap, left and right swap. */
  function Opposite(s: Side): (o: Side)
    ensures o != s
    ensures (s < 2) == (o < 2)
  {
    if s == 0 then 1
    else if s == 2 then 3
    else if s == 3 then 2
    else 0
  }

  /** Facing back twice returns the original side. */
  lemma OppositeInvolutive(s: Side)
    ensures Opposite(Opposite(s)) == s
  {
  }

  /** Side sa of tile a may touch side sb of tile b: equal edge codes, and
      blacklist codes that are not the same nonzero value. */
  predicate Fits(a: TileId, sa: Side, b: TileId, sb: Side)
  {
    EdgeCode(a, sa) == EdgeCode(b, sb) &&
    !(BlackCode(a, sa) == BlackCode(b, sb) && BlackCode(a, sa) != 0)
  }

  /** Tile far, lying at offset d from a cell holding tile near, is compatible with it. */
  predicate Compatible(far: TileId, near: TileId, d: Offset)
  {
    Fits(far, SideOf(d), near, Opposite(SideOf(d)))
  }

  /** The four unit offsets between neighbouring cells. */
  predicate IsUnit(d: Offset)
  {
    d == (1, 0) || d == (-1, 0) || d == (0, 1) || d == (0, -1)
  }

  function Neg(d: Offset): Offset
  {
    (-d.0, -d.1)
  }

  /** Compatibility is symmetric: seen from the other cell, across the reversed
      offset and with the two tiles swapped, the answer is the same. */
  lemma CompatibleSymmetric(a: TileId, b: TileId, d: Offset)
    requires IsUnit(d)
    ensures Compatible(a, b, d) <==> Compatible(b, a, Neg(d))
  {
    assert SideOf(Neg(d)) == Opposite(SideOf(d));
  }

  /** Ground has neutral edges and blacklist codes everywhere, so it fits beside
      itself in every direction. */
  lemma GroundFitsGround()
    ensures forall s: Side :: EdgeCode(Ground, s) == 0 && BlackCode(Ground, s) == 0
    ensures forall d: Offset :: Compatible(Ground, Ground, d)
  {
  }

  /** Towers have ground edges on every side but blacklist code 1 everywhere,
      so a tower is never placed beside a tower. */
  lemma TowerRejectsTower()
    ensures forall s: Side :: EdgeCode(Tower, s) == 0 && BlackCode(Tower, s) == 1
    ensures forall d: Offset :: !Compatible(Tower, Tower, d)
  {
  }
}
