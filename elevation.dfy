/** The elevation pass (raiseElevation): once the map is complete, the cliff
    tiles are gathered into connected cliff lines, and every cell lying behind a
    straight cliff, walking inward from it, is raised one level.
    The specifications read the grid through value views (the chosen tile, the
    raised flag and the level of every position), so that the properties are
    stated, and proved, over maps and sets rather than over the heap. */
module Elevation {
  import opened TileRules
  import opened Board

  /** A grid position (x, y). */
  type Pos = (int, int)

  function Step(p: Pos, d: Offset): Pos
  {
    (p.0 + d.0, p.1 + d.1)
  }

  /** The offset leading from `from` to `to`. */
  function Diff(to: Pos, from: Pos): Offset
  {
    (to.0 - from.0, to.1 - from.1)
  }

  predicate InGrid(p: Pos)
  {
    InBounds(p.0, p.1)
  }

  /** All positions of the map, row by row. */
  function Cells(): seq<Pos>
  {
    seq(MapSize * MapSize, k => (k / MapSize, k % MapSize))
  }

  lemma InCells(p: Pos)
    requires InGrid(p)
    ensures p in Cells()
  {
    var k := p.0 * MapSize + p.1;
    assert k / MapSize == p.0 && k % MapSize == p.1;
    assert Cells()[k] == p;
  }

  function Members(s: seq<Pos>): set<Pos>
  {
    set p | p in s
  }

  predicate Square(g: Grid)
  {
    g.Length0 == MapSize && g.Length1 == MapSize
  }

  // ---------------------------------------------------------------------------
  // Views of the grid

  /** The chosen tile of every position. */
  ghost function ChosenView(g: Grid): (v: map<Pos, TileId>)
    requires Square(g)
    reads g, TilesOf(g)`chosenTile
  {
    map p | p in Cells() :: g[p.0, p.1].chosenTile
  }

  /** The positions whose tile is marked raised. */
  ghost function RaisedSet(g: Grid): (r: set<Pos>)
    requires Square(g)
    reads g, TilesOf(g)`hasBeenRaised
  {
    set p | p in Cells() && g[p.0, p.1].hasBeenRaised
  }

  /** The level of every position. */
  ghost function LevelView(g: Grid): (v: map<Pos, nat>)
    requires Square(g)
    reads g, TilesOf(g)`level
  {
    map p | p in Cells() :: g[p.0, p.1].level
  }

  // ---------------------------------------------------------------------------
  // Cliff lines

  /** Side s of tile t is the side of a cliff: a cliff tile (0..7) with a cliff edge code there. */
  predicate FacesCliff(t: TileId, s: Side)
  {
    t <= 7 && EdgeCode(t, s) >= 3
  }

  /** The side of a neighbour that faces the current cell, computed as the
      elevation pass computes it; on the four neighbour offsets it agrees with
      the side the rule table uses. */
  function FacingEdge(d: Offset): (s: Side)
    ensures IsUnit(d) ==> s == SideOf(d)
  {
    if d == (0, 1) then 0
    else if d == (1, 0) then 3
    else if d == (-1, 0) then 2
    else 1
  }

  /** Cell `to` continues the cliff line from its neighbour `from`: it holds a
      cliff tile whose edge facing `from` is a cliff edge. */
  predicate Continues(v: map<Pos, TileId>, from: Pos, to: Pos)
  {
    InGrid(to) && to in v && IsUnit(Diff(to, from)) && FacesCliff(v[to], SideOf(Diff(to, from)))
  }

  /** The neighbours of c, along the offsets ds in order, that continue the
      cliff line from c and are not in the raised set r. */
  function Joining(v: map<Pos, TileId>, r: set<Pos>, c: Pos, ds: seq<Offset>): seq<Pos>
  {
    if ds == [] then []
    else
      var q := Step(c, ds[|ds| - 1]);
      Joining(v, r, c, ds[..|ds| - 1]) + (if Continues(v, c, q) && q !in r then [q] else [])
  }

  /** A neighbour is listed exactly when its offset is among ds, it continues the
      line and it is not raised. */
  lemma {:induction false} JoiningMembers(v: map<Pos, TileId>, r: set<Pos>, c: Pos, ds: seq<Offset>)
    ensures forall q :: q in Joining(v, r, c, ds) <==> Diff(q, c) in ds && Continues(v, c, q) && q !in r
  {
    if ds != [] {
      var last := ds[|ds| - 1];
      JoiningMembers(v, r, c, ds[..|ds| - 1]);
      assert ds == ds[..|ds| - 1] + [last];
      forall q
        ensures q in Joining(v, r, c, ds) <==> Diff(q, c) in ds && Continues(v, c, q) && q !in r
      {
        assert Diff(q, c) == last <==> q == Step(c, last);
      }
    }
  }

  lemma JoiningStep(v: map<Pos, TileId>, r: set<Pos>, c: Pos, ds: seq<Offset>, j: int, found: seq<Pos>, joins: bool)
    requires 0 <= j < |ds| && found == Joining(v, r, c, ds[..j])
    requires joins <==> Continues(v, c, Step(c, ds[j])) && Step(c, ds[j]) !in r
    ensures found + (if joins then [Step(c, ds[j])] else []) == Joining(v, r, c, ds[..j + 1])
  {
    assert ds[..j + 1][..j] == ds[..j];
  }

  /** When ds holds every offset leading to a cell of the map, the listed
      neighbours are exactly those that continue the line and are not raised. */
  lemma JoiningExactly(v: map<Pos, TileId>, r: set<Pos>, t: Tile)
    ensures forall q :: q in Joining(v, r, (t.x, t.y), t.Directions(MapSize)) <==> Continues(v, (t.x, t.y), q) && q !in r
  {
    JoiningMembers(v, r, (t.x, t.y), t.Directions(MapSize));
  }

  /** The seed comes first, and every later entry is a cell of the map that
      continues the line from an earlier entry and was not marked at the start (r0). */
  ghost predicate Listed(v: map<Pos, TileId>, r0: set<Pos>, line: seq<Pos>, seed: Pos)
  {
    |line| >= 1 && line[0] == seed && InGrid(seed) &&
    forall k | 1 <= k < |line| :: line[k] !in r0 && exists p :: 0 <= p < k && Continues(v, line[p], line[k])
  }

  /** Every cell that continues the line from one of the first i entries is
      listed or was marked at the start. */
  ghost predicate Closed(v: map<Pos, TileId>, r0: set<Pos>, line: seq<Pos>, i: int)
    requires 0 <= i <= |line|
  {
    forall k, q | 0 <= k < i && Continues(v, line[k], q) :: q in line || q in r0
  }

  /** Appending cells that continue the line from an entry and were not marked
      at the start keeps the line well formed. */
  lemma ListedAppend(v: map<Pos, TileId>, r0: set<Pos>, line: seq<Pos>, seed: Pos, i: int, found: seq<Pos>)
    requires Listed(v, r0, line, seed) && 0 <= i < |line|
    requires forall q | q in found :: Continues(v, line[i], q) && q !in r0
    ensures Listed(v, r0, line + found, seed)
  {
    var line' := line + found;
    forall k | 1 <= k < |line'|
      ensures line'[k] !in r0 && exists p :: 0 <= p < k && Continues(v, line'[p], line'[k])
    {
      if k < |line| {
        var p :| 0 <= p < k && Continues(v, line[p], line[k]);
        assert line'[p] == line[p];
      } else {
        assert line'[k] in found;
        assert line'[i] == line[i];
      }
    }
  }

  /** Visiting entry i and appending every cell that continues the line from it
      and is not marked extends the closure to the first i + 1 entries. */
  lemma ClosedStep(v: map<Pos, TileId>, r0: set<Pos>, raised: set<Pos>, line: seq<Pos>, i: int, found: seq<Pos>)
    requires 0 <= i < |line| && Closed(v, r0, line, i) && raised == r0 + Members(line[..i])
    requires forall q | Continues(v, line[i], q) && q !in raised + {line[i]} :: q in found
    ensures Closed(v, r0, line + found, i + 1)
  {
    var line' := line + found;
    forall k, q | 0 <= k < i + 1 && Continues(v, line'[k], q)
      ensures q in line' || q in r0
    {
      assert line'[k] == line[k];
      if k < i {
        assert q in line || q in r0;
      } else if q in raised {
        assert q in line[..i] || q in r0;
      }
    }
  }

  /** After visiting entry i, the marked cells are those marked at the start and
      the first i + 1 entries; either a new cell got marked, or the entries still
      to visit hold fewer marked cells. */
  lemma MarkedStep(r0: set<Pos>, raised: set<Pos>, line: seq<Pos>, i: int, found: seq<Pos>)
    requires 0 <= i < |line| && InGrid(line[i]) && raised == r0 + Members(line[..i])
    requires forall q | q in found :: q !in raised + {line[i]}
    ensures raised + {line[i]} == r0 + Members((line + found)[..i + 1])
    ensures line[i] !in raised ==> Unmarked(raised + {line[i]}) < Unmarked(raised)
    ensures line[i] in raised ==>
              raised + {line[i]} == raised &&
              CountIn(raised, (line + found)[i + 1..]) < CountIn(raised, line[i..])
  {
    assert (line + found)[..i + 1] == line[..i] + [line[i]];
    VisitShrinks(raised, line, i, found);
  }

  /** Visiting entry i and appending only unmarked cells either marks one more
      cell of the map or leaves fewer marked entries to visit. */
  lemma VisitShrinks(raised: set<Pos>, line: seq<Pos>, i: int, found: seq<Pos>)
    requires 0 <= i < |line| && InGrid(line[i])
    requires forall q | q in found :: q !in raised + {line[i]}
    ensures line[i] !in raised ==> Unmarked(raised + {line[i]}) < Unmarked(raised)
    ensures line[i] in raised ==>
              raised + {line[i]} == raised &&
              CountIn(raised, (line + found)[i + 1..]) < CountIn(raised, line[i..])
  {
    var c := line[i];
    if c !in raised {
      InCells(c);
      CountOutShrinks(raised, c, Cells());
    } else {
      assert line[i..] == [c] + line[i + 1..];
      assert (line + found)[i + 1..] == line[i + 1..] + found;
      CountInConcat(raised, line[i + 1..], found);
      forall k | 0 <= k < |found|
        ensures found[k] !in raised
      {
        assert found[k] in found;
      }
      CountInNone(raised, found);
    }
  }

  /** The neighbours a visit of tile t lists are cells of the map outside r. */
  lemma JoiningFacts(v: map<Pos, TileId>, r: set<Pos>, t: Tile)
    requires InGrid((t.x, t.y))
    ensures forall q | q in Joining(v, r, (t.x, t.y), t.Directions(MapSize)) :: InGrid(q) && q !in r
  {
    var c, ds := (t.x, t.y), t.Directions(MapSize);
    JoiningMembers(v, r, c, ds);
    forall q | q in Joining(v, r, c, ds)
      ensures InGrid(q)
    {
      var k :| 0 <= k < |ds| && ds[k] == Diff(q, c);
      assert 0 <= t.x + ds[k].0 < MapSize && 0 <= t.y + ds[k].1 < MapSize;
    }
  }

  /** The cliff line the search lists, going on from entry i when the cells in r
      are marked: each entry, in list order, is marked and then followed by its
      unmarked neighbours that continue the line, in the order of its
      directions. A cell listed but not yet visited is not marked, so it may be
      listed again. */
  ghost function Search(g: Grid, v: map<Pos, TileId>, r: set<Pos>, line: seq<Pos>, i: nat): seq<Pos>
    requires Positioned(g) && AllInGrid(line) && i <= |line|
    reads g
    decreases Unmarked(r), CountIn(r, line[i..])
  {
    if i == |line| then line
    else
      var c := line[i];
      var found := Joining(v, r + {c}, c, g[c.0, c.1].Directions(MapSize));
      JoiningFacts(v, r + {c}, g[c.0, c.1]);
      VisitShrinks(r, line, i, found);
      Search(g, v, r + {c}, line + found, i + 1)
  }

  /** One visit of the search: entry i is marked and its joining neighbours are
      appended. */
  lemma SearchStep(g: Grid, v: map<Pos, TileId>, r: set<Pos>, line: seq<Pos>, i: nat, found: seq<Pos>)
    requires Positioned(g) && AllInGrid(line) && i < |line|
    requires found == Joining(v, r + {line[i]}, line[i], g[line[i].0, line[i].1].Directions(MapSize))
    ensures AllInGrid(line + found)
    ensures Search(g, v, r, line, i) == Search(g, v, r + {line[i]}, line + found, i + 1)
  {
    JoiningFacts(v, r + {line[i]}, g[line[i].0, line[i].1]);
  }

  /** The number of entries of s that lie outside u. */
  function CountOut(u: set<Pos>, s: seq<Pos>): nat
  {
    if s == [] then 0 else (if s[0] in u then 0 else 1) + CountOut(u, s[1..])
  }

  /** Adding a cell to u never raises the count, and adding an entry of s
      that was outside u lowers it. */
  lemma {:induction false} CountOutShrinks(u: set<Pos>, c: Pos, s: seq<Pos>)
    ensures CountOut(u + {c}, s) <= CountOut(u, s)
    ensures c !in u && c in s ==> CountOut(u + {c}, s) < CountOut(u, s)
  {
    if s != [] {
      CountOutShrinks(u, c, s[1..]);
      if s[0] != c {
        assert c in s ==> c in s[1..];
      }
    }
  }

  /** The number of cells of the map not marked. */
  function Unmarked(raised: set<Pos>): nat
  {
    CountOut(raised, Cells())
  }

  /** Every entry is a cell of the map. */
  ghost predicate AllInGrid(s: seq<Pos>)
  {
    forall k | 0 <= k < |s| :: InGrid(s[k])
  }

  /** The working list of the inward walks from the straight cliffs: first
      the seeds with their back directions, then cells each reached by one step
      from an earlier entry in that entry's direction, keeping that direction,
      and not listed before. */
  ghost predicate Walking(v: map<Pos, TileId>, seeds: seq<Pos>, list: seq<Pos>, dirs: seq<Offset>)
  {
    SeedPrefix(v, seeds, list, dirs) && FreshFrom(list, |seeds|) && ReachedFrom(list, dirs, |seeds|)
  }

  /** The list starts with the seeds, each with the back of its cliff as direction. */
  ghost predicate SeedPrefix(v: map<Pos, TileId>, seeds: seq<Pos>, list: seq<Pos>, dirs: seq<Offset>)
  {
    |dirs| == |list| && |seeds| <= |list| &&
    forall k | 0 <= k < |seeds| ::
      list[k] == seeds[k] && seeds[k] in v && IsStraightCliff(v[seeds[k]]) && dirs[k] == BackOf(v[seeds[k]])
  }

  /** From entry m on, no entry repeats an earlier one. */
  ghost predicate FreshFrom(list: seq<Pos>, m: int)
  {
    forall k | 0 <= m <= k < |list| :: FreshAt(list, k)
  }

  /** Entry k differs from every earlier entry. */
  ghost predicate FreshAt(list: seq<Pos>, k: int)
    requires 0 <= k < |list|
  {
    forall p | 0 <= p < k :: list[p] != list[k]
  }

  /** From entry m on, every entry is one step from an earlier entry, in that
      entry's direction, and keeps it. */
  ghost predicate ReachedFrom(list: seq<Pos>, dirs: seq<Offset>, m: int)
    requires |dirs| == |list|
  {
    forall k | 0 <= m <= k < |list| :: ReachedAt(list, dirs, k)
  }

  /** Entry k is one step from an earlier entry, in that entry's direction, and keeps it. */
  ghost predicate ReachedAt(list: seq<Pos>, dirs: seq<Offset>, k: int)
    requires 0 <= k < |list| == |dirs|
  {
    exists p :: 0 <= p < k && list[k] == Step(list[p], dirs[p]) && dirs[k] == dirs[p]
  }

  /** The first i entries have their next cell listed. */
  ghost predicate Extended(list: seq<Pos>, dirs: seq<Offset>, i: int)
    requires 0 <= i <= |list| == |dirs|
  {
    forall k | 0 <= k < i :: Step(list[k], dirs[k]) in list
  }

  /** The number of cells of the map the list does not hold. */
  function Unlisted(list: seq<Pos>): nat
  {
    CountOut(Members(list), Cells())
  }

  /** Appending the next cell of entry i, when it is not listed, keeps the walk
      well formed. */
  lemma WalkAppend(v: map<Pos, TileId>, seeds: seq<Pos>, list: seq<Pos>, dirs: seq<Offset>, i: int)
    requires Walking(v, seeds, list, dirs) && 0 <= i < |list|
    requires Step(list[i], dirs[i]) !in list
    ensures Walking(v, seeds, list + [Step(list[i], dirs[i])], dirs + [dirs[i]])
  {
    var q := Step(list[i], dirs[i]);
    var list', dirs' := list + [q], dirs + [dirs[i]];
    assert SeedPrefix(v, seeds, list', dirs') by {
      assert forall k | 0 <= k < |list| :: list'[k] == list[k] && dirs'[k] == dirs[k];
    }
    FreshAppend(list, |seeds|, q);
    ReachedAppend(list, dirs, |seeds|, i);
  }

  lemma FreshAppend(list: seq<Pos>, m: int, q: Pos)
    requires FreshFrom(list, m) && q !in list
    ensures FreshFrom(list + [q], m)
  {
    var list' := list + [q];
    forall k | 0 <= m <= k < |list'|
      ensures FreshAt(list', k)
    {
      if k < |list| {
        assert FreshAt(list, k);
        assert list'[..k + 1] == list[..k + 1];
      } else {
        forall p | 0 <= p < k
          ensures list'[p] != list'[k]
        {
          assert list'[p] == list[p] && list[p] in list;
        }
      }
    }
  }

  lemma ReachedAppend(list: seq<Pos>, dirs: seq<Offset>, m: int, i: int)
    requires |dirs| == |list| && ReachedFrom(list, dirs, m) && 0 <= i < |list|
    ensures ReachedFrom(list + [Step(list[i], dirs[i])], dirs + [dirs[i]], m)
  {
    var list', dirs' := list + [Step(list[i], dirs[i])], dirs + [dirs[i]];
    forall k | 0 <= m <= k < |list'|
      ensures ReachedAt(list', dirs', k)
    {
      if k < |list| {
        assert ReachedAt(list, dirs, k);
        var p :| 0 <= p < k && list[k] == Step(list[p], dirs[p]) && dirs[k] == dirs[p];
        assert list'[p] == list[p] && dirs'[p] == dirs[p];
      } else {
        assert list'[i] == list[i] && dirs'[i] == dirs[i];
      }
    }
  }

  /** Appending the next cell of entry i lists the next cells of the first
      i + 1 entries, and, when that cell lies on the map, lists one more cell of it. */
  lemma ListedAppendStep(list: seq<Pos>, dirs: seq<Offset>, i: int)
    requires 0 <= i < |list| == |dirs| && Extended(list, dirs, i)
    requires AllInGrid(list) && InGrid(Step(list[i], dirs[i])) && Step(list[i], dirs[i]) !in list
    ensures Extended(list + [Step(list[i], dirs[i])], dirs + [dirs[i]], i + 1)
    ensures AllInGrid(list + [Step(list[i], dirs[i])])
    ensures Unlisted(list + [Step(list[i], dirs[i])]) < Unlisted(list)
  {
    var q := Step(list[i], dirs[i]);
    var list', dirs' := list + [q], dirs + [dirs[i]];
    forall k | 0 <= k < i + 1
      ensures Step(list'[k], dirs'[k]) in list'
    {
      assert list'[k] == list[k] && dirs'[k] == dirs[k];
      if k < i {
        assert Step(list[k], dirs[k]) in list;
      }
    }
    UnlistedShrinks(list, q);
  }

  /** Listing one more cell of the map lowers the number of unlisted cells. */
  lemma UnlistedShrinks(list: seq<Pos>, q: Pos)
    requires InGrid(q) && q !in list
    ensures Unlisted(list + [q]) < Unlisted(list)
  {
    InCells(q);
    assert Members(list + [q]) == Members(list) + {q};
    CountOutShrinks(Members(list), q, Cells());
  }

  /** The outcome of the walks, going on from entry i of the working list: in
      list order, each entry's next cell in its direction is skipped when the
      list holds it already, stops the pass (false) when it lies off the map,
      and is otherwise appended with the same direction. So where two walks
      meet, the cell goes to the entry that comes first in the list. */
  ghost function Walk(list: seq<Pos>, dirs: seq<Offset>, i: nat): (bool, seq<Pos>, seq<Offset>)
    requires i <= |list| == |dirs|
    decreases Unlisted(list), |list| - i
  {
    if i == |list| then (true, list, dirs)
    else
      var q := Step(list[i], dirs[i]);
      if q in list then Walk(list, dirs, i + 1)
      else if !InGrid(q) then (false, list, dirs)
      else
        UnlistedShrinks(list, q);
        Walk(list + [q], dirs + [dirs[i]], i + 1)
  }

  /** One step of the walks: entry i's next cell is skipped, stops the pass, or
      is appended. */
  lemma WalkNext(list: seq<Pos>, dirs: seq<Offset>, i: nat)
    requires i < |list| == |dirs|
    ensures var q := Step(list[i], dirs[i]);
            Walk(list, dirs, i) ==
              if q in list then Walk(list, dirs, i + 1)
              else if !InGrid(q) then (false, list, dirs)
              else Walk(list + [q], dirs + [dirs[i]], i + 1)
  {
  }

  /** Two walks with the same seeds start with the same directions. */
  lemma SeedDirsFixed(v: map<Pos, TileId>, seeds: seq<Pos>, list: seq<Pos>, dirs: seq<Offset>, sd: seq<Offset>)
    requires SeedPrefix(v, seeds, list, dirs) && SeedPrefix(v, seeds, seeds, sd)
    ensures dirs[..|seeds|] == sd
  {
  }

  /** When the next cell of entry i is already listed, the first i + 1 entries
      have their next cell listed. */
  lemma ExtendedStep(list: seq<Pos>, dirs: seq<Offset>, i: int)
    requires 0 <= i < |list| == |dirs| && Extended(list, dirs, i)
    requires Step(list[i], dirs[i]) in list
    ensures Extended(list, dirs, i + 1)
  {
  }

  /** The seeds with their back directions start a well-formed walk. */
  lemma SeedsWalking(v: map<Pos, TileId>, line: seq<Pos>, seeds: seq<Pos>, backs: seq<Offset>)
    requires AllInGrid(line)
    requires seeds == Seeds(v, line) && |backs| == |seeds|
    requires forall k | 0 <= k < |seeds| :: backs[k] == BackOf(v[seeds[k]])
    ensures Walking(v, seeds, seeds, backs) && AllInGrid(seeds)
  {
  }

  /** Listing one more cell, not listed before, adds one level there. */
  lemma BumpedSnoc(levels: map<Pos, nat>, walked: seq<Pos>, p: Pos)
    requires p in levels && p !in walked
    ensures Bumped(levels, walked + [p]) == Bumped(levels, walked)[p := Bumped(levels, walked)[p] + 1]
  {
  }

  /** The state of the walks once the first i entries of the working list are
      handled: a well-formed walk of cells of the map, the next cell of each
      handled entry listed, and the levels (now) those at the start plus one on
      every cell appended after the seeds. */
  ghost predicate WalkState(v: map<Pos, TileId>, seeds: seq<Pos>, walked: seq<Pos>, levels: map<Pos, nat>,
                            list: seq<Pos>, dirs: seq<Offset>, i: int, now: map<Pos, nat>)
  {
    Walking(v, seeds, list, dirs) && AllInGrid(list) && 0 <= i <= |list| && Extended(list, dirs, i) &&
    list == seeds + walked && now == Bumped(levels, walked)
  }

  /** Handling entry i whose next cell is listed already. */
  lemma WalkSkip(v: map<Pos, TileId>, seeds: seq<Pos>, walked: seq<Pos>, levels: map<Pos, nat>,
                 list: seq<Pos>, dirs: seq<Offset>, i: int, now: map<Pos, nat>)
    requires WalkState(v, seeds, walked, levels, list, dirs, i, now) && i < |list|
    requires Step(list[i], dirs[i]) in list
    ensures WalkState(v, seeds, walked, levels, list, dirs, i + 1, now)
  {
  }

  /** Handling entry i whose next cell q is a cell of the map not listed yet:
      q is appended with the same direction and gains one level. */
  lemma WalkGrow(v: map<Pos, TileId>, seeds: seq<Pos>, walked: seq<Pos>, levels: map<Pos, nat>,
                 list: seq<Pos>, dirs: seq<Offset>, i: int, now: map<Pos, nat>)
    requires WalkState(v, seeds, walked, levels, list, dirs, i, now) && i < |list|
    requires InGrid(Step(list[i], dirs[i])) && Step(list[i], dirs[i]) !in list
    requires Step(list[i], dirs[i]) in levels
    ensures var q := Step(list[i], dirs[i]);
            q in now &&
            WalkState(v, seeds, walked + [q], levels, list + [q], dirs + [dirs[i]], i + 1, now[q := now[q] + 1]) &&
            Unlisted(list + [q]) < Unlisted(list)
  {
    var q := Step(list[i], dirs[i]);
    var list', dirs' := list + [q], dirs + [dirs[i]];
    var m := |seeds|;
    assert Walking(v, seeds, list', dirs') by {
      WalkAppend(v, seeds, list, dirs, i);
    }
    assert AllInGrid(list') && Extended(list', dirs', i + 1) && Unlisted(list') < Unlisted(list) by {
      ListedAppendStep(list, dirs, i);
    }
    assert list' == seeds + (walked + [q]);
    assert now[q := now[q] + 1] == Bumped(levels, walked + [q]) by {
      assert q !in walked by {
        forall k | 0 <= k < |walked|
          ensures walked[k] != q
        {
          assert list[|seeds| + k] == walked[k];
        }
      }
      BumpedSnoc(levels, walked, q);
    }
  }

  /** The number of entries of s that lie in u. */
  function CountIn(u: set<Pos>, s: seq<Pos>): nat
  {
    if s == [] then 0 else (if s[0] in u then 1 else 0) + CountIn(u, s[1..])
  }

  lemma {:induction false} CountInConcat(u: set<Pos>, a: seq<Pos>, b: seq<Pos>)
    ensures CountIn(u, a + b) == CountIn(u, a) + CountIn(u, b)
  {
    if a == [] {
      assert a + b == b;
    } else {
      assert (a + b)[0] == a[0] && (a + b)[1..] == a[1..] + b;
      CountInConcat(u, a[1..], b);
    }
  }

  lemma {:induction false} CountInNone(u: set<Pos>, s: seq<Pos>)
    requires forall k | 0 <= k < |s| :: s[k] !in u
    ensures CountIn(u, s) == 0
  {
    if s != [] {
      CountInNone(u, s[1..]);
    }
  }

  // ---------------------------------------------------------------------------
  // Raising behind straight cliffs

  /** The straight cliffs cliffUp, cliffDown, cliffLeft and cliffRight (tiles 4..7). */
  predicate IsStraightCliff(t: TileId)
  {
    4 <= t <= 7
  }

  /** The back of each straight cliff, in tile order: the direction of the high ground. */
  const CliffBacks: seq<Offset> := [(0, 1), (0, -1), (-1, 0), (1, 0)]

  /** The back of a straight cliff is one of the four neighbour offsets. */
  function BackOf(t: TileId): (d: Offset)
    requires IsStraightCliff(t)
    ensures IsUnit(d)
  {
    CliffBacks[t - 4]
  }

  /** The straight-cliff entries of a cliff line, in order: where the inward walks start. */
  function Seeds(v: map<Pos, TileId>, line: seq<Pos>): (s: seq<Pos>)
    ensures forall k | 0 <= k < |s| :: s[k] in line && s[k] in v && IsStraightCliff(v[s[k]])
    ensures |s| <= |line|
  {
    if line == [] then []
    else
      var last := line[|line| - 1];
      Seeds(v, line[..|line| - 1]) + (if last in v && IsStraightCliff(v[last]) then [last] else [])
  }

  /** Every straight-cliff entry of the line is a seed. */
  lemma {:induction false} SeedsComplete(v: map<Pos, TileId>, line: seq<Pos>)
    ensures forall k | 0 <= k < |line| && line[k] in v && IsStraightCliff(v[line[k]]) :: line[k] in Seeds(v, line)
  {
    if line != [] {
      var init := line[..|line| - 1];
      SeedsComplete(v, init);
      forall k | 0 <= k < |line| && line[k] in v && IsStraightCliff(v[line[k]])
        ensures line[k] in Seeds(v, line)
      {
        if k < |line| - 1 {
          assert line[k] == init[k];
        }
      }
    }
  }

  /** The levels after one more level on every position the walks reached. */
  function Bumped(levels: map<Pos, nat>, walked: seq<Pos>): (r: map<Pos, nat>)
    ensures r.Keys == levels.Keys
  {
    map p | p in levels :: levels[p] + (if p in walked then 1 else 0)
  }

  /** Within one pass the seeds are never walked over again, so their levels do
      not change, and every other position rises by at most one level. */
  lemma WalkLevels(v: map<Pos, TileId>, seeds: seq<Pos>, list: seq<Pos>, dirs: seq<Offset>, levels: map<Pos, nat>)
    requires Walking(v, seeds, list, dirs)
    ensures forall k | 0 <= k < |seeds| && seeds[k] in levels ::
              Bumped(levels, list[|seeds|..])[seeds[k]] == levels[seeds[k]]
    ensures forall p | p in levels :: levels[p] <= Bumped(levels, list[|seeds|..])[p] <= levels[p] + 1
  {
    var walked := list[|seeds|..];
    forall k | 0 <= k < |seeds| && seeds[k] in levels
      ensures seeds[k] !in walked
    {
      forall j | 0 <= j < |walked|
        ensures walked[j] != seeds[k]
      {
        assert FreshAt(list, |seeds| + j);
        assert list[k] == seeds[k] && walked[j] == list[|seeds| + j];
      }
    }
  }

  class RaiseElevation {
    const grid: Grid

    constructor (g: Grid)
      ensures grid == g
    {
      grid := g;
    }

    /** Whether the neighbour at offset d from c joins the cliff line of c. */
    function JoinsAt(c: Pos, d: Offset): (joins: bool)
      requires Square(grid) && IsUnit(d) && InGrid(Step(c, d))
      reads grid, TilesOf(grid)`chosenTile, TilesOf(grid)`hasBeenRaised
      ensures joins <==> Continues(ChosenView(grid), c, Step(c, d)) && Step(c, d) !in RaisedSet(grid)
    {
      InCells(Step(c, d));
      var neighborTile := grid[c.0 + d.0, c.1 + d.1];
      var edgeDirection := FacingEdge(d);
      neighborTile.chosenTile <= 7 && EdgeCode(neighborTile.chosenTile, edgeDirection) >= 3 &&
      !neighborTile.hasBeenRaised
    }

    /** Marks the tile at c raised; no other flag and no tile changes. */
    method MarkRaised(c: Pos)
      requires Positioned(grid) && InGrid(c)
      modifies {grid[c.0, c.1]}`hasBeenRaised
      ensures ChosenView(grid) == old(ChosenView(grid))
      ensures RaisedSet(grid) == old(RaisedSet(grid)) + {c}
    {
      InCells(c);
      grid[c.0, c.1].Raise();
      assert RaisedSet(grid) == old(RaisedSet(grid)) + {c};
    }

    /** The neighbours of c that continue its cliff line and are not marked, listed
        in the order of Directions. */
    method JoiningCells(c: Pos) returns (found: seq<Pos>)
      requires Positioned(grid) && InGrid(c)
      ensures found == Joining(ChosenView(grid), RaisedSet(grid), c, grid[c.0, c.1].Directions(MapSize))
      ensures forall q :: q in found <==> Continues(ChosenView(grid), c, q) && q !in RaisedSet(grid)
    {
      InCells(c);
      found := [];
      var directions := grid[c.0, c.1].Directions(MapSize);
      var j := 0;
      while j < |directions|
        invariant 0 <= j <= |directions|
        invariant found == Joining(ChosenView(grid), RaisedSet(grid), c, directions[..j])
      {
        var joins := JoinsAt(c, directions[j]);
        JoiningStep(ChosenView(grid), RaisedSet(grid), c, directions, j, found, joins);
        if joins {
          found := found + [Step(c, directions[j])];
        }
        j := j + 1;
      }
      assert directions[..j] == directions;
      JoiningExactly(ChosenView(grid), RaisedSet(grid), grid[c.0, c.1]);
    }

    /** One visit of the cliff-line search: mark c raised, then list, in the
        order of Directions, its neighbours that continue the line and are not
        marked. */
    method Visit(c: Pos) returns (found: seq<Pos>)
      requires Positioned(grid) && InGrid(c)
      modifies {grid[c.0, c.1]}`hasBeenRaised
      ensures ChosenView(grid) == old(ChosenView(grid))
      ensures RaisedSet(grid) == old(RaisedSet(grid)) + {c}
      ensures found == Joining(ChosenView(grid), RaisedSet(grid), c, grid[c.0, c.1].Directions(MapSize))
      ensures forall q :: q in found <==> Continues(ChosenView(grid), c, q) && q !in RaisedSet(grid)
    {
      MarkRaised(c);
      found := JoiningCells(c);
    }

    /** Collects the cliff line through (x, y): starting there, every cell in the
        list is marked raised and its neighbours that join the line are appended.
        The list may hold a cell twice when two entries reach it before it is
        visited. The result is the seed followed by cells that each continue the
        line from an earlier entry and were not marked before; it is closed (every
        cell continuing the line from an entry is listed or was marked before),
        and the cells marked afterwards are those marked before plus the listed ones. */
    method FindCliffLine(x: int, y: int) returns (cliffLine: seq<Pos>)
      requires Positioned(grid) && InBounds(x, y)
      modifies TilesOf(grid)`hasBeenRaised
      ensures Positioned(grid) && ChosenView(grid) == old(ChosenView(grid))
      ensures Listed(ChosenView(grid), old(RaisedSet(grid)), cliffLine, (x, y))
      ensures Closed(ChosenView(grid), old(RaisedSet(grid)), cliffLine, |cliffLine|)
      ensures RaisedSet(grid) == old(RaisedSet(grid)) + Members(cliffLine)
      ensures cliffLine == Search(grid, ChosenView(grid), old(RaisedSet(grid)), [(x, y)], 0)
    {
      ghost var v := ChosenView(grid);
      ghost var r0 := RaisedSet(grid);
      cliffLine := [(x, y)];
      var i := 0;
      assert cliffLine[..0] == [];
      while i < |cliffLine|
        invariant Positioned(grid) && ChosenView(grid) == v
        invariant 0 <= i <= |cliffLine| && Listed(v, r0, cliffLine, (x, y)) && Closed(v, r0, cliffLine, i)
        invariant RaisedSet(grid) == r0 + Members(cliffLine[..i])
        invariant AllInGrid(cliffLine)
        invariant Search(grid, v, RaisedSet(grid), cliffLine, i) == Search(grid, v, r0, [(x, y)], 0)
        decreases Unmarked(RaisedSet(grid)), CountIn(RaisedSet(grid), cliffLine[i..])
      {
        ghost var before := RaisedSet(grid);
        var found := Visit(cliffLine[i]);
        SearchStep(grid, v, before, cliffLine, i, found);
        ListedAppend(v, r0, cliffLine, (x, y), i, found);
        ClosedStep(v, r0, before, cliffLine, i, found);
        MarkedStep(r0, before, cliffLine, i, found);
        cliffLine := cliffLine + found;
        i := i + 1;
      }
      assert cliffLine[..i] == cliffLine;
    }

    /** The straight-cliff entries of a cliff line and the back direction of each. */
    method StraightSeeds(cliffLine: seq<Pos>) returns (seeds: seq<Pos>, backs: seq<Offset>)
      requires Square(grid) && AllInGrid(cliffLine)
      ensures ChosenView(grid) == old(ChosenView(grid)) && LevelView(grid) == old(LevelView(grid))
      ensures RaisedSet(grid) == old(RaisedSet(grid))
      ensures seeds == Seeds(ChosenView(grid), cliffLine) && |backs| == |seeds|
      ensures forall k | 0 <= k < |seeds| :: backs[k] == BackOf(ChosenView(grid)[seeds[k]])
    {
      ghost var v, levels, raised := ChosenView(grid), LevelView(grid), RaisedSet(grid);
      seeds, backs := [], [];
      var i := 0;
      while i < |cliffLine|
        invariant 0 <= i <= |cliffLine| && ChosenView(grid) == v
        invariant LevelView(grid) == levels && RaisedSet(grid) == raised
        invariant seeds == Seeds(v, cliffLine[..i]) && |backs| == |seeds|
        invariant forall k | 0 <= k < |seeds| :: IsStraightCliff(v[seeds[k]]) && backs[k] == BackOf(v[seeds[k]])
      {
        var currentTileIndex := grid[cliffLine[i].0, cliffLine[i].1].chosenTile;
        InCells(cliffLine[i]);
        if 4 <= currentTileIndex <= 7 {
          seeds := seeds + [cliffLine[i]];
          backs := backs + [CliffBacks[currentTileIndex - 4]];
        }
        assert cliffLine[..i + 1][..i] == cliffLine[..i];
        i := i + 1;
      }
      assert cliffLine[..i] == cliffLine;
    }

    /** Adds one level to the tile at p; no other level and no tile changes. */
    method Bump(p: Pos)
      requires Positioned(grid) && InGrid(p)
      modifies {grid[p.0, p.1]}`level
      ensures Positioned(grid) && ChosenView(grid) == old(ChosenView(grid)) && RaisedSet(grid) == old(RaisedSet(grid))
      ensures p in old(LevelView(grid))
      ensures LevelView(grid) == old(LevelView(grid))[p := old(LevelView(grid))[p] + 1]
    {
      InCells(p);
      grid[p.0, p.1].AddLevel();
      assert LevelView(grid) == old(LevelView(grid))[p := old(LevelView(grid))[p] + 1];
    }

    /** One step of a walk that reaches a cell of the map not listed yet: the
        cell is listed, with the direction of entry i, and gains one level. */
    method Grow(ghost v: map<Pos, TileId>, ghost seeds: seq<Pos>, ghost walked: seq<Pos>, ghost levels: map<Pos, nat>,
                list: seq<Pos>, dirs: seq<Offset>, i: int) returns (list': seq<Pos>, dirs': seq<Offset>)
      requires Positioned(grid) && ChosenView(grid) == v
      requires WalkState(v, seeds, walked, levels, list, dirs, i, LevelView(grid)) && i < |list|
      requires InGrid(Step(list[i], dirs[i])) && Step(list[i], dirs[i]) !in list
      modifies TilesOf(grid)`level
      ensures list' == list + [Step(list[i], dirs[i])] && dirs' == dirs + [dirs[i]]
      ensures Positioned(grid) && ChosenView(grid) == v && RaisedSet(grid) == old(RaisedSet(grid))
      ensures WalkState(v, seeds, walked + [Step(list[i], dirs[i])], levels, list', dirs', i + 1, LevelView(grid))
      ensures Unlisted(list') < Unlisted(list)
    {
      var q := Step(list[i], dirs[i]);
      InCells(q);
      ghost var now := LevelView(grid);
      WalkGrow(v, seeds, walked, levels, list, dirs, i, now);
      list' := list + [q];
      dirs' := dirs + [dirs[i]];
      Bump(q);
    }

    /** Handles entry i of the working list: its next cell is skipped when the
        list holds it, fails the pass (next is false) when it lies off the map,
        and is otherwise listed with the same direction and raised one level. */
    method WalkEntry(ghost v: map<Pos, TileId>, ghost seeds: seq<Pos>, ghost walked: seq<Pos>,
                     ghost levels: map<Pos, nat>, list: seq<Pos>, dirs: seq<Offset>, i: int)
      returns (next: bool, list': seq<Pos>, dirs': seq<Offset>, ghost walked': seq<Pos>)
      requires Positioned(grid) && ChosenView(grid) == v
      requires WalkState(v, seeds, walked, levels, list, dirs, i, LevelView(grid)) && i < |list|
      modifies TilesOf(grid)`level
      ensures Positioned(grid) && ChosenView(grid) == v && RaisedSet(grid) == old(RaisedSet(grid))
      ensures next ==> WalkState(v, seeds, walked', levels, list', dirs', i + 1, LevelView(grid))
      ensures next ==> Unlisted(list') < Unlisted(list) || list' == list
      ensures next ==> Walk(list', dirs', i + 1) == Walk(list, dirs, i)
      ensures !next ==> list' == list && dirs' == dirs && walked' == walked && !InGrid(Step(list[i], dirs[i]))
      ensures !next ==> WalkState(v, seeds, walked, levels, list, dirs, i, LevelView(grid))
      ensures !next ==> Walk(list, dirs, i) == (false, list, dirs)
    {
      var currentTileNeighbor := Step(list[i], dirs[i]);
      WalkNext(list, dirs, i);
      next, list', dirs', walked' := true, list, dirs, walked;
      if currentTileNeighbor !in list {
        if !InGrid(currentTileNeighbor) {
          next := false;
          return;
        }
        list', dirs' := Grow(v, seeds, walked, levels, list, dirs, i);
        walked' := walked + [currentTileNeighbor];
      } else {
        WalkSkip(v, seeds, walked, levels, list, dirs, i, LevelView(grid));
      }
    }

    /** Raises the ground behind the straight cliffs of a cliff line: from every
        straight-cliff entry a walk goes toward the cliff's back, adding one level
        to each cell it reaches that the working list does not hold yet, and stops
        at the first cell the list already holds. Nothing checks the bounds, so a
        walk that leaves the map fails (ok is false) and the pass stops there.
        The working list and the walk direction of each entry are returned. */
    method RaiseTiles(cliffLine: seq<Pos>)
      returns (ok: bool, currentList: seq<Pos>, currentDirs: seq<Offset>, ghost seeds: seq<Pos>)
      requires Positioned(grid) && AllInGrid(cliffLine)
      modifies TilesOf(grid)`level
      ensures ChosenView(grid) == old(ChosenView(grid)) && RaisedSet(grid) == old(RaisedSet(grid))
      ensures seeds == Seeds(ChosenView(grid), cliffLine)
      ensures Walking(ChosenView(grid), seeds, currentList, currentDirs) && AllInGrid(currentList)
      ensures LevelView(grid) == Bumped(old(LevelView(grid)), currentList[|seeds|..])
      ensures ok ==> Extended(currentList, currentDirs, |currentList|)
      ensures !ok ==> exists k :: 0 <= k < |currentList| && !InGrid(Step(currentList[k], currentDirs[k]))
      ensures Walk(seeds, currentDirs[..|seeds|], 0) == (ok, currentList, currentDirs)
    {
      ghost var v := ChosenView(grid);
      var straight, backs := StraightSeeds(cliffLine);
      seeds := straight;
      SeedsWalking(v, cliffLine, straight, backs);
      ok, currentList, currentDirs := WalkAll(v, straight, backs);
      SeedDirsFixed(v, straight, currentList, currentDirs, backs);
    }

    /** The walk loop of RaiseTiles, from the seeds with their back directions. */
    method WalkAll(ghost v: map<Pos, TileId>, seeds: seq<Pos>, backs: seq<Offset>)
      returns (ok: bool, currentList: seq<Pos>, currentDirs: seq<Offset>)
      requires Positioned(grid) && ChosenView(grid) == v
      requires Walking(v, seeds, seeds, backs) && AllInGrid(seeds)
      modifies TilesOf(grid)`level
      ensures ChosenView(grid) == v && RaisedSet(grid) == old(RaisedSet(grid))
      ensures Walking(v, seeds, currentList, currentDirs) && AllInGrid(currentList)
      ensures LevelView(grid) == Bumped(old(LevelView(grid)), currentList[|seeds|..])
      ensures ok ==> Extended(currentList, currentDirs, |currentList|)
      ensures !ok ==> exists k :: 0 <= k < |currentList| && !InGrid(Step(currentList[k], currentDirs[k]))
      ensures Walk(seeds, backs, 0) == (ok, currentList, currentDirs)
    {
      ghost var levels := LevelView(grid);
      ghost var raised := RaisedSet(grid);
      currentList, currentDirs := seeds, backs;
      ghost var walked: seq<Pos> := [];
      assert currentList == seeds + walked;
      ok := true;
      var i := 0;
      while i < |currentList|
        invariant ChosenView(grid) == v && RaisedSet(grid) == raised
        invariant Positioned(grid)
        invariant WalkState(v, seeds, walked, levels, currentList, currentDirs, i, LevelView(grid))
        invariant Walk(currentList, currentDirs, i) == Walk(seeds, backs, 0)
        decreases Unlisted(currentList), |currentList| - i
      {
        var next: bool;
        next, currentList, currentDirs, walked := WalkEntry(v, seeds, walked, levels, currentList, currentDirs, i);
        if !next {
          ok := false;
          break;
        }
        i := i + 1;
      }
      assert currentList[|seeds|..] == walked;
    }
  }
}
