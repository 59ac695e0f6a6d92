/** One shark frame as the game's code writes it, with the Python type of the
    shark's position tracked. The position holds ints at spawn and after each
    snap onto a waypoint, and floats after each glide step, because the glide
    adds a quotient of true division. Floor division keeps a float a float,
    and a float cannot index a list, so the frame raises TypeError as soon as
    a tile taken from a float position indexes the grid. */
module FloatPositions {
  import opened Grid
  import opened Coords
  import opened Pathfinding
  import opened PacFish

  /** A shark frame either runs, leaving the new state and whether its
      position now holds floats, or raises TypeError. */
  datatype Outcome = Ran(s: SharkState, floats: bool) | TypeError

  /** The shark re-plans in its next frame. */
  predicate Replans(s: SharkState)
  {
    (s.framecount + 1) % PATHFIND_INTERVAL == 0 || s.pose.path == []
  }

  /** Some neighbour of c is in bounds, so the search's scan of the
      neighbours of c reads the grid at a tile taken from c. */
  predicate ScanIndexes(g: Tiles, c: Cell)
    requires Rectangular(g)
  {
    exists k :: 0 <= k < |Dirs4| && InBounds(g, Plus(c, Dirs4[k]))
  }

  /** When the frame raises TypeError: the position holds floats, the shark
      re-plans, and either the search scans the neighbours of a start tile
      other than the goal's, or the wander test that follows an empty plan
      picks an in-bounds tile. */
  predicate Crashes(g: Tiles, goal: Cell, s: SharkState, floats: bool, roll: Roll)
    requires Rectangular(g)
  {
    var start := PixelToGrid(s.pose.px, s.pose.py);
    floats && Replans(s) &&
    ((start != goal && ScanIndexes(g, start)) || (roll.wander && InBounds(g, Plus(start, Dirs4[roll.dir % 4]))))
  }

  /** A walk from c to another tile leaves c through an in-bounds neighbour. */
  lemma ReachLeaves(g: Tiles, c: Cell, goal: Cell)
    requires Rectangular(g) && c != goal
    ensures Reachable(g, c, goal) ==> ScanIndexes(g, c)
  {
    if Reachable(g, c, goal) {
      var w :| IsWalk(g, w) && w[0] == c && w[|w| - 1] == goal;
      assert |w| > 1 && Floor(g, w[1]) && Adjacent(w[0], w[1]);
      AdjacentStep(c, w[1]);
    }
  }

  /** The shark's frame as the code writes it, from state s whose position
      holds floats when `floats` is set. It raises TypeError exactly when
      Crashes says so. When it runs, it does what the corrected frame
      `Stepped` describes, and the position holds floats afterwards exactly
      when the shark glided, or when it did not move and held floats before. */
  method StepAsWritten(g: Tiles, goal: Cell, s: SharkState, floats: bool, roll: Roll)
    returns (r: Outcome, ghost plan: seq<Cell>)
    requires Rectangular(g) && Width(g) == MAP_W && Height(g) == MAP_H
    ensures r.TypeError? <==> Crashes(g, goal, s, floats, roll)
    ensures r.Ran? ==>
              Planned(g, goal, s, s.framecount + 1, plan) &&
              r.s == SharkState(Follow(g, s.pose.px, s.pose.py, plan, roll), s.framecount + 1) &&
              Stepped(g, goal, s, r.s, roll) &&
              r.floats == (if plan != [] then !roll.near else floats)
  {
    var frame := s.framecount + 1;
    var start := (s.pose.px / TILE, s.pose.py / TILE);
    var path := s.pose.path;
    plan := path;
    if frame % PATHFIND_INTERVAL == 0 || path == [] {
      if floats && start != goal && ScanIndexes(g, start) {
        return TypeError, plan;
      }
      path := Replan(g, start, goal);
      if start != goal {
        ReachLeaves(g, start, goal);
      }
    }
    if floats && path == [] && roll.wander && InBounds(g, Plus(start, Dirs4[roll.dir % 4])) {
      return TypeError, plan;
    }
    plan := path;
    var s' := SharkState(Follow(g, s.pose.px, s.pose.py, path, roll), frame);
    assert Planned(g, goal, s, s'.framecount, plan);
    r := Ran(s', if path != [] then !roll.near else floats);
  }

  /** In a MAP_W x MAP_H grid every in-bounds tile has an in-bounds
      neighbour, so a shark whose position holds floats and that re-plans
      from an in-bounds tile other than the goal's raises TypeError. */
  lemma FloatReplanCrashes(g: Tiles, goal: Cell, s: SharkState, roll: Roll)
    requires Rectangular(g) && Width(g) == MAP_W && Height(g) == MAP_H
    requires Replans(s)
    requires var start := PixelToGrid(s.pose.px, s.pose.py); InBounds(g, start) && start != goal
    ensures Crashes(g, goal, s, true, roll)
  {
    var start := PixelToGrid(s.pose.px, s.pose.py);
    if start.0 + 1 < MAP_W {
      assert InBounds(g, Plus(start, Dirs4[0]));
    } else {
      assert InBounds(g, Plus(start, Dirs4[1]));
    }
  }

  /** The crash in two frames: a shark that glides in one frame, whatever the
      type of its position before, and re-plans in the next from an in-bounds
      tile other than the fish's, raises TypeError in that next frame. It
      happens to every shark that is still gliding when its frame count
      reaches a multiple of PATHFIND_INTERVAL away from the fish. */
  lemma GlideThenReplanCrashes(g: Tiles, goal: Cell, s: SharkState, roll: Roll, goal': Cell, roll': Roll)
    requires Rectangular(g) && Width(g) == MAP_W && Height(g) == MAP_H
    requires s.pose.path != [] && !roll.near
    requires var s' := SharkState(Follow(g, s.pose.px, s.pose.py, s.pose.path, roll), s.framecount + 1);
             var start' := PixelToGrid(s'.pose.px, s'.pose.py);
             Replans(s') && InBounds(g, start') && start' != goal'
    ensures var s' := SharkState(Follow(g, s.pose.px, s.pose.py, s.pose.path, roll), s.framecount + 1);
            var floats' := if s.pose.path != [] then !roll.near else false;
            floats' && Crashes(g, goal', s', floats', roll')
  {
    var s' := SharkState(Follow(g, s.pose.px, s.pose.py, s.pose.path, roll), s.framecount + 1);
    FloatReplanCrashes(g, goal', s', roll');
  }
}
