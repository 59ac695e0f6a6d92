/** The simulation half of one frame of Pac-Fish: the fish moves by the keys
    held, eats the pellet under its centre, and each shark re-plans, follows
    or wanders before the fish is checked against the sharks. */
module PacFish {
  import opened Grid
  import opened Coords
  import opened Movement
  import opened Maze
  import opened Pathfinding

  /** Pixels per frame of the fish. */
  const PLAYER_SPEED: int := 4
  /** Frames between two path re-plans of a shark. */
  const PATHFIND_INTERVAL: int := 30

  /** The arrow keys held this frame. */
  datatype Keys = Keys(left: bool, right: bool, up: bool, down: bool)

  /** What the frame's random draws and float arithmetic give one shark:
      whether it is within a pixel of its next waypoint, where the glide
      towards the waypoint puts it otherwise, whether it decides to wander,
      and which of the four directions it picks. */
  datatype Roll = Roll(near: bool, glide: (int, int), wander: bool, dir: nat)

  /** A shark's position and path. */
  datatype Pose = Pose(px: int, py: int, path: seq<Cell>)

  datatype SharkState = SharkState(pose: Pose, framecount: int)

  /** The step the keys ask for. Keys are read left, right, up, down and a
      later key overrides an earlier one on the same axis. */
  function Intent(k: Keys): (d: (int, int))
    ensures d.0 == PLAYER_SPEED <==> k.right
    ensures d.0 == -PLAYER_SPEED <==> k.left && !k.right
    ensures d.0 == 0 <==> !k.left && !k.right
    ensures d.1 == PLAYER_SPEED <==> k.down
    ensures d.1 == -PLAYER_SPEED <==> k.up && !k.down
    ensures d.1 == 0 <==> !k.up && !k.down
  {
    var dx := if k.right then PLAYER_SPEED else if k.left then -PLAYER_SPEED else 0;
    var dy := if k.down then PLAYER_SPEED else if k.up then -PLAYER_SPEED else 0;
    (dx, dy)
  }

  /** The fish's move for a frame: first along x, then along y from wherever
      the x move left it, each axis taken whole or refused whole. */
  function PlayerStep(g: Tiles, px: int, py: int, k: Keys): (r: (int, int))
    requires Rectangular(g)
    ensures BoxClear(g, px, py) ==> BoxClear(g, r.0, r.1)
  {
    var d := Intent(k);
    var p := TryMove(g, px, py, d.0, 0);
    TryMove(g, p.0, p.1, 0, d.1)
  }

  /** Each axis of the fish's move is taken exactly when the box moved along
      that axis alone overlaps no wall tile. */
  lemma PlayerStepAxes(g: Tiles, px: int, py: int, k: Keys)
    requires Rectangular(g)
    ensures var d, r := Intent(k), PlayerStep(g, px, py, k);
            r.0 == (if BoxClear(g, px + d.0, py) then px + d.0 else px) &&
            r.1 == (if BoxClear(g, r.0, py + d.1) then py + d.1 else py)
  {
  }

  /** The tile under the centre pixel of the fish at (px, py). */
  function Bite(px: int, py: int): (c: Cell)
    ensures c.0 * TILE <= px + TILE / 2 < c.0 * TILE + TILE
    ensures c.1 * TILE <= py + TILE / 2 < c.1 * TILE + TILE
  {
    PixelToGrid(px + TILE / 2, py + TILE / 2)
  }

  /** A fish standing exactly on a tile bites that tile. */
  lemma BiteAligned(c: Cell)
    ensures Bite(c.0 * TILE, c.1 * TILE) == c
  {
    PixelToGridUnique(c.0 * TILE + TILE / 2, c.1 * TILE + TILE / 2, c);
  }

  /** A fish clear of walls never bites a wall tile: its centre lies inside its box. */
  lemma BiteNotWall(g: Tiles, px: int, py: int)
    requires Rectangular(g) && BoxClear(g, px, py)
    ensures !Wall(g, Bite(px, py))
  {
    var c := Bite(px, py);
    assert Collide(px, py, c.0 * TILE, c.1 * TILE);
  }

  /** The pellets at the start of a game: one on every floor tile of the
      MAP_W x MAP_H grid, found by a scan row by row. */
  method InitPellets(g: Tiles) returns (pellets: set<Cell>)
    requires Rectangular(g) && Width(g) == MAP_W && Height(g) == MAP_H
    ensures pellets == FloorCells(g)
  {
    pellets := {};
    for y := 0 to MAP_H
      invariant pellets == set c | c in FloorCells(g) && c.1 < y
    {
      for x := 0 to MAP_W
        invariant pellets == set c | c in FloorCells(g) && (c.1 < y || (c.1 == y && c.0 < x))
      {
        if g[y][x] == 0 {
          pellets := pellets + {(x, y)};
        }
      }
    }
  }

  /** The path a re-plan installs: a shortest path to the goal when there is
      one that moves, and the empty path when the shark already stands on the
      goal's tile or the goal cannot be reached. */
  ghost predicate Replanned(g: Tiles, start: Cell, goal: Cell, path: seq<Cell>)
    requires Rectangular(g)
  {
    if start != goal && Reachable(g, start, goal) then ShortestPath(g, start, goal, path) else path == []
  }

  /** A re-planned path is made of floor tiles. */
  lemma ReplannedFloor(g: Tiles, start: Cell, goal: Cell, path: seq<Cell>)
    requires Rectangular(g) && Replanned(g, start, goal, path)
    ensures forall c :: c in path ==> Floor(g, c)
    ensures path != [] ==> Adjacent(start, path[0]) && path[|path| - 1] == goal
  {
    if path != [] {
      ShortestPathShape(g, start, goal, path);
    }
  }

  /** A shark at (px, py) with `path` after this frame's movement: on arrival
      it snaps onto the first waypoint and drops it, otherwise it glides with
      its path kept; with no path it may pick a random direction and, when the
      tile there is floor, make that tile its whole path. */
  function Follow(g: Tiles, px: int, py: int, path: seq<Cell>, roll: Roll): (r: Pose)
    requires Rectangular(g) && Width(g) == MAP_W && Height(g) == MAP_H
    ensures path != [] && roll.near ==>
              r.path == path[1..] && PixelToGrid(r.px, r.py) == path[0] &&
              r.px % TILE == 0 && r.py % TILE == 0
    ensures path != [] && !roll.near ==> r.path == path && (r.px, r.py) == roll.glide
    ensures path == [] ==> r.px == px && r.py == py && |r.path| <= 1
    ensures path == [] ==>
              (r.path != [] <==> roll.wander && Floor(g, Plus(PixelToGrid(px, py), Dirs4[roll.dir % 4])))
    ensures path == [] && r.path != [] ==>
              r.path[0] == Plus(PixelToGrid(px, py), Dirs4[roll.dir % 4]) && Adjacent(PixelToGrid(px, py), r.path[0])
    ensures (forall c :: c in path ==> Floor(g, c)) ==> forall c :: c in r.path ==> Floor(g, c)
  {
    if path != [] then
      if roll.near then
        var t := GridToPixel(path[0].0, path[0].1);
        GridPixelRoundTrip(path[0].0, path[0].1);
        Pose(t.0, t.1, path[1..])
      else
        Pose(roll.glide.0, roll.glide.1, path)
    else if roll.wander then
      var d := Dirs4[roll.dir % 4];
      var n := (px / TILE + d.0, py / TILE + d.1);
      if 0 <= n.0 < MAP_W && 0 <= n.1 < MAP_H && g[n.1][n.0] == 0 then Pose(px, py, [n])
      else Pose(px, py, [])
    else
      Pose(px, py, [])
  }

  /** One frame of a shark chasing the tile `goal`: the frame count goes up;
      the shark re-plans exactly when the new count is a multiple of
      PATHFIND_INTERVAL or its path is empty; then it follows the plan. */
  ghost predicate Stepped(g: Tiles, goal: Cell, s: SharkState, s': SharkState, roll: Roll)
    requires Rectangular(g) && Width(g) == MAP_W && Height(g) == MAP_H
  {
    s'.framecount == s.framecount + 1 &&
    exists plan :: Planned(g, goal, s, s'.framecount, plan) &&
      s'.pose == Follow(g, s.pose.px, s.pose.py, plan, roll)
  }

  /** The path a shark in state s follows in the frame whose count is `frame`. */
  ghost predicate Planned(g: Tiles, goal: Cell, s: SharkState, frame: int, plan: seq<Cell>)
    requires Rectangular(g)
  {
    if frame % PATHFIND_INTERVAL == 0 || s.pose.path == [] then
      Replanned(g, PixelToGrid(s.pose.px, s.pose.py), goal, plan)
    else
      plan == s.pose.path
  }

  /** A shark frame keeps the shark's path on floor tiles. */
  lemma SteppedFloor(g: Tiles, goal: Cell, s: SharkState, s': SharkState, roll: Roll)
    requires Rectangular(g) && Width(g) == MAP_W && Height(g) == MAP_H
    requires Stepped(g, goal, s, s', roll)
    requires forall c :: c in s.pose.path ==> Floor(g, c)
    ensures forall c :: c in s'.pose.path ==> Floor(g, c)
  {
    var plan :| Planned(g, goal, s, s'.framecount, plan) &&
                s'.pose == Follow(g, s.pose.px, s.pose.py, plan, roll);
    if s'.framecount % PATHFIND_INTERVAL == 0 || s.pose.path == [] {
      ReplannedFloor(g, PixelToGrid(s.pose.px, s.pose.py), goal, plan);
    }
  }

  /** A shark's re-plan: the search's path when it found one that moves, and
      the empty path when it found none or an empty one. */
  method Replan(g: Tiles, start: Cell, goal: Cell) returns (path: seq<Cell>)
    requires Rectangular(g)
    ensures Replanned(g, start, goal, path)
  {
    var found, _ := Bfs(start, goal, g);
    if found.Some? {
      ShortestPathShape(g, start, goal, found.value);
    }
    if found.Some? && found.value != [] {
      path := found.value;
    } else {
      path := [];
    }
  }

  class Shark {
    var px: int
    var py: int
    var path: seq<Cell>
    var framecount: int

    /** A shark standing on tile (gx, gy) with no path. */
    constructor (gx: int, gy: int)
      ensures (px, py) == GridToPixel(gx, gy) && path == [] && framecount == 0
    {
      px, py := gx * TILE, gy * TILE;
      path := [];
      framecount := 0;
    }

    ghost function State(): SharkState
      reads this
    {
      SharkState(Pose(px, py, path), framecount)
    }

    /** The shark's share of a frame, chasing the tile `goal`. `plan` is the
        path it follows this frame, after any re-plan. */
    method Update(g: Tiles, goal: Cell, roll: Roll) returns (ghost plan: seq<Cell>)
      requires Rectangular(g) && Width(g) == MAP_W && Height(g) == MAP_H
      modifies this
      ensures Planned(g, goal, old(State()), framecount, plan)
      ensures Stepped(g, goal, old(State()), State(), roll)
    {
      ghost var s := State();
      framecount := framecount + 1;
      if framecount % PATHFIND_INTERVAL == 0 || path == [] {
        path := Replan(g, (px / TILE, py / TILE), goal);
      }
      plan := path;
      if path != [] {
        var t := GridToPixel(path[0].0, path[0].1);
        if roll.near {
          px, py := t.0, t.1;
          path := path[1..];
        } else {
          px, py := roll.glide.0, roll.glide.1;
        }
      } else if roll.wander {
        var d := Dirs4[roll.dir % 4];
        var gnx, gny := px / TILE + d.0, py / TILE + d.1;
        if 0 <= gnx < MAP_W && 0 <= gny < MAP_H && g[gny][gnx] == 0 {
          path := [(gnx, gny)];
        }
      }
      assert Planned(g, goal, s, framecount, plan);
      assert State().pose == Follow(g, s.pose.px, s.pose.py, plan, roll);
    }
  }

  /** What the generator promises of a MAP_W x MAP_H maze: every tile is wall
      or floor, every odd tile is floor, every tile with two even coordinates
      and every border tile is wall, and every floor tile can be walked to
      from (1, 1). */
  ghost predicate MazeBoard(g: Tiles)
    requires Rectangular(g)
  {
    Width(g) == MAP_W && Height(g) == MAP_H &&
    (forall c :: InBounds(g, c) ==> Floor(g, c) || Wall(g, c)) &&
    (forall c :: OddCell(MAP_W, MAP_H, c) ==> Floor(g, c)) &&
    (forall c :: InBounds(g, c) && c.0 % 2 == 0 && c.1 % 2 == 0 ==> Wall(g, c)) &&
    (forall c :: InBounds(g, c) && OnBorder(MAP_W, MAP_H, c) ==> Wall(g, c)) &&
    Connected(g, Root)
  }

  /** The three spawn tiles of the sharks are odd, so a maze has floor there. */
  lemma SpawnsOnFloor(g: Tiles)
    requires Rectangular(g) && MazeBoard(g)
    ensures Floor(g, (MAP_W - 2, MAP_H - 2)) && Floor(g, (MAP_W - 2, 1)) && Floor(g, (1, MAP_H - 2))
  {
    assert OddCell(MAP_W, MAP_H, (MAP_W - 2, MAP_H - 2));
    assert OddCell(MAP_W, MAP_H, (MAP_W - 2, 1));
    assert OddCell(MAP_W, MAP_H, (1, MAP_H - 2));
  }

  /** The board of a new game: the maze carved with `draw` and a pellet on
      each of its floor tiles, the fish's starting tile among them. */
  method NewBoard(draw: nat -> nat) returns (grid: Tiles, pellets: set<Cell>)
    ensures Rectangular(grid) && Width(grid) == MAP_W && Height(grid) == MAP_H
    ensures MazeBoard(grid)
    ensures pellets == FloorCells(grid) && Root in pellets
    ensures BoxClear(grid, TILE, TILE)
  {
    grid := MakeMaze(MAP_W, MAP_H, draw);
    pellets := InitPellets(grid);
    BoxOnTile(grid, Root);
  }

  class Game {
    const grid: Tiles
    var pellets: set<Cell>
    var score: int
    var win: bool
    var gameOver: bool
    var px: int
    var py: int
    const sharks: seq<Shark>

    /** The fish and the pellets: pellets lie on floor and are never put
        back, so the score is 10 per floor tile without its pellet; the game
        is won exactly when no pellet is left; the fish overlaps no wall. */
    ghost predicate Board()
      reads this`pellets, this`score, this`win, this`px, this`py
      requires Rectangular(grid)
    {
      pellets <= FloorCells(grid) &&
      score == 10 * (|FloorCells(grid)| - |pellets|) &&
      (win <==> pellets == {}) &&
      BoxClear(grid, px, py)
    }

    /** The sharks are distinct and their paths run over floor. */
    ghost predicate Fleet()
      reads sharks
      requires Rectangular(grid)
    {
      (forall i, j :: 0 <= i < j < |sharks| ==> sharks[i] != sharks[j]) &&
      (forall i :: 0 <= i < |sharks| ==> forall c :: c in sharks[i].path ==> Floor(grid, c))
    }

    /** Some shark overlaps the fish. */
    ghost predicate Caught()
      reads this`px, this`py, sharks
    {
      exists i :: 0 <= i < |sharks| && Collide(px, py, sharks[i].px, sharks[i].py)
    }

    /** What every frame keeps: the grid is MAP_W x MAP_H, the board and the
        sharks are sound, and the game is over exactly when a shark overlaps
        the fish. */
    ghost predicate Valid()
      reads this, sharks
    {
      Rectangular(grid) && Width(grid) == MAP_W && Height(grid) == MAP_H &&
      Board() && Fleet() && (gameOver <==> Caught())
    }

    /** A new game on the maze carved with the random source `draw`: the fish
        on tile (1, 1), a pellet on every floor tile, and three sharks on the
        odd tiles of the other three corners. */
    constructor (draw: nat -> nat)
      ensures Valid()
      ensures pellets == FloorCells(grid) && score == 0 && !win && !gameOver
      ensures (px, py) == GridToPixel(1, 1)
      ensures |sharks| == 3 && fresh(sharks[0]) && fresh(sharks[1]) && fresh(sharks[2])
      ensures sharks[0].State() == SharkState(Pose((MAP_W - 2) * TILE, (MAP_H - 2) * TILE, []), 0)
      ensures sharks[1].State() == SharkState(Pose((MAP_W - 2) * TILE, TILE, []), 0)
      ensures sharks[2].State() == SharkState(Pose(TILE, (MAP_H - 2) * TILE, []), 0)
      ensures MazeBoard(grid)
      ensures Floor(grid, (MAP_W - 2, MAP_H - 2)) && Floor(grid, (MAP_W - 2, 1)) && Floor(grid, (1, MAP_H - 2))
    {
      var g, ps := NewBoard(draw);
      SpawnsOnFloor(g);
      grid := g;
      pellets := ps;
      px, py := TILE, TILE;
      var s0 := new Shark(MAP_W - 2, MAP_H - 2);
      var s1 := new Shark(MAP_W - 2, 1);
      var s2 := new Shark(1, MAP_H - 2);
      sharks := [s0, s1, s2];
      score := 0;
      win := false;
      gameOver := false;
      new;
      StartsValid();
    }

    /** The state a new game starts in keeps the frame invariant: no shark
        overlaps the fish, and the sharks, their paths still empty, are
        distinct. */
    lemma StartsValid()
      requires Rectangular(grid) && Width(grid) == MAP_W && Height(grid) == MAP_H
      requires pellets == FloorCells(grid) && Root in pellets && BoxClear(grid, TILE, TILE)
      requires score == 0 && !win && !gameOver && px == TILE && py == TILE
      requires |sharks| == 3 && sharks[0] != sharks[1] && sharks[0] != sharks[2] && sharks[1] != sharks[2]
      requires sharks[0].px == (MAP_W - 2) * TILE && sharks[0].py == (MAP_H - 2) * TILE
      requires sharks[1].px == (MAP_W - 2) * TILE && sharks[1].py == TILE
      requires sharks[2].px == TILE && sharks[2].py == (MAP_H - 2) * TILE
      requires sharks[0].path == [] && sharks[1].path == [] && sharks[2].path == []
      ensures Valid()
    {
      assert !Collide(px, py, sharks[0].px, sharks[0].py);
      assert !Collide(px, py, sharks[1].px, sharks[1].py);
      assert !Collide(px, py, sharks[2].px, sharks[2].py);
    }

    /** One frame given the keys held and each shark's roll. A won or lost
        game stays as it is. Otherwise the fish moves, eats the pellet
        under its centre, the game is won when no pellet is left, every shark
        takes its frame chasing the fish's tile, and the game is over when
        some shark then overlaps the fish. */
    method Tick(keys: Keys, roll: nat -> Roll)
      requires Valid()
      modifies this, sharks
      ensures Valid()
      ensures old(win) || old(gameOver) ==>
                unchanged(this) && forall i :: 0 <= i < |sharks| ==> unchanged(sharks[i])
      ensures !old(win) && !old(gameOver) ==>
                (px, py) == PlayerStep(grid, old(px), old(py), keys) &&
                pellets == old(pellets) - {Bite(px, py)} &&
                score == old(score) + (if Bite(px, py) in old(pellets) then 10 else 0) &&
                (forall i :: 0 <= i < |sharks| ==>
                   Stepped(grid, PixelToGrid(px, py), old(sharks[i].State()), sharks[i].State(), roll(i))) &&
                (gameOver <==> Caught())
    {
      if gameOver || win {
        return;
      }
      Swim(keys);
      UpdateSharks((px / TILE, py / TILE), roll);
      Judge();
    }

    /** The fish's half of a frame: it moves by the keys held, eats the
        pellet under its centre if one is left there, and the game is won
        when no pellet is left. */
    method Swim(keys: Keys)
      requires Rectangular(grid) && Board()
      modifies this`px, this`py, this`pellets, this`score, this`win
      ensures Board()
      ensures (px, py) == PlayerStep(grid, old(px), old(py), keys)
      ensures pellets == old(pellets) - {Bite(px, py)}
      ensures score == old(score) + (if Bite(px, py) in old(pellets) then 10 else 0)
    {
      var p := PlayerStep(grid, px, py, keys);
      px, py := p.0, p.1;
      var b := Bite(px, py);
      if b in pellets {
        Eat(pellets, b);
        pellets := pellets - {b};
        score := score + 10;
      }
      if pellets == {} {
        win := true;
      }
    }

    /** Every shark, in order, takes its frame chasing the tile `goal`. */
    method UpdateSharks(goal: Cell, roll: nat -> Roll)
      requires Rectangular(grid) && Width(grid) == MAP_W && Height(grid) == MAP_H && Fleet()
      modifies sharks
      ensures Fleet()
      ensures forall i :: 0 <= i < |sharks| ==>
                Stepped(grid, goal, old(sharks[i].State()), sharks[i].State(), roll(i))
    {
      for i := 0 to |sharks|
        invariant forall j :: 0 <= j < i ==>
                    Stepped(grid, goal, old(sharks[j].State()), sharks[j].State(), roll(j))
        invariant forall j :: i <= j < |sharks| ==> sharks[j].State() == old(sharks[j].State())
        invariant forall j :: 0 <= j < |sharks| ==> forall c :: c in sharks[j].path ==> Floor(grid, c)
      {
        ghost var before := sharks[i].State();
        assert forall j :: 0 <= j < |sharks| && j != i ==> sharks[j] != sharks[i];
        label Before:
        ghost var plan := sharks[i].Update(grid, goal, roll(i));
        assert forall j :: 0 <= j < |sharks| && j != i ==> sharks[j].State() == old@Before(sharks[j].State());
        SteppedFloor(grid, goal, before, sharks[i].State(), roll(i));
      }
    }

    /** The game is over when some shark overlaps the fish. */
    method Judge()
      modifies this`gameOver
      ensures gameOver <==> old(gameOver) || Caught()
    {
      for i := 0 to |sharks|
        invariant gameOver <==> old(gameOver) || exists j :: 0 <= j < i && Collide(px, py, sharks[j].px, sharks[j].py)
      {
        if Collide(px, py, sharks[i].px, sharks[i].py) {
          gameOver := true;
        }
      }
    }
  }

  /** Removing a tile from the pellets removes one pellet when there was
      one on it and none otherwise. */
  lemma Eat(pellets: set<Cell>, b: Cell)
    ensures |pellets - {b}| == |pellets| - (if b in pellets then 1 else 0)
  {
    if b in pellets {
      assert pellets == (pellets - {b}) + {b};
    } else {
      assert pellets - {b} == pellets;
    }
  }
}
