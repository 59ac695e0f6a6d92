/** Maze generation by recursive backtracking on a grid whose odd cells form a
    lattice: an explicit stack of odd cells, each step carving a still-walled
    odd cell two steps away together with the cell between. */
module Maze {
  import opened Grid

  /** The cell where carving starts. */
  const Root: Cell := (1, 1)

  /** The four 2-step carving directions, in the order the generator lists them. */
  const Steps: seq<Cell> := [(2, 0), (-2, 0), (0, 2), (0, -2)]

  /** `s` with positions i and j exchanged. */
  function Swap<T>(s: seq<T>, i: nat, j: nat): (r: seq<T>)
    requires i < |s| && j < |s|
    ensures |r| == |s| && multiset(r) == multiset(s)
    ensures r[i] == s[j] && r[j] == s[i]
    ensures forall k :: 0 <= k < |s| && k != i && k != j ==> r[k] == s[k]
  {
    s[i := s[j]][j := s[i]]
  }

  /** Python's `random.shuffle` applied to `s`, positions i down to 1: position i
      is swapped with position `randbelow(i + 1)`. The k-th draw of the random
      source is `draw(k)`, and `randbelow(n)` is `draw(k) % n`. */
  function Shuffle<T>(s: seq<T>, draw: nat -> nat, k: nat, i: nat): (r: seq<T>)
    requires i < |s|
    ensures |r| == |s| && multiset(r) == multiset(s)
    decreases i
  {
    if i == 0 then s
    else Shuffle(Swap(s, i, draw(k) % (i + 1)), draw, k + 1, i - 1)
  }

  /** An odd cell of the w x h lattice: where the stack lives. */
  predicate OddCell(w: int, h: int, c: Cell)
  {
    0 <= c.0 < w && 0 <= c.1 < h && c.0 % 2 == 1 && c.1 % 2 == 1
  }

  /** The largest odd number below n. */
  function LastOdd(n: int): int
  {
    if n % 2 == 0 then n - 1 else n - 2
  }

  predicate OnBorder(w: int, h: int, c: Cell)
  {
    c.0 == 0 || c.0 == w - 1 || c.1 == 0 || c.1 == h - 1
  }

  /** No 2-step neighbour of c is a wall that could still be carved. */
  ghost predicate Closed(g: Tiles, c: Cell)
    requires Rectangular(g)
  {
    forall k :: 0 <= k < |Steps| ==> !Wall(g, Plus(c, Steps[k]))
  }

  /** What the carving keeps true of the grid: a w x h grid of 0s and 1s whose
      floor is confined to [1, LastOdd(w)] x [1, LastOdd(h)], never at a cell
      with two even coordinates, and includes the root. */
  ghost predicate Shape(g: Tiles, w: int, h: int)
  {
    Rectangular(g) && Width(g) == w && Height(g) == h &&
    (forall c :: InBounds(g, c) ==> Floor(g, c) || Wall(g, c)) &&
    (forall c :: InBounds(g, c) && c.0 % 2 == 0 && c.1 % 2 == 0 ==> Wall(g, c)) &&
    (forall c :: Floor(g, c) ==> 1 <= c.0 <= LastOdd(w) && 1 <= c.1 <= LastOdd(h)) &&
    Floor(g, Root)
  }

  /** The loop invariant of the generator. `remaining` is the set of odd cells
      still walled, which bounds the number of pushes. */
  ghost predicate MazeInv(w: int, h: int, g: Tiles, stack: seq<Cell>, remaining: set<Cell>)
  {
    Shape(g, w, h) &&
    (forall i :: 0 <= i < |stack| ==> OddCell(w, h, stack[i]) && Floor(g, stack[i])) &&
    (forall c :: c in remaining <==> OddCell(w, h, c) && Wall(g, c)) &&
    (forall c {:trigger Closed(g, c)} :: OddCell(w, h, c) && Floor(g, c) && c !in stack ==> Closed(g, c)) &&
    (forall c :: Floor(g, c) ==> Reachable(g, Root, c))
  }

  /** Carving from c in direction d: the 2-step neighbour and the cell in between become floor. */
  function Carve(g: Tiles, c: Cell, d: Cell): Tiles
    requires Rectangular(g) && InBounds(g, Plus(c, d)) && InBounds(g, Between(c, d))
  {
    SetCell(SetCell(g, Plus(c, d), 0), Between(c, d), 0)
  }

  /** Generates a w x h maze; `draw` is the random source. The result is a
      grid of walls (1) and floor (0) in which every odd cell is floor and every
      floor cell can be walked to from (1, 1); cells with two even coordinates
      stay wall, and when w and h are odd so does the whole border. */
  method MakeMaze(w: int, h: int, draw: nat -> nat) returns (grid: Tiles)
    requires w >= 2 && h >= 2
    ensures Rectangular(grid) && Width(grid) == w && Height(grid) == h
    ensures forall c :: InBounds(grid, c) ==> Floor(grid, c) || Wall(grid, c)
    ensures Floor(grid, Root)
    ensures forall c :: OddCell(w, h, c) ==> Floor(grid, c)
    ensures forall c :: InBounds(grid, c) && c.0 % 2 == 0 && c.1 % 2 == 0 ==> Wall(grid, c)
    ensures w % 2 == 1 && h % 2 == 1 ==>
              forall c :: InBounds(grid, c) && OnBorder(w, h, c) ==> Wall(grid, c)
    ensures Connected(grid, Root)
  {
    grid := seq(h, _ => seq(w, _ => 1));
    var dirs := Steps;
    var stack: seq<Cell> := [];
    var sx, sy := 1, 1;
    grid := SetCell(grid, (sx, sy), 0);
    stack := stack + [(sx, sy)];
    ghost var remaining := set x, y | 0 <= x < w && 0 <= y < h && x % 2 == 1 && y % 2 == 1 && (x, y) != Root :: (x, y);
    InitialInv(w, h, grid, remaining);
    var k: nat := 0;
    while |stack| > 0
      invariant MazeInv(w, h, grid, stack, remaining)
      invariant multiset(dirs) == multiset(Steps)
      decreases |remaining|, |stack|
    {
      dirs := Shuffle(dirs, draw, k, |dirs| - 1);
      k := k + |dirs| - 1;
      grid, stack, remaining := Advance(w, h, grid, stack, remaining, dirs);
    }
    Finished(w, h, grid, remaining);
  }

  /** One round of the generator with the directions already shuffled: carve
      from the top of the stack in the first direction whose target is still
      wall and push that target, or pop the top when there is none. */
  method Advance(w: int, h: int, grid: Tiles, stack: seq<Cell>, ghost remaining: set<Cell>, dirs: seq<Cell>)
    returns (grid': Tiles, stack': seq<Cell>, ghost remaining': set<Cell>)
    requires MazeInv(w, h, grid, stack, remaining) && |stack| > 0
    requires multiset(dirs) == multiset(Steps)
    ensures MazeInv(w, h, grid', stack', remaining')
    ensures |remaining'| < |remaining| || (remaining' == remaining && |stack'| < |stack|)
    ensures var top := stack[|stack| - 1];
            (exists i :: 0 <= i < |dirs| &&
               (forall j :: 0 <= j < i ==> !Wall(grid, Plus(top, dirs[j]))) &&
               Wall(grid, Plus(top, dirs[i])) &&
               grid' == SetCell(SetCell(grid, Plus(top, dirs[i]), 0), Between(top, dirs[i]), 0) &&
               stack' == stack + [Plus(top, dirs[i])] &&
               remaining' == remaining - {Plus(top, dirs[i])}) ||
            ((forall j :: 0 <= j < |dirs| ==> !Wall(grid, Plus(top, dirs[j]))) &&
             grid' == grid && stack' == stack[..|stack| - 1] && remaining' == remaining)
  {
    var (x, y) := stack[|stack| - 1];
    var i := FirstOpen(grid, (x, y), dirs);
    if i < |dirs| {
      var d := dirs[i];
      assert d in multiset(Steps);
      CarveStep(w, h, grid, stack, remaining, (x, y), d);
      var next := Plus((x, y), d);
      grid' := SetCell(grid, next, 0);
      grid' := SetCell(grid', Between((x, y), d), 0);
      stack' := stack + [next];
      remaining' := remaining - {next};
      assert grid' == SetCell(SetCell(grid, Plus((x, y), dirs[i]), 0), Between((x, y), dirs[i]), 0);
    } else {
      AllStepsTried(grid, (x, y), dirs);
      PopStep(w, h, grid, stack, remaining);
      grid', stack', remaining' := grid, stack[..|stack| - 1], remaining;
    }
  }

  /** The generator's scan of the shuffled directions from c: the index of the
      first one whose target is an in-bounds wall, or |dirs| when there is none. */
  method FirstOpen(g: Tiles, c: Cell, dirs: seq<Cell>) returns (i: nat)
    requires Rectangular(g)
    ensures i <= |dirs|
    ensures forall j :: 0 <= j < i ==> !Wall(g, Plus(c, dirs[j]))
    ensures i < |dirs| ==> Wall(g, Plus(c, dirs[i]))
  {
    i := 0;
    while i < |dirs|
      invariant i <= |dirs|
      invariant forall j :: 0 <= j < i ==> !Wall(g, Plus(c, dirs[j]))
    {
      var (dx, dy) := dirs[i];
      var nx, ny := c.0 + dx, c.1 + dy;
      if 0 <= nx < Width(g) && 0 <= ny < Height(g) && g[ny][nx] == 1 {
        return;
      }
      i := i + 1;
    }
  }

  lemma InitialInv(w: int, h: int, g: Tiles, remaining: set<Cell>)
    requires w >= 2 && h >= 2
    requires g == SetCell(seq(h, _ => seq(w, _ => 1)), Root, 0)
    requires remaining == set x, y | 0 <= x < w && 0 <= y < h && x % 2 == 1 && y % 2 == 1 && (x, y) != Root :: (x, y)
    ensures MazeInv(w, h, g, [Root], remaining)
  {
    assert IsWalk(g, [Root]);
    assert forall c :: InBounds(g, c) ==> (g[c.1][c.0] == 0 <==> c == Root);
    forall c | OddCell(w, h, c)
      ensures c in remaining <==> Wall(g, c)
    {
      if c != Root {
        assert c == (c.0, c.1);
      }
    }
  }

  /** The cell between c and its 2-step neighbour in direction d. */
  function Between(c: Cell, d: Cell): Cell
  {
    (c.0 + d.0 / 2, c.1 + d.1 / 2)
  }

  /** Carving from an odd cell in a direction whose target is in bounds: the
      target is odd, the cell in between is in bounds, and carving changes
      exactly those two cells to floor. */
  lemma CarveCells(w: int, h: int, g: Tiles, c: Cell, d: Cell)
    requires Rectangular(g) && Width(g) == w && Height(g) == h
    requires OddCell(w, h, c) && d in Steps && InBounds(g, Plus(c, d))
    ensures OddCell(w, h, Plus(c, d))
    ensures InBounds(g, Between(c, d))
    ensures Between(c, d) != Plus(c, d) && Between(c, d) != c && Between(c, d) != Root
    ensures Adjacent(c, Between(c, d)) && Adjacent(Between(c, d), Plus(c, d))
    ensures Between(c, d).0 % 2 == 1 || Between(c, d).1 % 2 == 1
    ensures Between(c, d).0 % 2 == 0 || Between(c, d).1 % 2 == 0
    ensures var g' := Carve(g, c, d);
            Rectangular(g') && Width(g') == w && Height(g') == h &&
            (forall e :: InBounds(g', e) <==> InBounds(g, e)) &&
            (forall e :: Floor(g', e) <==> Floor(g, e) || e == Plus(c, d) || e == Between(c, d)) &&
            (forall e :: Wall(g', e) <==> Wall(g, e) && e != Plus(c, d) && e != Between(c, d))
  {
  }

  lemma CarveShape(w: int, h: int, g: Tiles, c: Cell, d: Cell)
    requires Shape(g, w, h) && OddCell(w, h, c) && Floor(g, c)
    requires d in Steps && Wall(g, Plus(c, d))
    ensures Shape(Carve(g, c, d), w, h)
  {
    CarveCells(w, h, g, c, d);
    var n, m := Plus(c, d), Between(c, d);
    assert n.0 <= LastOdd(w) && n.1 <= LastOdd(h);
    var g' := Carve(g, c, d);
    forall e | Floor(g', e)
      ensures 1 <= e.0 <= LastOdd(w) && 1 <= e.1 <= LastOdd(h)
    {
      if e != n && e != m {
        assert Floor(g, e);
      }
    }
    forall e | InBounds(g', e) && e.0 % 2 == 0 && e.1 % 2 == 0
      ensures Wall(g', e)
    {
      assert Wall(g, e);
    }
    assert Floor(g, Root);
  }

  /** Growing the floor of g by a two-cell corridor m, n leading off a floor
      cell c keeps every floor cell reachable from r. */
  lemma CorridorReachable(g: Tiles, g': Tiles, r: Cell, c: Cell, m: Cell, n: Cell)
    requires Rectangular(g) && Rectangular(g')
    requires forall e :: Floor(g, e) ==> Floor(g', e)
    requires forall e :: Floor(g', e) ==> Floor(g, e) || e == m || e == n
    requires Floor(g, c) && Floor(g', m) && Floor(g', n)
    requires Adjacent(c, m) && Adjacent(m, n)
    requires forall e :: Floor(g, e) ==> Reachable(g, r, e)
    ensures forall e :: Floor(g', e) ==> Reachable(g', r, e)
  {
    ReachMonotone(g, g', r, c);
    var wc :| IsWalk(g', wc) && wc[0] == r && wc[|wc| - 1] == c;
    WalkExtend(g', wc, m);
    WalkExtend(g', wc + [m], n);
    assert (wc + [m])[0] == r && (wc + [m] + [n])[0] == r;
    forall e | Floor(g', e)
      ensures Reachable(g', r, e)
    {
      if e != m && e != n {
        ReachMonotone(g, g', r, e);
      }
    }
  }

  lemma CarveClosed(w: int, h: int, g: Tiles, stack: seq<Cell>, c: Cell, d: Cell)
    requires Shape(g, w, h) && OddCell(w, h, c) && Floor(g, c)
    requires d in Steps && Wall(g, Plus(c, d))
    requires forall e :: OddCell(w, h, e) && Floor(g, e) && e !in stack ==> Closed(g, e)
    ensures var g' := Carve(g, c, d);
            forall e :: OddCell(w, h, e) && Floor(g', e) && e !in stack + [Plus(c, d)] ==> Closed(g', e)
  {
    CarveCells(w, h, g, c, d);
    var n, m := Plus(c, d), Between(c, d);
    var g' := Carve(g, c, d);
    forall e | OddCell(w, h, e) && Floor(g', e) && e !in stack + [n]
      ensures Closed(g', e)
    {
      assert e != n && e != m;
      assert e !in stack;
      assert Floor(g, e);
      assert Closed(g, e);
      forall k | 0 <= k < |Steps|
        ensures !Wall(g', Plus(e, Steps[k]))
      {
        assert !Wall(g, Plus(e, Steps[k]));
      }
    }
  }

  /** Carving from the top of the stack in a direction whose target is still
      wall keeps the invariant, with the certificate extended to the new floor. */
  lemma CarveStep(w: int, h: int, g: Tiles, stack: seq<Cell>, remaining: set<Cell>, c: Cell, d: Cell)
    requires MazeInv(w, h, g, stack, remaining)
    requires |stack| > 0 && c == stack[|stack| - 1]
    requires d in Steps && Wall(g, Plus(c, d))
    ensures InBounds(g, Between(c, d))
    ensures Plus(c, d) in remaining
    ensures MazeInv(w, h, Carve(g, c, d), stack + [Plus(c, d)], remaining - {Plus(c, d)})
  {
    CarveCells(w, h, g, c, d);
    var n, m := Plus(c, d), Between(c, d);
    var g' := Carve(g, c, d);
    CarveShape(w, h, g, c, d);
    CorridorReachable(g, g', Root, c, m, n);
    CarveClosed(w, h, g, stack, c, d);
    var stack' := stack + [n];
    forall i | 0 <= i < |stack'|
      ensures OddCell(w, h, stack'[i]) && Floor(g', stack'[i])
    {
      if i < |stack| {
        assert stack'[i] == stack[i];
        assert Floor(g, stack[i]);
      }
    }
    forall e
      ensures e in remaining - {n} <==> OddCell(w, h, e) && Wall(g', e)
    {
      if OddCell(w, h, e) && e != n {
        assert e != m;
        assert Wall(g', e) <==> Wall(g, e);
      }
    }
  }

  /** Popping a closed top of the stack keeps the invariant. */
  lemma PopStep(w: int, h: int, g: Tiles, stack: seq<Cell>, remaining: set<Cell>)
    requires MazeInv(w, h, g, stack, remaining)
    requires |stack| > 0 && Closed(g, stack[|stack| - 1])
    ensures MazeInv(w, h, g, stack[..|stack| - 1], remaining)
  {
    var s' := stack[..|stack| - 1];
    forall e | e in stack && e !in s'
      ensures e == stack[|stack| - 1]
    {
      var i :| 0 <= i < |stack| && stack[i] == e;
    }
  }

  /** When no direction of a permutation of the four steps can be carved, c is closed. */
  lemma AllStepsTried(g: Tiles, c: Cell, dirs: seq<Cell>)
    requires Rectangular(g)
    requires multiset(dirs) == multiset(Steps)
    requires forall j :: 0 <= j < |dirs| ==> !Wall(g, Plus(c, dirs[j]))
    ensures Closed(g, c)
  {
    forall k | 0 <= k < |Steps|
      ensures !Wall(g, Plus(c, Steps[k]))
    {
      assert Steps[k] in multiset(dirs);
      var j :| 0 <= j < |dirs| && dirs[j] == Steps[k];
    }
  }

  /** Once the stack is empty every odd cell has been carved: each is two steps
      from a smaller one, down to the root. */
  lemma {:induction false} OddCellCarved(w: int, h: int, g: Tiles, c: Cell)
    requires Shape(g, w, h)
    requires forall e {:trigger Closed(g, e)} :: OddCell(w, h, e) && Floor(g, e) ==> Closed(g, e)
    requires OddCell(w, h, c)
    ensures Floor(g, c)
    decreases c.0 + c.1
  {
    if c != Root {
      var b, k := if c.0 > 1 then (c.0 - 2, c.1) else (c.0, c.1 - 2), if c.0 > 1 then 0 else 2;
      OddCellCarved(w, h, g, b);
      assert Closed(g, b);
      ClosedStep(g, b, k);
      assert Plus(b, Steps[k]) == c;
      OpenOddFloor(w, h, g, c);
    }
  }

  /** No step from a closed cell reaches a wall. */
  lemma ClosedStep(g: Tiles, b: Cell, k: nat)
    requires Rectangular(g) && Closed(g, b) && k < |Steps|
    ensures !Wall(g, Plus(b, Steps[k]))
  {
  }

  /** An odd cell that is not a wall is floor. */
  lemma OpenOddFloor(w: int, h: int, g: Tiles, c: Cell)
    requires Shape(g, w, h) && OddCell(w, h, c) && !Wall(g, c)
    ensures Floor(g, c)
  {
    assert InBounds(g, c);
  }

  /** With the stack empty, the invariant gives everything the generator promises. */
  lemma Finished(w: int, h: int, g: Tiles, remaining: set<Cell>)
    requires MazeInv(w, h, g, [], remaining)
    ensures Rectangular(g) && Width(g) == w && Height(g) == h
    ensures forall c :: InBounds(g, c) ==> Floor(g, c) || Wall(g, c)
    ensures Floor(g, Root)
    ensures forall c :: OddCell(w, h, c) ==> Floor(g, c)
    ensures forall c :: InBounds(g, c) && c.0 % 2 == 0 && c.1 % 2 == 0 ==> Wall(g, c)
    ensures w % 2 == 1 && h % 2 == 1 ==>
              forall c :: InBounds(g, c) && OnBorder(w, h, c) ==> Wall(g, c)
    ensures Connected(g, Root)
  {
    forall c | OddCell(w, h, c)
      ensures Floor(g, c)
    {
      OddCellCarved(w, h, g, c);
    }
    if w % 2 == 1 && h % 2 == 1 {
      forall c | InBounds(g, c) && OnBorder(w, h, c)
        ensures Wall(g, c)
      {
      }
    }
  }
}
