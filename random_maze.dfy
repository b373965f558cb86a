/**
 * The random-wall maze component (src/components/MazeGame.tsx): a 10 x 10
 * grid where every cell but the start and the goal may be a wall, and a
 * player who moves by arrow keys, on-screen buttons or swipes.
 *
 * `Math.random()` is an oracle `random(i, j)`: the value drawn while cell j of
 * row i is built. Touch coordinates are exact reals standing for the
 * browser's floating-point `clientX`/`clientY`.
 */
module RandomMaze {
  import opened Wrappers

  const GRID_SIZE: int := 10
  const WALL_PROBABILITY: real := 0.2
  /** The shortest swipe, in pixels, that counts as a move. */
  const MIN_SWIPE_DISTANCE: real := 30.0

  datatype Position = Position(x: int, y: int)

  datatype MazeCell = MazeCell(isWall: bool, isPath: bool)

  datatype TouchPosition = TouchPosition(x: real, y: real)

  const StartPos := Position(0, 0)
  const GoalPos := Position(GRID_SIZE - 1, GRID_SIZE - 1)

  /** The component state. */
  datatype Game = Game(maze: seq<seq<MazeCell>>, playerPos: Position, won: bool, touchStart: Option<TouchPosition>)

  predicate IsGrid(maze: seq<seq<MazeCell>>)
  {
    |maze| == GRID_SIZE && forall i :: 0 <= i < |maze| ==> |maze[i]| == GRID_SIZE
  }

  predicate OnGrid(p: Position) { 0 <= p.x < GRID_SIZE && 0 <= p.y < GRID_SIZE }

  /** Whether cell (i, j) (row i, column j) becomes a wall, given the value drawn for it. */
  predicate WallDrawn(random: (int, int) -> real, i: int, j: int)
  {
    random(i, j) < WALL_PROBABILITY && !(i == 0 && j == 0) && !(i == GRID_SIZE - 1 && j == GRID_SIZE - 1)
  }

  /**
   * generateMaze: a GRID_SIZE x GRID_SIZE grid, no cell on a path, a wall
   * exactly where the draw fell below WALL_PROBABILITY, never at the start or
   * the goal.
   */
  method GenerateMaze(random: (int, int) -> real) returns (maze: seq<seq<MazeCell>>)
    ensures IsGrid(maze)
    ensures !maze[0][0].isWall && !maze[GRID_SIZE - 1][GRID_SIZE - 1].isWall
    ensures forall i, j :: 0 <= i < GRID_SIZE && 0 <= j < GRID_SIZE ==>
      && !maze[i][j].isPath
      && (maze[i][j].isWall <==>
            random(i, j) < WALL_PROBABILITY && (i, j) != (0, 0) && (i, j) != (GRID_SIZE - 1, GRID_SIZE - 1))
  {
    var newMaze: seq<seq<MazeCell>> := [];
    for i := 0 to GRID_SIZE
      invariant |newMaze| == i
      invariant forall r :: 0 <= r < i ==> |newMaze[r]| == GRID_SIZE
      invariant forall r, j :: 0 <= r < i && 0 <= j < GRID_SIZE ==>
        newMaze[r][j] == MazeCell(WallDrawn(random, r, j), false)
    {
      var row: seq<MazeCell> := [];
      for j := 0 to GRID_SIZE
        invariant |row| == j
        invariant forall c :: 0 <= c < j ==> row[c] == MazeCell(WallDrawn(random, i, c), false)
      {
        row := row + [MazeCell(random(i, j) < WALL_PROBABILITY && !(i == 0 && j == 0)
                                 && !(i == GRID_SIZE - 1 && j == GRID_SIZE - 1), false)];
      }
      newMaze := newMaze + [row];
    }
    maze := newMaze;
  }

  /**
   * The invariant of a started game: a full grid whose start and goal are
   * open, the player on an open cell, and the game won exactly when the player
   * stands on the goal.
   */
  predicate Inv(g: Game)
  {
    && IsGrid(g.maze)
    && !g.maze[0][0].isWall && !g.maze[GRID_SIZE - 1][GRID_SIZE - 1].isWall
    && OnGrid(g.playerPos) && !g.maze[g.playerPos.y][g.playerPos.x].isWall
    && (g.won <==> g.playerPos == GoalPos)
  }

  /** initGame: a new maze, the player back on the start, not won. */
  method InitGame(g: Game, random: (int, int) -> real) returns (g': Game)
    ensures Inv(g') && g'.playerPos == StartPos && !g'.won && g'.touchStart == g.touchStart
    ensures forall i, j :: 0 <= i < GRID_SIZE && 0 <= j < GRID_SIZE ==>
      (g'.maze[i][j].isWall <==> WallDrawn(random, i, j))
  {
    var maze := GenerateMaze(random);
    g' := g.(maze := maze, playerPos := Position(0, 0), won := false);
  }

  /** The move by (dx, dy) is refused: off the grid on either axis, or into a wall. */
  predicate Blocked(g: Game, dx: int, dy: int): (r: bool)
    requires IsGrid(g.maze)
    ensures (|| g.playerPos.x + dx < 0 || g.playerPos.x + dx >= GRID_SIZE
             || g.playerPos.y + dy < 0 || g.playerPos.y + dy >= GRID_SIZE) ==> r
    ensures OnGrid(Position(g.playerPos.x + dx, g.playerPos.y + dy)) ==>
      (r <==> g.maze[g.playerPos.y + dy][g.playerPos.x + dx].isWall)
  {
    var target := Position(g.playerPos.x + dx, g.playerPos.y + dy);
    !OnGrid(target) || g.maze[target.y][target.x].isWall
  }

  /**
   * movePlayer(dx, dy). Nothing changes once the game is won or when the move
   * is blocked. Otherwise the player goes to exactly (x + dx, y + dy), and the
   * game is won iff that is the goal.
   */
  function MovePlayer(g: Game, dx: int, dy: int): (g': Game)
    requires IsGrid(g.maze)
    ensures g.won || Blocked(g, dx, dy) ==> g' == g
    ensures !g.won && !Blocked(g, dx, dy) ==>
      && g'.playerPos == Position(g.playerPos.x + dx, g.playerPos.y + dy)
      && OnGrid(g'.playerPos) && !g.maze[g'.playerPos.y][g'.playerPos.x].isWall
      && (g'.won <==> g'.playerPos == GoalPos)
      && g'.maze == g.maze && g'.touchStart == g.touchStart
  {
    if g.won then g
    else
      var newX := g.playerPos.x + dx;
      var newY := g.playerPos.y + dy;
      if newX >= 0 && newX < GRID_SIZE && newY >= 0 && newY < GRID_SIZE && !g.maze[newY][newX].isWall then
        var moved := g.(playerPos := Position(newX, newY));
        if newX == GoalPos.x && newY == GoalPos.y then moved.(won := true) else moved
      else g
  }

  lemma MovePreservesInv(g: Game, dx: int, dy: int)
    requires Inv(g)
    ensures Inv(MovePlayer(g, dx, dy))
  {
  }

  /**
   * The arrow keys and their moves: exactly the four arrow keys move, by one
   * step, the vertical ones along y (up towards row 0) and the horizontal
   * ones along x (left towards column 0).
   */
  function KeyMove(key: string): (r: Option<(int, int)>)
    ensures r.Some? <==> key == "ArrowUp" || key == "ArrowDown" || key == "ArrowLeft" || key == "ArrowRight"
    ensures r.Some? ==> r.value.0 * r.value.0 + r.value.1 * r.value.1 == 1
    ensures key == "ArrowUp" || key == "ArrowDown" ==>
      r.Some? && r.value.0 == 0 && (r.value.1 < 0 <==> key == "ArrowUp")
    ensures key == "ArrowLeft" || key == "ArrowRight" ==>
      r.Some? && r.value.1 == 0 && (r.value.0 < 0 <==> key == "ArrowLeft")
  {
    if key == "ArrowUp" then Some((0, -1))
    else if key == "ArrowDown" then Some((0, 1))
    else if key == "ArrowLeft" then Some((-1, 0))
    else if key == "ArrowRight" then Some((1, 0))
    else None
  }

  /** The keydown handler: ignored once won, otherwise the key's move if it is an arrow. */
  function HandleKeyDown(g: Game, key: string): (g': Game)
    requires IsGrid(g.maze)
    ensures g.won || KeyMove(key).None? ==> g' == g
    ensures !g.won && KeyMove(key).Some? ==> g' == MovePlayer(g, KeyMove(key).value.0, KeyMove(key).value.1)
  {
    if g.won then g
    else match KeyMove(key)
      case None => g
      case Some(d) => MovePlayer(g, d.0, d.1)
  }

  function Abs(r: real): real { if r < 0.0 then -r else r }

  /**
   * The swipe classification of handleTouchEnd. A strictly dominant
   * horizontal displacement over the threshold is a move left or right by its
   * sign; otherwise (ties included) a vertical one over the threshold is a
   * move up or down by its sign; anything else is no move.
   */
  function SwipeMove(deltaX: real, deltaY: real): (r: Option<(int, int)>)
    ensures r == Some((1, 0)) <==> Abs(deltaX) > Abs(deltaY) && deltaX > MIN_SWIPE_DISTANCE
    ensures r == Some((-1, 0)) <==> Abs(deltaX) > Abs(deltaY) && deltaX < -MIN_SWIPE_DISTANCE
    ensures r == Some((0, 1)) <==> Abs(deltaX) <= Abs(deltaY) && deltaY > MIN_SWIPE_DISTANCE
    ensures r == Some((0, -1)) <==> Abs(deltaX) <= Abs(deltaY) && deltaY < -MIN_SWIPE_DISTANCE
    ensures r.None? <==> if Abs(deltaX) > Abs(deltaY) then Abs(deltaX) <= MIN_SWIPE_DISTANCE
                         else Abs(deltaY) <= MIN_SWIPE_DISTANCE
  {
    if Abs(deltaX) > Abs(deltaY) then
      if Abs(deltaX) > MIN_SWIPE_DISTANCE then Some((if deltaX > 0.0 then 1 else -1, 0)) else None
    else
      if Abs(deltaY) > MIN_SWIPE_DISTANCE then Some((0, if deltaY > 0.0 then 1 else -1)) else None
  }

  /** handleTouchStart: remember where the touch began. */
  function HandleTouchStart(g: Game, touch: TouchPosition): (g': Game)
  {
    g.(touchStart := Some(touch))
  }

  /**
   * handleTouchEnd: without a remembered start nothing happens; otherwise the
   * swipe from the start to the end point makes at most one move and the
   * start is forgotten.
   */
  function HandleTouchEnd(g: Game, touchEnd: TouchPosition): (g': Game)
    requires IsGrid(g.maze)
    ensures g.touchStart.None? ==> g' == g
    ensures g.touchStart.Some? ==>
      && g'.touchStart.None?
      && var d := SwipeMove(touchEnd.x - g.touchStart.value.x, touchEnd.y - g.touchStart.value.y);
         g'.(touchStart := g.touchStart) == if d.None? then g else MovePlayer(g, d.value.0, d.value.1)
  {
    match g.touchStart
    case None => g
    case Some(start) =>
      var deltaX := touchEnd.x - start.x;
      var deltaY := touchEnd.y - start.y;
      var moved := match SwipeMove(deltaX, deltaY)
        case None => g
        case Some(d) => MovePlayer(g, d.0, d.1);
      moved.(touchStart := None)
  }

  /** Every input handler keeps the invariant of a started game. */
  lemma HandlersPreserveInv(g: Game, key: string, touch: TouchPosition)
    requires Inv(g)
    ensures Inv(HandleKeyDown(g, key)) && Inv(HandleTouchStart(g, touch)) && Inv(HandleTouchEnd(g, touch))
  {
    var d := KeyMove(key);
    if d.Some? { MovePreservesInv(g, d.value.0, d.value.1); }
    if g.touchStart.Some? {
      var s := SwipeMove(touch.x - g.touchStart.value.x, touch.y - g.touchStart.value.y);
      if s.Some? { MovePreservesInv(g, s.value.0, s.value.1); }
    }
  }

  // ---------------------------------------------------------------------------
  // Sequences of moves
  // ---------------------------------------------------------------------------

  /** The state after the moves ms, one movePlayer call each. */
  function RunMoves(g: Game, ms: seq<(int, int)>): Game
    requires IsGrid(g.maze)
    decreases |ms|
  {
    if ms == [] then g
    else
      var g1 := MovePlayer(g, ms[0].0, ms[0].1);
      assert g1.maze == g.maze;
      RunMoves(g1, ms[1..])
  }

  lemma {:induction false} RunMovesAppend(g: Game, a: seq<(int, int)>, b: seq<(int, int)>)
    requires IsGrid(g.maze)
    ensures RunMoves(g, a).maze == g.maze
    ensures RunMoves(g, a + b) == RunMoves(RunMoves(g, a), b)
    decreases |a|
  {
    if a != [] {
      var g1 := MovePlayer(g, a[0].0, a[0].1);
      assert (a + b)[0] == a[0];
      assert (a + b)[1..] == a[1..] + b;
      RunMovesAppend(g1, a[1..], b);
      assert RunMoves(g, a) == RunMoves(g1, a[1..]);
      assert RunMoves(g, a + b) == RunMoves(g1, a[1..] + b);
    } else {
      assert a + b == b;
    }
  }

  function Repeat(m: (int, int), n: nat): seq<(int, int)>
  {
    seq(n, _ => m)
  }

  predicate NoWalls(maze: seq<seq<MazeCell>>)
    requires IsGrid(maze)
  {
    forall i, j :: 0 <= i < GRID_SIZE && 0 <= j < GRID_SIZE ==> !maze[i][j].isWall
  }

  /** On a wall-free grid, n steps right along the top row stay unwon and end n cells further right. */
  lemma {:induction false} RunRight(g: Game, n: nat)
    requires IsGrid(g.maze) && NoWalls(g.maze) && !g.won
    requires g.playerPos.y == 0 && 0 <= g.playerPos.x && g.playerPos.x + n < GRID_SIZE
    ensures RunMoves(g, Repeat((1, 0), n)) == g.(playerPos := Position(g.playerPos.x + n, 0))
    decreases n
  {
    if n > 0 {
      var g1 := MovePlayer(g, 1, 0);
      assert g1 == g.(playerPos := Position(g.playerPos.x + 1, 0));
      assert Repeat((1, 0), n)[1..] == Repeat((1, 0), n - 1);
      RunRight(g1, n - 1);
    }
  }

  /**
   * On a wall-free grid, n steps down the last column end n cells lower, and
   * the game is won exactly when that is the goal.
   */
  lemma {:induction false} RunDown(g: Game, n: nat)
    requires IsGrid(g.maze) && NoWalls(g.maze) && !g.won
    requires g.playerPos.x == GRID_SIZE - 1 && 0 <= g.playerPos.y < GRID_SIZE - 1 && g.playerPos.y + n < GRID_SIZE
    ensures RunMoves(g, Repeat((0, 1), n)) ==
      g.(playerPos := Position(GRID_SIZE - 1, g.playerPos.y + n), won := g.playerPos.y + n == GRID_SIZE - 1)
    decreases n
  {
    if n > 0 {
      var g1 := MovePlayer(g, 0, 1);
      assert Repeat((0, 1), n)[1..] == Repeat((0, 1), n - 1);
      if g.playerPos.y + 1 == GRID_SIZE - 1 {
        assert n == 1;
        assert Repeat((0, 1), n)[1..] == [];
        assert RunMoves(g, Repeat((0, 1), n)) == RunMoves(g1, []) == g1;
      } else {
        RunDown(g1, n - 1);
      }
    }
  }

  /**
   * On a grid without walls, nine moves right then nine moves down from the
   * start reach the goal and win the game.
   */
  lemma OpenGridIsWon(g: Game)
    requires IsGrid(g.maze) && NoWalls(g.maze) && !g.won && g.playerPos == StartPos
    ensures RunMoves(g, Repeat((1, 0), 9) + Repeat((0, 1), 9)).playerPos == GoalPos
    ensures RunMoves(g, Repeat((1, 0), 9) + Repeat((0, 1), 9)).won
  {
    RunMovesAppend(g, Repeat((1, 0), 9), Repeat((0, 1), 9));
    RunRight(g, 9);
    RunDown(g.(playerPos := Position(9, 0)), 9);
  }

  /** From the start, moving up or left is refused. */
  lemma CornerMovesAreRefused(g: Game)
    requires IsGrid(g.maze) && g.playerPos == StartPos
    ensures MovePlayer(g, 0, -1).playerPos == StartPos && MovePlayer(g, -1, 0).playerPos == StartPos
  {
  }
}
