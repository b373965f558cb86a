/**
 * The "Love Maze" component (src/components/MazeGame2.tsx): a perfect maze
 * carved by an iterative depth-first backtracker over a square grid of cells
 * with four walls each, and the player's guarded moves through it.
 *
 * Randomness (`Math.random`) is an oracle `draw: nat -> nat`: the t-th call
 * `Math.floor(Math.random() * n)` of one generation is `draw(t) % n`, which can
 * be any index in [0, n).
 */
module PerfectMaze {
  import opened Wrappers

  // ---------------------------------------------------------------------------
  // Data model
  // ---------------------------------------------------------------------------

  datatype Level = Easy | Medium | Hard

  /** The SIZES table: side length of the board for each level, never too small to generate. */
  function SizeOf(level: Level): (r: nat)
    ensures r >= 1
  {
    match level
    case Easy => 8
    case Medium => 12
    case Hard => 16
  }

  /**
   * The pool of bonus messages, character for character as the component
   * holds them: each trailing emoji is stored as its UTF-8 bytes read as
   * Windows-1252 text (the sun emoji U+1F31E appears as U+00F0 U+0178
   * U+0152 U+017E, and so on).
   */
  const MESSAGES: seq<string> := [
    "You're my sunshine! \U{F0}\U{178}\U{152}\U{17E}",
    "Keep going, my love! \U{F0}\U{178}\U{2019}\U{2022}",
    "You make me smile! \U{F0}\U{178}\U{2DC}\U{160}",
    "You're amazing! \U{E2}\U{153}\U{A8}",
    "I believe in you! \U{F0}\U{178}\U{2019}\U{AB}"
  ]

  /** A grid position: x is the column, y the row. */
  datatype Pos = Pos(x: int, y: int)

  /**
   * One cell. `walls` holds top, right, bottom, left (indices 0..3); `true`
   * blocks that edge. `message` is the optional bonus message.
   */
  datatype Cell = Cell(walls: seq<bool>, visited: bool, isPath: bool,
                       isPlayer: bool, isEnd: bool, message: Option<string>)

  /** A cell as generation first creates it: all walls up, nothing set. */
  const FreshCell := Cell([true, true, true, true], false, false, false, false, None)

  const Start := Pos(0, 0)

  function End(size: int): Pos { Pos(size - 1, size - 1) }

  predicate InBounds(p: Pos, size: int) { 0 <= p.x < size && 0 <= p.y < size }

  /** The cell beyond wall k of p: 0 up, 1 right, 2 down, 3 left. */
  function Neighbour(p: Pos, k: int): Pos
    requires 0 <= k < 4
  {
    if k == 0 then Pos(p.x, p.y - 1)
    else if k == 1 then Pos(p.x + 1, p.y)
    else if k == 2 then Pos(p.x, p.y + 1)
    else Pos(p.x - 1, p.y)
  }

  /** The index of the same edge seen from the other side. */
  function Opposite(k: int): int
    requires 0 <= k < 4
  {
    (k + 2) % 4
  }

  /** A message is shown only when it is present and non-empty (JavaScript truthiness). */
  predicate HasMessage(c: Cell) { c.message.Some? && c.message.value != "" }

  /** The pool holds five messages, none empty, so a cell given one always shows it. */
  lemma PooledMessagesAreShown(c: Cell)
    requires c.message.Some? && c.message.value in MESSAGES
    ensures |MESSAGES| == 5 && HasMessage(c)
  {
  }

  ghost predicate Square(g: array2<Cell>) reads g { g.Length0 == g.Length1 }

  ghost predicate FourWalls(g: array2<Cell>)
    reads g
  {
    Square(g) && forall p {:trigger g[p.y, p.x]} :: InBounds(p, g.Length0) ==> |g[p.y, p.x].walls| == 4
  }

  /** The first h rows of a board w cells wide. */
  ghost function Rect(w: int, h: int): set<Pos>
    decreases h
  {
    if h <= 0 then {} else Rect(w, h - 1) + Row(w, h - 1)
  }

  /** Every position of a size x size board. */
  ghost function Cells(size: int): set<Pos>
  {
    Rect(size, size)
  }

  // ---------------------------------------------------------------------------
  // The spanning tree that generation builds
  // ---------------------------------------------------------------------------

  /**
   * How generation first reached a cell other than the start: from which cell,
   * through which of that cell's walls, and at which depth of the tree.
   */
  datatype Link = Link(from: Pos, wall: int, depth: nat)

  function Depth(tree: map<Pos, Link>, p: Pos): nat
  {
    if p in tree then tree[p].depth else 0
  }

  /**
   * If c is in the tree, its link leads from a cell of `seen`, through a wall
   * of that cell, to c, one level deeper.
   */
  ghost predicate LinkOK(tree: map<Pos, Link>, seen: set<Pos>, c: Pos)
  {
    c in tree ==>
      && tree[c].from in seen
      && 0 <= tree[c].wall < 4
      && Neighbour(tree[c].from, tree[c].wall) == c
      && tree[c].depth == Depth(tree, tree[c].from) + 1
  }

  /** `tree` is a tree over `seen` rooted at the start cell, each link an edge of the grid. */
  ghost predicate IsTree(tree: map<Pos, Link>, seen: set<Pos>)
  {
    && Start in seen
    && tree.Keys == seen - {Start}
    && forall c {:trigger LinkOK(tree, seen, c)} :: LinkOK(tree, seen, c)
  }

  /** a and b are joined by an edge of the tree, in either direction. */
  predicate TreeEdge(tree: map<Pos, Link>, a: Pos, b: Pos)
  {
    (b in tree && tree[b].from == a) || (a in tree && tree[a].from == b)
  }

  /** The walls of the cell at p are open exactly towards its tree neighbours inside the board. */
  ghost predicate WallsFollow(walls: seq<bool>, p: Pos, size: int, tree: map<Pos, Link>)
  {
    && |walls| == 4
    && forall k :: 0 <= k < 4 ==>
         (!walls[k] <==> InBounds(Neighbour(p, k), size) && TreeEdge(tree, p, Neighbour(p, k)))
  }

  ghost predicate WallsFollowTree(g: array2<Cell>, tree: map<Pos, Link>)
    reads g
  {
    Square(g) && forall p {:trigger g[p.y, p.x]} :: InBounds(p, g.Length0) ==> WallsFollow(g[p.y, p.x].walls, p, g.Length0, tree)
  }

  /**
   * The open edges of g are exactly the edges of a tree that spans the whole
   * board: a perfect maze.
   */
  ghost predicate SpanningTree(g: array2<Cell>, tree: map<Pos, Link>)
    reads g
  {
    g.Length0 >= 1 && WallsFollowTree(g, tree) && IsTree(tree, Cells(g.Length0))
  }

  ghost predicate WallsSymmetric(g: array2<Cell>)
    reads g
    requires FourWalls(g)
  {
    forall p, k {:trigger g[p.y, p.x].walls[k]} :: InBounds(p, g.Length0) && 0 <= k < 4 && InBounds(Neighbour(p, k), g.Length0) ==>
      g[p.y, p.x].walls[k] == g[Neighbour(p, k).y, Neighbour(p, k).x].walls[Opposite(k)]
  }

  /** Every neighbour of c inside the board is in `seen`. */
  ghost predicate Finished(c: Pos, seen: set<Pos>, size: int)
  {
    forall k :: 0 <= k < 4 && InBounds(Neighbour(c, k), size) ==> Neighbour(c, k) in seen
  }

  /** Row y of a board w cells wide. */
  ghost function Row(w: int, y: int): set<Pos>
    decreases w
  {
    if w <= 0 then {} else Row(w - 1, y) + {Pos(w - 1, y)}
  }

  lemma {:induction false} RowMembership(p: Pos, w: int, y: int)
    ensures p in Row(w, y) <==> 0 <= p.x < w && p.y == y
    decreases w
  {
    if w > 0 {
      RowMembership(p, w - 1, y);
    }
  }

  lemma {:induction false} RectMembership(p: Pos, w: int, h: int)
    ensures p in Rect(w, h) <==> 0 <= p.x < w && 0 <= p.y < h
    decreases h
  {
    if h > 0 {
      RectMembership(p, w, h - 1);
      RowMembership(p, w, h - 1);
    }
  }

  lemma CellsMembership(p: Pos, size: int)
    ensures p in Cells(size) <==> InBounds(p, size)
  {
    RectMembership(p, size, size);
  }

  lemma {:induction false} RowCard(w: nat, y: int)
    ensures |Row(w, y)| == w
  {
    if w > 0 {
      RowCard(w - 1, y);
      RowMembership(Pos(w - 1, y), w - 1, y);
    }
  }

  lemma {:induction false} RectCard(w: nat, h: nat)
    ensures |Rect(w, h)| == w * h
  {
    if h > 0 {
      RectCard(w, h - 1);
      RowCard(w, h - 1);
      RectStep(w, h);
      MulStep(w, h);
    }
  }

  /** The last row of a rectangle is disjoint from the rows above it. */
  lemma RectStep(w: int, h: int)
    requires h > 0
    ensures |Rect(w, h)| == |Rect(w, h - 1)| + |Row(w, h - 1)|
  {
    var last := h - 1;
    forall p | p in Row(w, last) ensures p !in Rect(w, last) {
      RowMembership(p, w, last);
      RectMembership(p, w, last);
    }
    assert Rect(w, last) !! Row(w, last);
  }

  lemma MulStep(w: int, h: int)
    ensures w * h == w * (h - 1) + w
  {
  }

  /** A size x size board has size * size cells. */
  lemma CellsCard(size: nat)
    ensures |Cells(size)| == size * size
  {
    RectCard(size, size);
  }

  /**
   * A set of cells that holds the start and is closed under moving to
   * neighbours inside the board holds every cell of the board: the grid graph
   * is connected.
   */
  lemma {:induction false} ClosedSetCoversBoard(seen: set<Pos>, size: int, p: Pos)
    requires Start in seen
    requires forall c {:trigger Finished(c, seen, size)} :: c in seen ==> Finished(c, seen, size)
    requires InBounds(p, size)
    ensures p in seen
    decreases p.x + p.y
  {
    if p.x > 0 {
      var q := Pos(p.x - 1, p.y);
      ClosedSetCoversBoard(seen, size, q);
      assert Finished(q, seen, size) && Neighbour(q, 1) == p;
    } else if p.y > 0 {
      var q := Pos(p.x, p.y - 1);
      ClosedSetCoversBoard(seen, size, q);
      assert Finished(q, seen, size) && Neighbour(q, 2) == p;
    }
  }

  /** Since tree edges have no direction, walls that follow a tree agree on both sides of every edge. */
  lemma TreeWallsAreSymmetric(g: array2<Cell>, tree: map<Pos, Link>)
    requires WallsFollowTree(g, tree)
    ensures FourWalls(g) && WallsSymmetric(g)
  {
    forall p, k | InBounds(p, g.Length0) && 0 <= k < 4 && InBounds(Neighbour(p, k), g.Length0)
      ensures g[p.y, p.x].walls[k] == g[Neighbour(p, k).y, Neighbour(p, k).x].walls[Opposite(k)]
    {
      var q := Neighbour(p, k);
      assert Neighbour(q, Opposite(k)) == p;
      assert WallsFollow(g[p.y, p.x].walls, p, g.Length0, tree);
      assert WallsFollow(g[q.y, q.x].walls, q, g.Length0, tree);
    }
  }

  // ---------------------------------------------------------------------------
  // One carve step keeps the walls following the grown tree
  // ---------------------------------------------------------------------------

  /** Add `next` to the tree, reached from `cur` through wall k of `cur`. */
  function Grow(tree: map<Pos, Link>, cur: Pos, k: int, next: Pos): map<Pos, Link>
  {
    tree[next := Link(cur, k, Depth(tree, cur) + 1)]
  }

  lemma GrowIsTree(tree: map<Pos, Link>, seen: set<Pos>, cur: Pos, k: int, next: Pos)
    requires IsTree(tree, seen) && cur in seen && next !in seen
    requires 0 <= k < 4 && Neighbour(cur, k) == next
    ensures IsTree(Grow(tree, cur, k, next), seen + {next})
    ensures |Grow(tree, cur, k, next)| == |tree| + 1
  {
    var t := Grow(tree, cur, k, next);
    assert next !in tree;
    forall c ensures LinkOK(t, seen + {next}, c) {
      GrowLinkOK(tree, seen, cur, k, next, c);
    }
    assert t.Keys == tree.Keys + {next};
  }

  /** Each link of the grown tree is sound: the new one by construction, the others as before. */
  lemma GrowLinkOK(tree: map<Pos, Link>, seen: set<Pos>, cur: Pos, k: int, next: Pos, c: Pos)
    requires IsTree(tree, seen) && cur in seen && next !in seen
    requires 0 <= k < 4 && Neighbour(cur, k) == next
    ensures LinkOK(Grow(tree, cur, k, next), seen + {next}, c)
  {
    var t := Grow(tree, cur, k, next);
    assert next !in tree;
    if c == next {
      assert t[c] == Link(cur, k, Depth(tree, cur) + 1);
      assert cur != next;
      assert Depth(t, cur) == Depth(tree, cur);
    } else if c in t {
      assert LinkOK(tree, seen, c);
      assert t[c] == tree[c];
      assert tree[c].from != next;
      assert Depth(t, tree[c].from) == Depth(tree, tree[c].from);
    }
  }

  /** Away from the new edge, growing the tree changes no tree edge. */
  lemma GrowKeepsOtherEdges(tree: map<Pos, Link>, seen: set<Pos>, cur: Pos, k: int, next: Pos, a: Pos, b: Pos)
    requires IsTree(tree, seen) && next !in seen && 0 <= k < 4
    requires !(a == cur && b == next) && !(a == next && b == cur)
    ensures TreeEdge(Grow(tree, cur, k, next), a, b) == TreeEdge(tree, a, b)
  {
    assert LinkOK(tree, seen, a) && LinkOK(tree, seen, b);
  }

  lemma NeighbourUnique(p: Pos, j: int, k: int)
    requires 0 <= j < 4 && 0 <= k < 4 && Neighbour(p, j) == Neighbour(p, k)
    ensures j == k
  {
  }

  lemma NeighbourBack(p: Pos, k: int, j: int)
    requires 0 <= k < 4 && 0 <= j < 4
    ensures Neighbour(Neighbour(p, k), j) == p <==> j == Opposite(k)
  {
  }

  /** The current cell: clearing wall k matches the new tree edge towards `next`. */
  lemma CarveFrom(walls: seq<bool>, tree: map<Pos, Link>, seen: set<Pos>, size: int, cur: Pos, k: int, next: Pos)
    requires WallsFollow(walls, cur, size, tree) && IsTree(tree, seen)
    requires cur in seen && next !in seen && 0 <= k < 4 && Neighbour(cur, k) == next && InBounds(next, size)
    ensures WallsFollow(walls[k := false], cur, size, Grow(tree, cur, k, next))
  {
    var t := Grow(tree, cur, k, next);
    forall j | 0 <= j < 4
      ensures !walls[k := false][j] <==> InBounds(Neighbour(cur, j), size) && TreeEdge(t, cur, Neighbour(cur, j))
    {
      if j != k {
        if Neighbour(cur, j) == next { NeighbourUnique(cur, j, k); }
        assert cur != next;
        GrowKeepsOtherEdges(tree, seen, cur, k, next, cur, Neighbour(cur, j));
      }
    }
  }

  /** The new cell: all its walls were up, and only the one facing `cur` is cleared. */
  lemma CarveInto(walls: seq<bool>, tree: map<Pos, Link>, seen: set<Pos>, size: int, cur: Pos, k: int, next: Pos)
    requires WallsFollow(walls, next, size, tree) && IsTree(tree, seen)
    requires cur in seen && next !in seen && 0 <= k < 4 && Neighbour(cur, k) == next && InBounds(cur, size)
    ensures WallsFollow(walls[Opposite(k) := false], next, size, Grow(tree, cur, k, next))
  {
    var t := Grow(tree, cur, k, next);
    var o := Opposite(k);
    NeighbourBack(cur, k, o);
    forall j | 0 <= j < 4
      ensures !walls[o := false][j] <==> InBounds(Neighbour(next, j), size) && TreeEdge(t, next, Neighbour(next, j))
    {
      if j != o {
        NeighbourBack(cur, k, j);
        GrowKeepsOtherEdges(tree, seen, cur, k, next, next, Neighbour(next, j));
        var b := Neighbour(next, j);
        assert LinkOK(tree, seen, b);
      }
    }
  }

  /** Any other cell: its walls still follow the grown tree. */
  lemma CarveElsewhere(walls: seq<bool>, p: Pos, tree: map<Pos, Link>, seen: set<Pos>, size: int, cur: Pos, k: int, next: Pos)
    requires WallsFollow(walls, p, size, tree) && IsTree(tree, seen)
    requires next !in seen && 0 <= k < 4 && Neighbour(cur, k) == next
    requires p != cur && p != next
    ensures WallsFollow(walls, p, size, Grow(tree, cur, k, next))
  {
    forall j | 0 <= j < 4
      ensures TreeEdge(Grow(tree, cur, k, next), p, Neighbour(p, j)) == TreeEdge(tree, p, Neighbour(p, j))
    {
      GrowKeepsOtherEdges(tree, seen, cur, k, next, p, Neighbour(p, j));
    }
  }

  // ---------------------------------------------------------------------------
  // generateMaze
  // ---------------------------------------------------------------------------

  /** An unvisited neighbour of the current cell, with the wall of the current cell that faces it. */
  datatype Candidate = Candidate(pos: Pos, wall: int)

  /** The neighbour beyond wall k of `cur` lies inside the board and is not yet visited. */
  predicate Open(g: array2<Cell>, size: int, cur: Pos, k: int)
    reads g
    requires g.Length0 == size && g.Length1 == size && 0 <= k < 4
  {
    InBounds(Neighbour(cur, k), size) && !g[Neighbour(cur, k).y, Neighbour(cur, k).x].visited
  }

  /** c names an open neighbour of `cur` together with the wall it lies behind. */
  predicate ValidCandidate(g: array2<Cell>, size: int, cur: Pos, c: Candidate)
    reads g
    requires g.Length0 == size && g.Length1 == size
  {
    0 <= c.wall < 4 && c.pos == Neighbour(cur, c.wall) && Open(g, size, cur, c.wall)
  }

  predicate HasWall(r: seq<Candidate>, k: int)
  {
    exists i :: 0 <= i < |r| && r[i].wall == k
  }

  /**
   * One probe of a backtracking step: the neighbour beyond wall k of `cur`,
   * when it lies inside the board and is not yet visited. The component
   * spells the in-board test out per direction (not on the top row, not in
   * the last column, and so on), which is what InBounds of the neighbour
   * says for a cell on the board.
   */
  function Probe(g: array2<Cell>, size: int, cur: Pos, k: int): (r: seq<Candidate>)
    reads g
    requires g.Length0 == size && g.Length1 == size && 0 <= k < 4
    ensures |r| <= 1
    ensures r != [] <==> Open(g, size, cur, k)
    ensures r != [] ==> r[0] == Candidate(Neighbour(cur, k), k)
    ensures InBounds(cur, size) ==>
      (r != [] <==>
        if k == 0 then cur.y > 0 && !g[cur.y - 1, cur.x].visited
        else if k == 1 then cur.x < size - 1 && !g[cur.y, cur.x + 1].visited
        else if k == 2 then cur.y < size - 1 && !g[cur.y + 1, cur.x].visited
        else cur.x > 0 && !g[cur.y, cur.x - 1].visited)
  {
    var n := Neighbour(cur, k);
    if InBounds(n, size) && !g[n.y, n.x].visited then [Candidate(n, k)] else []
  }

  /**
   * The `neighbors` list of one backtracking step, from direction k on: the
   * open neighbours of `cur`, probed up, right, down, left, so in strictly
   * increasing wall order, and none left out.
   */
  function Candidates(g: array2<Cell>, size: int, cur: Pos, k: int := 0): (r: seq<Candidate>)
    reads g
    requires g.Length0 == size && g.Length1 == size && 0 <= k <= 4
    ensures forall i :: 0 <= i < |r| ==> k <= r[i].wall && ValidCandidate(g, size, cur, r[i])
    ensures forall i, j :: 0 <= i < j < |r| ==> r[i].wall < r[j].wall
    ensures forall j :: k <= j < 4 && Open(g, size, cur, j) ==> HasWall(r, j)
    decreases 4 - k
  {
    if k == 4 then []
    else
      var here, rest := Probe(g, size, cur, k), Candidates(g, size, cur, k + 1);
      ProbeThenRest(g, size, cur, k, here, rest);
      here + rest
  }

  /** The candidates from direction k on are the probe of k followed by those from k + 1 on. */
  lemma ProbeThenRest(g: array2<Cell>, size: int, cur: Pos, k: int, here: seq<Candidate>, rest: seq<Candidate>)
    requires g.Length0 == size && g.Length1 == size && 0 <= k < 4
    requires |here| <= 1 && (here != [] <==> Open(g, size, cur, k))
    requires here != [] ==> here[0] == Candidate(Neighbour(cur, k), k)
    requires forall i :: 0 <= i < |rest| ==> k + 1 <= rest[i].wall && ValidCandidate(g, size, cur, rest[i])
    requires forall i, j :: 0 <= i < j < |rest| ==> rest[i].wall < rest[j].wall
    requires forall j :: k + 1 <= j < 4 && Open(g, size, cur, j) ==> HasWall(rest, j)
    ensures var r := here + rest;
      && (forall i :: 0 <= i < |r| ==> k <= r[i].wall && ValidCandidate(g, size, cur, r[i]))
      && (forall i, j :: 0 <= i < j < |r| ==> r[i].wall < r[j].wall)
      && (forall j :: k <= j < 4 && Open(g, size, cur, j) ==> HasWall(r, j))
  {
    var r := here + rest;
    forall i | 0 <= i < |r| ensures k <= r[i].wall && ValidCandidate(g, size, cur, r[i]) {
      ProbeThenRestAt(g, size, cur, k, here, rest, i);
    }
    forall i, j | 0 <= i < j < |r| ensures r[i].wall < r[j].wall {
      ProbeThenRestAt(g, size, cur, k, here, rest, i);
      ProbeThenRestAt(g, size, cur, k, here, rest, j);
    }
    forall j | k <= j < 4 && Open(g, size, cur, j) ensures HasWall(r, j) {
      ProbeThenRestHas(g, size, cur, k, here, rest, j);
    }
  }

  /** Entry i of the probe followed by the rest: the probe's candidate, or entry i - |here| of the rest. */
  lemma ProbeThenRestAt(g: array2<Cell>, size: int, cur: Pos, k: int, here: seq<Candidate>, rest: seq<Candidate>, i: int)
    requires g.Length0 == size && g.Length1 == size && 0 <= k < 4
    requires |here| <= 1 && (here != [] <==> Open(g, size, cur, k))
    requires here != [] ==> here[0] == Candidate(Neighbour(cur, k), k)
    requires forall i :: 0 <= i < |rest| ==> k + 1 <= rest[i].wall && ValidCandidate(g, size, cur, rest[i])
    requires 0 <= i < |here| + |rest|
    ensures k <= (here + rest)[i].wall && ValidCandidate(g, size, cur, (here + rest)[i])
    ensures i < |here| ==> (here + rest)[i].wall == k
    ensures i >= |here| ==> (here + rest)[i] == rest[i - |here|] && k < (here + rest)[i].wall
  {
  }

  lemma ProbeThenRestHas(g: array2<Cell>, size: int, cur: Pos, k: int, here: seq<Candidate>, rest: seq<Candidate>, j: int)
    requires g.Length0 == size && g.Length1 == size && 0 <= k <= j < 4
    requires |here| <= 1 && (here != [] <==> Open(g, size, cur, k))
    requires here != [] ==> here[0] == Candidate(Neighbour(cur, k), k)
    requires j > k ==> HasWall(rest, j)
    requires Open(g, size, cur, j)
    ensures HasWall(here + rest, j)
  {
    var r := here + rest;
    if j == k {
      assert r[0].wall == k;
    } else {
      var i :| 0 <= i < |rest| && rest[i].wall == j;
      assert r[|here| + i] == rest[i];
    }
  }

  /** A cell that is neither player, end, path nor message cell. */
  predicate Unmarked(c: Cell)
  {
    !c.isPlayer && !c.isEnd && !c.isPath && c.message == None
  }

  /** Two cells that can differ only in their message. */
  predicate SameButMessage(a: Cell, b: Cell)
  {
    a.walls == b.walls && a.visited == b.visited && a.isPath == b.isPath && a.isPlayer == b.isPlayer && a.isEnd == b.isEnd
  }

  /**
   * The invariant of the backtracking loop. `seen` is the set of visited cells,
   * `tree` records how each was first reached, and every visited cell that is
   * no longer on the stack has no unvisited neighbour left.
   */
  ghost predicate BacktrackInv(g: array2<Cell>, size: int, stack: seq<Pos>, seen: set<Pos>, tree: map<Pos, Link>)
    reads g
  {
    BoardInv(g, size, seen, tree) && StackInv(size, stack, seen)
  }

  /** The board part: visited flags mark `seen`, no cell is marked, and the walls follow the tree. */
  ghost predicate BoardInv(g: array2<Cell>, size: int, seen: set<Pos>, tree: map<Pos, Link>)
    reads g
  {
    && g.Length0 == size && g.Length1 == size
    && (forall p {:trigger g[p.y, p.x]} :: InBounds(p, size) ==> (g[p.y, p.x].visited <==> p in seen))
    && (forall p {:trigger g[p.y, p.x]} :: InBounds(p, size) ==> Unmarked(g[p.y, p.x]))
    && WallsFollowTree(g, tree)
    && seen <= Cells(size)
    && IsTree(tree, seen)
  }

  /** The stack part: the stack holds visited cells, and a visited cell off it is finished. */
  ghost predicate StackInv(size: int, stack: seq<Pos>, seen: set<Pos>)
  {
    && (forall i :: 0 <= i < |stack| ==> stack[i] in seen)
    && (forall c {:trigger Finished(c, seen, size)} :: c in seen && c !in stack ==> Finished(c, seen, size))
  }

  /**
   * One carve step: clear wall k of `cur` and the opposite wall of its
   * unvisited neighbour `next`, then mark `next` visited.
   */
  method Carve(g: array2<Cell>, size: int, cur: Pos, k: int, next: Pos,
               ghost stack: seq<Pos>, ghost seen: set<Pos>, ghost tree: map<Pos, Link>)
    requires BacktrackInv(g, size, stack, seen, tree)
    requires cur in stack && 0 <= k < 4 && next == Neighbour(cur, k) && InBounds(next, size) && next !in seen
    modifies g
    ensures BacktrackInv(g, size, stack + [next], seen + {next}, Grow(tree, cur, k, next))
    ensures |Grow(tree, cur, k, next)| == |tree| + 1
  {
    assert cur in seen;
    CellsMembership(cur, size);
    g[cur.y, cur.x] := g[cur.y, cur.x].(walls := g[cur.y, cur.x].walls[k := false]);
    g[next.y, next.x] := g[next.y, next.x].(walls := g[next.y, next.x].walls[Opposite(k) := false]);
    g[next.y, next.x] := g[next.y, next.x].(visited := true);

    ghost var grown := Grow(tree, cur, k, next);
    forall p | InBounds(p, size) ensures WallsFollow(g[p.y, p.x].walls, p, size, grown) {
      if p == cur {
        CarveFrom(old(g[cur.y, cur.x].walls), tree, seen, size, cur, k, next);
      } else if p == next {
        CarveInto(old(g[next.y, next.x].walls), tree, seen, size, cur, k, next);
      } else {
        CarveElsewhere(old(g[p.y, p.x].walls), p, tree, seen, size, cur, k, next);
      }
    }
    GrowIsTree(tree, seen, cur, k, next);
    CellsMembership(next, size);
    PushKeepsStackInv(size, stack, seen, next);
  }

  /** Pushing a newly visited cell keeps the stack part of the invariant. */
  lemma PushKeepsStackInv(size: int, stack: seq<Pos>, seen: set<Pos>, next: Pos)
    requires StackInv(size, stack, seen)
    ensures StackInv(size, stack + [next], seen + {next})
  {
    var stack', seen' := stack + [next], seen + {next};
    forall c | c in seen' && c !in stack' ensures Finished(c, seen', size) {
      assert c in seen && c !in stack;
      assert Finished(c, seen, size);
    }
  }

  /**
   * The backtracking loop of generateMaze, from a fresh board: returns the
   * carved board and the number of draws it took.
   */
  method Backtrack(size: nat, draw: nat -> nat)
    returns (g: array2<Cell>, t: nat, ghost tree: map<Pos, Link>, ghost carves: nat)
    requires size >= 1
    ensures fresh(g) && g.Length0 == size && g.Length1 == size
    ensures SpanningTree(g, tree)
    ensures t == carves == |tree| == size * size - 1
    ensures forall p {:trigger g[p.y, p.x]} :: InBounds(p, size) ==> g[p.y, p.x].visited && Unmarked(g[p.y, p.x])
  {
    g := new Cell[size, size]((_, _) => FreshCell);
    var stack: seq<Pos> := [];
    var startX, startY := 0, 0;
    t := 0;

    g[startY, startX] := g[startY, startX].(visited := true);
    stack := stack + [Pos(startX, startY)];
    ghost var seen: set<Pos> := {Start};
    tree, carves := map[], 0;
    CellsMembership(Start, size);

    while |stack| > 0
      invariant fresh(g)
      invariant BacktrackInv(g, size, stack, seen, tree) && t == carves == |tree|
      decreases Cells(size) - seen, |stack|
    {
      var cur := stack[|stack| - 1];
      var neighbours := Candidates(g, size, cur);
      if |neighbours| > 0 {
        var chosen := neighbours[draw(t) % |neighbours|];
        t := t + 1;
        var next, wallIndex := chosen.pos, chosen.wall;
        assert ValidCandidate(g, size, cur, chosen);
        assert next in Cells(size) - seen by { CellsMembership(next, size); }
        Carve(g, size, cur, wallIndex, next, stack, seen, tree);
        stack := stack + [next];
        tree, seen, carves := Grow(tree, cur, wallIndex, next), seen + {next}, carves + 1;
      } else {
        NoCandidatesFinished(g, size, seen, tree, cur);
        PopKeepsStackInv(size, stack, seen);
        stack := stack[..|stack| - 1];
      }
    }
    BacktrackDone(g, size, seen, tree);
  }

  /** Once the stack is empty, every cell has been seen and the tree spans the board. */
  lemma BacktrackDone(g: array2<Cell>, size: nat, seen: set<Pos>, tree: map<Pos, Link>)
    requires size >= 1 && BacktrackInv(g, size, [], seen, tree)
    ensures SpanningTree(g, tree) && |tree| == size * size - 1
    ensures forall p {:trigger g[p.y, p.x]} :: InBounds(p, size) ==> g[p.y, p.x].visited && Unmarked(g[p.y, p.x])
  {
    forall p | InBounds(p, size) ensures p in seen {
      ClosedSetCoversBoard(seen, size, p);
    }
    forall p | p in Cells(size) ensures p in seen { CellsMembership(p, size); }
    assert seen == Cells(size);
    CellsCard(size);
  }

  /** A cell without candidates is finished: every neighbour inside the board is visited. */
  lemma NoCandidatesFinished(g: array2<Cell>, size: int, seen: set<Pos>, tree: map<Pos, Link>, cur: Pos)
    requires BoardInv(g, size, seen, tree) && Candidates(g, size, cur) == []
    ensures Finished(cur, seen, size)
  {
    forall j | 0 <= j < 4 && InBounds(Neighbour(cur, j), size) ensures Neighbour(cur, j) in seen {
      assert Open(g, size, cur, j) ==> HasWall(Candidates(g, size, cur), j);
    }
  }

  /** Popping a finished cell keeps the stack part of the invariant. */
  lemma PopKeepsStackInv(size: int, stack: seq<Pos>, seen: set<Pos>)
    requires StackInv(size, stack, seen) && |stack| > 0 && Finished(stack[|stack| - 1], seen, size)
    ensures StackInv(size, stack[..|stack| - 1], seen)
  {
    var popped := stack[..|stack| - 1];
    forall c | c in seen && c !in popped ensures Finished(c, seen, size) {
      assert stack == popped + [stack[|stack| - 1]];
      assert c != stack[|stack| - 1] ==> c !in stack;
    }
  }

  /**
   * The message loop of generateMaze: three attempts, each drawing a column
   * and a row and, unless that is the start or the end cell, a message from
   * the pool for it. A cell drawn twice keeps the last message. `drawn`
   * records the three cells drawn, in order: every cell with a message is one
   * of them, so at most three cells carry one.
   */
  method PlaceMessages(g: array2<Cell>, size: nat, draw: nat -> nat, t0: nat) returns (ghost drawn: seq<Pos>)
    requires size >= 1 && g.Length0 == size && g.Length1 == size
    requires forall p {:trigger g[p.y, p.x]} :: InBounds(p, size) ==> g[p.y, p.x].message == None
    modifies g
    ensures forall p {:trigger g[p.y, p.x]} :: InBounds(p, size) ==> SameButMessage(g[p.y, p.x], old(g[p.y, p.x]))
    ensures |drawn| == 3 && drawn[0] == Pos(draw(t0) % size, draw(t0 + 1) % size)
    ensures forall i :: 0 <= i < |drawn| ==> InBounds(drawn[i], size)
    ensures forall i :: 0 <= i < |drawn| && InBounds(drawn[i], size) && drawn[i] != Start && drawn[i] != End(size) ==>
      g[drawn[i].y, drawn[i].x].message.Some?
    ensures forall p {:trigger g[p.y, p.x]} :: InBounds(p, size) && g[p.y, p.x].message.Some? ==>
      p in drawn && p != Start && p != End(size) && g[p.y, p.x].message.value in MESSAGES
  {
    var t := t0;
    drawn := [];
    // The messages placed so far.
    ghost var placed: map<Pos, string> := map[];
    for i := 0 to 3
      invariant forall p {:trigger g[p.y, p.x]} :: InBounds(p, size) ==>
        g[p.y, p.x] == old(g[p.y, p.x]).(message := if p in placed then Some(placed[p]) else None)
      invariant forall p :: p in placed ==>
        InBounds(p, size) && placed[p] in MESSAGES && p in drawn && p != Start && p != End(size)
      invariant |drawn| == i && (i > 0 ==> drawn[0] == Pos(draw(t0) % size, draw(t0 + 1) % size))
      invariant i == 0 ==> t == t0
      invariant forall j :: 0 <= j < |drawn| && drawn[j] != Start && drawn[j] != End(size) ==> drawn[j] in placed
    {
      var x := draw(t) % size;
      var y := draw(t + 1) % size;
      t := t + 2;
      drawn := drawn + [Pos(x, y)];
      if !(x == 0 && y == 0) && !(x == size - 1 && y == size - 1) {
        var m := MESSAGES[draw(t) % |MESSAGES|];
        SetMessage(g, size, Pos(x, y), m);
        t := t + 1;
        placed := placed[Pos(x, y) := m];
      }
    }
  }

  /** Give the cell at p the message m, in place; no other cell changes. */
  method SetMessage(g: array2<Cell>, size: nat, p: Pos, m: string)
    requires g.Length0 == size && g.Length1 == size && InBounds(p, size)
    modifies g
    ensures forall q {:trigger g[q.y, q.x]} :: InBounds(q, size) ==>
      g[q.y, q.x] == if q == p then old(g[q.y, q.x]).(message := Some(m)) else old(g[q.y, q.x])
  {
    g[p.y, p.x] := g[p.y, p.x].(message := Some(m));
  }

  /**
   * generateMaze(size): a perfect maze whose open edges form a spanning tree
   * of the board with size * size - 1 edges, one per carve step; exactly the
   * bottom-right cell is the end; each of the three cells drawn for a message,
   * unless it is the start or the end, carries one from the pool, and no
   * other cell does.
   */
  method GenerateMaze(size: nat, draw: nat -> nat)
    returns (g: array2<Cell>, ghost tree: map<Pos, Link>, ghost carves: nat,
             ghost drawn: seq<Pos>)
    requires size >= 1
    ensures fresh(g) && g.Length0 == size && g.Length1 == size
    ensures SpanningTree(g, tree)
    ensures carves == |tree| == size * size - 1
    ensures forall p {:trigger g[p.y, p.x]} :: InBounds(p, size) ==>
      && g[p.y, p.x].visited && !g[p.y, p.x].isPlayer && !g[p.y, p.x].isPath
      && (g[p.y, p.x].isEnd <==> p == End(size))
    ensures |drawn| == 3 && drawn[0] == Pos(draw(carves) % size, draw(carves + 1) % size)
    ensures forall i :: 0 <= i < |drawn| ==> InBounds(drawn[i], size)
    ensures forall i :: 0 <= i < |drawn| && InBounds(drawn[i], size) && drawn[i] != Start && drawn[i] != End(size) ==>
      g[drawn[i].y, drawn[i].x].message.Some?
    ensures forall p {:trigger g[p.y, p.x]} :: InBounds(p, size) && g[p.y, p.x].message.Some? ==>
      p in drawn && p != Start && p != End(size) && g[p.y, p.x].message.value in MESSAGES
  {
    var t;
    g, t, tree, carves := Backtrack(size, draw);
    g[size - 1, size - 1] := g[size - 1, size - 1].(isEnd := true);
    drawn := PlaceMessages(g, size, draw, t);
  }

  // ---------------------------------------------------------------------------
  // Moving through the maze
  // ---------------------------------------------------------------------------

  /** The wall movePlayer checks for a move by (dx, dy): right 1, left 3, down 2, anything else 0. */
  function WallIndex(dx: int, dy: int): (r: int)
    ensures 0 <= r < 4
    ensures (dx == 0 && (dy == 1 || dy == -1)) || (dy == 0 && (dx == 1 || dx == -1)) ==>
      Neighbour(Pos(0, 0), r) == Pos(dx, dy)
  {
    if dx == 1 then 1 else if dx == -1 then 3 else if dy == 1 then 2 else 0
  }

  /**
   * movePlayer's guard: the target (x + dx, y + dy) when it lies on the board
   * and the current cell's wall in the direction of travel is down.
   */
  function MoveTarget(g: array2<Cell>, pos: Pos, dx: int, dy: int): (r: Option<Pos>)
    reads g
    requires FourWalls(g) && InBounds(pos, g.Length0)
    ensures r.Some? ==> InBounds(r.value, g.Length0)
  {
    var newX, newY := pos.x + dx, pos.y + dy;
    if newX >= 0 && newX < g.Length1 && newY >= 0 && newY < g.Length0 then
      if !g[pos.y, pos.x].walls[WallIndex(dx, dy)] then Some(Pos(newX, newY)) else None
    else None
  }

  /** The move of the arrow for direction k (0 up, 1 right, 2 down, 3 left). */
  function DeltaX(k: int): int { if k == 1 then 1 else if k == 3 then -1 else 0 }
  function DeltaY(k: int): int { if k == 0 then -1 else if k == 2 then 1 else 0 }

  /** A move in direction k goes exactly through wall k, to the neighbour beyond it. */
  lemma ArrowMove(g: array2<Cell>, pos: Pos, k: int)
    requires FourWalls(g) && InBounds(pos, g.Length0) && 0 <= k < 4
    ensures WallIndex(DeltaX(k), DeltaY(k)) == k
    ensures MoveTarget(g, pos, DeltaX(k), DeltaY(k)) ==
      if InBounds(Neighbour(pos, k), g.Length0) && !g[pos.y, pos.x].walls[k] then Some(Neighbour(pos, k)) else None
  {
  }

  /** With symmetric walls every accepted arrow move can be undone by the opposite arrow. */
  lemma MoveIsReversible(g: array2<Cell>, pos: Pos, k: int)
    requires FourWalls(g) && WallsSymmetric(g) && InBounds(pos, g.Length0) && 0 <= k < 4
    requires MoveTarget(g, pos, DeltaX(k), DeltaY(k)).Some?
    ensures var q := MoveTarget(g, pos, DeltaX(k), DeltaY(k)).value;
      MoveTarget(g, q, DeltaX(Opposite(k)), DeltaY(Opposite(k))) == Some(pos)
  {
    ArrowMove(g, pos, k);
    var q := Neighbour(pos, k);
    ArrowMove(g, q, Opposite(k));
    NeighbourBack(pos, k, Opposite(k));
    assert g[pos.y, pos.x].walls[k] == g[q.y, q.x].walls[Opposite(k)];
  }

  /** Where a sequence of arrow moves from p leads, or None once one of them is refused. */
  function Walk(g: array2<Cell>, p: Pos, ks: seq<int>): (r: Option<Pos>)
    reads g
    requires FourWalls(g) && InBounds(p, g.Length0)
    ensures r.Some? ==> InBounds(r.value, g.Length0)
    decreases |ks|
  {
    if ks == [] then Some(p)
    else
      match Walk(g, p, ks[..|ks| - 1])
      case None => None
      case Some(q) =>
        var k := ks[|ks| - 1];
        if 0 <= k < 4 then MoveTarget(g, q, DeltaX(k), DeltaY(k)) else None
  }

  /**
   * In a perfect maze every cell can be reached from the start by arrow moves
   * that movePlayer accepts: one move per tree edge on the way down from the
   * root.
   */
  lemma {:induction false} ReachableFromStart(g: array2<Cell>, tree: map<Pos, Link>, c: Pos) returns (ks: seq<int>)
    requires SpanningTree(g, tree) && InBounds(c, g.Length0)
    ensures FourWalls(g)
    ensures |ks| == Depth(tree, c) && Walk(g, Start, ks) == Some(c)
    decreases Depth(tree, c)
  {
    var size := g.Length0;
    CellsMembership(c, size);
    if c == Start {
      ks := [];
    } else {
      assert LinkOK(tree, Cells(size), c);
      var l := tree[c];
      CellsMembership(l.from, size);
      var prefix := ReachableFromStart(g, tree, l.from);
      ks := prefix + [l.wall];
      assert ks[..|ks| - 1] == prefix;
      assert WallsFollow(g[l.from.y, l.from.x].walls, l.from, size, tree);
      ArrowMove(g, l.from, l.wall);
    }
  }

  /** The end cell of a perfect maze can be reached from the start. */
  lemma EndIsReachable(g: array2<Cell>, tree: map<Pos, Link>) returns (ks: seq<int>)
    requires SpanningTree(g, tree)
    ensures FourWalls(g) && Walk(g, Start, ks) == Some(End(g.Length0))
  {
    ks := ReachableFromStart(g, tree, End(g.Length0));
  }

  // ---------------------------------------------------------------------------
  // The component state
  // ---------------------------------------------------------------------------

  /** The state of the MazeGame2 component. */
  class MazeGame2 {
    var level: Level
    var maze: array2<Cell>
    var playerPos: Pos
    var gameWon: bool
    var currentMessage: string
    /** The tree the current maze was carved along. */
    ghost var tree: map<Pos, Link>

    /**
     * A started game: a perfect maze, the `isPlayer` flag on exactly the
     * player's cell and `isEnd` on exactly the bottom-right cell.
     */
    ghost predicate Valid()
      reads this, maze
    {
      && SpanningTree(maze, tree)
      && InBounds(playerPos, maze.Length0)
      && (forall p {:trigger maze[p.y, p.x]} :: InBounds(p, maze.Length0) ==>
            && (maze[p.y, p.x].isPlayer <==> p == playerPos)
            && (maze[p.y, p.x].isEnd <==> p == End(maze.Length0)))
    }

    /** The messages of a freshly generated maze: from the pool, and on neither the start nor the end cell. */
    ghost predicate PoolMessagesOnly()
      reads this, maze
    {
      && maze.Length0 == maze.Length1
      && forall p {:trigger maze[p.y, p.x]} :: InBounds(p, maze.Length0) && maze[p.y, p.x].message.Some? ==>
        p != Start && p != End(maze.Length0) && maze[p.y, p.x].message.value in MESSAGES
    }

    /** Mounting: the state starts with an empty maze, then the effect initialises the easy level. */
    constructor (draw: nat -> nat)
      ensures Valid() && fresh(maze) && level == Easy && maze.Length0 == SizeOf(Easy)
      ensures playerPos == Start && !gameWon && currentMessage == "" && PoolMessagesOnly()
    {
      level := Easy;
      maze := new Cell[0, 0];
      playerPos := Start;
      gameWon := false;
      currentMessage := "";
      tree := map[];
      new;
      InitializeGame(Easy, draw);
    }

    /**
     * initializeGame(level): a new maze of the level's size, the player on
     * (0, 0), not won, no message.
     */
    method InitializeGame(selectedLevel: Level, draw: nat -> nat)
      modifies this
      ensures Valid() && fresh(maze) && maze.Length0 == SizeOf(selectedLevel)
      ensures playerPos == Start && !gameWon && currentMessage == "" && level == old(level)
      ensures forall p {:trigger maze[p.y, p.x]} :: InBounds(p, maze.Length0) ==>
        maze[p.y, p.x].visited && !maze[p.y, p.x].isPath
      ensures PoolMessagesOnly()
    {
      var size := SizeOf(selectedLevel);
      var newMaze, t, _, _ := GenerateMaze(size, draw);
      newMaze[0, 0] := newMaze[0, 0].(isPlayer := true);
      maze := newMaze;
      tree := t;
      playerPos := Pos(0, 0);
      gameWon := false;
      currentMessage := "";
    }

    /**
     * A level button. The game restarts only when the level changes, since the
     * effect that initialises the game depends on the level alone; choosing
     * the level already in play changes nothing.
     */
    method SelectLevel(l: Level, draw: nat -> nat)
      requires Valid()
      modifies this
      ensures Valid() && level == l
      ensures l == old(level) ==>
        maze == old(maze) && playerPos == old(playerPos) && gameWon == old(gameWon)
        && currentMessage == old(currentMessage) && tree == old(tree)
      ensures l != old(level) ==>
        fresh(maze) && maze.Length0 == SizeOf(l) && playerPos == Start && !gameWon && currentMessage == ""
        && PoolMessagesOnly()
    {
      if l != level {
        level := l;
        InitializeGame(l, draw);
      }
    }

    /**
     * movePlayer(dx, dy). A refused move changes nothing. An accepted one
     * moves the player flag and the position to the target, leaves the walls
     * and every other flag alone, shows the target's message if it has one and
     * sets the won flag when the target is the end. It does not look at the
     * won flag: after winning, the on-screen arrows still move the player.
     */
    method MovePlayer(dx: int, dy: int)
      requires Valid()
      modifies this, maze
      ensures Valid() && maze == old(maze) && tree == old(tree) && level == old(level)
      ensures old(MoveTarget(maze, playerPos, dx, dy)).None? ==>
        playerPos == old(playerPos) && gameWon == old(gameWon) && currentMessage == old(currentMessage)
        && unchanged(maze)
      ensures old(MoveTarget(maze, playerPos, dx, dy)).Some? ==>
        && playerPos == Pos(old(playerPos.x) + dx, old(playerPos.y) + dy)
        && Arrived(old(playerPos), old(gameWon), old(currentMessage))
    {
      var newX := playerPos.x + dx;
      var newY := playerPos.y + dy;
      if newX >= 0 && newX < maze.Length1 && newY >= 0 && newY < maze.Length0 {
        var currentCell := maze[playerPos.y, playerPos.x];
        var wallIndex := WallIndex(dx, dy);
        if !currentCell.walls[wallIndex] {
          Arrive(Pos(newX, newY));
        }
      }
    }

    /**
     * What an accepted move leaves behind, starting from a player at `from`,
     * the won flag `won` and the message `message`: the player flag only on
     * the new position, every other field of every cell as it was, the
     * target's message shown if it has one, and won set if the target is the
     * end.
     */
    twostate predicate Arrived(from: Pos, won: bool, message: string)
      reads this, maze
    {
      && maze == old(maze) && maze.Length0 == maze.Length1
      && InBounds(playerPos, maze.Length0)
      && (forall p {:trigger maze[p.y, p.x]} :: InBounds(p, maze.Length0) ==>
            maze[p.y, p.x] == old(maze[p.y, p.x]).(isPlayer := p == playerPos))
      && gameWon == (won || maze[playerPos.y, playerPos.x].isEnd)
      && currentMessage == (if HasMessage(maze[playerPos.y, playerPos.x])
                            then maze[playerPos.y, playerPos.x].message.value
                            else message)
    }

    /** The state update of an accepted move: flags, message, won flag and position. */
    method Arrive(target: Pos)
      requires Valid() && InBounds(target, maze.Length0)
      modifies this, maze
      ensures Valid() && tree == old(tree) && level == old(level) && playerPos == target
      ensures Arrived(old(playerPos), old(gameWon), old(currentMessage))
    {
      MovePlayerFlag(target);
      if HasMessage(maze[target.y, target.x]) {
        currentMessage := maze[target.y, target.x].message.value;
      }
      if maze[target.y, target.x].isEnd {
        gameWon := true;
      }
      playerPos := target;
    }

    /** Clear the player flag of the old cell and set it on the target, in place. */
    method MovePlayerFlag(target: Pos)
      requires Valid() && InBounds(target, maze.Length0)
      modifies maze
      ensures forall p {:trigger maze[p.y, p.x]} :: InBounds(p, maze.Length0) ==>
        maze[p.y, p.x] == old(maze[p.y, p.x]).(isPlayer := p == target)
      ensures WallsFollowTree(maze, tree)
    {
      maze[playerPos.y, playerPos.x] := maze[playerPos.y, playerPos.x].(isPlayer := false);
      maze[target.y, target.x] := maze[target.y, target.x].(isPlayer := true);
      forall p | InBounds(p, maze.Length0) ensures maze[p.y, p.x] == old(maze[p.y, p.x]).(isPlayer := p == target) {
        assert old(maze[p.y, p.x].isPlayer) <==> p == playerPos;
      }
    }

    /**
     * The direction an arrow key names: exactly the four arrow keys have one,
     * and its step is the one the switch passes to movePlayer.
     */
    static function KeyDirection(key: string): (r: Option<int>)
      ensures r.Some? <==> key == "ArrowUp" || key == "ArrowRight" || key == "ArrowDown" || key == "ArrowLeft"
      ensures r.Some? ==> 0 <= r.value < 4
      ensures key == "ArrowUp" ==> r.Some? && DeltaX(r.value) == 0 && DeltaY(r.value) == -1
      ensures key == "ArrowRight" ==> r.Some? && DeltaX(r.value) == 1 && DeltaY(r.value) == 0
      ensures key == "ArrowDown" ==> r.Some? && DeltaX(r.value) == 0 && DeltaY(r.value) == 1
      ensures key == "ArrowLeft" ==> r.Some? && DeltaX(r.value) == -1 && DeltaY(r.value) == 0
    {
      if key == "ArrowUp" then Some(0)
      else if key == "ArrowRight" then Some(1)
      else if key == "ArrowDown" then Some(2)
      else if key == "ArrowLeft" then Some(3)
      else None
    }

    /**
     * The keydown handler: ignored once the game is won, otherwise an arrow
     * key is a move in its direction and any other key is ignored.
     */
    method HandleKeyPress(key: string)
      requires Valid()
      modifies this, maze
      ensures Valid() && maze == old(maze) && tree == old(tree) && level == old(level)
      ensures old(gameWon) || KeyDirection(key).None? ==>
        playerPos == old(playerPos) && gameWon == old(gameWon) && currentMessage == old(currentMessage)
        && unchanged(maze)
      ensures !old(gameWon) && KeyDirection(key).Some? ==>
        var k := KeyDirection(key).value;
        && playerPos == old(MoveTarget(maze, playerPos, DeltaX(k), DeltaY(k))).GetOr(old(playerPos))
        && (old(MoveTarget(maze, playerPos, DeltaX(k), DeltaY(k))).None? ==>
              gameWon == old(gameWon) && currentMessage == old(currentMessage) && unchanged(maze))
        && (old(MoveTarget(maze, playerPos, DeltaX(k), DeltaY(k))).Some? ==>
              Arrived(old(playerPos), old(gameWon), old(currentMessage)))
    {
      if gameWon {
        return;
      }
      var dir := KeyDirection(key);
      if dir.Some? {
        MovePlayer(DeltaX(dir.value), DeltaY(dir.value));
      }
    }

    /** "Play again" restarts the current level. */
    method PlayAgain(draw: nat -> nat)
      modifies this
      ensures Valid() && fresh(maze) && level == old(level) && maze.Length0 == SizeOf(level)
      ensures playerPos == Start && !gameWon && currentMessage == "" && PoolMessagesOnly()
    {
      InitializeGame(level, draw);
    }
  }
}
