# Love-games components, modelled in Dafny

This project models the game logic of four React components of a small
personal web app. It proves properties of each model.

- **Love Maze** (`src/components/MazeGame2.tsx`, module `PerfectMaze`):
  - The maze is a square board of cells, each with four walls (top, right, bottom, left).
  - An iterative depth-first backtracker carves it, using an explicit stack.
  - The bottom-right cell is then marked as the end, and up to three cells get a bonus message.
  - The player moves with guarded steps. A step is refused off the board or through a wall of the current cell.
  - The board is an `array2<Cell>`. Generation updates it in place inside a `while` loop.
  - The component is a class, `MazeGame2`, whose methods update its fields.
  - A ghost map records the cell from which each cell was first reached. With it, the model proves:
    - the open edges form a spanning tree of the board;
    - exactly size·size − 1 carve steps happen;
    - walls on shared edges agree;
    - the end cell can be reached from the start by moves the game accepts.
- **Random-wall maze** (`src/components/MazeGame.tsx`, module `RandomMaze`):
  - A 10 × 10 grid in which every cell except the start and the goal may be a wall.
  - The player moves with arrow keys or swipes. A swipe is classified by its dominant axis and a 30-pixel threshold.
  - The grid is built by nested loops in a method. The game state is a datatype, and each event handler is a function on it.
- **Countdown** (`src/components/CountDown.tsx`, module `Countdown`):
  - Splits the milliseconds left until a target instant into days, hours, minutes and seconds.
  - When no time is left, it raises a time-up flag.
- **Catch the hearts** (`src/components/CatchHeartsGame.tsx`, module `CatchHearts`):
  - Hearts are appended, clicking one catches it and scores a point, and ten points end the game.
  - The model proves that the score stays equal to the number of caught hearts.

Randomness is an oracle passed in as a parameter:
- In `PerfectMaze`, the t-th `Math.floor(Math.random() * n)` of one generation is `draw(t) % n`.
- In `RandomMaze`, the value drawn for cell j of row i is `random(i, j)`.

`now`, heart ids and heart positions are parameters too.

## Model

| member | source | states |
|---|---|---|
| `PerfectMaze.Candidates` | src/components/MazeGame2.tsx:76-85 | Lists in-bounds, unvisited neighbours, each with the wall index k it lies behind, in strictly increasing k. Every such neighbour is listed. |
| `PerfectMaze.SizeOf` | src/components/MazeGame2.tsx:27-31 | The SIZES table: easy 8, medium 12, hard 16. Every size is at least 1, as generation requires. |
| `PerfectMaze.PooledMessagesAreShown` | src/components/MazeGame2.tsx:33-39 | The MESSAGES pool holds five messages, none of them empty. So a cell given one always shows it when the player arrives. |
| `PerfectMaze.Probe` | src/components/MazeGame2.tsx:78-85 | One probe lists the neighbour beyond wall k, with k, exactly when that neighbour is inside the board and unvisited. For a cell on the board this is the per-direction test: not on the top row (up), not in the last column (right), not on the last row (down), not in the first column (left), with the neighbour unvisited. |
| `PerfectMaze.Carve` | src/components/MazeGame2.tsx:88-93 | Clearing wall k of the current cell and wall (k+2)%4 of its neighbour, then marking the neighbour visited, keeps the loop invariant. The invariant: visited cells are exactly the seen set, walls follow the tree grown by one edge, stack entries are visited, and a cell off the stack has no unvisited neighbour. |
| `PerfectMaze.GrowIsTree` | src/components/MazeGame2.tsx:88-93 | Adding the newly visited cell under the current one keeps a tree over the visited cells, with exactly one more edge. |
| `PerfectMaze.PushKeepsStackInv` | src/components/MazeGame2.tsx:92-93 | Pushing the newly visited cell keeps two facts: stack entries are visited, and a visited cell off the stack has no unvisited neighbour. |
| `PerfectMaze.NoCandidatesFinished` | src/components/MazeGame2.tsx:87-96 | When the neighbours list is empty, every in-board neighbour of the top cell is visited. |
| `PerfectMaze.PopKeepsStackInv` | src/components/MazeGame2.tsx:94-96 | Popping a cell with no unvisited neighbour keeps the stack facts. |
| `PerfectMaze.ClosedSetCoversBoard` | src/components/MazeGame2.tsx:74-97 | When the loop ends, every cell is visited. The proof uses two facts: the start cell is visited, and no visited cell has an unvisited neighbour. |
| `PerfectMaze.BacktrackDone` | src/components/MazeGame2.tsx:74-97 | With the invariant and an empty stack, every cell is visited and unmarked, and the open walls form a spanning tree with size·size − 1 edges. |
| `PerfectMaze.Backtrack` | src/components/MazeGame2.tsx:53-97 | The loop terminates (measure: unvisited cells, then stack length). It leaves every cell visited and unmarked. Its open walls are exactly the edges of a spanning tree with size·size − 1 edges, one per carve step. One random draw is made per carve step. |
| `PerfectMaze.TreeWallsAreSymmetric` | src/components/MazeGame2.tsx:90-91 | Walls that follow a tree agree across every shared edge: wall k of a cell equals wall (k+2)%4 of its neighbour. |
| `PerfectMaze.PlaceMessages` | src/components/MazeGame2.tsx:101-108 | The three placement attempts change only messages. The first drawn cell is (draw(t0) % size, draw(t0+1) % size), and every drawn cell is on the board. Each drawn cell other than the start and the end gets a message. Every cell with a message is a drawn cell other than those two, so at most three cells have one, and each message is from the pool. |
| `PerfectMaze.GenerateMaze` | src/components/MazeGame2.tsx:52-111 | The result is a size × size perfect maze: a spanning tree with size·size − 1 carve steps. Every cell is visited, no cell holds the player or is on a path, and exactly the bottom-right cell is the end. The message draws start right after the carve draws. Each drawn cell other than the start and the end carries a message from the pool, and no other cell carries one. |
| `PerfectMaze.MoveTarget` | src/components/MazeGame2.tsx:147-154 | The guard of movePlayer. An accepted target always lies on the board. |
| `PerfectMaze.WallIndex` | src/components/MazeGame2.tsx:152-152 | The wall checked is always one of the four. For each unit step it is the wall between a cell and its neighbour in the direction of the step. |
| `PerfectMaze.ArrowMove` | src/components/MazeGame2.tsx:150-154 | For the arrow in direction k, the wall index checked is k (right 1, left 3, down 2, up 0). The move is accepted onto a neighbour exactly when that neighbour is on the board and wall k is down. |
| `PerfectMaze.MoveIsReversible` | src/components/MazeGame2.tsx:150-154 | With symmetric walls, the opposite arrow undoes every accepted move. |
| `PerfectMaze.ReachableFromStart` | src/components/MazeGame2.tsx:147-157 | In a perfect maze, each cell is reached from (0,0) by a sequence of accepted moves. The sequence has one move per tree edge. |
| `PerfectMaze.EndIsReachable` | src/components/MazeGame2.tsx:99-99 | The end cell can be reached from the start by accepted moves. |
| `PerfectMaze.MazeGame2.constructor` | src/components/MazeGame2.tsx:42-46 | Mounting yields a valid game on a newly allocated easy-level board, which later moves may update. The player is on (0,0), the game is not won and there is no message. Every cell message is from the pool and lies on neither the start nor the end. |
| `PerfectMaze.MazeGame2.InitializeGame` | src/components/MazeGame2.tsx:113-120 | The maze is new and sized by the level table (easy 8, medium 12, hard 16). Only (0,0) is flagged as the player, the position is (0,0), the game is not won and the message is empty. Every cell message is from the pool and lies on neither the start nor the end. |
| `PerfectMaze.MazeGame2.SelectLevel` | src/components/MazeGame2.tsx:135-144 | Choosing a different level sets it and restarts the game on it. Choosing the current level changes nothing. A restart also leaves every cell message from the pool, on neither the start nor the end. |
| `PerfectMaze.MazeGame2.MovePlayer` | src/components/MazeGame2.tsx:146-184 | A refused move changes nothing. An accepted move goes to (x+dx, y+dy) and moves the player flag there. Walls and every other cell field stay as they were. The target's message is shown if it has one, and the game is won when the target is the end. There is no won check. |
| `PerfectMaze.MazeGame2.Arrive` | src/components/MazeGame2.tsx:155-181 | The state update of an accepted move keeps the game valid and leaves exactly the new cell flagged as the player. |
| `PerfectMaze.MazeGame2.MovePlayerFlag` | src/components/MazeGame2.tsx:155-157 | In place, only the isPlayer flags change: set on the target and on no other cell. The walls still follow the tree. |
| `PerfectMaze.MazeGame2.HandleKeyPress` | src/components/MazeGame2.tsx:186-204 | Once won, or for a key that is not an arrow, nothing changes. For an arrow, a refused move changes nothing. An accepted one gives the whole new state of movePlayer: the player on the target, the flag moved, the message shown, and won set on the end cell. |
| `PerfectMaze.MazeGame2.KeyDirection` | src/components/MazeGame2.tsx:190-203 | Exactly the four arrow keys name a direction. The direction's step is the one the switch passes to movePlayer: up (0,−1), right (1,0), down (0,1), left (−1,0). |
| `PerfectMaze.MazeGame2.PlayAgain` | src/components/MazeGame2.tsx:290-291 | Restarts the current level with a fresh valid game. Every cell message is from the pool and lies on neither the start nor the end. |
| `RandomMaze.GenerateMaze` | src/components/MazeGame.tsx:29-45 | The grid is 10 × 10 and no cell has isPath set. A cell is a wall exactly when its draw is below 0.2 and it is neither (0,0) nor (9,9), so those two are never walls. |
| `RandomMaze.InitGame` | src/components/MazeGame.tsx:47-51 | A new maze, the position reset to (0,0), won false. The result satisfies the game invariant. |
| `RandomMaze.MovePlayer` | src/components/MazeGame.tsx:57-79 | Once won, nothing changes. A target off [0,10) on either axis, or on a wall, changes nothing. Otherwise the position becomes exactly (x+dx, y+dy), and the game is won iff that is (9,9). |
| `RandomMaze.Blocked` | src/components/MazeGame.tsx:63-70 | The refusal test of movePlayer. A target off [0,10) on either axis is refused. A target on the grid is refused exactly when it is a wall. |
| `RandomMaze.MovePreservesInv` | src/components/MazeGame.tsx:57-79 | A move keeps the invariant (full grid, open start and goal, player on an open cell, won iff on the goal). |
| `RandomMaze.HandleKeyDown` | src/components/MazeGame.tsx:83-100 | Once won, or for a key that is not an arrow, nothing changes. Otherwise the arrow's move is made. |
| `RandomMaze.KeyMove` | src/components/MazeGame.tsx:86-99 | Exactly the four arrow keys move, by one step. The vertical keys move along y, with up towards row 0. The horizontal keys move along x, with left towards column 0. |
| `RandomMaze.SwipeMove` | src/components/MazeGame.tsx:119-131 | Right iff abs(dx) > abs(dy) and dx > 30; left iff abs(dx) > abs(dy) and dx < −30. Down iff abs(dx) ≤ abs(dy) and dy > 30, so ties go vertical; up iff abs(dx) ≤ abs(dy) and dy < −30. No move iff the dominant axis is within 30. |
| `RandomMaze.HandleTouchStart` | src/components/MazeGame.tsx:107-113 | Remembers the touch point and changes nothing else. |
| `RandomMaze.HandleTouchEnd` | src/components/MazeGame.tsx:115-134 | Without a remembered start, nothing changes. Otherwise the swipe makes at most its one classified move, and the start is cleared. |
| `RandomMaze.HandlersPreserveInv` | src/components/MazeGame.tsx:83-134 | The keyboard and both touch handlers keep the game invariant. |
| `RandomMaze.RunMovesAppend` | src/components/MazeGame.tsx:57-79 | Moves compose: running a ++ b equals running a, then b. The maze never changes. |
| `RandomMaze.RunRight` | src/components/MazeGame.tsx:71-75 | On a wall-free grid, n right moves along the top row shift the player n cells and do not win. |
| `RandomMaze.RunDown` | src/components/MazeGame.tsx:71-75 | On a wall-free grid, n down moves in the last column shift the player n cells. The game is won exactly on reaching (9,9). |
| `RandomMaze.OpenGridIsWon` | src/components/MazeGame.tsx:71-75 | On a grid without walls, nine right moves and then nine down moves from the start win. |
| `RandomMaze.CornerMovesAreRefused` | src/components/MazeGame.tsx:64-70 | From (0,0), moving up or left leaves the position unchanged. |
| `Countdown.CalculateTimeLeft` | src/components/CountDown.tsx:20-35 | A distance ≤ 0 gives null and raises the time-up flag. A positive distance never raises it. For a positive distance, days = distance div 86,400,000, with 0 ≤ hours < 24, 0 ≤ minutes < 60 and 0 ≤ seconds < 60. The recomposed milliseconds are ≤ distance and less than a second short of it. |
| `Countdown.SplitRecomposes` | src/components/CountDown.tsx:30-33 | The floor-division and modulo split of any non-negative distance is canonical. It recomposes to the distance, minus less than one second. |
| `Countdown.SplitOfMilliseconds` | src/components/CountDown.tsx:29-34 | Inverse direction: a canonical duration plus under a second, taken as a distance, splits back into that same duration. |
| `Countdown.Tick` | src/components/CountDown.tsx:40-42 | Each interval tick stores the new split. The time-up flag becomes set iff the distance is ≤ 0, or it was already set. |
| `Countdown.TimeUpIsLatched` | src/components/CountDown.tsx:24-27 | Once the time is up, it stays up. |
| `Countdown.BeforeTargetShowsTime` | src/components/CountDown.tsx:29-34 | Before the target, a tick shows the time left and does not set the time-up flag. |
| `CatchHearts.MarkCaught` | src/components/CatchHeartsGame.tsx:23-27 | Length and order are kept, ids and positions are unchanged, and a heart is caught iff it was caught already or has the given id. |
| `CatchHearts.CatchHeart` | src/components/CatchHeartsGame.tsx:22-36 | Hearts are marked by id and the score goes up by exactly 1. At ≥ 10 the game stops and the win message is set; below 10 both stay unchanged. |
| `CatchHearts.ClickHeart` | src/components/CatchHeartsGame.tsx:87-87 | Clicking a caught heart changes nothing. Clicking an uncaught one is catchHeart of its id. |
| `CatchHearts.CreateHeart` | src/components/CatchHeartsGame.tsx:17-20 | Appends exactly one uncaught heart at the end. Existing hearts, the score, the started flag and the message are unchanged. |
| `CatchHearts.StartGame` | src/components/CatchHeartsGame.tsx:65-65 | Starts the game and changes nothing else. |
| `CatchHearts.PlayAgain` | src/components/CatchHeartsGame.tsx:52-57 | Score 0, empty message, no hearts, game started. |
| `CatchHearts.MarkCaughtCountsOne` | src/components/CatchHeartsGame.tsx:23-27 | With distinct ids, catching the id of an uncaught heart raises the caught count by exactly one. |
| `CatchHearts.MarkCaughtNoMatch` | src/components/CatchHeartsGame.tsx:23-27 | Marking an id that no heart carries changes nothing. |
| `CatchHearts.CaughtCountAppend` | src/components/CatchHeartsGame.tsx:19-19 | Appending a heart adds its catch to the count. |
| `CatchHearts.InitialInv` | src/components/CatchHeartsGame.tsx:11-14 | The initial state and the Play-Again state satisfy the invariant. |
| `CatchHearts.ClickPreservesInv` | src/components/CatchHeartsGame.tsx:87-87 | A click keeps the invariant: the score equals the number of caught hearts. |
| `CatchHearts.CreatePreservesInv` | src/components/CatchHeartsGame.tsx:17-20 | A heart with a fresh id keeps the invariant. |
| `CatchHearts.TenthCatchWins` | src/components/CatchHeartsGame.tsx:28-35 | The catch that brings the score to 10 stops the game and sets the win message. |

## Left out

- Rendering and JSX: grid drawing, class names, icons, banners, the "Loading..." text. The four components have little else besides the logic above.
- `src/App.tsx` (audio toggling), `src/components/Timeline.tsx`, `src/components/HeartButton.tsx` and `tailwind.config.js` are not part of this model. They hold browser I/O, view code and styling.
- The localStorage session and completion logs, the `currentSession` and `lastActive` state, and every `Date`, `toISOString` and `toLocaleString` call of the Love Maze. These are external storage and wall-clock time.
- The distribution of `Math.random`. The model allows any sequence of draws.
- Window listener registration, `setInterval`/`clearInterval` and effect scheduling. The model has no timing. That covers the closure each handler captures, and the React rule that state updates apply after the handler returns; each handler is modelled as acting on the latest state.
- The countdown target is built from a calendar date with `new Date(year, month - 1, day)`. That is library calendar logic, so `targetDate` is a parameter in milliseconds.
- Touch coordinates (`clientX`, `clientY`) are doubles in the browser. `RandomMaze` uses exact reals, so swipe deltas are exact differences. The source subtracts doubles, which could round differently at the 30-pixel threshold or on a tie between abs(dx) and abs(dy).
- Instants are whole milliseconds. JavaScript numbers are floating point, but `getTime()` values are integers well inside the exact range, so the model uses unbounded `int`.
- The heart x-position is a float the model never inspects. The heart id (`Date.now()`) is an arbitrary integer supplied by the caller.
- `CatchHearts.CreatePreservesInv` requires a fresh id. The source cannot guarantee that, since two hearts created in the same millisecond share an id. Without it, one click catches every heart with that id, and the score counts clicks rather than hearts.
- The `isPath` field of both mazes is never set to true by the source. It is carried, and the generators state that it is false.
- `RandomMaze` functions require a full 10 × 10 grid. Before the mount effect, the component holds an empty maze, and a move then would index an empty array.
- Heart clicks in `CatchHearts` are modelled as possible in any state. The source renders hearts, and so their buttons, only while a game is under way; the score invariant holds either way.
- In the Love Maze, the won check lives only in the keyboard handler (`MazeGame2.HandleKeyPress`). `MazeGame2.MovePlayer` has none, as in the source, so the on-screen arrows still move the player after winning. The model keeps this behaviour.
- `PerfectMaze.MESSAGES` holds the bonus messages character for character as the component file stores them. Each trailing emoji appears as its UTF-8 bytes decoded as Windows-1252, such as `ðŸŒž` for the sun.
