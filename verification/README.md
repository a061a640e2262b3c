# BreaKING: pool allocator and per-tick game rules

A Dafny model of the core of BreaKING, a console breakout game. The model has two parts.

- **`PoolAllocator<T, MAXSIZE>`.** This is a fixed-capacity allocator. It keeps an array of slot handles (`m_pool`) that it uses as a stack of free slots. The top index `m_freeIndex` runs from -1 (nothing free) to MAXSIZE-1 (everything free). `Alloc` pops a handle or answers null. `Free` pushes a handle, but it ignores null and it ignores a push onto a full stack.
- **The per-tick rules of the game.** These are the paddle's key handling, the ball's move, and `Ball::CheckCollision` (paddle band, walls, brick sweep, score, loss test). They also cover the spawn schedule for extra balls, the collision phase over all balls, and the end-of-tick game-over and game-clear checks. Finally, they cover the field setup: 3 rows of 28 bricks from a 120-slot brick pool, then the paddle, then one ball.

## Modules

- `wrappers.dfy`, module `Wrappers`: the `Option` type. `None` stands for a null pointer or for "no key pressed".
- `pool_allocator.dfy`, module `PoolAllocator`: the pool is a record `Pool(slots, top)`. `slots` is `m_pool`, and a handle is the index of a slot in the pool's storage. `FreeStack(p)` is `slots[..top+1]`, the abstract free stack. The contracts of `Alloc` and `Free` are stated as pop and push on this stack.
- `entities.dfy`, module `Entities`: the field constants (30×27) and the `Sign` type (±1). It also holds the ball and paddle objects, the registry entry `Entity = Brick(x, y) | Ball(slot) | Paddle`, `Paddle::Update` and `Ball::Update`.
  - Bricks never change after setup, so the registry holds them by value.
  - A ball entry refers to its slot in the ball pool's storage (`Game.balls`).
  - The paddle entry stands for the game's single paddle object (`Game.paddle`).
- `collision.dfy`, module `Collision`: `Ball::CheckCollision` and its steps.
  - The brick sweep is modelled twice: as `Sweep`, which mirrors the erase loop, and as `Survivors`, an independent filter. `Sweep` is proved to erase exactly what `Survivors` drops.
- `frame.dfy`, module `Frame`: the `Game` record, the brick loops and game setup, and the spawn schedule. It also holds the update phase, the collision phase (a fold over the registry's balls in order, each pass seeing the registry the earlier passes left), the end-of-tick checks, and `Tick`.

Randomness (`std::mt19937`) is passed in as parameters:
- The ±1 sign draws come in as a stream `draw: nat -> Sign`, read from a counter `k` that every operation threads through.
- The spawn draws come in as a `SpawnDraw` record (cell and next gap), with the distributions' ranges as preconditions.
- The ten draws made when the ball pool constructs its balls are the argument of `NewGame`.

The key read in a tick is an `Option<char>`.

A note on the game invariant `Frame.WellFormed`: it keeps every ball object inside the walls (columns 1..28, rows ≥ 1) between ticks. Because of that, the `x >= gameWidth` half of the loss test (BreaKING.cpp:198) can never fire. A game is lost only through the bottom.

Three behaviours of the source are easy to miss, and the model keeps them:
- **Struck bricks are not freed.** `Ball::CheckCollision` erases a struck brick from `gameObjects` (BreaKING.cpp:181) and nothing calls `brickAllocator.Free`, so the brick pool never gets a slot back. `Frame.Tick` states that the brick pool is unchanged.
- **`Free` does not check ownership.** `Free` ignores only a null handle and a full stack (PoolAllocator.h:33-41). It pushes any other handle, so a foreign or already-free handle is handed out again (`PoolAllocator.DoubleFreeHandsOutTwice`).
- **A ball object keeps its old fields when spawned.** A spawned ball is not re-constructed. The pool constructed every `Ball` up front, and a spawn only overwrites `x` and `y`.

## Model

| member | source | states |
|---|---|---|
| PoolAllocator.Init | PoolAllocator.h:8-14 | A fresh pool is valid, with top index MAXSIZE-1. Its free stack holds every slot exactly once: all handles are distinct, and a handle is on it iff it is below MAXSIZE. |
| PoolAllocator.Alloc | PoolAllocator.h:22-30 | Keeps -1 ≤ top ≤ MAXSIZE-1 and leaves the handle array alone. Answers null iff the free stack is empty, and then changes nothing. Otherwise it pops the top of the free stack and returns that handle. |
| PoolAllocator.Free | PoolAllocator.h:33-41 | Keeps the top index in range. `Free(null)` changes nothing, and neither does a push onto a full stack. Otherwise the handle is pushed onto the free stack. |
| PoolAllocator.FreeThenAllocIsLifo | PoolAllocator.h:24-38 | `Free(h)` followed by `Alloc` returns `h` when there is room. It also restores the original top index and free stack. |
| PoolAllocator.DoubleFreeHandsOutTwice | PoolAllocator.h:33-41 | Because `Free` checks neither ownership nor double frees, a handle freed twice is allocated twice. |
| PoolAllocator.AllocFromFresh | PoolAllocator.h:8-30 | From a fresh pool, exactly MAXSIZE successive allocations return distinct non-null slots, from MAXSIZE-1 down to 0, and the next one returns null. |
| Entities.PaddleUpdate | BreaKING.cpp:67-87 | 'a' gives max(x-2, 1) and 'd' gives min(x+2, GAME_WIDTH-4). Any other key, or no key, leaves the paddle unchanged. The key handling keeps x in [1, GAME_WIDTH-4]. |
| Entities.PaddleStaysInRange | BreaKING.cpp:67-87 | Over any sequence of keys, a paddle that starts in [1, GAME_WIDTH-4] stays there. |
| Entities.BallStep | BreaKING.cpp:126-134 | The ball records the cell it leaves as its previous position, then moves one step by its velocity. The velocity is unchanged and the frame counter goes up by one. |
| Entities.StepN | BreaKING.cpp:126-134 | n updates move a ball by n times its velocity and leave the velocity unchanged. |
| Entities.NewBall | BreaKING.cpp:110-124 | `Ball::Ball()` puts the ball at its drawn cell, which lies inside the side walls, below the three brick rows and above the paddle row. The ball moves down and to the right, with frame counter 0 and previous cell (0, 0). |
| Collision.Survivors | BreaKING.cpp:172-192 | After erasing struck bricks, the result contains no brick in the ball's column at or below the ball. Every entry left is from the original registry. |
| Collision.SurvivorsSubMultiset | BreaKING.cpp:172-192 | Erasing never duplicates an entry: the survivors form a sub-multiset of the registry. |
| Collision.SurvivorsOfConcat | BreaKING.cpp:173-192 | Erasing distributes over concatenation, so the entries that remain keep their relative order. |
| Collision.SurvivorsCount | BreaKING.cpp:173-192 | Exactly the struck bricks are erased. Every other entry (balls, paddle, other bricks) remains as many times as it occurred. |
| Collision.SurvivorsKeepNonBricks | BreaKING.cpp:174-191 | The sweep leaves the balls and the paddle, and their order, untouched. |
| Collision.Sweep | BreaKING.cpp:172-192 | The erase loop keeps exactly what the filter `Survivors` keeps. It removes the rest and uses one sign draw per removed brick. dy is negated once per removed brick, so an even count cancels out. dx ends multiplied by the product of the draws consumed, so it is unchanged when nothing is removed. |
| Collision.PaddleBounce | BreaKING.cpp:147-151 | A ball in the paddle band (x in [px, px+2], y in {py-4, py-3}) gets dy reversed and dx multiplied by the supplied sign. Any other ball keeps its velocity. The ball's position never changes. |
| Collision.SideWalls | BreaKING.cpp:154-163 | For width ≥ 3 (the game's 30): if x ≤ 0, dx is negated and x goes up by 1. If x ≥ w-1, dx is negated and x goes down by 1. A ball strictly between the walls is unchanged. |
| Collision.TopWall | BreaKING.cpp:166-169 | If y ≤ 0, dy is negated and y goes up by 1. Otherwise the ball is unchanged. |
| Collision.WallsContain | BreaKING.cpp:154-169 | A ball at most one cell past the walls is inside them after the wall tests. |
| Collision.PaddleAndWalls | BreaKING.cpp:147-169 | The paddle test (on the cell before the walls) and the wall tests put the ball at the wall-adjusted cell. dy is reversed once per firing test among the paddle band and the top wall. dx is reversed once per firing side wall and multiplied by the paddle's draw if the ball was in the band. |
| Collision.CheckCollision | BreaKING.cpp:145-202 | Only the wall tests move the ball. The registry loses exactly the bricks in the adjusted column at or below the adjusted row. The score goes up by exactly 1 iff at least one brick was removed. The loss flag and GameOver are set iff the adjusted x ≥ width or y ≥ height; otherwise the state is untouched. One draw is consumed for the paddle band and one per struck brick. dy is reversed once per paddle hit, top-wall hit and struck brick. dx is reversed once per side-wall hit and multiplied by all the draws consumed. |
| Collision.PaddleBandIgnoresDirection | BreaKING.cpp:147-151 | The paddle test has no direction guard, so a ball already moving up inside the band is turned back down. |
| Collision.TwoBricksCancel | BreaKING.cpp:174-192 | Worked example: a ball at (5, 1) against the registry `[Brick(5,2), Paddle, Brick(5,3), Brick(6,3)]` erases the two bricks in its column with two draws. It keeps `[Paddle, Brick(6,3)]`, and dy ends as it started. |
| Frame.FieldBrickAt | BreaKING.cpp:220-230 | The brick laid at row r, column c sits at (c, r+1). |
| Frame.LayBricks | BreaKING.cpp:217-233 | The brick loops lay 84 bricks, row by row, at (col, row+1). They take 84 handles from the brick pool. They fail (the program's exit) iff the pool has fewer than 84 free slots. |
| Frame.NewGame | BreaKING.cpp:207-246 | A new game is in the Title state with counters 0 and 350. The registry is the 84 bricks, then the paddle, then the ball in slot 9. The paddle is `Entities.InitialPaddle` (`Paddle::Paddle()`, BreaKING.cpp:65: (5, 20), score 0) moved to row 25. Ball slot i holds `Entities.NewBall` of the i-th start cell (`Ball::Ball()`, built by the ball pool's constructor). The pools have 36, 9 and 0 free handles left. The invariant holds. |
| Frame.LiveAndFreePartition | BreaKING.cpp:242-246 | Under the game invariant, every ball slot is either in the registry (exactly once) or on the free stack, never both. |
| Frame.Placed | BreaKING.cpp:329-337 | A successful spawn pops the top free ball handle, moves that ball to the drawn cell, and appends it to the registry. The invariant still holds. |
| Frame.Spawn | BreaKING.cpp:325-341 | The counter goes up every tick. When it reaches the threshold, it resets to 0 and the threshold takes the drawn gap. The registry then grows by one ball iff the ball pool had a free handle. Otherwise the registry is unchanged. |
| Frame.UpdateAll | BreaKING.cpp:343-348 | The update phase keeps the ball storage size. The paddle consumes the key iff it is in the registry. |
| Frame.UpdateAllSteps | BreaKING.cpp:343-348 | Every ball object is stepped once per registry entry that refers to it. Bricks and the paddle entry leave it alone. |
| Frame.UpdateStepsLiveBallsOnce | BreaKING.cpp:343-348 | When no slot appears twice in the registry, each live ball moves exactly once per tick and no other ball object changes. |
| Frame.UpdateKeepsBallsInField | BreaKING.cpp:343-348 | Balls inside the walls are at most one cell past them after the update phase. Ball objects that are not live keep their state. |
| Frame.CollideOne | BreaKING.cpp:350-354 | One ball's pass changes no other ball and brings a ball at most one cell past the walls back inside. The registry is a sub-multiset of the old one and loses only bricks. The score rises by one iff a brick was erased. |
| Frame.CollideOneStoresBall | BreaKING.cpp:350-354 | One ball's pass stores `CheckCollision`'s ball in that ball's slot. It takes over `CheckCollision`'s registry, paddle, state, loss flag and draw position. |
| Frame.CollideAll | BreaKING.cpp:350-354 | The passes over the balls in registry order keep the non-brick entries and their order. The result is a sub-multiset of the old registry, so entries are only removed. The passes touch only the listed balls and never clear the loss flag. |
| Frame.CollideAllScore | BreaKING.cpp:350-354 | Over the collision phase, the score rises by at most one per ball and by at most the number of bricks erased. It rises whenever any brick is erased. |
| Frame.CollideAllKeepsBallsInside | BreaKING.cpp:350-354 | Every ball that went through the phase is inside the walls afterwards. |
| Frame.BricksRemain | BreaKING.cpp:394-400 | The brick scan answers true iff some registry entry is a brick. |
| Frame.EndOfTick | BreaKING.cpp:389-403 | If the loss flag is set, the state becomes GameOver. Then, if no brick remains, it becomes GameClear, so a clear in the same tick overrides a loss. |
| Frame.Phases | BreaKING.cpp:343-403 | The update, collision and end-of-tick steps keep the balls and paddle in the registry, in order. The new registry is a sub-multiset of the old one, so nothing is added. The paddle moves as its key says, the score never drops, and the state ends as GameClear iff no brick remains. |
| Frame.PhasesKeepBallSlots | BreaKING.cpp:350-354 | The collision phase leaves the registry's ball slots as they were. |
| Frame.PhasesKeepBallsInside | BreaKING.cpp:343-354 | If every ball object starts inside the walls and no slot appears twice in the registry, every ball object is inside the walls again at the end of the tick. |
| Frame.PhasesKeepWellFormed | BreaKING.cpp:343-403 | The update, collision and end-of-tick steps preserve the game invariant. |
| Frame.Tick | BreaKING.cpp:324-404 | A tick preserves the game invariant and follows the spawn schedule. The brick pool is left unchanged, so struck bricks are never freed. The final registry is a sub-multiset of the registry after the spawn step, and only bricks leave it. The score never drops and the loss flag is never cleared. The state is GameClear iff no brick remains, and otherwise GameOver iff the loss flag is set. |

## Left out

- Console rendering is left out: `Draw`, `ClearPrev`, the border loop, the score line, and the paddle's previous-position bookkeeping inside its `Draw` (BreaKING.cpp:33-39, 50-56, 89-107, 136-142, 356-384). This is console output with no effect on the game state.
- Keyboard polling (`_kbhit`/`_getch`) is left out; the key of a tick is an `Option<char>` argument. Within one tick, the first paddle entry consumes it.
- The title, game-over and game-clear screens, the retry/quit loop and `main` are left out (BreaKING.cpp:283-322, 406-476). They are text output and terminal setup. This includes the Title-to-Playing transition on the space key.
- The display side of the `Run` state loop is left out, including the fact that GameClear never leaves that loop (BreaKING.cpp:249-263). This is user-interface control flow.
- The update-phase thread is joined at once (BreaKING.cpp:343-348), so the phase is modelled sequentially. The mutex in the brick loop is uncontended and is not modelled.
- The random engine and its distributions are left out; their outputs are parameters with range preconditions.
- The 100 ms sleep (BreaKING.cpp:386) is left out.
- The raw memory layout of the pool (`T* m_pool[]`, `T m_memory[]`, the union remark) is not modelled. Handles are slot indices, and the ball storage is `Game.balls`. Brick and paddle storage is not kept: bricks live in the registry by value, and there is one paddle object.
- Erasing from `gameObjects` while the range-for loop at BreaKING.cpp:350-354 iterates over it is undefined behaviour in C++. The model runs the collision pass for the registry's balls in order instead, and each pass sees the bricks removed by the earlier ones.
- 32-bit `int` overflow of positions, the score and `frameCount` is not modelled, because positions stay within the field and the counters would need billions of ticks. Integers are unbounded. The conversion of `MAXSIZE - 1` to `int` is taken as -1 for MAXSIZE 0.
- The `frameCount % 1 == 0` test in `Ball::Update` is always true, so the model moves the ball every tick without evaluating it.
