/**
 The game record and one tick of the Playing state: the spawn schedule, the
 update phase, the collision phase (one collision pass per ball, in registry
 order, each pass seeing the bricks the earlier passes erased) and the
 end-of-tick state checks; also the field setup done before the first tick.
 */
module Frame {
  import opened Wrappers
  import opened PoolAllocator
  import opened Entities
  import opened Collision

  const BallPoolSize: nat := 10
  const BrickPoolSize: nat := 120
  const PaddlePoolSize: nat := 1

  const BrickRows: nat := 3
  const BrickCols: nat := 28
  const FieldBricks: nat := BrickRows * BrickCols

  /** The tick count of the first extra ball, and the range later gaps are drawn from. */
  const FirstSpawnAt: int := 350
  const MinSpawnGap: int := 400
  const MaxSpawnGap: int := 600

  /** The state of one game. `balls` is the storage of the ball pool: slot i
      holds the ball object that handle i refers to, allocated or not. */
  datatype Game = Game(state: GameState, gameOver: bool, checkCount: int, nextAddCount: int,
                       registry: seq<Entity>, balls: seq<BallState>, paddle: PaddleState,
                       ballPool: Pool, brickPool: Pool, paddlePool: Pool)

  /** Every ball entry of the registry refers to one of the `n` storage slots. */
  predicate BallRefsIn(reg: seq<Entity>, n: nat) {
    forall e :: e in reg && e.Ball? ==> e.slot < n
  }

  /** The ball slots handed out by a ball pool of capacity n that has f free
      handles left and has never had one returned: the stack is popped from
      the top, so these are n-1, n-2, ..., f, in allocation order. */
  function LiveOrder(n: nat, f: nat): (s: seq<nat>)
    requires f <= n
    ensures |s| == n - f
    ensures forall i :: 0 <= i < |s| ==> s[i] == n - 1 - i
  {
    seq(n - f, i requires 0 <= i < n - f => n - 1 - i)
  }

  /** A ball inside the walls, and a ball at most one cell past them. */
  predicate Inside(b: BallState) {
    1 <= b.x <= GameWidth - 2 && 1 <= b.y
  }

  predicate InField(b: BallState) {
    0 <= b.x <= GameWidth - 1 && 0 <= b.y
  }

  /** The invariant kept between ticks: the pools are valid; no ball handle is
      ever returned, so the handle array is as constructed and the registry's
      balls are exactly the handed-out slots, in allocation order; every ball
      object is inside the walls; the paddle is in its range; and the spawn
      counter is below its threshold. */
  predicate WellFormed(g: Game) {
    && Valid(g.ballPool) && Valid(g.brickPool) && Valid(g.paddlePool)
    && g.ballPool.slots == Iota(|g.balls|)
    && BallSlots(g.registry) == LiveOrder(|g.balls|, FreeCount(g.ballPool))
    && (forall s :: 0 <= s < |g.balls| ==> Inside(g.balls[s]))
    && InPaddleRange(g.paddle.x)
    && 0 <= g.checkCount < g.nextAddCount
  }

  /** The allocation invariant of the ball pool: every slot is either live
      (in the registry, exactly once) or free, never both. */
  lemma LiveAndFreePartition(g: Game)
    requires WellFormed(g)
    ensures Distinct(BallSlots(g.registry))
    ensures forall s :: 0 <= s < |g.balls| ==> (s in BallSlots(g.registry) <==> s !in FreeStack(g.ballPool))
    ensures BallRefsIn(g.registry, |g.balls|)
  {
    var n, f := |g.balls|, FreeCount(g.ballPool);
    var live, free := BallSlots(g.registry), FreeStack(g.ballPool);
    forall s | 0 <= s < n
      ensures s in live <==> s !in free
    {
      if s < f {
        assert free[s] == s;
        assert s !in live;
      } else {
        assert live[n - 1 - s] == s;
        assert s !in free;
      }
    }
    forall e | e in g.registry && e.Ball?
      ensures e.slot < n
    {
      assert e.slot in live;
    }
  }

  // ---------------------------------------------------------------- setup

  /** The i-th brick laid: row by row from the top, columns 1 to 28, rows 1 to 3. */
  function FieldBrick(i: nat): Entity {
    Brick(i % BrickCols + 1, i / BrickCols + 1)
  }

  lemma FieldBrickAt(row: nat, col: int)
    requires row < BrickRows && 1 <= col <= BrickCols
    ensures FieldBrick(row * BrickCols + col - 1) == Brick(col, row + 1)
  {
    var i := row * BrickCols + col - 1;
    assert i == row * 28 + (col - 1);
  }

  datatype Field = Field(bricks: seq<Entity>, pool: Pool)

  /** The brick loops of the setup: one brick allocated per cell, the program
      stopping (None) as soon as the brick pool runs dry. */
  method LayBricks(pool: Pool) returns (r: Option<Field>)
    requires Valid(pool)
    ensures r.None? <==> FreeCount(pool) < FieldBricks
    ensures r.Some? ==> |r.value.bricks| == FieldBricks
    ensures r.Some? ==> forall i :: 0 <= i < FieldBricks ==> r.value.bricks[i] == FieldBrick(i)
    ensures r.Some? ==> Valid(r.value.pool) && r.value.pool.slots == pool.slots
    ensures r.Some? ==> FreeCount(r.value.pool) == FreeCount(pool) - FieldBricks
  {
    var p := pool;
    var bricks: seq<Entity> := [];
    var row: nat := 0;
    while row < BrickRows
      invariant row <= BrickRows
      invariant |bricks| == row * BrickCols
      invariant forall i :: 0 <= i < |bricks| ==> bricks[i] == FieldBrick(i)
      invariant Valid(p) && p.slots == pool.slots
      invariant FreeCount(p) == FreeCount(pool) - |bricks|
    {
      var col := 1;
      while col <= BrickCols
        invariant 1 <= col <= BrickCols + 1
        invariant |bricks| == row * BrickCols + col - 1
        invariant forall i :: 0 <= i < |bricks| ==> bricks[i] == FieldBrick(i)
        invariant Valid(p) && p.slots == pool.slots
        invariant FreeCount(p) == FreeCount(pool) - |bricks|
      {
        var a := Alloc(p);
        if a.handle.None? {
          return None;
        }
        FieldBrickAt(row, col);
        bricks := bricks + [Brick(col, row + 1)];
        p := a.pool;
        col := col + 1;
      }
      row := row + 1;
    }
    return Some(Field(bricks, p));
  }

  datatype Cell = Cell(x: int, y: int)

  /** A new game as built by the constructor and the setup part of `Run`: the
      three pools (the ball pool constructs all its balls, each from one start
      cell draw), the brick field, then the paddle, then one ball. */
  method NewGame(starts: seq<Cell>) returns (g: Game)
    requires |starts| == BallPoolSize
    requires forall i :: 0 <= i < |starts| ==> 2 <= starts[i].x <= GameWidth - 2 && 5 <= starts[i].y <= 6
    ensures WellFormed(g)
    ensures g.state == Title && !g.gameOver && g.checkCount == 0 && g.nextAddCount == FirstSpawnAt
    ensures |g.registry| == FieldBricks + 2
    ensures forall i :: 0 <= i < FieldBricks ==> g.registry[i] == FieldBrick(i)
    ensures g.registry[FieldBricks] == Paddle
    ensures g.registry[FieldBricks + 1] == Ball(BallPoolSize - 1)
    ensures g.paddle == PaddleState(5, GameHeight - 2, 0)
    ensures |g.balls| == BallPoolSize
    ensures forall i :: 0 <= i < |starts| ==> g.balls[i] == NewBall(starts[i].x, starts[i].y)
    ensures FreeCount(g.brickPool) == BrickPoolSize - FieldBricks
    ensures FreeCount(g.ballPool) == BallPoolSize - 1
    ensures FreeCount(g.paddlePool) == 0
  {
    var balls := seq(|starts|, i requires 0 <= i < |starts| =>
                                 NewBall(starts[i].x, starts[i].y));
    var field := LayBricks(Init(BrickPoolSize));
    assert field.Some?;
    var registry := field.value.bricks;

    var pa := Alloc(Init(PaddlePoolSize));
    var paddle := InitialPaddle.(y := GameHeight - 2);
    if pa.handle.Some? {
      registry := registry + [Paddle];
    }

    var ba := Alloc(Init(BallPoolSize));
    if ba.handle.Some? {
      registry := registry + [Ball(ba.handle.value)];
    }
    assert ba.handle == Some(BallPoolSize - 1);
    SetupBallSlots(field.value.bricks);
    g := Game(Title, false, 0, FirstSpawnAt, registry, balls, paddle, ba.pool, field.value.pool, pa.pool);
  }

  /** The setup registry, bricks then the paddle then the first ball, holds
      just the first handle popped from the ball pool. */
  lemma SetupBallSlots(bricks: seq<Entity>)
    requires forall i :: 0 <= i < |bricks| ==> bricks[i].Brick?
    ensures BallSlots(bricks + [Paddle] + [Ball(BallPoolSize - 1)]) == LiveOrder(BallPoolSize, BallPoolSize - 1)
  {
    NoBallSlotsAmongBricks(bricks);
    BallSlotsConcat(bricks, [Paddle]);
    BallSlotsConcat(bricks + [Paddle], [Ball(BallPoolSize - 1)]);
    assert BallSlots([Ball(BallPoolSize - 1)]) == [BallPoolSize - 1];
  }

  // ---------------------------------------------------------------- spawn

  /** The random draws of a spawn: the new ball's cell and the next gap. */
  datatype SpawnDraw = SpawnDraw(x: int, y: int, gap: int)

  predicate ValidSpawnDraw(s: SpawnDraw) {
    2 <= s.x <= GameWidth - 2 && 5 <= s.y <= 6 && MinSpawnGap <= s.gap <= MaxSpawnGap
  }

  predicate SpawnDue(g: Game) {
    g.checkCount + 1 == g.nextAddCount
  }

  /** A successful spawn allocation: the top free ball handle is popped, its
      ball object is moved to the drawn cell and appended to the registry. */
  function Placed(g: Game, s: SpawnDraw): (r: Game)
    requires WellFormed(g) && ValidSpawnDraw(s) && FreeCount(g.ballPool) > 0
    ensures WellFormed(r.(checkCount := 0, nextAddCount := s.gap))
    ensures var slot := FreeStack(g.ballPool)[FreeCount(g.ballPool) - 1];
            && r.registry == g.registry + [Ball(slot)]
            && r.balls == g.balls[slot := g.balls[slot].(x := s.x, y := s.y)]
            && FreeCount(r.ballPool) == FreeCount(g.ballPool) - 1
    ensures r.(ballPool := g.ballPool, registry := g.registry, balls := g.balls) == g
  {
    var a := Alloc(g.ballPool);
    var slot := a.handle.value;
    assert slot == g.ballPool.slots[g.ballPool.top] == FreeCount(g.ballPool) - 1;
    PushLiveSlot(g.registry, |g.balls|, FreeCount(g.ballPool));
    g.(ballPool := a.pool, registry := g.registry + [Ball(slot)],
       balls := g.balls[slot := g.balls[slot].(x := s.x, y := s.y)])
  }

  /** Appending the handle popped from a pool with f free handles keeps the
      registry's ball slots in allocation order. */
  lemma PushLiveSlot(reg: seq<Entity>, n: nat, f: nat)
    requires 0 < f <= n && BallSlots(reg) == LiveOrder(n, f)
    ensures BallSlots(reg + [Ball(f - 1)]) == LiveOrder(n, f - 1)
  {
    BallSlotsConcat(reg, [Ball(f - 1)]);
    assert BallSlots([Ball(f - 1)]) == [f - 1];
    LiveOrderPush(n, f);
  }

  /** Popping one more handle extends the allocation order by that handle. */
  lemma LiveOrderPush(n: nat, f: nat)
    requires 0 < f <= n
    ensures LiveOrder(n, f) + [f - 1] == LiveOrder(n, f - 1)
  {
    var a, b := LiveOrder(n, f) + [f - 1], LiveOrder(n, f - 1);
    forall i | 0 <= i < |b|
      ensures a[i] == b[i]
    {
      if i < n - f {
        assert a[i] == LiveOrder(n, f)[i];
      }
    }
  }

  /** The spawn schedule at the start of a tick: the counter advances, and when
      it reaches the threshold it restarts, a new gap is drawn, and a ball is
      taken from the ball pool and placed at the drawn cell if one is left. */
  function Spawn(g: Game, s: SpawnDraw): (r: Game)
    requires WellFormed(g) && ValidSpawnDraw(s)
    ensures WellFormed(r)
    ensures r.state == g.state && r.gameOver == g.gameOver && r.paddle == g.paddle
    ensures r.brickPool == g.brickPool && r.paddlePool == g.paddlePool
    ensures !SpawnDue(g) ==> r == g.(checkCount := g.checkCount + 1)
    ensures SpawnDue(g) ==> r.checkCount == 0 && r.nextAddCount == s.gap
    ensures SpawnDue(g) && FreeCount(g.ballPool) > 0 ==>
              var slot := FreeStack(g.ballPool)[FreeCount(g.ballPool) - 1];
              && r.registry == g.registry + [Ball(slot)]
              && r.balls == g.balls[slot := g.balls[slot].(x := s.x, y := s.y)]
              && FreeCount(r.ballPool) == FreeCount(g.ballPool) - 1
    ensures SpawnDue(g) && FreeCount(g.ballPool) == 0 ==>
              r.registry == g.registry && r.balls == g.balls && r.ballPool == g.ballPool
  {
    var count := g.checkCount + 1;
    if count == g.nextAddCount then
      var a := Alloc(g.ballPool);
      if a.handle.Some? then
        Placed(g, s).(checkCount := 0, nextAddCount := s.gap)
      else
        g.(checkCount := 0, nextAddCount := s.gap)
    else
      g.(checkCount := count)
  }

  // ---------------------------------------------------------------- update

  datatype Updated = Updated(balls: seq<BallState>, paddle: PaddleState)

  /** The update phase: `Update` on every registry entry in order. The paddle
      consumes the key read this tick; bricks do nothing. */
  function UpdateAll(reg: seq<Entity>, balls: seq<BallState>, paddle: PaddleState, key: Option<char>): (r: Updated)
    requires BallRefsIn(reg, |balls|)
    ensures |r.balls| == |balls|
    ensures r.paddle == if Paddle in reg then PaddleUpdate(paddle, key) else paddle
    decreases |reg|
  {
    if reg == [] then Updated(balls, paddle)
    else
      assert reg == [reg[0]] + reg[1..];
      match reg[0]
      case Brick(_, _) => UpdateAll(reg[1..], balls, paddle, key)
      case Ball(s) => UpdateAll(reg[1..], balls[s := BallStep(balls[s])], paddle, key)
      case Paddle => UpdateAll(reg[1..], balls, PaddleUpdate(paddle, key), None)
  }

  /** The ball object in slot `s` is stepped once for every registry entry
      that refers to it. */
  lemma {:induction false} UpdateAllSteps(reg: seq<Entity>, balls: seq<BallState>, paddle: PaddleState,
                                          key: Option<char>, s: nat)
    requires BallRefsIn(reg, |balls|) && s < |balls|
    ensures UpdateAll(reg, balls, paddle, key).balls[s] == StepN(balls[s], multiset(reg)[Ball(s)])
    decreases |reg|
  {
    if reg == [] {
      assert StepN(balls[s], 0) == balls[s];
    } else {
      var e, rest := reg[0], reg[1..];
      assert reg == [e] + rest;
      assert multiset(reg) == multiset{e} + multiset(rest);
      assert BallRefsIn(rest, |balls|) by {
        forall x | x in rest ensures x in reg { }
      }
      match e
      case Brick(_, _) =>
        assert UpdateAll(reg, balls, paddle, key) == UpdateAll(rest, balls, paddle, key);
        assert multiset(reg)[Ball(s)] == multiset(rest)[Ball(s)];
        UpdateAllSteps(rest, balls, paddle, key, s);
      case Ball(t) =>
        var stepped := balls[t := BallStep(balls[t])];
        assert UpdateAll(reg, balls, paddle, key) == UpdateAll(rest, stepped, paddle, key);
        UpdateAllSteps(rest, stepped, paddle, key, s);
        var m := multiset(rest)[Ball(s)];
        if t == s {
          assert multiset(reg)[Ball(s)] == m + 1;
          assert StepN(balls[s], m + 1) == StepN(stepped[s], m);
        } else {
          assert multiset(reg)[Ball(s)] == m;
        }
      case Paddle =>
        assert UpdateAll(reg, balls, paddle, key) == UpdateAll(rest, balls, PaddleUpdate(paddle, key), None);
        assert multiset(reg)[Ball(s)] == multiset(rest)[Ball(s)];
        UpdateAllSteps(rest, balls, PaddleUpdate(paddle, key), None, s);
    }
  }

  /** When no slot appears twice among the registry's balls, each live ball
      is stepped exactly once per tick and no other ball object is touched. */
  lemma UpdateStepsLiveBallsOnce(reg: seq<Entity>, balls: seq<BallState>, paddle: PaddleState, key: Option<char>)
    requires BallRefsIn(reg, |balls|) && Distinct(BallSlots(reg))
    ensures var u := UpdateAll(reg, balls, paddle, key);
            forall s :: 0 <= s < |balls| ==>
              u.balls[s] == if s in BallSlots(reg) then BallStep(balls[s]) else balls[s]
  {
    var u := UpdateAll(reg, balls, paddle, key);
    forall s | 0 <= s < |balls|
      ensures u.balls[s] == if s in BallSlots(reg) then BallStep(balls[s]) else balls[s]
    {
      UpdateAllSteps(reg, balls, paddle, key, s);
      BallCountIsSlotCount(reg, s);
      DistinctCountAtMostOne(BallSlots(reg), s);
      assert StepN(BallStep(balls[s]), 0) == BallStep(balls[s]);
    }
  }

  // ---------------------------------------------------------------- collision

  /** The ball slots of the registry, in registry order. */
  function BallSlots(reg: seq<Entity>): (r: seq<nat>)
    ensures forall s :: s in r <==> Ball(s) in reg
    decreases |reg|
  {
    if reg == [] then []
    else
      assert reg == [reg[0]] + reg[1..];
      if reg[0].Ball? then [reg[0].slot] + BallSlots(reg[1..]) else BallSlots(reg[1..])
  }

  lemma {:induction false} BallSlotsConcat(a: seq<Entity>, b: seq<Entity>)
    ensures BallSlots(a + b) == BallSlots(a) + BallSlots(b)
    decreases |a|
  {
    if a == [] {
      assert a + b == b;
    } else {
      assert (a + b)[0] == a[0] && (a + b)[1..] == a[1..] + b;
      BallSlotsConcat(a[1..], b);
    }
  }

  lemma {:induction false} NoBallSlotsAmongBricks(reg: seq<Entity>)
    requires forall i :: 0 <= i < |reg| ==> reg[i].Brick?
    ensures BallSlots(reg) == []
    decreases |reg|
  {
    if reg != [] {
      NoBallSlotsAmongBricks(reg[1..]);
    }
  }

  /** Erasing bricks leaves the ball slots of a registry as they were. */
  lemma {:induction false} BallSlotsOfNonBricks(reg: seq<Entity>)
    ensures BallSlots(NonBricks(reg)) == BallSlots(reg)
    decreases |reg|
  {
    if reg != [] {
      BallSlotsOfNonBricks(reg[1..]);
      if !reg[0].Brick? {
        var nb := [reg[0]] + NonBricks(reg[1..]);
        assert nb[0] == reg[0] && nb[1..] == NonBricks(reg[1..]);
      }
    }
  }

  /** How often a ball appears in the registry is how often its slot appears
      among the ball slots. */
  lemma {:induction false} BallCountIsSlotCount(reg: seq<Entity>, s: nat)
    ensures multiset(reg)[Ball(s)] == multiset(BallSlots(reg))[s]
    decreases |reg|
  {
    if reg != [] {
      assert reg == [reg[0]] + reg[1..];
      BallCountIsSlotCount(reg[1..], s);
    }
  }

  lemma {:induction false} DistinctCountAtMostOne(xs: seq<nat>, v: nat)
    requires Distinct(xs)
    ensures multiset(xs)[v] <= 1
    decreases |xs|
  {
    if xs != [] {
      assert xs == [xs[0]] + xs[1..];
      DistinctCountAtMostOne(xs[1..], v);
      if xs[0] == v {
        assert v !in xs[1..];
      }
    }
  }

  datatype Phase = Phase(balls: seq<BallState>, paddle: PaddleState, registry: seq<Entity>,
                         state: GameState, gameOver: bool, next: nat)

  /** One ball's collision pass: `CheckCollision` on the ball in slot `s`,
      with the ball written back to its slot. */
  function CollideOne(s: nat, ph: Phase, draw: nat -> Sign): (r: Phase)
    requires s < |ph.balls|
    ensures |r.balls| == |ph.balls|
    ensures multiset(r.registry) <= multiset(ph.registry)
    ensures forall t :: 0 <= t < |ph.balls| && t != s ==> r.balls[t] == ph.balls[t]
    ensures InField(ph.balls[s]) ==> Inside(r.balls[s])
    ensures NonBricks(r.registry) == NonBricks(ph.registry)
    ensures forall e :: e in r.registry ==> e in ph.registry
    ensures |r.registry| <= |ph.registry|
    ensures r.paddle.x == ph.paddle.x && r.paddle.y == ph.paddle.y
    ensures r.paddle.score == if |r.registry| < |ph.registry| then ph.paddle.score + 1 else ph.paddle.score
    ensures ph.gameOver ==> r.gameOver
    ensures r.state == ph.state || (r.state == GameOver && r.gameOver)
    ensures r.next >= ph.next
  {
    var c := CheckCollision(ph.balls[s], ph.paddle, ph.registry, GameWidth, GameHeight,
                            ph.state, ph.gameOver, draw, ph.next);
    SurvivorsKeepNonBricks(ph.registry, c.ball.x, c.ball.y);
    SurvivorsSubMultiset(ph.registry, c.ball.x, c.ball.y);
    assert InField(ph.balls[s]) ==> Inside(c.ball) by {
      if InField(ph.balls[s]) {
        WallsContain(ph.balls[s], GameWidth);
      }
    }
    Phase(ph.balls[s := c.ball], c.paddle, c.registry, c.state, c.gameOver, c.next)
  }

  /** A ball's pass stores the ball `CheckCollision` returns in the ball's
      slot and takes over the rest of its result. */
  lemma CollideOneStoresBall(s: nat, ph: Phase, draw: nat -> Sign)
    requires s < |ph.balls|
    ensures var r := CollideOne(s, ph, draw);
            var c := CheckCollision(ph.balls[s], ph.paddle, ph.registry, GameWidth, GameHeight,
                                    ph.state, ph.gameOver, draw, ph.next);
            && r.balls[s] == c.ball && r.registry == c.registry && r.paddle == c.paddle
            && r.state == c.state && r.gameOver == c.gameOver && r.next == c.next
  {
  }

  /** The collision phase: one collision pass for each ball in `order`, each
      pass seeing the registry left by the previous ones. Only bricks leave the
      registry, and only the listed balls change. */
  function CollideAll(order: seq<nat>, ph: Phase, draw: nat -> Sign): (r: Phase)
    requires forall i :: 0 <= i < |order| ==> order[i] < |ph.balls|
    ensures |r.balls| == |ph.balls|
    ensures forall s :: 0 <= s < |ph.balls| && s !in order ==> r.balls[s] == ph.balls[s]
    ensures NonBricks(r.registry) == NonBricks(ph.registry)
    ensures forall e :: e in r.registry ==> e in ph.registry
    ensures multiset(r.registry) <= multiset(ph.registry)
    ensures r.paddle.x == ph.paddle.x && r.paddle.y == ph.paddle.y
    ensures ph.gameOver ==> r.gameOver
    ensures r.state == ph.state || (r.state == GameOver && r.gameOver)
    ensures r.next >= ph.next
    decreases |order|
  {
    if order == [] then ph
    else CollideAll(order[1..], CollideOne(order[0], ph, draw), draw)
  }

  /** The score rises by at most one per ball pass and never by more than the
      number of bricks erased, and it rises whenever a brick is erased. */
  lemma {:induction false} CollideAllScore(order: seq<nat>, ph: Phase, draw: nat -> Sign)
    requires forall i :: 0 <= i < |order| ==> order[i] < |ph.balls|
    ensures var r := CollideAll(order, ph, draw);
            && ph.paddle.score <= r.paddle.score <= ph.paddle.score + |order|
            && |r.registry| <= |ph.registry|
            && r.paddle.score - ph.paddle.score <= |ph.registry| - |r.registry|
            && (|r.registry| < |ph.registry| ==> ph.paddle.score < r.paddle.score)
    decreases |order|
  {
    if order != [] {
      CollideAllScore(order[1..], CollideOne(order[0], ph, draw), draw);
    }
  }

  /** Balls at most one cell past the walls are brought back inside by their
      collision pass, and later passes keep them there. */
  lemma {:induction false} CollideAllKeepsBallsInside(order: seq<nat>, ph: Phase, draw: nat -> Sign)
    requires forall i :: 0 <= i < |order| ==> order[i] < |ph.balls|
    requires forall s :: 0 <= s < |ph.balls| ==> InField(ph.balls[s])
    ensures var r := CollideAll(order, ph, draw);
            && (forall s :: 0 <= s < |r.balls| ==> InField(r.balls[s]))
            && (forall s :: 0 <= s < |r.balls| && s in order ==> Inside(r.balls[s]))
    decreases |order|
  {
    if order != [] {
      var s0, rest := order[0], order[1..];
      var ph1 := CollideOne(s0, ph, draw);
      assert Inside(ph1.balls[s0]);
      CollideAllKeepsBallsInside(rest, ph1, draw);
      var r := CollideAll(order, ph, draw);
      assert r == CollideAll(rest, ph1, draw);
      forall s | 0 <= s < |r.balls| && s in order
        ensures Inside(r.balls[s])
      {
        if s !in rest {
          assert s == s0 by {
            assert order == [s0] + rest;
          }
        }
      }
    }
  }

  // ---------------------------------------------------------------- end of tick

  /** The brick scan at the end of a tick, stopping at the first brick. */
  function BricksRemain(reg: seq<Entity>): (b: bool)
    ensures b <==> exists i :: 0 <= i < |reg| && reg[i].Brick?
    decreases |reg|
  {
    if reg == [] then false
    else reg[0].Brick? || BricksRemain(reg[1..])
  }

  /** The end-of-tick checks: a raised loss flag gives GameOver, and then an
      empty field gives GameClear, overriding a loss in the same tick. */
  function EndOfTick(state: GameState, gameOver: bool, reg: seq<Entity>): (r: GameState)
    ensures !BricksRemain(reg) ==> r == GameClear
    ensures BricksRemain(reg) && gameOver ==> r == GameOver
    ensures BricksRemain(reg) && !gameOver ==> r == state
  {
    var afterLoss := if gameOver then GameOver else state;
    if !BricksRemain(reg) then GameClear else afterLoss
  }

  // ---------------------------------------------------------------- tick

  datatype TickResult = TickResult(game: Game, next: nat)

  /** The phase start: the update phase's results with the registry as it
      stood before the collision phase. */
  function Updated0(g: Game, key: Option<char>, k: nat): (ph: Phase)
    requires BallRefsIn(g.registry, |g.balls|)
  {
    var u := UpdateAll(g.registry, g.balls, g.paddle, key);
    Phase(u.balls, u.paddle, g.registry, g.state, g.gameOver, k)
  }

  /** The update phase, the collision phase over the registry's balls and the
      end-of-tick checks, on a game whose spawn step is done. */
  function Phases(g: Game, key: Option<char>, draw: nat -> Sign, k: nat): (r: TickResult)
    requires BallRefsIn(g.registry, |g.balls|) && g.state == Playing
    ensures r.game.(state := g.state, gameOver := g.gameOver, registry := g.registry,
                    balls := g.balls, paddle := g.paddle) == g
    ensures NonBricks(r.game.registry) == NonBricks(g.registry)
    ensures forall e :: e in r.game.registry ==> e in g.registry
    ensures multiset(r.game.registry) <= multiset(g.registry)
    ensures r.game.paddle.x == if Paddle in g.registry then PaddleUpdate(g.paddle, key).x else g.paddle.x
    ensures r.game.paddle.y == g.paddle.y
    ensures g.paddle.score <= r.game.paddle.score
    ensures g.gameOver ==> r.game.gameOver
    ensures r.game.state == GameClear <==> !BricksRemain(r.game.registry)
    ensures BricksRemain(r.game.registry) ==> r.game.state == if r.game.gameOver then GameOver else g.state
    ensures r.next >= k
  {
    var ph0 := Updated0(g, key, k);
    var order := BallSlots(g.registry);
    assert forall i :: 0 <= i < |order| ==> order[i] in order;
    var ph := CollideAll(order, ph0, draw);
    CollideAllScore(order, ph0, draw);
    var state := EndOfTick(ph.state, ph.gameOver, ph.registry);
    TickResult(g.(state := state, gameOver := ph.gameOver, registry := ph.registry,
                  balls := ph.balls, paddle := ph.paddle), ph.next)
  }

  /** The collision phase leaves the registry's ball slots as they were. */
  lemma PhasesKeepBallSlots(g: Game, key: Option<char>, draw: nat -> Sign, k: nat)
    requires BallRefsIn(g.registry, |g.balls|) && g.state == Playing
    ensures BallSlots(Phases(g, key, draw, k).game.registry) == BallSlots(g.registry)
  {
    var r := Phases(g, key, draw, k).game;
    BallSlotsOfNonBricks(r.registry);
    BallSlotsOfNonBricks(g.registry);
  }

  /** The update phase moves each live ball at most one cell past the walls
      and leaves the other ball objects alone. */
  lemma UpdateKeepsBallsInField(reg: seq<Entity>, balls: seq<BallState>, paddle: PaddleState, key: Option<char>)
    requires BallRefsIn(reg, |balls|) && Distinct(BallSlots(reg))
    requires forall s :: 0 <= s < |balls| ==> Inside(balls[s])
    ensures var u := UpdateAll(reg, balls, paddle, key);
            forall s :: 0 <= s < |balls| ==>
              && InField(u.balls[s])
              && (s !in BallSlots(reg) ==> u.balls[s] == balls[s])
  {
    UpdateStepsLiveBallsOnce(reg, balls, paddle, key);
  }

  /** Every ball object is inside the walls again at the end of the phases. */
  lemma PhasesKeepBallsInside(g: Game, key: Option<char>, draw: nat -> Sign, k: nat)
    requires BallRefsIn(g.registry, |g.balls|) && Distinct(BallSlots(g.registry)) && g.state == Playing
    requires forall s :: 0 <= s < |g.balls| ==> Inside(g.balls[s])
    ensures var r := Phases(g, key, draw, k).game;
            forall t :: 0 <= t < |r.balls| ==> Inside(r.balls[t])
  {
    UpdateKeepsBallsInField(g.registry, g.balls, g.paddle, key);
    var u := UpdateAll(g.registry, g.balls, g.paddle, key);
    var ph0 := Updated0(g, key, k);
    assert ph0.balls == u.balls;
    assert forall t :: 0 <= t < |ph0.balls| ==> InField(ph0.balls[t]);
    var order := BallSlots(g.registry);
    assert forall i :: 0 <= i < |order| ==> order[i] in order;
    CollideAllKeepsBallsInside(order, ph0, draw);
    var ph := CollideAll(order, ph0, draw);
    forall t | 0 <= t < |ph.balls| && t !in order
      ensures Inside(ph.balls[t])
    {
      assert ph.balls[t] == ph0.balls[t] == u.balls[t] == g.balls[t];
    }
    assert Phases(g, key, draw, k).game.balls == ph.balls;
  }

  /** The update, collision and end-of-tick steps keep the game invariant:
      pools and counters are untouched, the ball slots stay as they were,
      and every ball object is back inside the walls. */
  lemma PhasesKeepWellFormed(g: Game, key: Option<char>, draw: nat -> Sign, k: nat)
    requires WellFormed(g) && g.state == Playing
    ensures BallRefsIn(g.registry, |g.balls|) && WellFormed(Phases(g, key, draw, k).game)
  {
    LiveAndFreePartition(g);
    PhasesKeepBallsInside(g, key, draw, k);
    PhasesKeepBallSlots(g, key, draw, k);
  }

  /** One tick of the Playing state (rendering and frame pacing aside). */
  function Tick(g: Game, key: Option<char>, s: SpawnDraw, draw: nat -> Sign, k: nat): (r: TickResult)
    requires WellFormed(g) && g.state == Playing && ValidSpawnDraw(s)
    ensures WellFormed(r.game)
    ensures r.game.brickPool == g.brickPool && r.game.paddlePool == g.paddlePool
    ensures r.game.checkCount == if SpawnDue(g) then 0 else g.checkCount + 1
    ensures r.game.nextAddCount == if SpawnDue(g) then s.gap else g.nextAddCount
    ensures NonBricks(r.game.registry) == NonBricks(Spawn(g, s).registry)
    ensures forall e :: e in r.game.registry ==> e in Spawn(g, s).registry
    ensures multiset(r.game.registry) <= multiset(Spawn(g, s).registry)
    ensures r.game.paddle.x == if Paddle in g.registry then PaddleUpdate(g.paddle, key).x else g.paddle.x
    ensures g.paddle.score <= r.game.paddle.score
    ensures g.gameOver ==> r.game.gameOver
    ensures r.game.state == GameClear <==> !BricksRemain(r.game.registry)
    ensures BricksRemain(r.game.registry) ==> r.game.state == if r.game.gameOver then GameOver else Playing
    ensures r.next >= k
  {
    var g1 := Spawn(g, s);
    assert Paddle in g1.registry <==> Paddle in g.registry;
    LiveAndFreePartition(g1);
    PhasesKeepWellFormed(g1, key, draw, k);
    Phases(g1, key, draw, k)
  }
}
