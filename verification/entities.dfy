/**
 The game objects of the breakout game and their per-tick `Update` behaviour,
 on an integer grid. Column 0 and row 0 are the left and top border.
 */
module Entities {
  import opened Wrappers

  const GameWidth: int := 30
  const GameHeight: int := 27

  /** The range the paddle's left end is kept in by the key handling. */
  const PaddleMinX: int := 1
  const PaddleMaxX: int := GameWidth - 4

  /** A unit velocity component, and the outcome of one random sign draw. */
  type Sign = s: int | s == -1 || s == 1 witness 1

  /** The product of two signs, written without multiplication. */
  function Times(a: Sign, b: Sign): (r: Sign)
    ensures r == a * b
  {
    if a == b then 1 else -1
  }

  /** The negated sign. */
  function Neg(a: Sign): (r: Sign)
    ensures r as int == -(a as int)
  {
    if a == 1 then -1 else 1
  }

  datatype GameState = Title | Playing | GameOver | GameClear

  /** A ball object: its position, the position before its last move, its
      velocity and its frame counter. */
  datatype BallState = BallState(x: int, y: int, prevX: int, prevY: int, dx: Sign, dy: Sign, frameCount: int)

  /** The paddle object; its left end is at column `x` and `score` is the
      player's score. */
  datatype PaddleState = PaddleState(x: int, y: int, score: int)

  /** An entry of the live-entity registry. Bricks never change after setup
      and are held by value; a ball is referred to by its slot in the ball
      pool's storage; the paddle is the single paddle object of the game. */
  datatype Entity = Brick(x: int, y: int) | Ball(slot: nat) | Paddle

  /** The ball default constructor: a position drawn from columns 2..28 and
      rows 5..6, moving down and to the right. The ball starts inside the
      side walls, below the three brick rows and above the paddle row. */
  function NewBall(x: int, y: int): (r: BallState)
    requires 2 <= x <= GameWidth - 2 && 5 <= y <= 6
    ensures r.x == x && r.y == y
    ensures 1 <= r.x <= GameWidth - 2 && 3 < r.y < GameHeight - 2
    ensures r.dx == 1 && r.dy == 1
    ensures r.prevX == 0 && r.prevY == 0 && r.frameCount == 0
  {
    BallState(x, y, 0, 0, 1, 1, 0)
  }

  /** The paddle default constructor. */
  const InitialPaddle: PaddleState := PaddleState(5, 20, 0)

  function Min(a: int, b: int): int {
    if a <= b then a else b
  }

  function Max(a: int, b: int): int {
    if a >= b then a else b
  }

  predicate InPaddleRange(x: int) {
    PaddleMinX <= x <= PaddleMaxX
  }

  /** `Paddle::Update` with the key read this tick (None when no key was
      pressed): 'a' moves two columns left and 'd' two columns right, each
      clamped at the edge of the paddle range; every other key is ignored. */
  function PaddleUpdate(p: PaddleState, key: Option<char>): (r: PaddleState)
    ensures r.y == p.y && r.score == p.score
    ensures key == Some('a') ==> r.x == Max(p.x - 2, PaddleMinX)
    ensures key == Some('d') ==> r.x == Min(p.x + 2, PaddleMaxX)
    ensures key != Some('a') && key != Some('d') ==> r == p
    ensures InPaddleRange(p.x) ==> InPaddleRange(r.x)
  {
    if key == Some('a') then
      if p.x > 2 then p.(x := p.x - 2) else p.(x := 1)
    else if key == Some('d') then
      if p.x < GameWidth - 5 then p.(x := p.x + 2) else p.(x := GameWidth - 4)
    else
      p
  }

  /** Whatever keys arrive, a paddle that starts in range stays in range. */
  lemma {:induction false} PaddleStaysInRange(p: PaddleState, keys: seq<Option<char>>)
    requires InPaddleRange(p.x)
    ensures InPaddleRange(PaddleAfter(p, keys).x)
    decreases |keys|
  {
    if keys != [] {
      PaddleStaysInRange(PaddleUpdate(p, keys[0]), keys[1..]);
    }
  }

  /** The paddle after one `Update` per key, in order. */
  function PaddleAfter(p: PaddleState, keys: seq<Option<char>>): PaddleState
    decreases |keys|
  {
    if keys == [] then p else PaddleAfter(PaddleUpdate(p, keys[0]), keys[1..])
  }

  /** `Ball::Update`: remembers the cell being left (so that it can be erased)
      and then moves by the velocity; the frame-counter test `% 1 == 0` always
      holds, so the ball moves every tick. */
  function BallStep(b: BallState): (r: BallState)
    ensures r.prevX == b.x && r.prevY == b.y
    ensures r.x - r.prevX == r.dx && r.y - r.prevY == r.dy
    ensures r.dx == b.dx && r.dy == b.dy
    ensures r.frameCount == b.frameCount + 1
  {
    b.(prevX := b.x, prevY := b.y, x := b.x + b.dx, y := b.y + b.dy, frameCount := b.frameCount + 1)
  }

  /** `n` successive `Update`s of one ball. */
  function StepN(b: BallState, n: nat): (r: BallState)
    ensures r.dx == b.dx && r.dy == b.dy
    ensures r.x == b.x + n * b.dx && r.y == b.y + n * b.dy
    ensures r.frameCount == b.frameCount + n
    decreases n
  {
    if n == 0 then b else StepN(BallStep(b), n - 1)
  }
}
