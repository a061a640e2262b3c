/**
 `Ball::CheckCollision`: one ball's collision pass against the paddle, the
 three walls and the bricks, followed by the loss test. The random sign draws
 are a stream `draw` read from position `k` onwards.
 */
module Collision {
  import opened Entities

  /** Whether a registry entry is a brick the ball at (x, y) strikes: a brick
      in the ball's column at or below the ball. */
  predicate Hits(e: Entity, x: int, y: int) {
    e.Brick? && e.x == x && y <= e.y
  }

  /** The registry with every struck brick erased and all other entries kept
      in their order. */
  function Survivors(reg: seq<Entity>, x: int, y: int): (r: seq<Entity>)
    ensures |r| <= |reg|
    ensures forall i :: 0 <= i < |r| ==> !Hits(r[i], x, y)
    ensures forall e :: e in r ==> e in reg
    decreases |reg|
  {
    if reg == [] then []
    else if Hits(reg[0], x, y) then Survivors(reg[1..], x, y)
    else [reg[0]] + Survivors(reg[1..], x, y)
  }

  /** Erasing distributes over concatenation: survivors keep their relative order. */
  lemma {:induction false} SurvivorsOfConcat(a: seq<Entity>, b: seq<Entity>, x: int, y: int)
    ensures Survivors(a + b, x, y) == Survivors(a, x, y) + Survivors(b, x, y)
    decreases |a|
  {
    if a != [] {
      var ab := a + b;
      assert ab[0] == a[0];
      assert ab[1..] == a[1..] + b;
      SurvivorsOfConcat(a[1..], b, x, y);
      if Hits(a[0], x, y) {
        assert Survivors(ab, x, y) == Survivors(ab[1..], x, y);
        assert Survivors(a, x, y) == Survivors(a[1..], x, y);
      } else {
        assert Survivors(ab, x, y) == [a[0]] + Survivors(ab[1..], x, y);
        assert Survivors(a, x, y) == [a[0]] + Survivors(a[1..], x, y);
        assert [a[0]] + (Survivors(a[1..], x, y) + Survivors(b, x, y))
            == ([a[0]] + Survivors(a[1..], x, y)) + Survivors(b, x, y);
      }
    } else {
      assert a + b == b;
    }
  }

  /** Exactly the struck bricks are erased: every other entry survives as often
      as it occurred. */
  lemma {:induction false} SurvivorsCount(reg: seq<Entity>, x: int, y: int, e: Entity)
    ensures multiset(Survivors(reg, x, y))[e] == if Hits(e, x, y) then 0 else multiset(reg)[e]
    decreases |reg|
  {
    if reg != [] {
      assert reg == [reg[0]] + reg[1..];
      SurvivorsCount(reg[1..], x, y, e);
    }
  }

  /** Erasing only removes entries: no entry is duplicated or invented. */
  lemma SurvivorsSubMultiset(reg: seq<Entity>, x: int, y: int)
    ensures multiset(Survivors(reg, x, y)) <= multiset(reg)
  {
    forall e ensures multiset(Survivors(reg, x, y))[e] <= multiset(reg)[e] {
      SurvivorsCount(reg, x, y, e);
    }
  }

  /** The non-brick entries of a registry, in order. */
  function NonBricks(reg: seq<Entity>): (r: seq<Entity>)
    ensures forall i :: 0 <= i < |r| ==> !r[i].Brick?
    decreases |reg|
  {
    if reg == [] then []
    else if reg[0].Brick? then NonBricks(reg[1..])
    else [reg[0]] + NonBricks(reg[1..])
  }

  /** The sweep never touches the balls and the paddle, nor their order. */
  lemma {:induction false} SurvivorsKeepNonBricks(reg: seq<Entity>, x: int, y: int)
    ensures NonBricks(Survivors(reg, x, y)) == NonBricks(reg)
    decreases |reg|
  {
    if reg != [] {
      SurvivorsKeepNonBricks(reg[1..], x, y);
      if !Hits(reg[0], x, y) {
        var s := [reg[0]] + Survivors(reg[1..], x, y);
        assert s[0] == reg[0] && s[1..] == Survivors(reg[1..], x, y);
      }
    }
  }

  /** The sign `s` reversed `n` times. */
  function Flip(n: nat, s: Sign): (r: Sign)
    ensures r == s <==> n % 2 == 0
  {
    if n % 2 == 0 then s else Neg(s)
  }

  /** Reversing first and then n times is reversing n + 1 times. */
  lemma FlipOnce(n: nat, s: Sign)
    ensures Flip(n, Neg(s)) == Flip(n + 1, s)
  {
  }

  /** Reversals add up. */
  lemma FlipFlip(m: nat, n: nat, s: Sign)
    ensures Flip(m, Flip(n, s)) == Flip(m + n, s)
  {
  }

  /** Reversing commutes with multiplying by a draw. */
  lemma FlipTimes(n: nat, a: Sign, d: Sign)
    ensures Flip(n, Times(a, d)) == Times(Flip(n, a), d)
  {
  }

  /** The product of the `n` sign draws `draw(k)`, ..., `draw(k + n - 1)`. */
  function SignProduct(draw: nat -> Sign, k: nat, n: nat): Sign
    decreases n
  {
    if n == 0 then 1 else Times(draw(k), SignProduct(draw, k + 1, n - 1))
  }

  /** Consecutive runs of draws multiply into one run. */
  lemma {:induction false} SignProductSplit(draw: nat -> Sign, k: nat, m: nat, n: nat)
    ensures Times(SignProduct(draw, k, m), SignProduct(draw, k + m, n)) == SignProduct(draw, k, m + n)
    decreases m
  {
    if m > 0 {
      SignProductSplit(draw, k + 1, m - 1, n);
      TimesAssoc(draw(k), SignProduct(draw, k + 1, m - 1), SignProduct(draw, k + m, n));
    }
  }

  /** Sign products associate. */
  lemma TimesAssoc(a: Sign, b: Sign, c: Sign)
    ensures Times(Times(a, b), c) == Times(a, Times(b, c))
  {
  }

  datatype SweepResult = SweepResult(kept: seq<Entity>, dx: Sign, dy: Sign, next: nat, removed: nat)

  /** The brick loop: for each struck brick, in registry order, the ball's dx
      is multiplied by a fresh sign draw, dy is reversed and the brick is
      erased. The ball's position does not change during the loop. */
  function Sweep(reg: seq<Entity>, x: int, y: int, dx: Sign, dy: Sign, draw: nat -> Sign, k: nat): (r: SweepResult)
    ensures r.kept == Survivors(reg, x, y)
    ensures r.removed == |reg| - |r.kept|
    ensures r.next == k + r.removed
    ensures r.dy == Flip(r.removed, dy)
    ensures r.dx == Times(dx, SignProduct(draw, k, r.removed))
    ensures r.removed == 0 ==> r.dx == dx
    decreases |reg|
  {
    if reg == [] then SweepResult([], dx, dy, k, 0)
    else if Hits(reg[0], x, y) then
      var rest := Sweep(reg[1..], x, y, Times(dx, draw(k)), Neg(dy), draw, k + 1);
      TimesAssoc(dx, draw(k), SignProduct(draw, k + 1, rest.removed));
      FlipOnce(rest.removed, dy);
      rest.(removed := rest.removed + 1)
    else
      var rest := Sweep(reg[1..], x, y, dx, dy, draw, k);
      rest.(kept := [reg[0]] + rest.kept)
  }

  /** The two rows directly above the paddle row, across the paddle's three
      columns. No direction is consulted. */
  predicate InPaddleBand(b: BallState, p: PaddleState) {
    p.x <= b.x <= p.x + 2 && (b.y == p.y - 4 || b.y == p.y - 3)
  }

  datatype Bounce = Bounce(ball: BallState, next: nat)

  /** The paddle test: a ball in the band has dy reversed and dx multiplied by
      one sign draw; any other ball keeps its velocity. */
  function PaddleBounce(b: BallState, p: PaddleState, draw: nat -> Sign, k: nat): (r: Bounce)
    ensures r.ball.(dx := b.dx, dy := b.dy) == b
    ensures InPaddleBand(b, p) ==> r.ball.dy == Neg(b.dy) && r.ball.dx == Times(b.dx, draw(k)) && r.next == k + 1
    ensures !InPaddleBand(b, p) ==> r == Bounce(b, k)
  {
    if InPaddleBand(b, p) then
      Bounce(b.(dx := Times(b.dx, draw(k)), dy := Neg(b.dy)), k + 1)
    else
      Bounce(b, k)
  }

  /** The left wall test and then the right wall test. */
  function SideWalls(b: BallState, width: int): (r: BallState)
    ensures r.(x := b.x, dx := b.dx) == b
    ensures width >= 3 && b.x <= 0 ==> r.x == b.x + 1 && r.dx == Neg(b.dx)
    ensures width >= 3 && b.x >= width - 1 ==> r.x == b.x - 1 && r.dx == Neg(b.dx)
    ensures 0 < b.x < width - 1 ==> r == b
  {
    var b1 := if b.x <= 0 then b.(dx := Neg(b.dx), x := b.x + 1) else b;
    if b1.x >= width - 1 then b1.(dx := Neg(b1.dx), x := b1.x - 1) else b1
  }

  /** The top wall test. */
  function TopWall(b: BallState): (r: BallState)
    ensures r.(y := b.y, dy := b.dy) == b
    ensures b.y <= 0 ==> r.y == b.y + 1 && r.dy == Neg(b.dy)
    ensures b.y > 0 ==> r == b
  {
    if b.y <= 0 then b.(dy := Neg(b.dy), y := b.y + 1) else b
  }

  /** A ball inside the field is inside the playing area after the wall tests:
      it can never leave through the left or right side. */
  lemma WallsContain(b: BallState, width: int)
    requires width >= 3 && 0 <= b.x <= width - 1 && 0 <= b.y
    ensures 1 <= SideWalls(b, width).x <= width - 2
    ensures 1 <= TopWall(b).y
  {
  }

  /** How many of the two side-wall tests reverse dx for a ball in column x:
      the left test, and then the right test on the column the left test left. */
  function SideFlips(x: int, width: int): (n: nat)
    ensures n <= 2
    ensures width >= 3 ==> (n == 0 <==> 0 < x < width - 1) && n <= 1
  {
    var x1 := if x <= 0 then x + 1 else x;
    (if x <= 0 then 1 else 0) + (if x1 >= width - 1 then 1 else 0)
  }

  /** How many times the paddle test fires for a ball: one reversal of dy
      and one sign draw for dx. */
  function PaddleFlips(b: BallState, p: PaddleState): (n: nat)
    ensures n == 1 <==> InPaddleBand(b, p)
    ensures n <= 1
  {
    if InPaddleBand(b, p) then 1 else 0
  }

  /** How many times the top wall test reverses dy for a ball in row y. */
  function TopFlips(y: int): (n: nat)
    ensures n == 1 <==> y <= 0
    ensures n <= 1
  {
    if y <= 0 then 1 else 0
  }

  /** The paddle test and then the wall tests, which run before the brick
      sweep: the ball ends at the wall-adjusted cell, and each test that
      fires reverses one velocity component; the paddle test also takes one
      sign draw for dx. */
  function PaddleAndWalls(b: BallState, p: PaddleState, width: int, draw: nat -> Sign, k: nat): (r: Bounce)
    ensures r.ball.x == SideWalls(b, width).x && r.ball.y == TopWall(b).y
    ensures r.ball.prevX == b.prevX && r.ball.prevY == b.prevY && r.ball.frameCount == b.frameCount
    ensures r.next == k + PaddleFlips(b, p)
    ensures r.ball.dy == Flip(PaddleFlips(b, p) + TopFlips(b.y), b.dy)
    ensures r.ball.dx == Times(Flip(SideFlips(b.x, width), b.dx), SignProduct(draw, k, PaddleFlips(b, p)))
  {
    var pb := PaddleBounce(b, p, draw, k);
    var band, top := PaddleFlips(b, p), TopFlips(b.y);
    var sf := SideFlips(b.x, width);
    var sided := SideWalls(pb.ball, width);
    assert sided.dx == Flip(sf, pb.ball.dx);
    FlipFlip(top, band, b.dy);
    assert band == 1 ==> SignProduct(draw, k, band) == draw(k);
    FlipTimes(sf, b.dx, draw(k));
    Bounce(TopWall(sided), pb.next)
  }

  datatype CollisionResult = CollisionResult(ball: BallState, paddle: PaddleState, registry: seq<Entity>,
                                             state: GameState, gameOver: bool, next: nat)

  /** Whether the ball has left the field through the bottom or the right. */
  predicate Escaped(b: BallState, width: int, height: int) {
    b.x >= width || b.y >= height
  }

  /** The brick sweep, the score update and the loss test, for the ball as
      the paddle and wall tests left it. */
  function SweepAndLoss(w: Bounce, p: PaddleState, reg: seq<Entity>, width: int, height: int,
                        state: GameState, gameOver: bool, draw: nat -> Sign): (r: CollisionResult)
    ensures r.ball.(dx := w.ball.dx, dy := w.ball.dy) == w.ball
    ensures r.registry == Survivors(reg, w.ball.x, w.ball.y)
    ensures r.paddle.x == p.x && r.paddle.y == p.y
    ensures r.paddle.score == if |r.registry| < |reg| then p.score + 1 else p.score
    ensures r.gameOver == (gameOver || Escaped(r.ball, width, height))
    ensures r.state == if Escaped(r.ball, width, height) then GameOver else state
    ensures var removed := |reg| - |r.registry|;
            && r.next == w.next + removed
            && r.ball.dy == Flip(removed, w.ball.dy)
            && r.ball.dx == Times(w.ball.dx, SignProduct(draw, w.next, removed))
  {
    var sw := Sweep(reg, w.ball.x, w.ball.y, w.ball.dx, w.ball.dy, draw, w.next);
    var ball := w.ball.(dx := sw.dx, dy := sw.dy);
    var paddle := if sw.removed > 0 then p.(score := p.score + 1) else p;
    var escaped := Escaped(ball, width, height);
    CollisionResult(ball, paddle, sw.kept, if escaped then GameOver else state, gameOver || escaped, sw.next)
  }

  /** `Ball::CheckCollision` for ball `b` against paddle `p` and registry `reg`. */
  function CheckCollision(b: BallState, p: PaddleState, reg: seq<Entity>, width: int, height: int,
                          state: GameState, gameOver: bool, draw: nat -> Sign, k: nat): (r: CollisionResult)
    ensures r.ball.x == SideWalls(b, width).x && r.ball.y == TopWall(b).y
    ensures r.ball.prevX == b.prevX && r.ball.prevY == b.prevY && r.ball.frameCount == b.frameCount
    ensures r.registry == Survivors(reg, r.ball.x, r.ball.y)
    ensures r.paddle.x == p.x && r.paddle.y == p.y
    ensures r.paddle.score == if |r.registry| < |reg| then p.score + 1 else p.score
    ensures r.gameOver == (gameOver || Escaped(r.ball, width, height))
    ensures r.state == if Escaped(r.ball, width, height) then GameOver else state
    ensures var removed := |reg| - |r.registry|;
            && r.next == k + PaddleFlips(b, p) + removed
            && r.ball.dy == Flip(PaddleFlips(b, p) + TopFlips(b.y) + removed, b.dy)
            && r.ball.dx == Times(Flip(SideFlips(b.x, width), b.dx), SignProduct(draw, k, PaddleFlips(b, p) + removed))
  {
    var band, top := PaddleFlips(b, p), TopFlips(b.y);
    var walled := PaddleAndWalls(b, p, width, draw, k);
    var r := SweepAndLoss(walled, p, reg, width, height, state, gameOver, draw);
    var removed := |reg| - |r.registry|;
    FlipFlip(removed, band + top, b.dy);
    SignProductSplit(draw, k, band, removed);
    TimesAssoc(Flip(SideFlips(b.x, width), b.dx), SignProduct(draw, k, band), SignProduct(draw, k + band, removed));
    r
  }

  /** The paddle test has no direction guard: a ball already moving up inside
      the band is turned back down. */
  lemma PaddleBandIgnoresDirection(b: BallState, p: PaddleState, draw: nat -> Sign, k: nat)
    requires InPaddleBand(b, p) && b.dy == -1
    ensures PaddleBounce(b, p, draw, k).ball.dy == 1
  {
  }

  /** A worked example: a ball at (5, 1) strikes the two bricks below it in
      its column, both are erased with one draw each, the paddle entry and
      the brick in the next column stay, and dy ends as it started. */
  lemma TwoBricksCancel(b: BallState, draw: nat -> Sign, k: nat)
    requires b.x == 5 && b.y == 1
    ensures var s := Sweep([Brick(5, 2), Paddle, Brick(5, 3), Brick(6, 3)], b.x, b.y, b.dx, b.dy, draw, k);
            s.removed == 2 && s.dy == b.dy && s.kept == [Paddle, Brick(6, 3)] && s.next == k + 2
  {
  }
}
