/*
 * The game session as the program keeps it: one object whose fields the tick,
 * the wall factory and the activate handler update in place. Each method is
 * tied to the value-level rules in GameRules.
 */
module GameSession {
  import opened GameRules

  /** Replacing the middle element of p + [a] + q. */
  lemma ReplaceAt<T>(p: seq<T>, a: T, b: T, q: seq<T>)
    ensures |p + [a] + q| > |p|
    ensures (p + [a] + q)[|p| := b] == p + [b] + q
  {
  }

  /** Splicing out the middle element of p + [a] + q. */
  lemma RemoveAt<T>(p: seq<T>, a: T, q: seq<T>)
    ensures (p + [a] + q)[..|p|] + (p + [a] + q)[|p| + 1..] == p + q
  {
    assert (p + [a] + q)[..|p|] == p;
    assert (p + [a] + q)[|p| + 1..] == q;
  }

  /** Writing back or splicing out the wall at |before|. */
  lemma SpliceStep(before: seq<Wall>, a: Wall, kept: seq<Wall>, w: Wall, walls': seq<Wall>)
    requires RightEdge(w) < 0.0 ==> walls' == (before + [a] + kept)[..|before|] + (before + [a] + kept)[|before| + 1..]
    requires RightEdge(w) >= 0.0 ==> walls' == (before + [a] + kept)[|before| := w]
    ensures walls' == before + ((if RightEdge(w) < 0.0 then [] else [w]) + kept)
  {
    if RightEdge(w) < 0.0 {
      RemoveAt(before, a, kept);
    } else {
      ReplaceAt(before, a, w, kept);
    }
  }

  /**
   * One round of the reverse wall pass, on values: handling wall i after the
   * walls right of it extends the pass from ws[i + 1..] to ws[i..].
   */
  lemma PassLoopStep(b0: Bird, ws: seq<Wall>, dx: real, i: nat, score0: nat,
                     bird: Bird, walls: seq<Wall>, score: nat,
                     bird': Bird, w': Wall, walls': seq<Wall>, score': int)
    requires i < |ws|
    requires bird == Sweep(b0, ws[i + 1..], dx).bird
    requires walls == ws[..i + 1] + OnScreen(Sweep(b0, ws[i + 1..], dx).ticked)
    requires score == score0 + Flips(ws[i + 1..], Sweep(b0, ws[i + 1..], dx).ticked)
    requires (bird', w') == TickWall(bird, ws[i], dx)
    requires RightEdge(w') < 0.0 ==> walls' == walls[..i] + walls[i + 1..]
    requires RightEdge(w') >= 0.0 ==> walls' == walls[i := w']
    requires score' == score + (if !ws[i].passed && w'.passed then 1 else 0)
    ensures bird' == Sweep(b0, ws[i..], dx).bird
    ensures walls' == ws[..i] + OnScreen(Sweep(b0, ws[i..], dx).ticked)
    ensures score' == score0 + Flips(ws[i..], Sweep(b0, ws[i..], dx).ticked)
  {
    var kept := OnScreen(Sweep(b0, ws[i + 1..], dx).ticked);
    PassStep(b0, ws, i, dx);
    assert ws[..i + 1] == ws[..i] + [ws[i]];
    assert walls == ws[..i] + [ws[i]] + kept;
    SpliceStep(ws[..i], ws[i], kept, w', walls');
  }

  /**
   * The tick's loop over the walls, last to first: scroll each wall left by
   * dx, reset the player's x on a collision, score a wall whose right edge is
   * behind the player, and splice out a wall that has left the screen. The
   * result is the player, walls and score of the reverse pass Sweep.
   */
  method WallPass(b0: Bird, ws0: seq<Wall>, score0: nat, dx: real) returns (b: Bird, ws: seq<Wall>, sc: nat)
    ensures b == Sweep(b0, ws0, dx).bird
    ensures ws == OnScreen(Sweep(b0, ws0, dx).ticked)
    ensures sc == score0 + Flips(ws0, Sweep(b0, ws0, dx).ticked)
  {
    b, ws, sc := b0, ws0, score0;
    var i := |ws| - 1;
    ghost var done: seq<Wall> := [];
    while i >= 0
      invariant -1 <= i < |ws0| && done == ws0[i + 1..]
      invariant b == Sweep(b0, done, dx).bird
      invariant ws == ws0[..i + 1] + OnScreen(Sweep(b0, done, dx).ticked)
      invariant sc == score0 + Flips(done, Sweep(b0, done, dx).ticked)
      decreases i + 1
    {
      ghost var b', ws', sc' := b, ws, sc;
      assert ws[i] == ws0[i];
      var wall := ws[i];
      wall := wall.(x := wall.x - dx);
      assert wall == Scrolled(ws0[i], dx);
      if CheckCollision(b, wall) {
        b := b.(x := ResetX);
      }
      if !wall.passed && wall.x + wall.width < b.x {
        wall := wall.(passed := true);
        sc := sc + 1;
      }
      if wall.x + wall.width < 0.0 {
        ws := ws[..i] + ws[i + 1..];
      } else {
        ws := ws[i := wall];
      }
      PassLoopStep(b0, ws0, dx, i, score0, b', ws', sc', b, wall, ws, sc);
      done := ws0[i..];
      i := i - 1;
    }
    assert ws0[0..] == ws0;
  }

  class Session {
    var bird: Bird
    var walls: seq<Wall>
    var score: nat
    var gameOver: bool
    var canvasWidth: real
    var canvasHeight: real

    /** The session's state as a value. */
    function State(): Snapshot
      reads this
    {
      Snapshot(bird, walls, score, gameOver, canvasWidth, canvasHeight)
    }

    ghost predicate Valid()
      reads this
    {
      Inv(State())
    }

    /**
     * The session at start-up, after the field has been sized: the player's
     * size, position and physics constants are fractions of the field.
     */
    constructor (width: real, height: real)
      requires width > 0.0 && height > 0.0
      ensures Valid()
      ensures bird == Bird(width * 0.125, height * 0.5, width * 0.0375, 0.0, height * 0.0008, -height * 0.015)
      ensures walls == [] && score == 0 && !gameOver
      ensures canvasWidth == width && canvasHeight == height
    {
      canvasWidth := width;
      canvasHeight := height;
      bird := Bird(width * 0.125, height * 0.5, width * 0.0375, 0.0, height * 0.0008, -height * 0.015);
      walls := [];
      score := 0;
      gameOver := false;
    }

    /** Appends one wall for the random draw r; nothing else changes. */
    method CreateWall(r: real)
      requires 0.0 <= r < 1.0 && canvasHeight > 0.0
      modifies this
      ensures canvasWidth == old(canvasWidth) && canvasHeight == old(canvasHeight)
      ensures walls == old(walls) + [NewWall(canvasWidth, canvasHeight, r)]
      ensures bird == old(bird) && score == old(score) && gameOver == old(gameOver)
    {
      var gap := canvasHeight * GapFraction;
      var wallWidth := canvasWidth * WallWidthFraction;
      var minHeight := canvasHeight * MinHeightFraction;
      var maxHeight := canvasHeight - gap - minHeight;
      var topHeight := r * (maxHeight - minHeight) + minHeight;
      walls := walls + [Wall(canvasWidth, topHeight, topHeight + gap, wallWidth, false)];
    }

    /**
     * One tick, with r the random draw a spawned wall would use. The new state
     * is Step of the old one, so every lemma about Step applies to it, and the
     * session invariant is kept (by StepInv).
     */
    method Update(r: real)
      requires canvasHeight > 0.0 && 0.0 <= r < 1.0
      modifies this
      ensures State() == Step(old(State()), r)
      ensures old(Valid()) ==> Valid()
    {
      ghost var g0 := State();
      if gameOver {
        StepFrozen(g0, r);
      } else {
        bird := bird.(speed := bird.speed + bird.gravity);
        bird := bird.(y := bird.y + bird.speed);

        if bird.y + bird.radius > canvasHeight || bird.y - bird.radius < 0.0 {
          gameOver := true;
          StepFatal(g0, r);
        } else {
          assert bird == Fall(g0.bird) && walls == g0.walls && score == g0.score;
          var dx := canvasWidth * ScrollFraction;
          var b, ws, sc := WallPass(bird, walls, score, dx);
          bird, walls, score := b, ws, sc;
          assert canvasWidth == g0.width && canvasHeight == g0.height && !gameOver;

          if |walls| == 0 || walls[|walls| - 1].x < canvasWidth - canvasWidth * SpacingFraction {
            CreateWall(r);
            assert SpawnDue(ws, g0.width) && walls == ws + [NewWall(g0.width, g0.height, r)];
          } else {
            assert !SpawnDue(ws, g0.width) && walls == ws;
          }
          StepPlaying(g0, r, dx, b, ws, sc, walls);
        }
      }
      StepKeepsInv(g0, r, State());
    }

    /**
     * The activate signal: jump while playing, restart when the game is over.
     * The session invariant is kept (by ActivateInv).
     */
    method Jump()
      modifies this
      ensures State() == Activate(old(State()))
      ensures old(Valid()) ==> Valid()
    {
      ghost var g0 := State();
      if !gameOver {
        bird := bird.(speed := bird.jump);
      } else {
        bird := bird.(y := RestartY);
        bird := bird.(speed := 0.0);
        walls := [];
        score := 0;
        gameOver := false;
      }
      if Inv(g0) {
        ActivateInv(g0);
      }
    }
  }
}
