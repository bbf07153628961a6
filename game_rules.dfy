/*
 * The rules of the pink-pig game as values: the player body, the wall pairs,
 * the per-tick update and the activate signal, written as functions over one
 * snapshot of the session, with the properties the game relies on.
 */
module GameRules {

  /** Horizontal scroll per tick, as a fraction of the field width. */
  const ScrollFraction: real := 0.003
  /** Vertical gap between the two segments of a wall, as a fraction of the field height. */
  const GapFraction: real := 0.4
  /** Width of a wall, as a fraction of the field width. */
  const WallWidthFraction: real := 0.075
  /** Shortest top segment, as a fraction of the field height. */
  const MinHeightFraction: real := 0.1
  /** A new wall is spawned once the last one is this fraction of the width away from the right edge. */
  const SpacingFraction: real := 0.4
  /** The x the player is put back to after hitting a wall: a literal, not the start x. */
  const ResetX: real := 50.0
  /** The y the player restarts at: a literal, not the start y. */
  const RestartY: real := 200.0

  /** The player body ("bird"): a circle that falls under gravity. */
  datatype Bird = Bird(x: real, y: real, radius: real, speed: real, gravity: real, jump: real)

  /** A wall pair: the top segment ends at topHeight, the bottom one starts at bottomY. */
  datatype Wall = Wall(x: real, topHeight: real, bottomY: real, width: real, passed: bool)

  /** Everything the simulation owns, together with the field size. */
  datatype Snapshot = Snapshot(
    bird: Bird, walls: seq<Wall>, score: nat, gameOver: bool, width: real, height: real)

  /** The open intervals (lo1, hi1) and (lo2, hi2) intersect. */
  predicate OpenOverlap(lo1: real, hi1: real, lo2: real, hi2: real) {
    hi1 > lo2 && lo1 < hi2
  }

  /** The interval [lo1, hi1] lies inside [lo2, hi2]. */
  predicate Within(lo1: real, hi1: real, lo2: real, hi2: real) {
    lo2 <= lo1 && hi1 <= hi2
  }

  function RightEdge(w: Wall): real {
    w.x + w.width
  }

  // ---------------------------------------------------------------------------
  // Collision

  /**
   * The player's bounding box hits a wall pair when it overlaps the wall's
   * columns and does not fit vertically inside the gap.
   */
  function CheckCollision(b: Bird, w: Wall): (hit: bool)
    ensures hit <==>
      OpenOverlap(b.x - b.radius, b.x + b.radius, w.x, w.x + w.width) &&
      !Within(b.y - b.radius, b.y + b.radius, w.topHeight, w.bottomY)
  {
    if b.x + b.radius > w.x && b.x - b.radius < w.x + w.width then
      b.y - b.radius < w.topHeight || b.y + b.radius > w.bottomY
    else
      false
  }

  /** Without horizontal overlap there is no collision, wherever the player is vertically. */
  lemma NoOverlapNoCollision(b: Bird, w: Wall, y: real)
    requires !OpenOverlap(b.x - b.radius, b.x + b.radius, w.x, w.x + w.width)
    ensures !CheckCollision(b, w) && !CheckCollision(b.(y := y), w)
  {
  }

  /** A player whose box fits inside the gap never collides with that wall. */
  lemma InsideGapNoCollision(b: Bird, w: Wall)
    requires w.topHeight <= b.y - b.radius && b.y + b.radius <= w.bottomY
    ensures !CheckCollision(b, w)
  {
  }

  // ---------------------------------------------------------------------------
  // Wall creation

  /** A draw below 1 scales a positive length to something shorter. */
  lemma ScaleBelow(r: real, c: real)
    requires 0.0 <= r < 1.0 && c > 0.0
    ensures 0.0 <= r * c < c
  {
    assert (1.0 - r) * c > 0.0;
  }

  /**
   * The wall createWall appends for the random draw r: it starts at the right
   * edge, unpassed, with the fixed width and gap, and its top height is r
   * scaled into [minHeight, maxHeight).
   */
  function NewWall(width: real, height: real, r: real): (w: Wall)
    requires 0.0 <= r < 1.0 && height > 0.0
    ensures w.x == width && !w.passed && w.width == width * WallWidthFraction
    ensures w.bottomY - w.topHeight == height * GapFraction
    ensures w.topHeight == height * MinHeightFraction + r * (height * GapFraction)
    ensures height * MinHeightFraction <= w.topHeight
    ensures w.topHeight < height - height * GapFraction - height * MinHeightFraction
    ensures 0.0 <= w.topHeight && w.bottomY <= height
  {
    var gap := height * GapFraction;
    var minHeight := height * MinHeightFraction;
    var maxHeight := height - gap - minHeight;
    ScaleBelow(r, maxHeight - minHeight);
    var topHeight := r * (maxHeight - minHeight) + minHeight;
    Wall(width, topHeight, topHeight + gap, width * WallWidthFraction, false)
  }

  // ---------------------------------------------------------------------------
  // The wall pass of one tick

  /** Wall w after one tick of scrolling by dx. */
  function Scrolled(w: Wall, dx: real): Wall {
    w.(x := w.x - dx)
  }

  /**
   * One iteration of the reverse pass on one wall: scroll it, reset the
   * player's x on a collision, then mark it passed once its right edge is
   * behind the (possibly reset) player.
   */
  function TickWall(b: Bird, w: Wall, dx: real): (t: (Bird, Wall))
    ensures t.1 == Scrolled(w, dx).(passed := t.1.passed)
    ensures CheckCollision(b, Scrolled(w, dx)) ==> t.0 == b.(x := ResetX)
    ensures !CheckCollision(b, Scrolled(w, dx)) ==> t.0 == b
    ensures t.1.passed <==> w.passed || RightEdge(t.1) < t.0.x
  {
    var moved := Scrolled(w, dx);
    var b' := if CheckCollision(b, moved) then b.(x := ResetX) else b;
    var w' := if !moved.passed && RightEdge(moved) < b'.x then moved.(passed := true) else moved;
    (b', w')
  }

  datatype SweepResult = SweepResult(bird: Bird, ticked: seq<Wall>)

  /**
   * The reverse pass over s: the later walls s[1..] are handled first, then
   * s[0] with the player they leave behind. The result holds the player and
   * every wall after scrolling and scoring, before any is removed.
   */
  function Sweep(b: Bird, s: seq<Wall>, dx: real): (r: SweepResult)
    ensures |r.ticked| == |s|
    ensures r.bird == b.(x := r.bird.x)
    ensures r.bird.x == b.x || r.bird.x == ResetX
    decreases |s|
  {
    if s == [] then
      SweepResult(b, [])
    else
      var rest := Sweep(b, s[1..], dx);
      var t := TickWall(rest.bird, s[0], dx);
      SweepResult(t.0, [t.1] + rest.ticked)
  }

  /** The walls still on screen, in order: those whose right edge is not left of 0. */
  function OnScreen(t: seq<Wall>): (r: seq<Wall>)
    ensures |r| <= |t|
    ensures forall w <- r :: w in t && RightEdge(w) >= 0.0
  {
    if t == [] then []
    else (if RightEdge(t[0]) < 0.0 then [] else [t[0]]) + OnScreen(t[1..])
  }

  /** How many walls went from unpassed in before to passed in after. */
  function Flips(before: seq<Wall>, after: seq<Wall>): (f: nat)
    requires |before| == |after|
    ensures f <= Unpassed(before)
  {
    if before == [] then 0
    else (if !before[0].passed && after[0].passed then 1 else 0) + Flips(before[1..], after[1..])
  }

  /** How many walls of s are not yet passed. */
  function Unpassed(s: seq<Wall>): nat {
    if s == [] then 0 else (if s[0].passed then 0 else 1) + Unpassed(s[1..])
  }

  /**
   * Every wall of the pass has moved left by exactly dx and kept its shape;
   * the passed flag may only go from false to true.
   */
  lemma {:induction false} SweepMovesEachWall(b: Bird, s: seq<Wall>, dx: real)
    ensures forall k :: 0 <= k < |s| ==>
      Sweep(b, s, dx).ticked[k] == s[k].(x := s[k].x - dx, passed := Sweep(b, s, dx).ticked[k].passed)
    ensures forall k :: 0 <= k < |s| ==> s[k].passed ==> Sweep(b, s, dx).ticked[k].passed
    decreases |s|
  {
    if s != [] {
      SweepMovesEachWall(b, s[1..], dx);
      var rest := Sweep(b, s[1..], dx);
      var r := Sweep(b, s, dx);
      assert r.ticked == [TickWall(rest.bird, s[0], dx).1] + rest.ticked;
      forall k | 1 <= k < |s|
        ensures r.ticked[k] == rest.ticked[k - 1] && s[k] == s[1..][k - 1]
      {
      }
    }
  }

  /** Some wall of s, once scrolled by dx, collides with the player b. */
  predicate HitsAny(b: Bird, s: seq<Wall>, dx: real) {
    exists k :: 0 <= k < |s| && CheckCollision(b, Scrolled(s[k], dx))
  }

  /** A nonempty s is hit when its first wall is hit or the rest of it is. */
  lemma HitsAnyCons(b: Bird, s: seq<Wall>, dx: real)
    requires s != []
    ensures HitsAny(b, s, dx) <==> CheckCollision(b, Scrolled(s[0], dx)) || HitsAny(b, s[1..], dx)
  {
    if HitsAny(b, s[1..], dx) {
      var k :| 0 <= k < |s| - 1 && CheckCollision(b, Scrolled(s[1..][k], dx));
      assert s[1..][k] == s[k + 1];
    }
    if HitsAny(b, s, dx) && !CheckCollision(b, Scrolled(s[0], dx)) {
      var k :| 0 <= k < |s| && CheckCollision(b, Scrolled(s[k], dx));
      assert s[1..][k - 1] == s[k];
    }
  }

  /**
   * The bounce of a pass: the player ends at the reset x exactly when some
   * scrolled wall collides with the player it was given, and is untouched
   * otherwise. A reset player stays reset, whatever the earlier walls do.
   */
  lemma {:induction false} SweepBounce(b: Bird, s: seq<Wall>, dx: real)
    ensures Sweep(b, s, dx).bird == if HitsAny(b, s, dx) then b.(x := ResetX) else b
    ensures forall k :: 0 <= k < |s| && CheckCollision(b, Scrolled(s[k], dx)) ==>
      Sweep(b, s, dx).bird.x == ResetX
    decreases |s|
  {
    if s != [] {
      SweepBounce(b, s[1..], dx);
      HitsAnyCons(b, s, dx);
    }
  }

  /**
   * Scoring during a pass: wall k is scored against the player the walls
   * s[k..] leave behind. An unpassed wall becomes passed exactly when its
   * scrolled right edge is behind the reset x if one of s[k..] collides with
   * the player, and behind the player's own x otherwise.
   */
  lemma {:induction false} SweepScoring(b: Bird, s: seq<Wall>, dx: real, k: nat)
    requires k < |s|
    ensures var x := if HitsAny(b, s[k..], dx) then ResetX else b.x;
      Sweep(b, s, dx).ticked[k].passed <==> s[k].passed || RightEdge(Scrolled(s[k], dx)) < x
    decreases |s|
  {
    var rest := Sweep(b, s[1..], dx);
    if k == 0 {
      assert s[0..] == s;
      SweepBounce(b, s, dx);
      assert Sweep(b, s, dx).ticked[0] == TickWall(rest.bird, s[0], dx).1;
    } else {
      assert s[1..][k - 1] == s[k] && s[1..][k - 1..] == s[k..];
      SweepScoring(b, s[1..], dx, k - 1);
      assert Sweep(b, s, dx).ticked[k] == rest.ticked[k - 1];
    }
  }

  /**
   * A pass in which no wall collides: the player is unchanged, and a wall is
   * passed afterwards exactly when it was already or its scrolled right edge
   * is behind the player.
   */
  lemma SweepNoHit(b: Bird, s: seq<Wall>, dx: real)
    requires forall k :: 0 <= k < |s| ==> !CheckCollision(b, Scrolled(s[k], dx))
    ensures Sweep(b, s, dx).bird == b
    ensures forall k :: 0 <= k < |s| ==>
      (Sweep(b, s, dx).ticked[k].passed <==> s[k].passed || RightEdge(Scrolled(s[k], dx)) < b.x)
  {
    SweepBounce(b, s, dx);
    forall k | 0 <= k < |s|
      ensures Sweep(b, s, dx).ticked[k].passed <==> s[k].passed || RightEdge(Scrolled(s[k], dx)) < b.x
    {
      SweepScoring(b, s, dx, k);
      forall j | 0 <= j < |s| - k ensures !CheckCollision(b, Scrolled(s[k..][j], dx)) {
        assert s[k..][j] == s[k + j];
      }
    }
  }

  /**
   * The walls a pass scores, counted wall by wall with the rule of
   * SweepScoring instead of by running the pass.
   */
  function Due(b: Bird, s: seq<Wall>, dx: real): nat {
    if s == [] then 0
    else
      var x := if HitsAny(b, s, dx) then ResetX else b.x;
      (if !s[0].passed && RightEdge(Scrolled(s[0], dx)) < x then 1 else 0) + Due(b, s[1..], dx)
  }

  /** The flips of a pass are exactly the walls due to be scored. */
  lemma {:induction false} SweepFlipsDue(b: Bird, s: seq<Wall>, dx: real)
    ensures Flips(s, Sweep(b, s, dx).ticked) == Due(b, s, dx)
    decreases |s|
  {
    if s != [] {
      var rest := Sweep(b, s[1..], dx);
      assert Sweep(b, s, dx).ticked[1..] == rest.ticked;
      assert s[0..] == s;
      SweepScoring(b, s, dx, 0);
      SweepFlipsDue(b, s[1..], dx);
    }
  }

  /**
   * One more iteration of the reverse pass: handling wall i after the walls
   * right of it extends the pass over s[i + 1..] to the pass over s[i..].
   */
  lemma PassStep(b: Bird, s: seq<Wall>, i: nat, dx: real)
    requires i < |s|
    ensures var rest := Sweep(b, s[i + 1..], dx);
      var t := TickWall(rest.bird, s[i], dx);
      var r := Sweep(b, s[i..], dx);
      r.bird == t.0 &&
      OnScreen(r.ticked) == (if RightEdge(t.1) < 0.0 then [] else [t.1]) + OnScreen(rest.ticked) &&
      Flips(s[i..], r.ticked) ==
        (if !s[i].passed && t.1.passed then 1 else 0) + Flips(s[i + 1..], rest.ticked)
  {
    var rest := Sweep(b, s[i + 1..], dx);
    var t := TickWall(rest.bird, s[i], dx);
    assert s[i..][1..] == s[i + 1..] && s[i..][0] == s[i];
    var r := Sweep(b, s[i..], dx);
    assert r.ticked == [t.1] + rest.ticked;
    assert r.ticked[1..] == rest.ticked && r.ticked[0] == t.1;
  }

  /**
   * Scoring is exactly once per wall: when flags never revert, the walls that
   * flip plus those still unpassed are the walls that were unpassed before.
   */
  lemma {:induction false} FlipsConserveUnpassed(before: seq<Wall>, after: seq<Wall>)
    requires |before| == |after|
    requires forall k :: 0 <= k < |before| ==> before[k].passed ==> after[k].passed
    ensures Flips(before, after) + Unpassed(after) == Unpassed(before)
    decreases |before|
  {
    if before != [] {
      forall k | 0 <= k < |before| - 1 ensures before[1..][k].passed ==> after[1..][k].passed {
        assert before[1..][k] == before[k + 1] && after[1..][k] == after[k + 1];
      }
      FlipsConserveUnpassed(before[1..], after[1..]);
    }
  }

  /** Every wall that is on screen in t is kept by OnScreen. */
  lemma {:induction false} OnScreenKeeps(t: seq<Wall>, w: Wall)
    requires w in t && RightEdge(w) >= 0.0
    ensures w in OnScreen(t)
    decreases |t|
  {
    if t[0] != w {
      assert w in t[1..];
      OnScreenKeeps(t[1..], w);
    }
  }

  /**
   * Removal keeps every copy of an on-screen wall and no copy of an
   * off-screen one: each wall occurs in OnScreen(t) as often as in t if its
   * right edge is not left of 0, and not at all otherwise.
   */
  lemma {:induction false} OnScreenCounts(t: seq<Wall>, w: Wall)
    ensures multiset(OnScreen(t))[w] == if RightEdge(w) >= 0.0 then multiset(t)[w] else 0
    decreases |t|
  {
    if t != [] {
      assert t == [t[0]] + t[1..];
      assert multiset(t) == multiset([t[0]]) + multiset(t[1..]);
      OnScreenCounts(t[1..], w);
    }
  }

  /** ix lists strictly increasing positions of t holding r, in order. */
  predicate Positions(t: seq<Wall>, r: seq<Wall>, ix: seq<nat>) {
    |ix| == |r| &&
    (forall i :: 0 <= i < |ix| ==> ix[i] < |t| && t[ix[i]] == r[i]) &&
    (forall i, j :: 0 <= i < j < |ix| ==> ix[i] < ix[j])
  }

  /** Positions in t[1..] are positions in t, one further right. */
  lemma ShiftPositions(t: seq<Wall>, r: seq<Wall>, ix: seq<nat>) returns (ix': seq<nat>)
    requires t != [] && Positions(t[1..], r, ix)
    ensures Positions(t, r, ix') && forall i :: 0 <= i < |ix'| ==> ix'[i] > 0
  {
    ix' := seq(|ix|, k requires 0 <= k < |ix| => ix[k] + 1);
    forall k | 0 <= k < |ix| ensures t[ix'[k]] == r[k] {
      assert t[ix[k] + 1] == t[1..][ix[k]];
    }
  }

  /** Positions right of 0 extend to the head of t kept in front. */
  lemma KeepHead(t: seq<Wall>, r: seq<Wall>, ix: seq<nat>) returns (ix': seq<nat>)
    requires t != [] && Positions(t, r, ix) && forall i :: 0 <= i < |ix| ==> ix[i] > 0
    ensures Positions(t, [t[0]] + r, ix')
  {
    ix' := [0] + ix;
    var r' := [t[0]] + r;
    forall i | 0 < i < |ix'| ensures ix'[i] < |t| && t[ix'[i]] == r'[i] {
      assert ix'[i] == ix[i - 1] && r'[i] == r[i - 1];
    }
    forall i, j | 0 <= i < j < |ix'| ensures ix'[i] < ix'[j] {
      assert ix'[j] == ix[j - 1];
      if i > 0 {
        assert ix'[i] == ix[i - 1];
      }
    }
  }

  /**
   * Removal keeps the order: the survivors are the walls of t at strictly
   * increasing positions.
   */
  lemma {:induction false} OnScreenInOrder(t: seq<Wall>) returns (ix: seq<nat>)
    ensures Positions(t, OnScreen(t), ix)
    decreases |t|
  {
    if t == [] {
      return [];
    }
    var rest := OnScreenInOrder(t[1..]);
    var shifted := ShiftPositions(t, OnScreen(t[1..]), rest);
    if RightEdge(t[0]) < 0.0 {
      assert OnScreen(t) == OnScreen(t[1..]);
      ix := shifted;
    } else {
      assert OnScreen(t) == [t[0]] + OnScreen(t[1..]);
      ix := KeepHead(t, OnScreen(t[1..]), shifted);
    }
  }

  /** Walls spaced more than gap apart stay so after removal. */
  predicate Spaced(ws: seq<Wall>, gap: real) {
    forall i, j :: 0 <= i < j < |ws| ==> ws[j].x - ws[i].x > gap
  }

  lemma {:induction false} OnScreenSpaced(t: seq<Wall>, gap: real)
    requires Spaced(t, gap)
    ensures Spaced(OnScreen(t), gap)
    decreases |t|
  {
    if t != [] {
      var tail := t[1..];
      assert Spaced(tail, gap) by {
        forall i, j | 0 <= i < j < |tail| ensures tail[j].x - tail[i].x > gap {
          assert tail[i] == t[i + 1] && tail[j] == t[j + 1];
        }
      }
      OnScreenSpaced(tail, gap);
      var rest := OnScreen(tail);
      if RightEdge(t[0]) >= 0.0 {
        var r := OnScreen(t);
        assert r == [t[0]] + rest;
        forall i, j | 0 <= i < j < |r| ensures r[j].x - r[i].x > gap {
          if i == 0 {
            assert r[j] == rest[j - 1] && r[j] in tail;
            var m :| 0 <= m < |tail| && tail[m] == r[j];
            assert tail[m] == t[m + 1];
          } else {
            assert r[i] == rest[i - 1] && r[j] == rest[j - 1];
          }
        }
      }
    }
  }

  // ---------------------------------------------------------------------------
  // One tick

  /** The semi-implicit Euler step: speed first, then position with the new speed. */
  function Fall(b: Bird): (b': Bird)
    ensures b' == b.(speed := b'.speed, y := b'.y)
    ensures b'.speed - b.speed == b.gravity && b'.y - b.y == b'.speed
  {
    var speed := b.speed + b.gravity;
    b.(speed := speed, y := b.y + speed)
  }

  /** The player's box leaves the field at the top or the bottom. */
  predicate OutOfBounds(b: Bird, height: real) {
    b.y + b.radius > height || b.y - b.radius < 0.0
  }

  /** A new wall is due when there is none or the last one is far enough from the right edge. */
  predicate SpawnDue(ws: seq<Wall>, width: real) {
    |ws| == 0 || ws[|ws| - 1].x < width - width * SpacingFraction
  }

  /** The spawn rule at the end of a tick: append a new wall when one is due. */
  function Spawn(ws: seq<Wall>, width: real, height: real, r: real): (ws': seq<Wall>)
    requires 0.0 <= r < 1.0 && height > 0.0
    ensures |ws'| == |ws| + (if SpawnDue(ws, width) then 1 else 0)
    ensures ws'[..|ws|] == ws
    ensures SpawnDue(ws, width) ==> ws'[|ws|] == NewWall(width, height, r)
  {
    if SpawnDue(ws, width) then ws + [NewWall(width, height, r)] else ws
  }

  /**
   * One tick of the simulation for the random draw r: frozen on game over;
   * otherwise fall, end the game when the player leaves the field, else run
   * the wall pass, drop walls that left the screen and spawn when due.
   */
  function Step(g: Snapshot, r: real): (g': Snapshot)
    requires 0.0 <= r < 1.0 && g.height > 0.0
    ensures g'.width == g.width && g'.height == g.height
    ensures g'.gameOver <==> g.gameOver || OutOfBounds(Fall(g.bird), g.height)
    ensures g'.score >= g.score
    ensures g'.bird.radius == g.bird.radius && g'.bird.gravity == g.bird.gravity
    ensures g'.bird.jump == g.bird.jump
  {
    if g.gameOver then
      g
    else
      var b := Fall(g.bird);
      if OutOfBounds(b, g.height) then
        g.(bird := b, gameOver := true)
      else
        var pass := Sweep(b, g.walls, g.width * ScrollFraction);
        var walls := Spawn(OnScreen(pass.ticked), g.width, g.height, r);
        g.(bird := pass.bird, walls := walls, score := g.score + Flips(g.walls, pass.ticked))
  }

  /** Game over freezes the simulation. */
  lemma StepFrozen(g: Snapshot, r: real)
    requires 0.0 <= r < 1.0 && g.height > 0.0 && g.gameOver
    ensures Step(g, r) == g
  {
  }

  /** Leaving the field ends the game; the fall is kept, walls and score are untouched. */
  lemma StepFatal(g: Snapshot, r: real)
    requires 0.0 <= r < 1.0 && g.height > 0.0 && !g.gameOver
    requires OutOfBounds(Fall(g.bird), g.height)
    ensures Step(g, r) == g.(bird := Fall(g.bird), gameOver := true)
  {
  }

  /**
   * A tick that stays in the field: the game goes on, the player has fallen,
   * and a collision only ever moves the player's x, to the reset x.
   */
  lemma StepCollisionNonFatal(g: Snapshot, r: real)
    requires 0.0 <= r < 1.0 && g.height > 0.0 && !g.gameOver
    requires !OutOfBounds(Fall(g.bird), g.height)
    ensures var g' := Step(g, r);
      !g'.gameOver &&
      g'.bird == if HitsAny(Fall(g.bird), g.walls, g.width * ScrollFraction)
        then Fall(g.bird).(x := ResetX) else Fall(g.bird)
  {
    SweepBounce(Fall(g.bird), g.walls, g.width * ScrollFraction);
  }

  /**
   * In a tick that stays in the field, the score rises by the number of walls
   * that became passed, and score plus unpassed walls is conserved.
   */
  lemma StepScore(g: Snapshot, r: real)
    requires 0.0 <= r < 1.0 && g.height > 0.0 && !g.gameOver
    requires !OutOfBounds(Fall(g.bird), g.height)
    ensures var t := Sweep(Fall(g.bird), g.walls, g.width * ScrollFraction).ticked;
      Step(g, r).score + Unpassed(t) == g.score + Unpassed(g.walls) &&
      Step(g, r).score <= g.score + Unpassed(g.walls)
    ensures Step(g, r).score == g.score + Due(Fall(g.bird), g.walls, g.width * ScrollFraction)
  {
    SweepFlipsDue(Fall(g.bird), g.walls, g.width * ScrollFraction);
    var t := Sweep(Fall(g.bird), g.walls, g.width * ScrollFraction).ticked;
    SweepMovesEachWall(Fall(g.bird), g.walls, g.width * ScrollFraction);
    FlipsConserveUnpassed(g.walls, t);
  }

  /**
   * The survivors of the pass are walls of s at strictly increasing positions
   * ix, in the same order: each is the ticked wall at its position, moved
   * left by dx, and a wall that was passed stays passed.
   */
  lemma SurvivorsMoved(b: Bird, s: seq<Wall>, dx: real) returns (ix: seq<nat>)
    ensures var survivors := OnScreen(Sweep(b, s, dx).ticked);
      |ix| == |survivors| &&
      (forall i, j :: 0 <= i < j < |ix| ==> ix[i] < ix[j]) &&
      forall i :: 0 <= i < |ix| ==>
        ix[i] < |s| && survivors[i] == Sweep(b, s, dx).ticked[ix[i]] &&
        survivors[i] == s[ix[i]].(x := s[ix[i]].x - dx, passed := survivors[i].passed) &&
        (s[ix[i]].passed ==> survivors[i].passed)
  {
    var t := Sweep(b, s, dx).ticked;
    SweepMovesEachWall(b, s, dx);
    ix := OnScreenInOrder(t);
  }

  /**
   * The walls after a tick that stays in the field: the survivors of the pass
   * in order, then one new wall exactly when one is due; none is off screen.
   */
  lemma StepWalls(g: Snapshot, r: real)
    requires 0.0 <= r < 1.0 && g.height > 0.0 && g.width > 0.0 && !g.gameOver
    requires !OutOfBounds(Fall(g.bird), g.height)
    ensures var survivors := OnScreen(Sweep(Fall(g.bird), g.walls, g.width * ScrollFraction).ticked);
      var ws := Step(g, r).walls;
      (forall w <- ws :: RightEdge(w) >= 0.0) &&
      (SpawnDue(survivors, g.width) ==> ws == survivors + [NewWall(g.width, g.height, r)]) &&
      (!SpawnDue(survivors, g.width) ==> ws == survivors)
  {
    var survivors := OnScreen(Sweep(Fall(g.bird), g.walls, g.width * ScrollFraction).ticked);
    var ws := Spawn(survivors, g.width, g.height, r);
    forall w <- ws ensures RightEdge(w) >= 0.0 {
      if !(w in survivors) {
        assert w == NewWall(g.width, g.height, r);
      }
    }
  }

  // ---------------------------------------------------------------------------
  // The session invariant

  /** A wall as createWall shapes it for a field of the given size. */
  predicate Shaped(w: Wall, width: real, height: real) {
    w.width == width * WallWidthFraction &&
    w.bottomY == w.topHeight + height * GapFraction &&
    height * MinHeightFraction <= w.topHeight < height - height * GapFraction - height * MinHeightFraction
  }

  /** Every wall of ws is shaped by createWall and not right of the field. */
  predicate AllShaped(ws: seq<Wall>, width: real, height: real) {
    forall w <- ws :: Shaped(w, width, height) && w.x <= width
  }

  /**
   * What every reachable session satisfies: a positive field; every wall
   * shaped by createWall, not right of the field and not yet off screen; walls
   * ordered left to right and more than the spawn spacing apart.
   */
  predicate Inv(g: Snapshot) {
    g.width > 0.0 && g.height > 0.0 &&
    AllShaped(g.walls, g.width, g.height) &&
    (forall w <- g.walls :: RightEdge(w) >= 0.0) &&
    Spaced(g.walls, g.width * SpacingFraction)
  }

  /** Every wall lies within the field vertically. */
  lemma InvWallsInField(g: Snapshot, w: Wall)
    requires Inv(g) && w in g.walls
    ensures 0.0 <= w.topHeight < w.bottomY <= g.height
  {
  }

  /** Scrolling left by a non-negative step keeps the walls' shape and spacing. */
  lemma SweepKeepsShape(b: Bird, s: seq<Wall>, dx: real, width: real, height: real, gap: real)
    requires dx >= 0.0 && AllShaped(s, width, height) && Spaced(s, gap)
    ensures AllShaped(Sweep(b, s, dx).ticked, width, height)
    ensures Spaced(Sweep(b, s, dx).ticked, gap)
  {
    var t := Sweep(b, s, dx).ticked;
    SweepMovesEachWall(b, s, dx);
    forall i, j | 0 <= i < j < |t| ensures t[j].x - t[i].x > gap {
      assert t[i].x == s[i].x - dx && t[j].x == s[j].x - dx;
    }
    forall w <- t ensures Shaped(w, width, height) && w.x <= width {
      var k :| 0 <= k < |t| && t[k] == w;
      assert s[k] in s;
    }
  }

  /** Appending at the right edge when a wall is due keeps the spacing. */
  lemma SpawnKeepsSpacing(ws: seq<Wall>, w: Wall, width: real)
    requires width > 0.0 && Spaced(ws, width * SpacingFraction)
    requires SpawnDue(ws, width) && w.x == width
    ensures Spaced(ws + [w], width * SpacingFraction)
  {
    var gap := width * SpacingFraction;
    var all := ws + [w];
    forall i, j | 0 <= i < j < |all| ensures all[j].x - all[i].x > gap {
      if j == |ws| {
        var last := |ws| - 1;
        if i < last {
          assert ws[last].x - ws[i].x > gap;
        }
      } else {
        assert all[i] == ws[i] && all[j] == ws[j];
      }
    }
  }

  /** The walls that survive a pass of an invariant session keep the invariant's wall part. */
  lemma SurvivorsKeepShape(b: Bird, s: seq<Wall>, dx: real, width: real, height: real, gap: real)
    requires dx >= 0.0 && AllShaped(s, width, height) && Spaced(s, gap)
    ensures var survivors := OnScreen(Sweep(b, s, dx).ticked);
      AllShaped(survivors, width, height) && Spaced(survivors, gap) &&
      (forall w <- survivors :: RightEdge(w) >= 0.0)
  {
    var t := Sweep(b, s, dx).ticked;
    SweepKeepsShape(b, s, dx, width, height, gap);
    OnScreenSpaced(t, gap);
  }

  /** StepInv for a tick whose result g' is named by the caller. */
  lemma StepKeepsInv(g: Snapshot, r: real, g': Snapshot)
    requires 0.0 <= r < 1.0 && g.height > 0.0 && g' == Step(g, r)
    ensures Inv(g) ==> Inv(g')
  {
    if Inv(g) {
      StepInv(g, r);
    }
  }

  /** The tick keeps the session invariant. */
  lemma StepInv(g: Snapshot, r: real)
    requires Inv(g) && 0.0 <= r < 1.0
    ensures Inv(Step(g, r))
  {
    if g.gameOver {
      assert Step(g, r) == g;
    } else if OutOfBounds(Fall(g.bird), g.height) {
      assert Step(g, r).walls == g.walls;
    } else {
      StepInvPlaying(g, r);
    }
  }

  lemma StepInvPlaying(g: Snapshot, r: real)
    requires Inv(g) && 0.0 <= r < 1.0
    requires !g.gameOver && !OutOfBounds(Fall(g.bird), g.height)
    ensures Inv(Step(g, r))
  {
    var ws := NextWalls(Fall(g.bird), g.walls, g.width, g.height, r);
    NextWallsKeepShape(Fall(g.bird), g.walls, g.width, g.height, r);
    StepPlayingWalls(g, r);
    InvOfParts(Step(g, r), g.width, g.height, ws);
  }

  /** The walls a tick that stays in the field leaves behind: survivors of the pass, then the spawn rule. */
  function NextWalls(b: Bird, s: seq<Wall>, width: real, height: real, r: real): seq<Wall>
    requires 0.0 <= r < 1.0 && height > 0.0
  {
    Spawn(OnScreen(Sweep(b, s, width * ScrollFraction).ticked), width, height, r)
  }

  lemma NextWallsKeepShape(b: Bird, s: seq<Wall>, width: real, height: real, r: real)
    requires 0.0 <= r < 1.0 && width > 0.0 && height > 0.0
    requires AllShaped(s, width, height) && Spaced(s, width * SpacingFraction)
    ensures var ws := NextWalls(b, s, width, height, r);
      AllShaped(ws, width, height) && Spaced(ws, width * SpacingFraction) &&
      (forall w <- ws :: RightEdge(w) >= 0.0)
  {
    var survivors := OnScreen(Sweep(b, s, width * ScrollFraction).ticked);
    SurvivorsKeepShape(b, s, width * ScrollFraction, width, height, width * SpacingFraction);
    SpawnKeepsInv(survivors, width, height, r);
  }

  /**
   * The tick that stays in the field, spelled out as the imperative tick
   * computes it: the pass with scroll dx leaves player b, survivors ws and
   * score sc, and the spawn rule turns ws into ws'.
   */
  lemma StepPlaying(g: Snapshot, r: real, dx: real, b: Bird, ws: seq<Wall>, sc: nat, ws': seq<Wall>)
    requires 0.0 <= r < 1.0 && g.height > 0.0 && dx == g.width * ScrollFraction
    requires !g.gameOver && !OutOfBounds(Fall(g.bird), g.height)
    requires var pass := Sweep(Fall(g.bird), g.walls, dx);
      b == pass.bird && ws == OnScreen(pass.ticked) && sc == g.score + Flips(g.walls, pass.ticked)
    requires SpawnDue(ws, g.width) ==> ws' == ws + [NewWall(g.width, g.height, r)]
    requires !SpawnDue(ws, g.width) ==> ws' == ws
    ensures Step(g, r) == g.(bird := b, walls := ws', score := sc)
  {
  }

  lemma StepPlayingWalls(g: Snapshot, r: real)
    requires 0.0 <= r < 1.0 && g.height > 0.0
    requires !g.gameOver && !OutOfBounds(Fall(g.bird), g.height)
    ensures Step(g, r).walls == NextWalls(Fall(g.bird), g.walls, g.width, g.height, r)
  {
  }

  lemma InvOfParts(g: Snapshot, width: real, height: real, ws: seq<Wall>)
    requires g.width == width > 0.0 && g.height == height > 0.0 && g.walls == ws
    requires AllShaped(ws, width, height) && Spaced(ws, width * SpacingFraction)
    requires forall w <- ws :: RightEdge(w) >= 0.0
    ensures Inv(g)
  {
  }

  /** The spawn rule keeps the invariant's wall part. */
  lemma SpawnKeepsInv(ws: seq<Wall>, width: real, height: real, r: real)
    requires 0.0 <= r < 1.0 && width > 0.0 && height > 0.0
    requires AllShaped(ws, width, height) && Spaced(ws, width * SpacingFraction)
    requires forall w <- ws :: RightEdge(w) >= 0.0
    ensures var ws' := Spawn(ws, width, height, r);
      AllShaped(ws', width, height) && Spaced(ws', width * SpacingFraction) &&
      (forall w <- ws' :: RightEdge(w) >= 0.0)
  {
    if SpawnDue(ws, width) {
      var nw := NewWall(width, height, r);
      var ws' := ws + [nw];
      SpawnKeepsSpacing(ws, nw, width);
      forall w <- ws' ensures Shaped(w, width, height) && w.x <= width && RightEdge(w) >= 0.0 {
        if w != nw {
          assert w in ws;
        }
      }
    }
  }

  // ---------------------------------------------------------------------------
  // The activate signal

  /**
   * The activate signal: a jump while playing, a restart while the game is
   * over. Either way the session is playing afterwards.
   */
  function Activate(g: Snapshot): (g': Snapshot)
    ensures !g'.gameOver
    ensures g'.width == g.width && g'.height == g.height
    ensures g'.bird.x == g.bird.x && g'.bird.radius == g.bird.radius
    ensures g'.bird.gravity == g.bird.gravity && g'.bird.jump == g.bird.jump
    ensures g'.score <= g.score
  {
    if !g.gameOver then
      g.(bird := g.bird.(speed := g.bird.jump))
    else
      g.(bird := g.bird.(y := RestartY, speed := 0.0), walls := [], score := 0, gameOver := false)
  }

  /** While playing, activate only sets the speed to the jump impulse. */
  lemma ActivateJumps(g: Snapshot)
    requires !g.gameOver
    ensures Activate(g).bird.speed == g.bird.jump
    ensures Activate(g) == g.(bird := Activate(g).bird)
    ensures Activate(g).bird == g.bird.(speed := Activate(g).bird.speed)
  {
  }

  /**
   * A restart forgets the session's history: two finished sessions with the
   * same player constants, x and field restart to the same state.
   */
  lemma RestartForgetsHistory(g1: Snapshot, g2: Snapshot)
    requires g1.gameOver && g2.gameOver
    requires g1.bird.x == g2.bird.x && g1.bird.radius == g2.bird.radius
    requires g1.bird.gravity == g2.bird.gravity && g1.bird.jump == g2.bird.jump
    requires g1.width == g2.width && g1.height == g2.height
    ensures Activate(g1) == Activate(g2)
    ensures Activate(g1).walls == [] && Activate(g1).score == 0
    ensures Activate(g1).bird.y == RestartY && Activate(g1).bird.speed == 0.0
  {
  }

  /** Activate keeps the session invariant. */
  lemma ActivateInv(g: Snapshot)
    requires Inv(g)
    ensures Inv(Activate(g))
  {
  }

  // ---------------------------------------------------------------------------
  // Runs of ticks without input

  predicate Draws(rs: seq<real>) {
    forall i :: 0 <= i < |rs| ==> 0.0 <= rs[i] < 1.0
  }

  /** The session after one tick per random draw in rs, with no activate signal. */
  function Run(g: Snapshot, rs: seq<real>): (g': Snapshot)
    requires g.height > 0.0 && Draws(rs)
    ensures g'.width == g.width && g'.height == g.height
    decreases |rs|
  {
    if rs == [] then g else Run(Step(g, rs[0]), rs[1..])
  }

  /** Once the game is over, any number of ticks changes nothing. */
  lemma {:induction false} RunFrozen(g: Snapshot, rs: seq<real>)
    requires g.height > 0.0 && Draws(rs) && g.gameOver
    ensures Run(g, rs) == g
    decreases |rs|
  {
    if rs != [] {
      RunFrozen(Step(g, rs[0]), rs[1..]);
    }
  }

  /** The speed gained from n ticks of gravity: gravity added n times. */
  function Accrued(n: nat, gravity: real): (v: real)
    ensures v == (n as real) * gravity
  {
    if n == 0 then 0.0 else Accrued(n - 1, gravity) + gravity
  }

  /**
   * Without input, a run that is still playing at its end has added the
   * gravity constant to the speed once per tick.
   */
  lemma {:induction false} RunGravity(g: Snapshot, rs: seq<real>)
    requires g.height > 0.0 && Draws(rs)
    requires !Run(g, rs).gameOver
    ensures !g.gameOver
    ensures Run(g, rs).bird.gravity == g.bird.gravity
    ensures Run(g, rs).bird.speed == g.bird.speed + Accrued(|rs|, g.bird.gravity)
    decreases |rs|
  {
    if rs != [] {
      var g1 := Step(g, rs[0]);
      if g1.gameOver {
        RunFrozen(g1, rs[1..]);
        assert false;
      } else {
        RunGravity(g1, rs[1..]);
        StepCollisionNonFatal(g, rs[0]);
        assert |rs[1..]| == |rs| - 1;
      }
    }
  }

  /** The score never falls during a run without input. */
  lemma {:induction false} RunScoreMonotone(g: Snapshot, rs: seq<real>)
    requires g.height > 0.0 && Draws(rs)
    ensures Run(g, rs).score >= g.score
    decreases |rs|
  {
    if rs != [] {
      RunScoreMonotone(Step(g, rs[0]), rs[1..]);
    }
  }

  /** A run of ticks keeps the session invariant. */
  lemma {:induction false} RunInv(g: Snapshot, rs: seq<real>)
    requires Inv(g) && Draws(rs)
    ensures Inv(Run(g, rs))
    decreases |rs|
  {
    if rs != [] {
      StepInv(g, rs[0]);
      RunInv(Step(g, rs[0]), rs[1..]);
    }
  }
}
