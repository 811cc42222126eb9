/**
 Whole runs: the events the page delivers (a reset, the start button, a
 key, an animation frame), the state they drive, and the invariant every
 run keeps: the frog is in a lane, its row is the score, the platforms
 are listed in creation order, and a guaranteed route of platforms one
 jump apart leads from the frog's row (or before it) to the furthest row,
 which sits 19 rows plus five per completed block of five points ahead
 of the start, and no pad lies below the route's start (itself at row 0
 or later) or outside the lanes.
 */
module Runs {
  import opened Options
  import opened Board
  import opened Generator
  import opened WorldStrip
  import opened Gameplay

  /** The furthest row once `score` points are scored: row 19, plus five rows for each multiple of five reached. */
  function FrontRow(score: int): (front: int)
    ensures score >= 0 ==> front >= score + InitialRows - SpawnEvery
  {
    InitialRows - 1 + SpawnCount * (score / SpawnEvery)
  }

  /** The front moves exactly when a point makes the score a multiple of five, and then by five rows. */
  lemma FrontRowStep(score: int)
    ensures (score + 1) % SpawnEvery != 0 ==> FrontRow(score + 1) == FrontRow(score)
    ensures (score + 1) % SpawnEvery == 0 ==> FrontRow(score + 1) == FrontRow(score) + SpawnCount
  {
  }

  /** The frog is in a lane, its row is the score, the cursor is in a lane and the platforms are in creation order. */
  predicate WellShaped(g: Game) {
    && ValidLane(g.frog.lane)
    && 0 <= g.frog.row && g.score == g.frog.row
    && ValidLane(g.world.lastSafeLane)
    && Ordered(g.world.platforms)
  }

  /**
   A guaranteed route starts at or behind the frog's row and reaches the
   furthest row, `FrontRow(score)`, and no pad lies below the route's
   start, below row 0 or outside the lanes.
   */
  ghost predicate RouteAhead(g: Game) {
    exists start {:trigger GuaranteedPath(g.world, start, FrontRow(g.score))} ::
      && 0 <= start <= g.frog.row && GuaranteedPath(g.world, start, FrontRow(g.score))
      && PadsFrom(g.world.platforms, start)
  }

  /** The invariant of every reachable state. */
  ghost predicate Inv(g: Game) {
    WellShaped(g) && RouteAhead(g)
  }

  /**
   What the invariant means for play: the furthest row is `FrontRow`, at
   least fifteen rows ahead of the frog, every row from the frog's to the
   furthest holds a platform, every pad is in a lane at row 0 or later and
   every row from any pad to the furthest holds a platform (the rows have no gaps), and
   no (lane, row) pair occurs twice.
   */
  lemma InvConsequences(g: Game)
    requires Inv(g)
    ensures FurthestRow(g.world.platforms) == Some(FrontRow(g.score))
    ensures FrontRow(g.score) >= g.frog.row + InitialRows - SpawnEvery
    ensures forall row :: g.frog.row <= row <= FrontRow(g.score) ==> RowOccupied(g.world.platforms, row)
    ensures forall p {:trigger p in g.world.platforms} :: p in g.world.platforms ==>
      && ValidLane(p.lane) && 0 <= p.row
      && forall row :: p.row <= row <= FrontRow(g.score) ==> RowOccupied(g.world.platforms, row)
    ensures Unique(g.world.platforms)
  {
    var start :| 0 <= start <= g.frog.row && GuaranteedPath(g.world, start, FrontRow(g.score)) && PadsFrom(g.world.platforms, start);
    var lanes :| ExtendsToFront(g.world, lanes, start) && start + |lanes| - 1 == FrontRow(g.score);
    FrontIsFurthest(g.world, lanes, start);
    PathOccupiesRows(g.world.platforms, lanes, start);
    OrderedIsUnique(g.world.platforms);
  }

  /** A state that differs from an invariant state only in its phase flags and the frog's jump fields keeps the invariant. */
  lemma InvIgnoresPhase(g: Game, r: Game)
    requires Inv(g)
    requires r.world == g.world && r.score == g.score
    requires r.frog.lane == g.frog.lane && r.frog.row == g.frog.row
    ensures Inv(r)
  {
    var start :| 0 <= start <= g.frog.row && GuaranteedPath(g.world, start, FrontRow(g.score)) && PadsFrom(g.world.platforms, start);
    assert GuaranteedPath(r.world, start, FrontRow(r.score)) && PadsFrom(r.world.platforms, start);
  }

  /** `resetGame` establishes the invariant: the route starts at the frog, lane 1 of row 0, and reaches row 19. */
  lemma ResetEstablishesInv(startPlaying: bool, draws: seq<RowDraw>)
    requires |draws| == InitialRows - SafeZoneRows
    ensures Inv(ResetGame(startPlaying, draws))
  {
    var g := ResetGame(startPlaying, draws);
    InitialWorldOrdered(draws);
    InitialWorldCrossable(draws);
    var lanes :| ExtendsToFront(g.world, lanes, 0) && |lanes| == InitialRows && lanes[0] == StartLane;
    assert GuaranteedPath(g.world, 0, FrontRow(g.score)) && PadsFrom(g.world.platforms, 0);
  }

  /**
   `jump` keeps the invariant. When the new score is a multiple of five
   the route survives the cull and is continued through the five new
   rows, so the front moves five rows exactly when FrontRow does.
   */
  lemma JumpPreservesInv(g: Game, laneOffset: int, now: int, draws: seq<RowDraw>)
    requires |draws| == SpawnCount
    requires Inv(g)
    ensures Inv(Jump(g, laneOffset, now, draws))
  {
    if !JumpRejected(g, laneOffset) {
      if (g.score + 1) % SpawnEvery == 0 {
        ScoringJumpPreservesInv(g, laneOffset, now, draws);
      } else {
        QuietJumpPreservesInv(g, laneOffset, now, draws);
      }
    }
  }

  /** A jump that leaves the score off a multiple of five moves the frog one row on and leaves the world alone. */
  lemma QuietJumpPreservesInv(g: Game, laneOffset: int, now: int, draws: seq<RowDraw>)
    requires |draws| == SpawnCount
    requires Inv(g) && !JumpRejected(g, laneOffset) && (g.score + 1) % SpawnEvery != 0
    ensures Inv(Jump(g, laneOffset, now, draws))
  {
    MovePreservesInv(g, Jump(g, laneOffset, now, draws), laneOffset);
  }

  /** Moving the frog one row on and one legal step sideways and scoring a point, in the same world, keeps the invariant while the front stays put. */
  lemma MovePreservesInv(g: Game, r: Game, laneOffset: int)
    requires Inv(g) && !JumpRejected(g, laneOffset) && (g.score + 1) % SpawnEvery != 0
    requires r.world == g.world && r.score == g.score + 1
    requires r.frog.lane == g.frog.lane + laneOffset && r.frog.row == g.frog.row + 1
    ensures Inv(r)
  {
    var start :| 0 <= start <= g.frog.row && GuaranteedPath(g.world, start, FrontRow(g.score)) && PadsFrom(g.world.platforms, start);
    FrontRowStep(g.score);
    assert GuaranteedPath(r.world, start, FrontRow(r.score)) && PadsFrom(r.world.platforms, start);
  }

  /** A jump that makes the score a multiple of five keeps the invariant: the spawn continues the route. */
  lemma ScoringJumpPreservesInv(g: Game, laneOffset: int, now: int, draws: seq<RowDraw>)
    requires |draws| == SpawnCount
    requires Inv(g) && !JumpRejected(g, laneOffset) && (g.score + 1) % SpawnEvery == 0
    ensures Inv(Jump(g, laneOffset, now, draws))
  {
    var start :| 0 <= start <= g.frog.row && GuaranteedPath(g.world, start, FrontRow(g.score)) && PadsFrom(g.world.platforms, start);
    ScoringJumpResult(g, laneOffset, now, draws);
    ScoringStep(g, laneOffset, now, draws, start);
  }

  /** The state a scoring jump leaves keeps the invariant, given the route start that witnessed it before. */
  lemma ScoringStep(g: Game, laneOffset: int, now: int, draws: seq<RowDraw>, start: int)
    requires |draws| == SpawnCount
    requires WellShaped(g) && !JumpRejected(g, laneOffset) && (g.score + 1) % SpawnEvery == 0
    requires 0 <= start <= g.frog.row
    requires GuaranteedPath(g.world, start, FrontRow(g.score)) && PadsFrom(g.world.platforms, start)
    ensures Inv(Game(SpawnNextRows(g.world, g.frog.row + 1, draws), Frog(g.frog.lane + laneOffset, g.frog.row + 1, true, now), g.score + 1, true, false))
  {
    var row := g.frog.row;
    var r := Game(SpawnNextRows(g.world, row + 1, draws), Frog(g.frog.lane + laneOffset, row + 1, true, now), g.score + 1, true, false);
    FrontRowStep(g.score);
    SpawnStep(g.world, row, start, draws);
    InvFromParts(r, RouteStart(start, row + 1 - CullDistance));
  }

  /** The invariant, assembled from a well-shaped state and a route start that witnesses `RouteAhead`. */
  lemma InvFromParts(g: Game, start: int)
    requires WellShaped(g)
    requires 0 <= start <= g.frog.row
    requires GuaranteedPath(g.world, start, FrontRow(g.score))
    requires PadsFrom(g.world.platforms, start)
    ensures Inv(g)
  {
  }

  /**
   The world half of a scoring jump from `row` to `row + 1`: the spawn
   keeps the cursor in range and the creation order, continues the route
   to the front five rows further on, and leaves no pad below the route's
   new start or outside the lanes.
   */
  lemma SpawnStep(w: World, row: int, start: int, draws: seq<RowDraw>)
    requires |draws| == SpawnCount
    requires 0 <= row && start <= row
    requires ValidLane(w.lastSafeLane) && Ordered(w.platforms)
    requires GuaranteedPath(w, start, FrontRow(row))
    requires PadsFrom(w.platforms, start)
    ensures ValidLane(SpawnNextRows(w, row + 1, draws).lastSafeLane)
    ensures Ordered(SpawnNextRows(w, row + 1, draws).platforms)
    ensures GuaranteedPath(SpawnNextRows(w, row + 1, draws), RouteStart(start, row + 1 - CullDistance), FrontRow(row) + SpawnCount)
    ensures PadsFrom(SpawnNextRows(w, row + 1, draws).platforms, RouteStart(start, row + 1 - CullDistance))
  {
    var lanes :| ExtendsToFront(w, lanes, start) && start + |lanes| - 1 == FrontRow(row);
    SpawnKeepsPath(w, row + 1, draws, lanes, start);
    SpawnKeepsOrdered(w, row + 1, draws);
    SpawnKeepsPadsFrom(w, row + 1, draws, start);
  }

  lemma StartPreservesInv(g: Game)
    requires Inv(g)
    ensures Inv(StartGame(g))
  {
    InvIgnoresPhase(g, StartGame(g));
  }

  lemma CheckCollisionPreservesInv(g: Game, now: int)
    requires Inv(g)
    ensures Inv(CheckCollision(g, now))
  {
    InvIgnoresPhase(g, CheckCollision(g, now));
  }

  lemma TickPreservesInv(g: Game, now: int)
    requires Inv(g)
    ensures Inv(Tick(g, now))
  {
    CheckCollisionPreservesInv(g, now);
  }

  lemma OnKeyDownPreservesInv(g: Game, k: Key, now: int, draws: seq<RowDraw>)
    requires |draws| == SpawnCount
    requires Inv(g)
    ensures Inv(OnKeyDown(g, k, now, draws))
  {
    if g.isPlaying && k != OtherKey {
      JumpPreservesInv(g, KeyOffset(k).value, now, draws);
    }
  }

  /**
   What the page delivers: a click on the start or restart button (a
   restart passes its click event as `startPlaying`, which is truthy), the
   start button, a key press, or an animation frame. The draws are the
   random choices the resulting world generation consumes.
   */
  datatype Event =
    | Reset(startPlaying: bool, worldDraws: seq<RowDraw>)
    | Start
    | KeyDown(key: Key, now: int, spawnDraws: seq<RowDraw>)
    | Frame(now: int)

  /** Every event carries as many draws as the generation it may trigger consumes. */
  predicate WellFormed(e: Event) {
    && (e.Reset? ==> |e.worldDraws| == InitialRows - SafeZoneRows)
    && (e.KeyDown? ==> |e.spawnDraws| == SpawnCount)
  }

  /**
   The listener an event reaches. Only a reset or a key touches the world
   and the score: a reset starts over at score 0, a key scores at most one
   point, and the start button and a frame leave the frog where it is.
   */
  function Step(g: Game, e: Event): (r: Game)
    requires WellFormed(e)
    ensures e.Reset? ==> r.score == 0 && r.frog == CreateFrog() && !r.isDead && r.isPlaying == e.startPlaying
    ensures e.KeyDown? ==> r.score == g.score || r.score == g.score + 1
    ensures e.Start? || e.Frame? ==>
      r.world == g.world && r.score == g.score && r.frog.lane == g.frog.lane && r.frog.row == g.frog.row
  {
    match e
    case Reset(startPlaying, draws) => ResetGame(startPlaying, draws)
    case Start => StartGame(g)
    case KeyDown(key, now, draws) => OnKeyDown(g, key, now, draws)
    case Frame(now) => Tick(g, now)
  }

  /** The state after the events, in order. */
  function Run(g: Game, events: seq<Event>): (r: Game)
    requires forall i :: 0 <= i < |events| ==> WellFormed(events[i])
    decreases |events|
  {
    if |events| == 0 then g else Run(Step(g, events[0]), events[1..])
  }

  /** Running two batches of events one after the other is running them all in order. */
  lemma {:induction false} RunAppend(g: Game, a: seq<Event>, b: seq<Event>)
    requires forall i :: 0 <= i < |a| ==> WellFormed(a[i])
    requires forall i :: 0 <= i < |b| ==> WellFormed(b[i])
    ensures forall i :: 0 <= i < |a + b| ==> WellFormed((a + b)[i])
    ensures Run(g, a + b) == Run(Run(g, a), b)
    decreases |a|
  {
    if |a| == 0 {
      assert a + b == b;
    } else {
      assert (a + b)[0] == a[0] && (a + b)[1..] == a[1..] + b;
      RunAppend(Step(g, a[0]), a[1..], b);
    }
  }

  /** The page loads with `resetGame(false)`: the world is generated, nothing is playing yet. */
  function Boot(draws: seq<RowDraw>): (g: Game)
    requires |draws| == InitialRows - SafeZoneRows
    ensures !g.isPlaying && !g.isDead && g.score == 0
  {
    ResetGame(false, draws)
  }

  lemma StepPreservesInv(g: Game, e: Event)
    requires WellFormed(e)
    requires Inv(g)
    ensures Inv(Step(g, e))
  {
    match e
    case Reset(startPlaying, draws) => ResetEstablishesInv(startPlaying, draws);
    case Start => StartPreservesInv(g);
    case KeyDown(key, now, draws) => OnKeyDownPreservesInv(g, key, now, draws);
    case Frame(now) => TickPreservesInv(g, now);
  }

  /**
   Every run from the page load keeps the invariant: the score equals the
   frog's row, the frog stays in lanes 0 .. 2, and the rows from the frog
   to the furthest row are crossable without a gap.
   */
  lemma {:induction false} RunPreservesInv(g: Game, events: seq<Event>)
    requires forall i :: 0 <= i < |events| ==> WellFormed(events[i])
    requires Inv(g)
    ensures Inv(Run(g, events))
    decreases |events|
  {
    if |events| > 0 {
      StepPreservesInv(g, events[0]);
      RunPreservesInv(Step(g, events[0]), events[1..]);
    }
  }

  lemma BootedRunKeepsInv(draws: seq<RowDraw>, events: seq<Event>)
    requires |draws| == InitialRows - SafeZoneRows
    requires forall i :: 0 <= i < |events| ==> WellFormed(events[i])
    ensures Inv(Run(Boot(draws), events))
    ensures Run(Boot(draws), events).score == Run(Boot(draws), events).frog.row
  {
    ResetEstablishesInv(false, draws);
    RunPreservesInv(Boot(draws), events);
  }
}
