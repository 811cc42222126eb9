/**
 The jump state machine: the frog, the score and the two phase flags, the
 resets of a new run, jumping, landing and dying, and the keys that drive
 them. Times are whole milliseconds, standing for `performance.now()`.
 */
module Gameplay {
  import opened Options
  import opened Board
  import opened Generator
  import opened WorldStrip

  /** `GAME_CONFIG.jumpDuration` is 0.3 seconds; the landing check compares against it times 1000. */
  const JumpDurationMs: int := 300

  /** The world grows whenever the score reaches a multiple of this. */
  const SpawnEvery: int := 5

  /** The gameplay part of the frog record; its mesh and start and target positions are rendering. */
  datatype Frog = Frog(lane: int, row: int, isJumping: bool, jumpStartTime: int)

  /** The state the gameplay functions share: the world strip, the frog, the score and the phase flags. */
  datatype Game = Game(world: World, frog: Frog, score: int, isPlaying: bool, isDead: bool)

  /** `createFrog`: a new frog in the centre lane of row 0, standing still. */
  function CreateFrog(): (f: Frog)
    ensures f.lane == StartLane && f.row == 0
    ensures !f.isJumping && f.jumpStartTime == 0
  {
    Frog(StartLane, 0, false, 0)
  }

  /**
   `resetGame(startPlaying)`: a fresh world and frog, score 0, alive, and
   playing only when asked to. Nothing of the previous game survives, so
   the previous state is not a parameter.
   */
  function ResetGame(startPlaying: bool, draws: seq<RowDraw>): (g: Game)
    requires |draws| == InitialRows - SafeZoneRows
    ensures g.world == GenerateInitialWorld(draws)
    ensures g.frog == CreateFrog() && g.score == 0
    ensures !g.isDead && g.isPlaying == startPlaying
  {
    Game(GenerateInitialWorld(draws), CreateFrog(), 0, startPlaying, false)
  }

  /** `startGame`: the start button only switches play on. */
  function StartGame(g: Game): (r: Game)
    ensures r.isPlaying
    ensures r.world == g.world && r.frog == g.frog && r.score == g.score && r.isDead == g.isDead
  {
    g.(isPlaying := true)
  }

  /** `die`: the game is over. */
  function Die(g: Game): (r: Game)
    ensures r.isDead && !r.isPlaying
    ensures r.world == g.world && r.frog == g.frog && r.score == g.score
  {
    g.(isDead := true, isPlaying := false)
  }

  /** The guards of `jump`: already in the air, dead, not playing, or a jump off the side of the pond. */
  predicate JumpRejected(g: Game, laneOffset: int) {
    g.frog.isJumping || g.isDead || !g.isPlaying || !ValidLane(g.frog.lane + laneOffset)
  }

  /**
   `jump(laneOffset)` at time `now`. An accepted jump moves the frog one
   row forward and `laneOffset` lanes sideways, scores a point and, when
   the new score is a multiple of five, extends the world with five rows
   drawn from `draws` and culls behind the frog's new row.
   */
  function Jump(g: Game, laneOffset: int, now: int, draws: seq<RowDraw>): (r: Game)
    requires |draws| == SpawnCount
    ensures JumpRejected(g, laneOffset) ==> r == g
    ensures !JumpRejected(g, laneOffset) ==>
      && r.frog == Frog(g.frog.lane + laneOffset, g.frog.row + 1, true, now)
      && r.score == g.score + 1
      && r.isPlaying && !r.isDead
      && (r.score % SpawnEvery == 0 ==> r.world == SpawnNextRows(g.world, r.frog.row, draws))
      && (r.score % SpawnEvery != 0 ==> r.world == g.world)
  {
    if JumpRejected(g, laneOffset) then g
    else
      var frog := Frog(g.frog.lane + laneOffset, g.frog.row + 1, true, now);
      var score := g.score + 1;
      var world := if score % SpawnEvery == 0 then SpawnNextRows(g.world, frog.row, draws) else g.world;
      Game(world, frog, score, g.isPlaying, g.isDead)
  }

  /** The jump has lasted its full duration by `now`. */
  predicate Landed(f: Frog, now: int) {
    now >= f.jumpStartTime + JumpDurationMs
  }

  /**
   `checkCollision` at time `now`: once a jump has lasted 300 ms the frog
   lands, and it dies when no platform lies under it.
   */
  function CheckCollision(g: Game, now: int): (r: Game)
    ensures !(g.frog.isJumping && Landed(g.frog, now)) ==> r == g
    ensures g.frog.isJumping && Landed(g.frog, now) ==>
      && r.frog == g.frog.(isJumping := false)
      && r.world == g.world && r.score == g.score
      && (r.isDead <==> g.isDead || Platform(g.frog.lane, g.frog.row) !in g.world.platforms)
      && (Platform(g.frog.lane, g.frog.row) in g.world.platforms ==> r.isPlaying == g.isPlaying && r.isDead == g.isDead)
      && (Platform(g.frog.lane, g.frog.row) !in g.world.platforms ==> !r.isPlaying)
  {
    if Landed(g.frog, now) && g.frog.isJumping then
      var landed := g.(frog := g.frog.(isJumping := false));
      if !HasPlatformAt(g.world.platforms, g.frog.lane, g.frog.row) then Die(landed) else landed
    else g
  }

  /** The gameplay part of one `animate` frame: while alive, playing and in the air, resolve the landing. */
  function Tick(g: Game, now: int): (r: Game)
    ensures !(g.isPlaying && !g.isDead) ==> r == g
    ensures g.isPlaying && !g.isDead ==> r == CheckCollision(g, now)
  {
    if g.isPlaying && !g.isDead && g.frog.isJumping then CheckCollision(g, now) else g
  }

  /** The keys `onKeyDown` distinguishes; every other key is `OtherKey`. */
  datatype Key = ArrowLeft | ArrowRight | ArrowUp | OtherKey

  /** The lane offset a key asks for, if any. */
  function KeyOffset(k: Key): (off: Option<int>)
    ensures off.Some? <==> k != OtherKey
    ensures off.Some? ==> -1 <= off.value <= 1
    ensures k == ArrowLeft ==> off == Some(-1)
    ensures k == ArrowRight ==> off == Some(1)
    ensures k == ArrowUp ==> off == Some(0)
  {
    match k
    case ArrowLeft => Some(-1)
    case ArrowRight => Some(1)
    case ArrowUp => Some(0)
    case OtherKey => None
  }

  /** `onKeyDown`: ignored unless playing; an arrow key asks for a jump. */
  function OnKeyDown(g: Game, k: Key, now: int, draws: seq<RowDraw>): (r: Game)
    requires |draws| == SpawnCount
    ensures !g.isPlaying || k == OtherKey ==> r == g
    ensures g.isPlaying && k != OtherKey ==> r == Jump(g, KeyOffset(k).value, now, draws)
  {
    if !g.isPlaying then g
    else
      match KeyOffset(k)
      case None => g
      case Some(off) => Jump(g, off, now, draws)
  }

  /** An accepted jump that makes the score a multiple of five: the whole resulting state. */
  lemma ScoringJumpResult(g: Game, laneOffset: int, now: int, draws: seq<RowDraw>)
    requires |draws| == SpawnCount
    requires !JumpRejected(g, laneOffset) && (g.score + 1) % SpawnEvery == 0
    ensures Jump(g, laneOffset, now, draws)
      == Game(SpawnNextRows(g.world, g.frog.row + 1, draws), Frog(g.frog.lane + laneOffset, g.frog.row + 1, true, now), g.score + 1, true, false)
  {
  }

  /** A jump changes the state exactly when none of the guards rejects it. */
  lemma JumpTakesOffUnlessRejected(g: Game, laneOffset: int, now: int, draws: seq<RowDraw>)
    requires |draws| == SpawnCount
    ensures Jump(g, laneOffset, now, draws) != g <==> !JumpRejected(g, laneOffset)
  {
  }

  /**
   While playing, a key changes the state exactly when it is an arrow key
   whose jump is accepted; the frog then lands one row on, one lane left
   for the left arrow, one lane right for the right arrow, and in its own
   lane for the up arrow.
   */
  lemma KeysSteer(g: Game, k: Key, now: int, draws: seq<RowDraw>)
    requires |draws| == SpawnCount
    requires g.isPlaying
    ensures var r := OnKeyDown(g, k, now, draws);
      && (r != g <==> k != OtherKey && !JumpRejected(g, KeyOffset(k).value))
      && (r != g ==> r.frog.row == g.frog.row + 1)
      && (r != g && k == ArrowLeft ==> r.frog.lane == g.frog.lane - 1)
      && (r != g && k == ArrowRight ==> r.frog.lane == g.frog.lane + 1)
      && (r != g && k == ArrowUp ==> r.frog.lane == g.frog.lane)
  {
    if k != OtherKey {
      JumpTakesOffUnlessRejected(g, KeyOffset(k).value, now, draws);
    }
  }

  /** After `die` no key and no jump changes anything: the run is over until the next reset. */
  lemma DeadFrogCannotJump(g: Game, laneOffset: int, k: Key, now: int, draws: seq<RowDraw>)
    requires |draws| == SpawnCount
    ensures JumpRejected(Die(g), laneOffset)
    ensures Jump(Die(g), laneOffset, now, draws) == Die(g)
    ensures OnKeyDown(Die(g), k, now, draws) == Die(g)
    ensures Tick(Die(g), now) == Die(g)
  {
  }

  /** A frog in the air cannot take off again: the second jump is rejected. */
  lemma NoDoubleJump(g: Game, first: int, second: int, t1: int, t2: int, d1: seq<RowDraw>, d2: seq<RowDraw>)
    requires |d1| == SpawnCount && |d2| == SpawnCount
    requires !JumpRejected(g, first)
    ensures var r := Jump(g, first, t1, d1); Jump(r, second, t2, d2) == r
  {
  }

  /** Before the jump has lasted 300 ms the landing check does nothing; from then on it lands the frog. */
  lemma LandingTiming(g: Game, now: int)
    requires g.frog.isJumping
    ensures now < g.frog.jumpStartTime + JumpDurationMs ==> CheckCollision(g, now) == g
    ensures now >= g.frog.jumpStartTime + JumpDurationMs ==> !CheckCollision(g, now).frog.isJumping
  {
  }

  /** The landing check fires at most once per jump: once it has fired, every later check is a no-op. */
  lemma CheckCollisionIdempotent(g: Game, now: int, later: int)
    ensures CheckCollision(CheckCollision(g, now), now) == CheckCollision(g, now)
    ensures g.frog.isJumping && Landed(g.frog, now) ==>
      CheckCollision(CheckCollision(g, now), later) == CheckCollision(g, now)
  {
  }

  /**
   A whole jump: an accepted jump at `t0` followed by the landing check at
   `now`. Before `t0 + 300` the frog is still in the air; from then on it
   has landed one row ahead, and it is dead exactly when the world after
   the jump has no platform at its new lane and row.
   */
  lemma JumpThenLand(g: Game, laneOffset: int, t0: int, now: int, draws: seq<RowDraw>)
    requires |draws| == SpawnCount
    requires !JumpRejected(g, laneOffset)
    ensures var j := Jump(g, laneOffset, t0, draws);
      && (now < t0 + JumpDurationMs ==> CheckCollision(j, now) == j && j.frog.isJumping)
      && (now >= t0 + JumpDurationMs ==>
            var r := CheckCollision(j, now);
            && !r.frog.isJumping
            && r.frog.lane == g.frog.lane + laneOffset && r.frog.row == g.frog.row + 1
            && r.score == g.score + 1
            && (r.isDead <==> Platform(g.frog.lane + laneOffset, g.frog.row + 1) !in j.world.platforms)
            && (r.isPlaying <==> !r.isDead))
  {
  }
}
