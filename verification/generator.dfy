/**
 The procedural row generator (`generateRow`). A cursor, the last
 guaranteed-safe lane, is threaded from one row to the next; each row moves
 it by a legal step of -1, 0 or +1, always puts a platform in the lane it
 lands on, and puts a platform in each other lane only when a coin says so.
 */
module Generator {
  import opened Board

  /**
   The random choices behind one row. `pick` stands for the draw that
   chooses among the legal moves; any natural number selects a legal move
   (see EveryLegalMoveIsDrawn). `extraLeft`, `extraCentre` and `extraRight`
   stand for the "40% chance of an extra pad" coins of lanes 0, 1 and 2;
   the coin of the guaranteed lane is never consulted.
   */
  datatype RowDraw = RowDraw(pick: nat, extraLeft: bool, extraCentre: bool, extraRight: bool)

  /** The pads one row adds and the cursor it leaves for the next row. */
  datatype Generated = Generated(pads: seq<Platform>, cursor: int)

  function Extra(d: RowDraw, lane: int): bool
    requires ValidLane(lane)
  {
    if lane == 0 then d.extraLeft else if lane == 1 then d.extraCentre else d.extraRight
  }

  /** The moves `generateRow` may take from `cursor`, in the order it lists them. */
  function LegalMoves(cursor: int): (moves: seq<int>)
    ensures 0 < |moves| <= LaneCount
  {
    (if cursor > 0 then [-1] else []) + [0] + (if cursor < LaneCount - 1 then [1] else [])
  }

  /** Staying is always legal, a step left is legal unless in lane 0, a step right unless in lane 2; from a lane, the legal moves are exactly the steps that stay on the pond. */
  lemma LegalMovesExactly(cursor: int)
    ensures 0 in LegalMoves(cursor)
    ensures -1 in LegalMoves(cursor) <==> cursor > 0
    ensures 1 in LegalMoves(cursor) <==> cursor < LaneCount - 1
    ensures forall m {:trigger m in LegalMoves(cursor)} :: m in LegalMoves(cursor) ==> -1 <= m <= 1
    ensures ValidLane(cursor) ==>
      forall m {:trigger m in LegalMoves(cursor)} :: m in LegalMoves(cursor) <==> -1 <= m <= 1 && ValidLane(cursor + m)
  {
  }

  /** The move the draw selects: the legal move at the drawn index, the index wrapping round the list. */
  function PickMove(cursor: int, pick: nat): (m: int)
    ensures m in LegalMoves(cursor)
  {
    var moves := LegalMoves(cursor);
    moves[pick % |moves|]
  }

  /** The guaranteed lane of the next row. */
  function SafeLane(cursor: int, d: RowDraw): (lane: int)
    ensures OneJump(cursor, lane)
    ensures ValidLane(cursor) ==> ValidLane(lane)
  {
    LegalMovesExactly(cursor);
    cursor + PickMove(cursor, d.pick)
  }

  /** The oracle loses no behaviour: every legal move is selected by some draw. */
  lemma EveryLegalMoveIsDrawn(cursor: int, m: int)
    requires m in LegalMoves(cursor)
    ensures exists pick: nat :: PickMove(cursor, pick) == m
  {
    var moves := LegalMoves(cursor);
    var i :| 0 <= i < |moves| && moves[i] == m;
    assert PickMove(cursor, i) == m;
  }

  /** The pad of one lane: present in the guaranteed lane, and elsewhere when the lane's coin says so. */
  function Pad(lane: int, row: int, safe: int, d: RowDraw): (ps: seq<Platform>)
    requires ValidLane(lane)
  {
    if lane == safe || Extra(d, lane) then [Platform(lane, row)] else []
  }

  /** A lane holds at most one pad, in its own row, present exactly in the guaranteed lane or when the lane's coin came up. */
  lemma PadContents(lane: int, row: int, safe: int, d: RowDraw)
    requires ValidLane(lane)
    ensures |Pad(lane, row, safe, d)| <= 1
    ensures forall p {:trigger p in Pad(lane, row, safe, d)} :: p in Pad(lane, row, safe, d) ==> p == Platform(lane, row)
    ensures Platform(lane, row) in Pad(lane, row, safe, d) <==> lane == safe || Extra(d, lane)
  {
  }

  /** One generated row: `generateRow(row)` with the cursor passed in and returned. */
  function GenerateRow(cursor: int, row: int, d: RowDraw): (g: Generated)
    ensures g.cursor == SafeLane(cursor, d)
  {
    var safe := SafeLane(cursor, d);
    Generated(Pad(0, row, safe, d) + Pad(1, row, safe, d) + Pad(2, row, safe, d), safe)
  }

  /**
   What a generated row holds: pads in that row only, one in the new
   guaranteed lane, one in each other lane exactly when its coin came up,
   and the guaranteed lane one jump from the old one.
   */
  lemma RowContents(cursor: int, row: int, d: RowDraw)
    ensures OneJump(cursor, GenerateRow(cursor, row, d).cursor)
    ensures ValidLane(cursor) ==>
      ValidLane(GenerateRow(cursor, row, d).cursor) && Platform(GenerateRow(cursor, row, d).cursor, row) in GenerateRow(cursor, row, d).pads
    ensures forall p {:trigger p in GenerateRow(cursor, row, d).pads} ::
      p in GenerateRow(cursor, row, d).pads ==> p.row == row && ValidLane(p.lane)
    ensures forall lane {:trigger Platform(lane, row) in GenerateRow(cursor, row, d).pads} ::
      ValidLane(lane) ==>
        (Platform(lane, row) in GenerateRow(cursor, row, d).pads <==> lane == GenerateRow(cursor, row, d).cursor || Extra(d, lane))
  {
    var safe := SafeLane(cursor, d);
    var left, centre, right := Pad(0, row, safe, d), Pad(1, row, safe, d), Pad(2, row, safe, d);
    assert GenerateRow(cursor, row, d).pads == left + centre + right;
    assert forall p :: p in left + centre + right <==> p in left || p in centre || p in right;
  }

  /** A generated row lists its pads left to right, each lane at most once, and holds one to three of them. */
  lemma RowShape(cursor: int, row: int, d: RowDraw)
    ensures Ordered(GenerateRow(cursor, row, d).pads)
    ensures ValidLane(cursor) ==> 1 <= |GenerateRow(cursor, row, d).pads| <= LaneCount
  {
    var safe := SafeLane(cursor, d);
    var left, centre, right := Pad(0, row, safe, d), Pad(1, row, safe, d), Pad(2, row, safe, d);
    assert GenerateRow(cursor, row, d).pads == left + centre + right;
    OrderedAppend(left, centre);
    OrderedAppend(left + centre, right);
    if ValidLane(cursor) {
      assert safe == 0 || safe == 1 || safe == 2;
    }
  }

  /** The cursor after generating one row per draw. */
  function CursorAfter(cursor: int, draws: seq<RowDraw>): (c: int)
    ensures ValidLane(cursor) ==> ValidLane(c)
    ensures -|draws| <= c - cursor <= |draws|
    decreases |draws|
  {
    if |draws| == 0 then cursor else CursorAfter(SafeLane(cursor, draws[0]), draws[1..])
  }

  /**
   The guaranteed lanes of the rows generated from `draws`, in row order:
   each is one jump from the one before, the first one jump from `cursor`,
   the last the cursor left behind.
   */
  function SafeLanes(cursor: int, draws: seq<RowDraw>): (lanes: seq<int>)
    ensures |lanes| == |draws|
    ensures |draws| > 0 ==> OneJump(cursor, lanes[0]) && lanes[|lanes| - 1] == CursorAfter(cursor, draws)
    decreases |draws|
  {
    if |draws| == 0 then []
    else
      var safe := SafeLane(cursor, draws[0]);
      [safe] + SafeLanes(safe, draws[1..])
  }

  /**
   Rows `from .. from + |draws| - 1`, one `generateRow` call per draw, the
   cursor threaded through: the loops of `generateInitialWorld` and
   `spawnNextRows`.
   */
  function GenerateRows(cursor: int, from: int, draws: seq<RowDraw>): (g: Generated)
    ensures g.cursor == CursorAfter(cursor, draws)
    ensures forall p {:trigger p in g.pads} :: p in g.pads ==> from <= p.row < from + |draws| && ValidLane(p.lane)
    decreases |draws|
  {
    if |draws| == 0 then Generated([], cursor)
    else
      RowContents(cursor, from, draws[0]);
      var first := GenerateRow(cursor, from, draws[0]);
      var rest := GenerateRows(first.cursor, from + 1, draws[1..]);
      Generated(first.pads + rest.pads, rest.cursor)
  }

  /** Generated rows come out in creation order, so no (lane, row) pair is generated twice. */
  lemma {:induction false} GeneratedRowsOrdered(cursor: int, from: int, draws: seq<RowDraw>)
    ensures Ordered(GenerateRows(cursor, from, draws).pads)
    decreases |draws|
  {
    if |draws| > 0 {
      var first := GenerateRow(cursor, from, draws[0]);
      var rest := GenerateRows(first.cursor, from + 1, draws[1..]);
      GeneratedRowsOrdered(first.cursor, from + 1, draws[1..]);
      RowShape(cursor, from, draws[0]);
      OrderedAppend(first.pads, rest.pads);
    }
  }

  /**
   The reachability guarantee: the guaranteed lanes of the generated rows
   form a route through them, each lane one jump from the previous one.
   */
  lemma {:induction false} GeneratedRowsCrossable(cursor: int, from: int, draws: seq<RowDraw>)
    requires ValidLane(cursor)
    ensures IsPath(GenerateRows(cursor, from, draws).pads, SafeLanes(cursor, draws), from)
    decreases |draws|
  {
    if |draws| > 0 {
      var first := GenerateRow(cursor, from, draws[0]);
      var rest := GenerateRows(first.cursor, from + 1, draws[1..]);
      var pads := first.pads + rest.pads;
      var tail := SafeLanes(first.cursor, draws[1..]);
      GeneratedRowsCrossable(first.cursor, from + 1, draws[1..]);
      RowContents(cursor, from, draws[0]);
      assert SafeLanes(cursor, draws) == [first.cursor] + tail;
      PathGrows(rest.pads, pads, tail, from + 1);
      PathCons(pads, first.cursor, tail, from);
    }
  }
}
