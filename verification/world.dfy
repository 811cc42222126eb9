/**
 The world strip: the list of platforms and the path cursor. It is filled
 with a fully paved safe zone and seventeen generated rows, extended five
 rows at a time, and culled behind the frog.
 */
module WorldStrip {
  import opened Options
  import opened Board
  import opened Generator

  /** Rows 0, 1 and 2 are paved in every lane. */
  const SafeZoneRows: int := 3
  /** The initial world covers rows 0 .. 19. */
  const InitialRows: int := 20
  /** Rows added by one extension. */
  const SpawnCount: int := 5
  /** Platforms more than this many rows behind the frog are culled. */
  const CullDistance: int := 5

  datatype World = World(platforms: seq<Platform>, lastSafeLane: int)

  /** One row with a platform in each lane, left to right. */
  function FullRow(row: int): (ps: seq<Platform>)
    ensures forall p {:trigger p in ps} :: p in ps <==> p.row == row && ValidLane(p.lane)
    ensures Ordered(ps)
  {
    [Platform(0, row), Platform(1, row), Platform(2, row)]
  }

  /** Rows 0, 1 and 2 paved in every lane, in the order `createPlatform` is called for them. */
  function SafeZone(): (ps: seq<Platform>)
    ensures forall p {:trigger p in ps} :: p in ps <==> 0 <= p.row < SafeZoneRows && ValidLane(p.lane)
    ensures Ordered(ps)
  {
    var first, second, third := FullRow(0), FullRow(1), FullRow(2);
    OrderedAppend(first, second);
    OrderedAppend(first + second, third);
    first + second + third
  }

  /** `Math.max` over the rows of all platforms; `None` is the empty maximum, minus infinity in `script.js`. */
  function FurthestRow(ps: seq<Platform>): (r: Option<int>)
    ensures r.None? <==> |ps| == 0
    decreases |ps|
  {
    if |ps| == 0 then None
    else
      match FurthestRow(ps[1..])
      case None => Some(ps[0].row)
      case Some(m) => Some(if ps[0].row > m then ps[0].row else m)
  }

  /** The furthest row is the row of some platform, and no platform lies beyond it. */
  lemma {:induction false} FurthestRowBounds(ps: seq<Platform>)
    ensures FurthestRow(ps).Some? ==>
      && (exists p {:trigger p in ps} :: p in ps && p.row == FurthestRow(ps).value)
      && (forall p {:trigger p in ps} :: p in ps ==> p.row <= FurthestRow(ps).value)
    decreases |ps|
  {
    if |ps| > 0 {
      var rest := ps[1..];
      FurthestRowBounds(rest);
      assert ps == [ps[0]] + rest;
      assert forall p {:trigger p in ps} {:trigger p in rest} :: p in ps <==> p == ps[0] || p in rest;
      assert ps[0] in ps;
    }
  }

  /** No platform lies beyond row `top`. */
  predicate RowsUpTo(ps: seq<Platform>, top: int) {
    forall p {:trigger p in ps} :: p in ps ==> p.row <= top
  }

  /** Every pad lies in a lane and at or ahead of row `bottom`. */
  predicate PadsFrom(ps: seq<Platform>, bottom: int) {
    forall p {:trigger p in ps} :: p in ps ==> bottom <= p.row && ValidLane(p.lane)
  }

  /** The filter of `spawnNextRows`: keeps exactly the platforms at or ahead of `threshold`. */
  function Cull(ps: seq<Platform>, threshold: int): (kept: seq<Platform>)
    ensures |kept| <= |ps|
    decreases |ps|
  {
    if |ps| == 0 then []
    else (if ps[0].row < threshold then [] else [ps[0]]) + Cull(ps[1..], threshold)
  }

  /** Culling keeps exactly the platforms at or ahead of the threshold. */
  lemma {:induction false} CullMembers(ps: seq<Platform>, threshold: int)
    ensures forall p {:trigger p in Cull(ps, threshold)} :: p in Cull(ps, threshold) <==> p in ps && p.row >= threshold
    decreases |ps|
  {
    if |ps| > 0 {
      var rest := ps[1..];
      CullMembers(rest, threshold);
      assert ps == [ps[0]] + rest;
      assert forall p {:trigger p in ps} {:trigger p in rest} :: p in ps <==> p == ps[0] || p in rest;
    }
  }

  /** The first-to-last scan of the landing check for a pad at (lane, row). */
  function HasPlatformAt(ps: seq<Platform>, lane: int, row: int): (found: bool)
    ensures found <==> Platform(lane, row) in ps
    decreases |ps|
  {
    if |ps| == 0 then false
    else
      assert ps == [ps[0]] + ps[1..];
      (ps[0].lane == lane && ps[0].row == row) || HasPlatformAt(ps[1..], lane, row)
  }

  /** `generateInitialWorld`: old platforms dropped, cursor reset to the centre lane, safe zone, then rows 3 .. 19. */
  function GenerateInitialWorld(draws: seq<RowDraw>): (w: World)
    requires |draws| == InitialRows - SafeZoneRows
    ensures forall lane, row {:trigger Platform(lane, row) in w.platforms} ::
      ValidLane(lane) && 0 <= row < SafeZoneRows ==> Platform(lane, row) in w.platforms
    ensures forall p {:trigger p in w.platforms} :: p in w.platforms ==> 0 <= p.row < InitialRows && ValidLane(p.lane)
    ensures ValidLane(w.lastSafeLane) && w.lastSafeLane == CursorAfter(StartLane, draws)
  {
    var zone := SafeZone();
    var g := GenerateRows(StartLane, SafeZoneRows, draws);
    assert forall p :: p in zone + g.pads ==> p in zone || p in g.pads;
    World(zone + g.pads, g.cursor)
  }

  /** The initial world lists its platforms in creation order, so no (lane, row) pair occurs twice. */
  lemma InitialWorldOrdered(draws: seq<RowDraw>)
    requires |draws| == InitialRows - SafeZoneRows
    ensures Ordered(GenerateInitialWorld(draws).platforms)
  {
    var g := GenerateRows(StartLane, SafeZoneRows, draws);
    assert GenerateInitialWorld(draws).platforms == SafeZone() + g.pads;
    GeneratedRowsOrdered(StartLane, SafeZoneRows, draws);
    OrderedAppend(SafeZone(), g.pads);
  }

  /** Rows 3 .. 19 of the initial world are crossed by their guaranteed lanes, the last of them the cursor lane. */
  lemma InitialWorldRoute(draws: seq<RowDraw>)
    requires |draws| == InitialRows - SafeZoneRows
    ensures IsPath(GenerateInitialWorld(draws).platforms, SafeLanes(StartLane, draws), SafeZoneRows)
  {
    var g := GenerateRows(StartLane, SafeZoneRows, draws);
    assert GenerateInitialWorld(draws).platforms == SafeZone() + g.pads;
    GeneratedRowsCrossable(StartLane, SafeZoneRows, draws);
    PathGrows(g.pads, SafeZone() + g.pads, SafeLanes(StartLane, draws), SafeZoneRows);
  }

  /** Every row 0 .. 19 of the initial world holds a platform, and row 19 is the furthest. */
  lemma InitialWorldRows(draws: seq<RowDraw>)
    requires |draws| == InitialRows - SafeZoneRows
    ensures forall row :: 0 <= row < InitialRows ==> RowOccupied(GenerateInitialWorld(draws).platforms, row)
    ensures FurthestRow(GenerateInitialWorld(draws).platforms) == Some(InitialRows - 1)
  {
    var ps := GenerateInitialWorld(draws).platforms;
    var lanes := SafeLanes(StartLane, draws);
    InitialWorldRoute(draws);
    PathOccupiesRows(ps, lanes, SafeZoneRows);
    forall row | 0 <= row < SafeZoneRows
      ensures RowOccupied(ps, row)
    {
      assert Platform(0, row) in ps;
    }
    PathAt(ps, lanes, SafeZoneRows, |lanes| - 1);
    FurthestRowIs(ps, Platform(lanes[|lanes| - 1], InitialRows - 1));
  }

  /**
   The five `generateRow` calls of `spawnNextRows`, before culling, when
   the furthest row is `front`: rows `front + 1 .. front + 5` are appended
   after the old platforms, and the cursor moves on.
   */
  function Extend(w: World, front: int, draws: seq<RowDraw>): (e: World)
    requires |draws| == SpawnCount
    ensures e.lastSafeLane == CursorAfter(w.lastSafeLane, draws)
  {
    var g := GenerateRows(w.lastSafeLane, front + 1, draws);
    World(w.platforms + g.pads, g.cursor)
  }

  /** Extending from a known furthest row `f` appends the rows `f + 1 ..` after the old platforms. */
  lemma ExtendAppends(w: World, draws: seq<RowDraw>, f: int)
    requires |draws| == SpawnCount
    ensures Extend(w, f, draws).platforms == w.platforms + GenerateRows(w.lastSafeLane, f + 1, draws).pads
    ensures forall p {:trigger p in w.platforms} :: p in w.platforms ==> p in Extend(w, f, draws).platforms
  {
    var g := GenerateRows(w.lastSafeLane, f + 1, draws);
    assert forall p :: p in w.platforms ==> p in w.platforms + g.pads;
  }

  /**
   Extending a world whose furthest row is f with a cursor in range adds
   rows f + 1 .. f + 5, crossed by their guaranteed lanes, so that f + 5
   becomes the furthest row.
   */
  lemma ExtendAdvancesFront(w: World, draws: seq<RowDraw>, f: int)
    requires |draws| == SpawnCount
    requires ValidLane(w.lastSafeLane)
    requires RowsUpTo(w.platforms, f)
    ensures IsPath(Extend(w, f, draws).platforms, SafeLanes(w.lastSafeLane, draws), f + 1)
    ensures RowsUpTo(Extend(w, f, draws).platforms, f + SpawnCount)
  {
    var g := GenerateRows(w.lastSafeLane, f + 1, draws);
    ExtendAppends(w, draws, f);
    GeneratedRowsCrossable(w.lastSafeLane, f + 1, draws);
    AppendRows(w.platforms, g.pads, SafeLanes(w.lastSafeLane, draws), f);
  }

  /** Rows f + 1 .. f + 5 crossed by a path, appended after rows up to f, make f + 5 the furthest row. */
  lemma AppendRows(prior: seq<Platform>, pads: seq<Platform>, lanes: seq<int>, f: int)
    requires RowsUpTo(prior, f)
    requires forall p {:trigger p in pads} :: p in pads ==> f < p.row <= f + SpawnCount
    requires IsPath(pads, lanes, f + 1)
    ensures IsPath(prior + pads, lanes, f + 1)
    ensures RowsUpTo(prior + pads, f + SpawnCount)
  {
    var ps := prior + pads;
    assert forall p :: p in ps ==> p in prior || p in pads;
    PathGrows(pads, ps, lanes, f + 1);
  }

  /** `spawnNextRows`: extend by five rows, then cull every platform more than five rows behind `frogRow`. */
  function SpawnNextRows(w: World, frogRow: int, draws: seq<RowDraw>): (r: World)
    requires |draws| == SpawnCount
    ensures r.lastSafeLane == CursorAfter(w.lastSafeLane, draws)
  {
    var front := FurthestRow(w.platforms);
    if front.None? then
      // Math.max of no rows is minus infinity: the new rows lie below every threshold and are all culled.
      World([], CursorAfter(w.lastSafeLane, draws))
    else
      var e := Extend(w, front.value, draws);
      World(Cull(e.platforms, frogRow - CullDistance), e.lastSafeLane)
  }

  /** Once the furthest row is known, `spawnNextRows` is the culled extension from that row. */
  lemma SpawnFromFront(w: World, frogRow: int, draws: seq<RowDraw>, f: int)
    requires |draws| == SpawnCount
    requires FurthestRow(w.platforms) == Some(f)
    ensures SpawnNextRows(w, frogRow, draws).platforms == Cull(Extend(w, f, draws).platforms, frogRow - CullDistance)
  {
  }

  /**
   The cull of `spawnNextRows`: nothing more than five rows behind the frog
   survives, every old platform at or ahead of that threshold does, and an
   empty world stays empty.
   */
  lemma SpawnCulls(w: World, frogRow: int, draws: seq<RowDraw>)
    requires |draws| == SpawnCount
    ensures forall p {:trigger p in SpawnNextRows(w, frogRow, draws).platforms} ::
      p in SpawnNextRows(w, frogRow, draws).platforms ==> p.row >= frogRow - CullDistance
    ensures w.platforms != [] ==> forall p {:trigger p in w.platforms} ::
      p in w.platforms && p.row >= frogRow - CullDistance ==> p in SpawnNextRows(w, frogRow, draws).platforms
    ensures w.platforms == [] ==> SpawnNextRows(w, frogRow, draws).platforms == []
  {
    var front := FurthestRow(w.platforms);
    if front.Some? {
      ExtendAppends(w, draws, front.value);
      CullMembers(Extend(w, front.value, draws).platforms, frogRow - CullDistance);
    }
  }

  /**
   What `spawnNextRows` leaves, in order: the old platforms that survive
   the cull, exactly as they were, followed by all five new rows. This
   holds whenever the cull threshold is at most one row past the old
   furthest row, as it always is in play.
   */
  lemma SpawnContents(w: World, frogRow: int, draws: seq<RowDraw>, f: int)
    requires |draws| == SpawnCount
    requires FurthestRow(w.platforms) == Some(f)
    requires frogRow - CullDistance <= f + 1
    ensures SpawnNextRows(w, frogRow, draws).platforms
         == Cull(w.platforms, frogRow - CullDistance) + GenerateRows(w.lastSafeLane, f + 1, draws).pads
  {
    var threshold := frogRow - CullDistance;
    var g := GenerateRows(w.lastSafeLane, f + 1, draws);
    SpawnFromFront(w, frogRow, draws, f);
    ExtendAppends(w, draws, f);
    CullAppend(w.platforms, g.pads, threshold);
    CullKeepsAhead(g.pads, threshold);
  }

  /**
   `spawnNextRows` moves the furthest row exactly five rows on, whenever
   the cull threshold does not pass the new furthest row.
   */
  lemma SpawnAdvancesFront(w: World, frogRow: int, draws: seq<RowDraw>, f: int)
    requires |draws| == SpawnCount
    requires ValidLane(w.lastSafeLane)
    requires FurthestRow(w.platforms) == Some(f)
    requires frogRow - CullDistance <= f + SpawnCount
    ensures FurthestRow(SpawnNextRows(w, frogRow, draws).platforms) == Some(f + SpawnCount)
  {
    var e := Extend(w, f, draws);
    var lanes := SafeLanes(w.lastSafeLane, draws);
    FurthestRowBounds(w.platforms);
    ExtendAdvancesFront(w, draws, f);
    PathAt(e.platforms, lanes, f + 1, |lanes| - 1);
    var top := Platform(lanes[|lanes| - 1], f + SpawnCount);
    FurthestRowIs(e.platforms, top);
    CullKeepsFurthest(e.platforms, frogRow - CullDistance, top);
    SpawnFromFront(w, frogRow, draws, f);
  }

  /**
   `spawnNextRows` leaves nothing below the cull threshold or below the
   old lowest row, and puts every new pad in a lane.
   */
  lemma SpawnKeepsPadsFrom(w: World, frogRow: int, draws: seq<RowDraw>, bottom: int)
    requires |draws| == SpawnCount
    requires PadsFrom(w.platforms, bottom)
    ensures PadsFrom(SpawnNextRows(w, frogRow, draws).platforms, RouteStart(bottom, frogRow - CullDistance))
  {
    var front := FurthestRow(w.platforms);
    if front.Some? {
      var f := front.value;
      var e := Extend(w, f, draws);
      var g := GenerateRows(w.lastSafeLane, f + 1, draws);
      var r := SpawnNextRows(w, frogRow, draws);
      FurthestRowBounds(w.platforms);
      ExtendAppends(w, draws, f);
      SpawnFromFront(w, frogRow, draws, f);
      CullMembers(e.platforms, frogRow - CullDistance);
      forall p | p in r.platforms
        ensures RouteStart(bottom, frogRow - CullDistance) <= p.row && ValidLane(p.lane)
      {
        assert p in w.platforms + g.pads;
        assert p in w.platforms || p in g.pads;
      }
    }
  }

  /** `spawnNextRows` keeps the platforms in creation order, so it never duplicates a (lane, row) pair. */
  lemma SpawnKeepsOrdered(w: World, frogRow: int, draws: seq<RowDraw>)
    requires |draws| == SpawnCount
    requires Ordered(w.platforms)
    ensures Ordered(SpawnNextRows(w, frogRow, draws).platforms)
  {
    var front := FurthestRow(w.platforms);
    if front.Some? {
      var f := front.value;
      var g := GenerateRows(w.lastSafeLane, f + 1, draws);
      var e := Extend(w, f, draws);
      FurthestRowBounds(w.platforms);
      GeneratedRowsOrdered(w.lastSafeLane, f + 1, draws);
      OrderedAfter(w.platforms, g.pads, f);
      ExtendAppends(w, draws, f);
      SpawnFromFront(w, frogRow, draws, f);
      CullOrdered(e.platforms, frogRow - CullDistance);
    }
  }

  /** Rows generated beyond the furthest row come after every old platform in creation order. */
  lemma OrderedAfter(prior: seq<Platform>, pads: seq<Platform>, f: int)
    requires Ordered(prior) && RowsUpTo(prior, f)
    requires Ordered(pads) && forall p {:trigger p in pads} :: p in pads ==> p.row > f
    ensures Ordered(prior + pads)
  {
    OrderedAppend(prior, pads);
  }

  /** Culling distributes over concatenation: survivors keep their relative order. */
  lemma {:induction false} CullAppend(a: seq<Platform>, b: seq<Platform>, threshold: int)
    ensures Cull(a + b, threshold) == Cull(a, threshold) + Cull(b, threshold)
    decreases |a|
  {
    if |a| == 0 {
      assert a + b == b;
    } else {
      var head := if a[0].row < threshold then [] else [a[0]];
      assert (a + b)[0] == a[0] && (a + b)[1..] == a[1..] + b;
      CullAppend(a[1..], b, threshold);
      calc {
        Cull(a + b, threshold);
        head + Cull(a[1..] + b, threshold);
        head + (Cull(a[1..], threshold) + Cull(b, threshold));
        (head + Cull(a[1..], threshold)) + Cull(b, threshold);
        Cull(a, threshold) + Cull(b, threshold);
      }
    }
  }

  /** A list lying entirely at or ahead of the threshold is left exactly as it was. */
  lemma {:induction false} CullKeepsAhead(ps: seq<Platform>, threshold: int)
    requires forall p {:trigger p in ps} :: p in ps ==> p.row >= threshold
    ensures Cull(ps, threshold) == ps
    decreases |ps|
  {
    if |ps| > 0 {
      assert ps[0] in ps;
      assert forall p :: p in ps[1..] ==> p in ps;
      CullKeepsAhead(ps[1..], threshold);
      assert ps == [ps[0]] + ps[1..];
    }
  }

  /** Culling keeps the creation order, hence the uniqueness of (lane, row) pairs. */
  lemma {:induction false} CullOrdered(ps: seq<Platform>, threshold: int)
    requires Ordered(ps)
    ensures Ordered(Cull(ps, threshold))
    decreases |ps|
  {
    if |ps| > 0 {
      var rest := ps[1..];
      assert Ordered(rest) by {
        forall i, j | 0 <= i < j < |rest|
          ensures Before(rest[i], rest[j])
        {
          assert rest[i] == ps[i + 1] && rest[j] == ps[j + 1];
        }
      }
      CullOrdered(rest, threshold);
      var head := if ps[0].row < threshold then [] else [ps[0]];
      CullMembers(rest, threshold);
      forall p, q | p in head && q in Cull(rest, threshold)
        ensures Before(p, q)
      {
        var j :| 0 <= j < |rest| && rest[j] == q;
        assert ps[j + 1] == q;
      }
      OrderedAppend(head, Cull(rest, threshold));
    }
  }

  /** Culling twice at the same threshold is culling once. */
  lemma CullIdempotent(ps: seq<Platform>, threshold: int)
    ensures Cull(Cull(ps, threshold), threshold) == Cull(ps, threshold)
  {
    CullMembers(ps, threshold);
    CullKeepsAhead(Cull(ps, threshold), threshold);
  }

  /** The furthest row is the row of a platform that no platform lies beyond. */
  lemma FurthestRowIs(ps: seq<Platform>, p: Platform)
    requires p in ps
    requires forall q {:trigger q in ps} :: q in ps ==> q.row <= p.row
    ensures FurthestRow(ps) == Some(p.row)
  {
    FurthestRowBounds(ps);
  }

  /** A path lying wholly at or ahead of the threshold survives culling. */
  lemma {:induction false} CullKeepsPath(ps: seq<Platform>, lanes: seq<int>, start: int, threshold: int)
    requires IsPath(ps, lanes, start)
    requires start >= threshold
    ensures IsPath(Cull(ps, threshold), lanes, start)
    decreases |lanes|
  {
    if |lanes| > 0 {
      CullMembers(ps, threshold);
      CullKeepsPath(ps, lanes[1..], start + 1, threshold);
    }
  }

  /**
   The world has a guaranteed route from row `from` up to row `front`, the
   furthest row, ending in the cursor lane: the rows `from .. front` have
   no gaps, and the next generated row continues the route.
   */
  ghost predicate GuaranteedPath(w: World, from: int, front: int) {
    exists lanes {:trigger ExtendsToFront(w, lanes, from)} :: ExtendsToFront(w, lanes, from) && from + |lanes| - 1 == front
  }

  predicate ExtendsToFront(w: World, lanes: seq<int>, from: int) {
    && |lanes| > 0
    && IsPath(w.platforms, lanes, from)
    && lanes[|lanes| - 1] == w.lastSafeLane
    && RowsUpTo(w.platforms, from + |lanes| - 1)
  }

  /** The end of the guaranteed route is the furthest row, `Math.max` over all platforms. */
  lemma FrontIsFurthest(w: World, lanes: seq<int>, from: int)
    requires ExtendsToFront(w, lanes, from)
    ensures FurthestRow(w.platforms) == Some(from + |lanes| - 1)
  {
    PathAt(w.platforms, lanes, from, |lanes| - 1);
    FurthestRowIs(w.platforms, Platform(lanes[|lanes| - 1], from + |lanes| - 1));
  }

  /** A route through rows `from .. front` that ends in the cursor lane, with nothing beyond `front`, is a guaranteed path. */
  lemma FrontFromParts(w: World, lanes: seq<int>, from: int, front: int)
    requires |lanes| > 0 && front == from + |lanes| - 1
    requires IsPath(w.platforms, lanes, from)
    requires lanes[|lanes| - 1] == w.lastSafeLane
    requires RowsUpTo(w.platforms, front)
    ensures ExtendsToFront(w, lanes, from)
    ensures GuaranteedPath(w, from, front)
  {
    assert ExtendsToFront(w, lanes, from);
  }

  /** Three paved rows are crossed straight up the centre lane. */
  lemma SafeZoneRoute(ps: seq<Platform>)
    requires forall lane, row {:trigger Platform(lane, row) in ps} ::
      ValidLane(lane) && 0 <= row < SafeZoneRows ==> Platform(lane, row) in ps
    ensures IsPath(ps, [StartLane, StartLane, StartLane], 0)
  {
    PathCons(ps, StartLane, [], 2);
    PathCons(ps, StartLane, [StartLane], 1);
    PathCons(ps, StartLane, [StartLane, StartLane], 0);
  }

  /** The initial world can be crossed from the frog's start, lane 1 of row 0, to the cursor lane of row 19. */
  lemma InitialWorldCrossable(draws: seq<RowDraw>)
    requires |draws| == InitialRows - SafeZoneRows
    ensures exists lanes {:trigger ExtendsToFront(GenerateInitialWorld(draws), lanes, 0)} ::
      ExtendsToFront(GenerateInitialWorld(draws), lanes, 0) && |lanes| == InitialRows && lanes[0] == StartLane
  {
    var w := GenerateInitialWorld(draws);
    var tail := SafeLanes(StartLane, draws);
    var head := [StartLane, StartLane, StartLane];
    var lanes := head + tail;
    InitialWorldRoute(draws);
    SafeZoneRoute(w.platforms);
    PathAppend(w.platforms, head, tail, 0, SafeZoneRows);
    assert lanes[|lanes| - 1] == w.lastSafeLane;
    FrontFromParts(w, lanes, 0, InitialRows - 1);
  }

  /** Culling below the furthest platform leaves the furthest row where it was. */
  lemma CullKeepsFurthest(ps: seq<Platform>, threshold: int, top: Platform)
    requires top in ps && FurthestRow(ps) == Some(top.row)
    requires top.row >= threshold
    ensures FurthestRow(Cull(ps, threshold)) == Some(top.row)
  {
    FurthestRowBounds(ps);
    CullMembers(ps, threshold);
    FurthestRowIs(Cull(ps, threshold), top);
  }

  /** The first row of a route starting at `start` that survives culling at `threshold`. */
  function RouteStart(start: int, threshold: int): (from: int)
    ensures from >= start && from >= threshold
    ensures from == start || from == threshold
  {
    if start < threshold then threshold else start
  }

  /** The five new rows continue the guaranteed route of the world they extend, up to the new front. */
  lemma ExtendKeepsRoute(w: World, draws: seq<RowDraw>, lanes: seq<int>, start: int)
    requires |draws| == SpawnCount
    requires ValidLane(w.lastSafeLane)
    requires ExtendsToFront(w, lanes, start)
    ensures GuaranteedPath(Extend(w, start + |lanes| - 1, draws), start, start + |lanes| - 1 + SpawnCount)
  {
    var f := start + |lanes| - 1;
    var e := Extend(w, f, draws);
    var added := SafeLanes(w.lastSafeLane, draws);
    ExtendAdvancesFront(w, draws, f);
    PathGrows(w.platforms, e.platforms, lanes, start);
    PathAppend(e.platforms, lanes, added, start, f + 1);
    FrontFromParts(e, lanes + added, start, f + SpawnCount);
  }

  /** Culling at or below the front keeps the part of the route at or ahead of the threshold. */
  lemma CullKeepsRoute(e: World, r: World, start: int, front: int, threshold: int)
    requires GuaranteedPath(e, start, front)
    requires threshold <= front
    requires r.platforms == Cull(e.platforms, threshold) && r.lastSafeLane == e.lastSafeLane
    ensures GuaranteedPath(r, RouteStart(start, threshold), front)
  {
    var lanes :| ExtendsToFront(e, lanes, start) && start + |lanes| - 1 == front;
    var from := RouteStart(start, threshold);
    var tail := lanes[from - start..];
    PathSuffix(e.platforms, lanes, start, from - start);
    CullKeepsPath(e.platforms, tail, from, threshold);
    CullMembers(e.platforms, threshold);
    assert tail[|tail| - 1] == lanes[|lanes| - 1];
    FrontFromParts(r, tail, from, front);
  }

  /** The cull step of `spawnNextRows` keeps the route of the extended world from the threshold on. */
  lemma SpawnCullsRoute(w: World, frogRow: int, draws: seq<RowDraw>, f: int, start: int)
    requires |draws| == SpawnCount
    requires FurthestRow(w.platforms) == Some(f)
    requires GuaranteedPath(Extend(w, f, draws), start, f + SpawnCount)
    requires frogRow - CullDistance <= f + SpawnCount
    ensures GuaranteedPath(SpawnNextRows(w, frogRow, draws), RouteStart(start, frogRow - CullDistance), f + SpawnCount)
  {
    SpawnFromFront(w, frogRow, draws, f);
    CullKeepsRoute(Extend(w, f, draws), SpawnNextRows(w, frogRow, draws), start, f + SpawnCount, frogRow - CullDistance);
  }

  /**
   `spawnNextRows` keeps the guaranteed route: the part of it at or ahead
   of the cull threshold, followed by the guaranteed lanes of the five new
   rows, reaches the new furthest row, five rows beyond the old one.
   */
  lemma SpawnKeepsPath(w: World, frogRow: int, draws: seq<RowDraw>, lanes: seq<int>, start: int)
    requires |draws| == SpawnCount
    requires ValidLane(w.lastSafeLane)
    requires ExtendsToFront(w, lanes, start)
    requires frogRow - CullDistance <= start + |lanes| - 1
    ensures GuaranteedPath(SpawnNextRows(w, frogRow, draws), RouteStart(start, frogRow - CullDistance), start + |lanes| - 1 + SpawnCount)
  {
    FrontIsFurthest(w, lanes, start);
    ExtendKeepsRoute(w, draws, lanes, start);
    SpawnCullsRoute(w, frogRow, draws, start + |lanes| - 1, start);
  }
}
