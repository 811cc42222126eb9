/** Optional values, used where the program yields "nothing" (an empty maximum, an unmapped key). */
module Options {

  datatype Option<+T> = None | Some(value: T)
}

/**
 Lanes, platforms and guaranteed paths: the vocabulary shared by the row
 generator, the world strip and the jump state machine.
 */
module Board {

  /** Lanes are numbered 0 (left), 1 (centre) and 2 (right). */
  const LaneCount: int := 3

  /** The lane the frog starts in and the lane the path cursor is reset to. */
  const StartLane: int := 1

  predicate ValidLane(lane: int) {
    0 <= lane < LaneCount
  }

  /** A single jump can take the frog from lane `a` to lane `b`. */
  predicate OneJump(a: int, b: int) {
    -1 <= b - a <= 1
  }

  /** A landing pad at a lane of a row. The `active` flag of `createPlatform` is always true and the pad's mesh is rendering. */
  datatype Platform = Platform(lane: int, row: int)

  /** Row-major order: the order in which `createPlatform` is called. */
  predicate Before(p: Platform, q: Platform) {
    p.row < q.row || (p.row == q.row && p.lane < q.lane)
  }

  /** Platforms listed strictly in creation order; in particular no (lane, row) pair occurs twice. */
  predicate Ordered(ps: seq<Platform>) {
    forall i, j :: 0 <= i < j < |ps| ==> Before(ps[i], ps[j])
  }

  /** No (lane, row) pair occurs twice. */
  predicate Unique(ps: seq<Platform>) {
    forall i, j :: 0 <= i < j < |ps| ==> ps[i] != ps[j]
  }

  /** Some lane of `row` holds a platform. */
  predicate RowOccupied(ps: seq<Platform>, row: int) {
    exists lane {:trigger Platform(lane, row) in ps} :: 0 <= lane < LaneCount && Platform(lane, row) in ps
  }

  /** Each lane of the sequence is one jump away from the lane before it. */
  predicate Steps(lanes: seq<int>) {
    forall i :: 0 <= i < |lanes| - 1 ==> OneJump(lanes[i], lanes[i + 1])
  }

  /**
   A route the frog can take through rows `start .. start + |lanes| - 1`
   without ever landing in the water: `lanes[0]` is a platform lane of row
   `start`, each later lane is one jump away from the one before, and the
   rest of the lanes form such a route from the next row on.
   */
  predicate IsPath(ps: seq<Platform>, lanes: seq<int>, start: int)
    decreases |lanes|
  {
    |lanes| == 0 ||
      (&& ValidLane(lanes[0]) && Platform(lanes[0], start) in ps
       && (|lanes| > 1 ==> OneJump(lanes[0], lanes[1]))
       && IsPath(ps, lanes[1..], start + 1))
  }

  /** The same route stated lane by lane: `lanes[i]` is a platform lane of row `start + i`, and the lanes step by single jumps. */
  predicate IndexedPath(ps: seq<Platform>, lanes: seq<int>, start: int) {
    && (forall i :: 0 <= i < |lanes| ==> ValidLane(lanes[i]) && Platform(lanes[i], start + i) in ps)
    && Steps(lanes)
  }

  lemma OrderedIsUnique(ps: seq<Platform>)
    requires Ordered(ps)
    ensures Unique(ps)
  {
  }

  /** Ordered lists concatenate to an ordered list when every element of the first comes before every element of the second. */
  lemma OrderedAppend(a: seq<Platform>, b: seq<Platform>)
    requires Ordered(a) && Ordered(b)
    requires forall p, q :: p in a && q in b ==> Before(p, q)
    ensures Ordered(a + b)
  {
    forall i, j | 0 <= i < j < |a + b|
      ensures Before((a + b)[i], (a + b)[j])
    {
      if j < |a| {
        assert (a + b)[i] == a[i] && (a + b)[j] == a[j];
      } else if i >= |a| {
        assert (a + b)[i] == b[i - |a|] && (a + b)[j] == b[j - |a|];
      } else {
        assert (a + b)[i] == a[i] && (a + b)[j] == b[j - |a|];
        assert a[i] in a && b[j - |a|] in b;
      }
    }
  }

  /** The recursive and the lane-by-lane definitions of a route agree. */
  lemma {:induction false} PathIsIndexed(ps: seq<Platform>, lanes: seq<int>, start: int)
    ensures IsPath(ps, lanes, start) <==> IndexedPath(ps, lanes, start)
    decreases |lanes|
  {
    if |lanes| > 0 {
      var rest := lanes[1..];
      PathIsIndexed(ps, rest, start + 1);
      if IsPath(ps, lanes, start) {
        forall i | 0 <= i < |lanes|
          ensures ValidLane(lanes[i]) && Platform(lanes[i], start + i) in ps
        {
          if i > 0 {
            assert lanes[i] == rest[i - 1];
          }
        }
        forall i | 0 <= i < |lanes| - 1
          ensures OneJump(lanes[i], lanes[i + 1])
        {
          if i > 0 {
            assert lanes[i] == rest[i - 1] && lanes[i + 1] == rest[i];
          }
        }
      }
      if IndexedPath(ps, lanes, start) {
        forall i | 0 <= i < |rest|
          ensures ValidLane(rest[i]) && Platform(rest[i], start + 1 + i) in ps
        {
          assert rest[i] == lanes[i + 1];
        }
        forall i | 0 <= i < |rest| - 1
          ensures OneJump(rest[i], rest[i + 1])
        {
          assert rest[i] == lanes[i + 1] && rest[i + 1] == lanes[i + 2];
        }
        assert IndexedPath(ps, rest, start + 1);
        if |lanes| > 1 {
          assert OneJump(lanes[0], lanes[1]);
        }
      }
    }
  }

  /** Each lane of a route is a platform lane of its row, one jump from the next lane. */
  lemma {:induction false} PathAt(ps: seq<Platform>, lanes: seq<int>, start: int, i: int)
    requires IsPath(ps, lanes, start)
    requires 0 <= i < |lanes|
    ensures ValidLane(lanes[i]) && Platform(lanes[i], start + i) in ps
    ensures i + 1 < |lanes| ==> OneJump(lanes[i], lanes[i + 1])
    decreases i
  {
    if i > 0 {
      PathAt(ps, lanes[1..], start + 1, i - 1);
    }
  }

  /** Every lane of a path has a platform, so every row it crosses is occupied. */
  lemma PathOccupiesRows(ps: seq<Platform>, lanes: seq<int>, start: int)
    requires IsPath(ps, lanes, start)
    ensures forall row :: start <= row < start + |lanes| ==> RowOccupied(ps, row)
  {
    forall row | start <= row < start + |lanes|
      ensures RowOccupied(ps, row)
    {
      PathAt(ps, lanes, start, row - start);
    }
  }

  /** Adding platforms never breaks a path. */
  lemma {:induction false} PathGrows(ps: seq<Platform>, ps': seq<Platform>, lanes: seq<int>, start: int)
    requires IsPath(ps, lanes, start)
    requires forall p {:trigger p in ps'} :: p in ps ==> p in ps'
    ensures IsPath(ps', lanes, start)
    decreases |lanes|
  {
    if |lanes| > 0 {
      PathGrows(ps, ps', lanes[1..], start + 1);
    }
  }

  /** A path followed by a path that begins one jump away and one row further, at row `mid`, is a path. */
  lemma {:induction false} PathAppend(ps: seq<Platform>, a: seq<int>, b: seq<int>, start: int, mid: int)
    requires IsPath(ps, a, start)
    requires mid == start + |a| && IsPath(ps, b, mid)
    requires |a| > 0 && |b| > 0 ==> OneJump(a[|a| - 1], b[0])
    ensures IsPath(ps, a + b, start)
    decreases |a|
  {
    if |a| == 0 {
      assert a + b == b;
    } else {
      assert (a + b)[1..] == a[1..] + b;
      PathAppend(ps, a[1..], b, start + 1, mid);
    }
  }

  /** A platform one jump before the start of a path extends it by one row. */
  lemma PathCons(ps: seq<Platform>, lane: int, tail: seq<int>, start: int)
    requires ValidLane(lane) && Platform(lane, start) in ps
    requires IsPath(ps, tail, start + 1)
    requires |tail| > 0 ==> OneJump(lane, tail[0])
    ensures IsPath(ps, [lane] + tail, start)
  {
    assert ([lane] + tail)[1..] == tail;
  }

  /** Dropping the first `k` lanes of a path leaves a path that starts `k` rows later. */
  lemma {:induction false} PathSuffix(ps: seq<Platform>, lanes: seq<int>, start: int, k: nat)
    requires IsPath(ps, lanes, start)
    requires k <= |lanes|
    ensures IsPath(ps, lanes[k..], start + k)
    decreases k
  {
    if k > 0 {
      PathSuffix(ps, lanes[1..], start + 1, k - 1);
      assert lanes[1..][k - 1..] == lanes[k..];
    }
  }
}
