/**
 * The shared Rust contour utilities: greedy stitching of contour segments
 * into polylines, appending BOTH endpoints of every matched segment.
 */
module ContoursUtil {
  import opened Wrappers
  import opened Geometry
  import opened ContourExtract
  import opened SegmentPool

  /** `is_near`: two points closer than one unit. */
  const NearDistance: real := 1.0

  predicate IsNear(p: Vec2, q: Vec2)
  {
    Near(p, q, NearDistance)
  }

  /**
   * `connect_contour_segments`. The pool is consumed from its end; each
   * chain starts from the popped segment and is extended at its last point
   * (head search) and then at its first point (tail search) by the last
   * matching segment in pool order, both endpoints of which are added. A
   * chain is emitted when neither search finds a segment.
   *
   * The ghost `chains` records which input segments went into each line.
   */
  method ConnectContourSegments(segments: seq<Segment>) returns (lines: seq<seq<Vec2>>, ghost chains: seq<seq<Segment>>)
    ensures |lines| == |chains| <= |segments|
    ensures lines == [] <==> segments == []
    // no point is invented and none is dropped
    ensures multiset(Flatten(lines)) == Endpoints(segments)
    // every input segment is taken from the pool exactly once
    ensures multiset(Concat(chains)) == multiset(segments)
    // each match adds exactly two points: the line holds its chain's endpoints
    ensures forall k :: 0 <= k < |lines| ==>
      chains[k] != [] && |lines[k]| == 2 * |chains[k]| && multiset(lines[k]) == Endpoints(chains[k])
    // each line is a polyline: a segment's start lies near the end of the segment before it
    ensures forall k :: 0 <= k < |lines| ==> Linked(lines[k])
    // a line is emitted only when no remaining segment joins either of its ends
    ensures forall k, k2, s :: 0 <= k < k2 < |lines| && s in chains[k2] ==> !Touches(lines[k], s, NearDistance)
    ensures |segments| == 1 ==> lines == [[segments[0].p0, segments[0].p1]]
  {
    var pool := segments;
    lines, chains := [], [];
    StitchedStart(segments);
    while pool != []
      invariant |lines| <= |segments| - |pool|
      invariant Stitched(segments, lines, chains, pool)
      invariant lines == [] ==> pool == segments
      invariant |segments| == 1 && lines != [] ==> lines == [[segments[0].p0, segments[0].p1]] && pool == []
      decreases |pool|
    {
      lines, chains, pool := EmitLine(segments, lines, chains, pool);
    }
    StitchedDone(segments, lines, chains);
  }

  /** One round of the outer loop: pop the last segment, grow it into a line, emit the line. */
  method EmitLine(ghost segments: seq<Segment>, lines0: seq<seq<Vec2>>, ghost chains0: seq<seq<Segment>>, pool0: seq<Segment>)
    returns (lines: seq<seq<Vec2>>, ghost chains: seq<seq<Segment>>, pool: seq<Segment>)
    requires pool0 != [] && Stitched(segments, lines0, chains0, pool0)
    ensures Stitched(segments, lines, chains, pool)
    ensures |lines| == |lines0| + 1 && |pool| < |pool0|
    ensures |pool0| == 1 ==> lines == lines0 + [[pool0[0].p0, pool0[0].p1]] && pool == []
  {
    var first := pool0[|pool0| - 1];
    var rest := pool0[..|pool0| - 1];
    SplitLast(pool0);
    HoldsOne(first);
    var line;
    ghost var chain;
    line, chain, pool := GrowLine([first.p0, first.p1], [first], rest);
    StitchStep(segments, lines0, chains0, pool0, first, rest, line, chain, pool);
    lines := lines0 + [line];
    chains := chains0 + [chain];
  }

  lemma StitchedStart(segments: seq<Segment>)
    ensures Stitched(segments, [], [], segments)
  {
    assert Flatten([]) == [];
    assert Concat([]) == [];
  }

  lemma StitchedDone(segments: seq<Segment>, lines: seq<seq<Vec2>>, chains: seq<seq<Segment>>)
    requires Stitched(segments, lines, chains, [])
    ensures multiset(Flatten(lines)) == Endpoints(segments)
    ensures multiset(Concat(chains)) == multiset(segments)
    ensures forall k :: 0 <= k < |lines| ==>
      chains[k] != [] && |lines[k]| == 2 * |chains[k]| && multiset(lines[k]) == Endpoints(chains[k])
    ensures forall k :: 0 <= k < |lines| ==> Linked(lines[k])
    ensures forall k, k2, s :: 0 <= k < k2 < |lines| && s in chains[k2] ==> !Touches(lines[k], s, NearDistance)
  {
    assert Endpoints([]) == multiset{};
    var none: seq<Segment> := [];
    assert multiset(none) == multiset{};
  }

  /** The bookkeeping of the outer loop: what has been emitted plus the pool is the input. */
  ghost predicate Stitched(segments: seq<Segment>, lines: seq<seq<Vec2>>, chains: seq<seq<Segment>>, pool: seq<Segment>)
  {
    && |lines| == |chains|
    && multiset(Concat(chains)) + multiset(pool) == multiset(segments)
    && multiset(Flatten(lines)) + Endpoints(pool) == Endpoints(segments)
    && AllHold(lines, chains)
    && Separated(lines, chains, pool, NearDistance)
  }

  ghost predicate AllHold(lines: seq<seq<Vec2>>, chains: seq<seq<Segment>>)
    requires |lines| == |chains|
  {
    forall k :: 0 <= k < |lines| ==> Holds(lines[k], chains[k])
  }

  lemma AllHoldStep(lines: seq<seq<Vec2>>, chains: seq<seq<Segment>>, line: seq<Vec2>, chain: seq<Segment>)
    requires |lines| == |chains| && AllHold(lines, chains) && Holds(line, chain)
    ensures AllHold(lines + [line], chains + [chain])
  {
    var lines', chains' := lines + [line], chains + [chain];
    forall k | 0 <= k < |lines'| ensures Holds(lines'[k], chains'[k]) {
      if k < |lines| {
        assert lines'[k] == lines[k] && chains'[k] == chains[k];
      }
    }
  }

  lemma StitchStep(segments: seq<Segment>, lines: seq<seq<Vec2>>, chains: seq<seq<Segment>>,
                   before: seq<Segment>, first: Segment, rest: seq<Segment>,
                   line: seq<Vec2>, chain: seq<Segment>, pool: seq<Segment>)
    requires Stitched(segments, lines, chains, before)
    requires before == rest + [first]
    requires Holds(line, chain)
    requires Moved([first.p0, first.p1], [first], rest, line, chain, pool)
    requires forall s :: s in pool ==> !Touches(line, s, NearDistance)
    ensures Stitched(segments, lines + [line], chains + [chain], pool)
  {
    AllHoldStep(lines, chains, line, chain);
    SegmentsStep(segments, chains, before, first, rest, chain, pool);
    PointsStep(segments, lines, before, first, rest, line, pool);
    forall s | s in chain ensures s in before {
      SumMember(s, chain, pool, before);
    }
    forall s | s in pool ensures s in before {
      SumMember(s, pool, chain, before);
    }
    SeparatedStep(lines, chains, before, line, chain, pool, NearDistance);
  }

  lemma PointsStep(segments: seq<Segment>, lines: seq<seq<Vec2>>, before: seq<Segment>, first: Segment,
                   rest: seq<Segment>, line: seq<Vec2>, pool: seq<Segment>)
    requires multiset(Flatten(lines)) + Endpoints(before) == Endpoints(segments)
    requires before == rest + [first]
    requires multiset(line) + Endpoints(pool) == multiset([first.p0, first.p1]) + Endpoints(rest)
    ensures multiset(Flatten(lines + [line])) + Endpoints(pool) == Endpoints(segments)
  {
    EndpointsSnoc(rest, first);
    FlattenSnoc(lines, line);
    var e := multiset{first.p0, first.p1};
    assert multiset([first.p0, first.p1]) == e;
    var f := multiset(Flatten(lines));
    assert multiset(Flatten(lines + [line])) == f + multiset(line);
    UnionAssoc(f, multiset(line), Endpoints(pool));
    UnionComm(e, Endpoints(rest));
  }

  /** A line holding exactly the endpoints of the (non-empty) chain it was built from. */
  ghost predicate Holds(line: seq<Vec2>, chain: seq<Segment>)
  {
    line != [] && chain != [] && |line| == 2 * |chain| && multiset(line) == Endpoints(chain) && Linked(line)
  }

  /**
   * The line is a polyline of whole segments: every second point starts a
   * new segment, and it lies near the point before it.
   */
  predicate Linked(line: seq<Vec2>)
  {
    forall i, j :: 0 <= i && j == i + 1 < |line| && i % 2 == 1 ==> IsNear(line[i], line[j])
  }

  /**
   * Going from (line0, chain0, pool0) to (line, chain, pool) only moved
   * segments from the pool into the chain and their endpoints into the line.
   */
  ghost predicate Moved(line0: seq<Vec2>, chain0: seq<Segment>, pool0: seq<Segment>,
                        line: seq<Vec2>, chain: seq<Segment>, pool: seq<Segment>)
  {
    && multiset(chain) + multiset(pool) == multiset(chain0) + multiset(pool0)
    && multiset(line) + Endpoints(pool) == multiset(line0) + Endpoints(pool0)
    && multiset(pool) <= multiset(pool0)
  }

  /**
   * The inner loop of `connect_contour_segments`: extend one line at its
   * head and then its tail until neither end is joined by a pool segment.
   */
  method GrowLine(line0: seq<Vec2>, ghost chain0: seq<Segment>, pool0: seq<Segment>)
    returns (line: seq<Vec2>, ghost chain: seq<Segment>, pool: seq<Segment>)
    requires Holds(line0, chain0)
    ensures Holds(line, chain)
    ensures Moved(line0, chain0, pool0, line, chain, pool)
    ensures |pool| <= |pool0|
    ensures forall s :: s in pool ==> !Touches(line, s, NearDistance)
    ensures pool0 == [] ==> line == line0 && chain == chain0 && pool == []
  {
    line, chain, pool := line0, chain0, pool0;
    while true
      invariant Holds(line, chain)
      invariant Moved(line0, chain0, pool0, line, chain, pool)
      invariant |pool| <= |pool0|
      invariant pool0 == [] ==> line == line0 && chain == chain0 && pool == []
      decreases |pool|
    {
      ghost var (line1, chain1, pool1) := (line, chain, pool);
      var done;
      line, chain, pool, done := ExtendBoth(line, chain, pool);
      MovedTrans(line0, chain0, pool0, line1, chain1, pool1, line, chain, pool);
      if done {
        break;
      }
    }
  }

  /**
   * One pass of the inner loop: the head search, then the tail search; the
   * line is complete when neither found a segment.
   */
  method ExtendBoth(line0: seq<Vec2>, ghost chain0: seq<Segment>, pool0: seq<Segment>)
    returns (line: seq<Vec2>, ghost chain: seq<Segment>, pool: seq<Segment>, done: bool)
    requires Holds(line0, chain0)
    ensures Holds(line, chain)
    ensures Moved(line0, chain0, pool0, line, chain, pool)
    ensures done ==> line == line0 && chain == chain0 && pool == pool0
    ensures done ==> forall s :: s in pool ==> !Touches(line, s, NearDistance)
    ensures !done ==> |pool| < |pool0|
  {
    var noHead, noTail;
    line, chain, pool, noHead := ExtendHead(line0, chain0, pool0);
    ghost var (line1, chain1, pool1) := (line, chain, pool);
    line, chain, pool, noTail := ExtendTail(line, chain, pool);
    MovedTrans(line0, chain0, pool0, line1, chain1, pool1, line, chain, pool);
    done := noHead && noTail;
    if done {
      forall s | s in pool
        ensures !Touches(line, s, NearDistance)
      {
        var i :| 0 <= i < |pool| && pool[i] == s;
      }
    }
  }

  /** The head search: join the last segment near the line's last point, near endpoint first. */
  method ExtendHead(line0: seq<Vec2>, ghost chain0: seq<Segment>, pool0: seq<Segment>)
    returns (line: seq<Vec2>, ghost chain: seq<Segment>, pool: seq<Segment>, none: bool)
    requires Holds(line0, chain0)
    ensures Holds(line, chain)
    ensures Moved(line0, chain0, pool0, line, chain, pool)
    ensures none <==> forall i :: 0 <= i < |pool0| ==> !Joins(line0[|line0| - 1], pool0[i], NearDistance)
    ensures none ==> line == line0 && chain == chain0 && pool == pool0
    ensures !none ==> |pool| == |pool0| - 1 && |line| == |line0| + 2 && line[..|line0|] == line0
    // the segment taken is the last one near the last point; it leaves the pool, near endpoint pushed first
    ensures !none ==> LastJoining(pool0, line0[|line0| - 1], NearDistance).Some?
    ensures !none ==> var i := LastJoining(pool0, line0[|line0| - 1], NearDistance).value;
      && pool == RemoveAt(pool0, i)
      && line == line0 + (if IsNear(pool0[i].p0, line0[|line0| - 1]) then [pool0[i].p0, pool0[i].p1] else [pool0[i].p1, pool0[i].p0])
  {
    line, chain, pool := line0, chain0, pool0;
    var head := LastJoining(pool, line[|line| - 1], NearDistance);
    none := head.None?;
    if head.Some? {
      var index := head.value;
      var s := pool[index];
      var grown;
      NearSymmetric(line[|line| - 1], s.p0, NearDistance);
      if IsNear(s.p0, line[|line| - 1]) {
        TakeAtHead(line, chain, pool, index, s.p0, s.p1);
        grown := line + [s.p0, s.p1];
      } else {
        TakeAtHead(line, chain, pool, index, s.p1, s.p0);
        grown := line + [s.p1, s.p0];
      }
      line, chain, pool := grown, chain + [s], RemoveAt(pool, index);
    }
  }

  /** The tail search: join the last segment near the line's first point, far endpoint first. */
  method ExtendTail(line0: seq<Vec2>, ghost chain0: seq<Segment>, pool0: seq<Segment>)
    returns (line: seq<Vec2>, ghost chain: seq<Segment>, pool: seq<Segment>, none: bool)
    requires Holds(line0, chain0)
    ensures Holds(line, chain)
    ensures Moved(line0, chain0, pool0, line, chain, pool)
    ensures none <==> forall i :: 0 <= i < |pool0| ==> !Joins(line0[0], pool0[i], NearDistance)
    ensures none ==> line == line0 && chain == chain0 && pool == pool0
    ensures !none ==> |pool| == |pool0| - 1 && |line| == |line0| + 2 && line[2..] == line0
    // the segment taken is the last one near the first point; it leaves the pool, near endpoint pushed to the front first
    ensures !none ==> LastJoining(pool0, line0[0], NearDistance).Some?
    ensures !none ==> var i := LastJoining(pool0, line0[0], NearDistance).value;
      && pool == RemoveAt(pool0, i)
      && line == (if IsNear(pool0[i].p0, line0[0]) then [pool0[i].p1, pool0[i].p0] else [pool0[i].p0, pool0[i].p1]) + line0
  {
    line, chain, pool := line0, chain0, pool0;
    var tail := LastJoining(pool, line[0], NearDistance);
    none := tail.None?;
    if tail.Some? {
      var index := tail.value;
      var s := pool[index];
      var grown;
      NearSymmetric(line[0], s.p0, NearDistance);
      NearSymmetric(line[0], s.p1, NearDistance);
      if IsNear(s.p0, line[0]) {
        TakeAtTail(line, chain, pool, index, s.p1, s.p0);
        grown := [s.p1, s.p0] + line;
      } else {
        TakeAtTail(line, chain, pool, index, s.p0, s.p1);
        grown := [s.p0, s.p1] + line;
      }
      line, chain, pool := grown, chain + [s], RemoveAt(pool, index);
    }
  }

  /** The head search's step: the matched segment's points go after the line, the near one first. */
  lemma TakeAtHead(line: seq<Vec2>, chain: seq<Segment>, pool: seq<Segment>, index: nat, a: Vec2, b: Vec2)
    requires Holds(line, chain) && index < |pool|
    requires multiset{a, b} == multiset{pool[index].p0, pool[index].p1}
    requires IsNear(line[|line| - 1], a)
    ensures Holds(line + [a, b], chain + [pool[index]])
    ensures Moved(line, chain, pool, line + [a, b], chain + [pool[index]], RemoveAt(pool, index))
  {
    assert multiset(line + [a, b]) == multiset(line) + multiset{a, b};
    TakeSegment(line, chain, pool, index, line + [a, b]);
    LinkedAppend(line, |chain|, a, b);
  }

  /** The tail search's step: the matched segment's points go before the line, the far one first. */
  lemma TakeAtTail(line: seq<Vec2>, chain: seq<Segment>, pool: seq<Segment>, index: nat, a: Vec2, b: Vec2)
    requires Holds(line, chain) && index < |pool|
    requires multiset{a, b} == multiset{pool[index].p0, pool[index].p1}
    requires IsNear(b, line[0])
    ensures Holds([a, b] + line, chain + [pool[index]])
    ensures Moved(line, chain, pool, [a, b] + line, chain + [pool[index]], RemoveAt(pool, index))
  {
    assert multiset([a, b] + line) == multiset{a, b} + multiset(line);
    TakeSegment(line, chain, pool, index, [a, b] + line);
    LinkedPrepend(line, |chain|, a, b);
  }

  lemma HoldsOne(s: Segment)
    ensures Holds([s.p0, s.p1], [s])
  {
    EndpointsOne(s);
  }

  lemma LinkedAppend(line: seq<Vec2>, n: nat, a: Vec2, b: Vec2)
    requires line != [] && |line| == 2 * n && Linked(line)
    requires IsNear(line[|line| - 1], a)
    ensures Linked(line + [a, b])
  {
    var grown := line + [a, b];
    assert |line| % 2 == 0;
    forall i, j | 0 <= i && j == i + 1 < |grown| && i % 2 == 1
      ensures IsNear(grown[i], grown[j])
    {
      if j < |line| {
        assert grown[i] == line[i] && grown[j] == line[j];
      }
    }
  }

  lemma LinkedPrepend(line: seq<Vec2>, n: nat, a: Vec2, b: Vec2)
    requires line != [] && |line| == 2 * n && Linked(line)
    requires IsNear(b, line[0])
    ensures Linked([a, b] + line)
  {
    var grown := [a, b] + line;
    assert |line| % 2 == 0;
    forall i, j | 0 <= i && j == i + 1 < |grown| && i % 2 == 1
      ensures IsNear(grown[i], grown[j])
    {
      if i > 1 {
        assert grown[i] == line[i - 2] && grown[j] == line[j - 2];
        assert (i - 2) % 2 == 1;
      }
    }
  }

  lemma MovedTrans(l0: seq<Vec2>, c0: seq<Segment>, p0: seq<Segment>,
                   l1: seq<Vec2>, c1: seq<Segment>, p1: seq<Segment>,
                   l2: seq<Vec2>, c2: seq<Segment>, p2: seq<Segment>)
    requires Moved(l0, c0, p0, l1, c1, p1) && Moved(l1, c1, p1, l2, c2, p2)
    ensures Moved(l0, c0, p0, l2, c2, p2)
  {
  }

  /** Moving pool[index] into the chain while its two endpoints join the line keeps the bookkeeping. */
  lemma TakeSegment(line: seq<Vec2>, chain: seq<Segment>, pool: seq<Segment>, index: nat, grown: seq<Vec2>)
    requires index < |pool|
    requires multiset(line) == Endpoints(chain)
    requires multiset(grown) == multiset(line) + multiset{pool[index].p0, pool[index].p1}
    ensures multiset(grown) == Endpoints(chain + [pool[index]])
    ensures multiset(chain + [pool[index]]) + multiset(RemoveAt(pool, index)) == multiset(chain) + multiset(pool)
    ensures multiset(grown) + Endpoints(RemoveAt(pool, index)) == multiset(line) + Endpoints(pool)
  {
    var s := pool[index];
    var rest := RemoveAt(pool, index);
    EndpointsRemoveAt(pool, index);
    EndpointsSnoc(chain, s);
    assert multiset(chain + [s]) == multiset(chain) + multiset{s};
    UnionShift(multiset(chain), multiset{s}, multiset(rest));
    UnionShift(multiset(line), multiset{s.p0, s.p1}, Endpoints(rest));
  }
}
