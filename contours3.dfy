/**
 * The stitcher of the third Rust contour sketch: the same greedy loop as the
 * shared utilities, but a matched segment contributes only its FAR endpoint,
 * so every segment after the first adds exactly one point, and endpoints are
 * matched when they are closer than 0.1.
 */
module Contours3 {
  import opened Geometry
  import opened ContourExtract
  import opened SegmentPool
  import opened Chaining

  /** `close_enough`: two points closer than 0.1. */
  const CloseEnough: real := 0.1

  predicate IsClose(p: Vec2, q: Vec2)
  {
    Near(p, q, CloseEnough)
  }

  /**
   * The point added for a segment matched at `p`: its second endpoint when
   * its first is close to `p`, otherwise its first.
   */
  function OtherEnd(s: Segment, p: Vec2): (q: Vec2)
    ensures q == s.p0 || q == s.p1
    ensures !IsClose(s.p0, p) ==> q == s.p0
  {
    if IsClose(s.p0, p) then s.p1 else s.p0
  }

  /**
   * `connect_contour_segments` of the third sketch. The ghost `chains`
   * records, for each line, its segments in the order they lie along it.
   */
  method ConnectContourSegments(segments: seq<Segment>) returns (lines: seq<seq<Vec2>>, ghost chains: seq<seq<Segment>>)
    ensures |lines| == |chains| <= |segments|
    ensures lines == [] <==> segments == []
    // every input segment is used by exactly one line
    ensures multiset(Concat(chains)) == multiset(segments)
    // each segment adds one point to its line, and each line has one more
    ensures TotalLength(lines) == |segments| + |lines|
    ensures forall k :: 0 <= k < |lines| ==>
      chains[k] != [] && |lines[k]| == |chains[k]| + 1 && multiset(lines[k]) <= Endpoints(chains[k])
    // consecutive points are the two ends of one segment, joints snapped within 0.1
    ensures forall k, i :: 0 <= k < |lines| && 0 <= i < |chains[k]| ==> Spans(lines[k][i], lines[k][i + 1], chains[k][i], CloseEnough)
    // a line is emitted only when no remaining segment joins either of its ends
    ensures forall k, k2, s :: 0 <= k < k2 < |lines| && s in chains[k2] ==> !Touches(lines[k], s, CloseEnough)
    ensures |segments| == 1 ==> lines == [[segments[0].p0, segments[0].p1]]
  {
    var pool := segments;
    lines, chains := [], [];
    StitchedStart(segments, CloseEnough);
    while pool != []
      invariant |lines| <= |segments| - |pool|
      invariant Stitched(segments, lines, chains, pool, CloseEnough)
      invariant lines == [] ==> pool == segments
      invariant |segments| == 1 && lines != [] ==> lines == [[segments[0].p0, segments[0].p1]] && pool == []
      decreases |pool|
    {
      lines, chains, pool := EmitLine(segments, lines, chains, pool);
    }
    StitchedDone(segments, lines, chains, CloseEnough);
  }

  /** One round of the outer loop: pop the last segment, grow it into a line, emit the line. */
  method EmitLine(ghost segments: seq<Segment>, lines0: seq<seq<Vec2>>, ghost chains0: seq<seq<Segment>>, pool0: seq<Segment>)
    returns (lines: seq<seq<Vec2>>, ghost chains: seq<seq<Segment>>, pool: seq<Segment>)
    requires pool0 != [] && Stitched(segments, lines0, chains0, pool0, CloseEnough)
    ensures Stitched(segments, lines, chains, pool, CloseEnough)
    ensures |lines| == |lines0| + 1 && |pool| < |pool0|
    ensures |pool0| == 1 ==> lines == lines0 + [[pool0[0].p0, pool0[0].p1]] && pool == []
  {
    var first := pool0[|pool0| - 1];
    var rest := pool0[..|pool0| - 1];
    SplitLast(pool0);
    TracesOne(first, CloseEnough);
    var line;
    ghost var chain;
    line, chain, pool := GrowLine([first.p0, first.p1], [first], rest);
    StitchStep(segments, lines0, chains0, pool0, first, rest, line, chain, pool, CloseEnough);
    lines := lines0 + [line];
    chains := chains0 + [chain];
  }

  /** The inner loop: extend the line at its head, then its tail, until neither end is joined. */
  method GrowLine(line0: seq<Vec2>, ghost chain0: seq<Segment>, pool0: seq<Segment>)
    returns (line: seq<Vec2>, ghost chain: seq<Segment>, pool: seq<Segment>)
    requires Traces(line0, chain0, CloseEnough)
    ensures Traces(line, chain, CloseEnough)
    ensures Moved(chain0, pool0, chain, pool)
    ensures forall s :: s in pool ==> !Touches(line, s, CloseEnough)
    ensures pool0 == [] ==> line == line0 && chain == chain0 && pool == []
  {
    line, chain, pool := line0, chain0, pool0;
    while true
      invariant Traces(line, chain, CloseEnough)
      invariant Moved(chain0, pool0, chain, pool)
      invariant pool0 == [] ==> line == line0 && chain == chain0 && pool == []
      decreases |pool|
    {
      ghost var (chain1, pool1) := (chain, pool);
      var done;
      line, chain, pool, done := ExtendBoth(line, chain, pool);
      MovedTrans(chain0, pool0, chain1, pool1, chain, pool);
      if done {
        break;
      }
    }
  }

  /** One pass of the inner loop: the head search, then the tail search. */
  method ExtendBoth(line0: seq<Vec2>, ghost chain0: seq<Segment>, pool0: seq<Segment>)
    returns (line: seq<Vec2>, ghost chain: seq<Segment>, pool: seq<Segment>, done: bool)
    requires Traces(line0, chain0, CloseEnough)
    ensures Traces(line, chain, CloseEnough)
    ensures Moved(chain0, pool0, chain, pool)
    ensures done ==> line == line0 && chain == chain0 && pool == pool0
    ensures done ==> forall s :: s in pool ==> !Touches(line, s, CloseEnough)
    ensures !done ==> |pool| < |pool0|
  {
    var noHead, noTail;
    line, chain, pool, noHead := ExtendHead(line0, chain0, pool0);
    ghost var (chain1, pool1) := (chain, pool);
    line, chain, pool, noTail := ExtendTail(line, chain, pool);
    MovedTrans(chain0, pool0, chain1, pool1, chain, pool);
    done := noHead && noTail;
    if done {
      forall s | s in pool
        ensures !Touches(line, s, CloseEnough)
      {
        var i :| 0 <= i < |pool| && pool[i] == s;
      }
    }
  }

  /** The head search: the last segment close to the line's last point gives its other endpoint. */
  method ExtendHead(line0: seq<Vec2>, ghost chain0: seq<Segment>, pool0: seq<Segment>)
    returns (line: seq<Vec2>, ghost chain: seq<Segment>, pool: seq<Segment>, none: bool)
    requires Traces(line0, chain0, CloseEnough)
    ensures Traces(line, chain, CloseEnough)
    ensures Moved(chain0, pool0, chain, pool)
    ensures none <==> forall i :: 0 <= i < |pool0| ==> !Joins(line0[|line0| - 1], pool0[i], CloseEnough)
    ensures none ==> line == line0 && chain == chain0 && pool == pool0
    ensures !none ==> |pool| == |pool0| - 1 && |line| == |line0| + 1 && line[..|line0|] == line0
    // the segment taken is the last one joining the last point, and its other endpoint is pushed
    ensures !none ==> LastJoining(pool0, line0[|line0| - 1], CloseEnough).Some?
    ensures !none ==> var i := LastJoining(pool0, line0[|line0| - 1], CloseEnough).value;
      pool == RemoveAt(pool0, i) && line == line0 + [OtherEnd(pool0[i], line0[|line0| - 1])]
  {
    line, chain, pool := line0, chain0, pool0;
    var head := LastJoining(pool, line[|line| - 1], CloseEnough);
    none := head.None?;
    if head.Some? {
      var index := head.value;
      var s := pool[index];
      NearSymmetric(line[|line| - 1], s.p0, CloseEnough);
      var far := OtherEnd(s, line[|line| - 1]);
      TakeAtHead(line, chain, pool, index, far, CloseEnough);
      line, chain, pool := line + [far], chain + [s], RemoveAt(pool, index);
    }
  }

  /** The tail search: the last segment close to the line's first point gives its other endpoint. */
  method ExtendTail(line0: seq<Vec2>, ghost chain0: seq<Segment>, pool0: seq<Segment>)
    returns (line: seq<Vec2>, ghost chain: seq<Segment>, pool: seq<Segment>, none: bool)
    requires Traces(line0, chain0, CloseEnough)
    ensures Traces(line, chain, CloseEnough)
    ensures Moved(chain0, pool0, chain, pool)
    ensures none <==> forall i :: 0 <= i < |pool0| ==> !Joins(line0[0], pool0[i], CloseEnough)
    ensures none ==> line == line0 && chain == chain0 && pool == pool0
    ensures !none ==> |pool| == |pool0| - 1 && |line| == |line0| + 1 && line[1..] == line0
    // the segment taken is the last one joining the first point, and its other endpoint is inserted
    ensures !none ==> LastJoining(pool0, line0[0], CloseEnough).Some?
    ensures !none ==> var i := LastJoining(pool0, line0[0], CloseEnough).value;
      pool == RemoveAt(pool0, i) && line == [OtherEnd(pool0[i], line0[0])] + line0
  {
    line, chain, pool := line0, chain0, pool0;
    var tail := LastJoining(pool, line[0], CloseEnough);
    none := tail.None?;
    if tail.Some? {
      var index := tail.value;
      var s := pool[index];
      NearSymmetric(line[0], s.p0, CloseEnough);
      NearSymmetric(line[0], s.p1, CloseEnough);
      var far := OtherEnd(s, line[0]);
      TakeAtTail(line, chain, pool, index, far, CloseEnough);
      line, chain, pool := [far] + line, [s] + chain, RemoveAt(pool, index);
    }
  }
}
