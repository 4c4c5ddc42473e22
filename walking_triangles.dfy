/**
 * The stitcher of the walking-triangles TypeScript utilities, as written.
 * It follows the shared Rust stitcher, with one difference: the
 * head and tail candidates are both collected from the pool BEFORE either is
 * spliced out, so the tail's index can be stale once the head segment has
 * been removed. Then the wrong segment (or none) leaves the pool, and a
 * segment can be joined twice or lost.
 *
 * Its `contourLine`, `calcTriangles` and `calcContour` are the same code as
 * the ones modelled in ContourExtract.
 */
module WalkingTriangles {
  import opened Wrappers
  import opened Geometry
  import opened ContourExtract
  import opened SegmentPool

  /** `splice(index, 1)`: drops element `i`, or nothing when `i` is past the end. */
  function SpliceOne<T>(s: seq<T>, i: nat): (r: seq<T>)
    ensures i < |s| ==> |r| == |s| - 1
    ensures i >= |s| ==> r == s
  {
    if i < |s| then RemoveAt(s, i) else s
  }

  /** The index `pop()` returns from a candidate list, if any. */
  function LastOf(indices: seq<nat>): Option<nat>
  {
    if indices == [] then None else Some(indices[|indices| - 1])
  }

  /**
   * The scan over `segments.entries()`: the indices of the segments joining
   * the last point (head candidates) and the first point (tail candidates),
   * in pool order, so that `pop()` yields the last of each.
   */
  method CollectCandidates(line: seq<Vec2>, pool: seq<Segment>, eps: real) returns (head: seq<nat>, tail: seq<nat>)
    requires line != []
    ensures LastOf(head) == LastJoining(pool, line[|line| - 1], eps)
    ensures LastOf(tail) == LastJoining(pool, line[0], eps)
    ensures forall k :: 0 <= k < |head| ==> head[k] < |pool| && Joins(line[|line| - 1], pool[head[k]], eps)
    ensures forall k :: 0 <= k < |tail| ==> tail[k] < |pool| && Joins(line[0], pool[tail[k]], eps)
  {
    head, tail := [], [];
    var index: nat := 0;
    while index < |pool|
      invariant 0 <= index <= |pool|
      invariant Candidates(pool, line[|line| - 1], eps, index, head)
      invariant Candidates(pool, line[0], eps, index, tail)
    {
      var seg := pool[index];
      CandidatesNext(pool, line[|line| - 1], eps, index, head);
      CandidatesNext(pool, line[0], eps, index, tail);
      if Joins(line[|line| - 1], seg, eps) {
        head := head + [index];
      }
      if Joins(line[0], seg, eps) {
        tail := tail + [index];
      }
      index := index + 1;
    }
    CandidatesDone(pool, line[|line| - 1], eps, head);
    CandidatesDone(pool, line[0], eps, tail);
  }

  /** The indices, in order, of the segments among the first `upto` that join `p`, as `pop()` and the bounds see them. */
  predicate Candidates(pool: seq<Segment>, p: Vec2, eps: real, upto: nat, indices: seq<nat>)
    requires upto <= |pool|
  {
    && LastOf(indices) == LastJoining(pool[..upto], p, eps)
    && forall k :: 0 <= k < |indices| ==> indices[k] < upto && Joins(p, pool[indices[k]], eps)
  }

  /** Once the scan has covered the whole pool, the candidates are those of the pool. */
  lemma CandidatesDone(pool: seq<Segment>, p: Vec2, eps: real, indices: seq<nat>)
    requires Candidates(pool, p, eps, |pool|, indices)
    ensures LastOf(indices) == LastJoining(pool, p, eps)
    ensures forall k :: 0 <= k < |indices| ==> indices[k] < |pool| && Joins(p, pool[indices[k]], eps)
  {
    assert pool[..|pool|] == pool;
  }

  /** Scanning one more segment: it is recorded, and is the new last match, exactly when it joins `p`. */
  lemma CandidatesNext(pool: seq<Segment>, p: Vec2, eps: real, index: nat, indices: seq<nat>)
    requires index < |pool| && Candidates(pool, p, eps, index, indices)
    ensures Candidates(pool, p, eps, index + 1, if Joins(p, pool[index], eps) then indices + [index] else indices)
  {
    assert pool[..index + 1][..index] == pool[..index];
  }

  /** The head step: push the matched segment's points, the one near the last point first. */
  function HeadPush(line: seq<Vec2>, seg: Segment, eps: real): (r: seq<Vec2>)
    requires line != []
    ensures |r| == |line| + 2 && r[..|line|] == line
    ensures multiset(r[|line|..]) == multiset{seg.p0, seg.p1}
  {
    if Near(seg.p0, line[|line| - 1], eps) then line + [seg.p0, seg.p1] else line + [seg.p1, seg.p0]
  }

  /** The tail step: unshift the matched segment's points so the one near the first point ends up second. */
  function TailUnshift(line: seq<Vec2>, seg: Segment, eps: real): (r: seq<Vec2>)
    requires line != []
    ensures |r| == |line| + 2 && r[2..] == line
    ensures multiset(r[..2]) == multiset{seg.p0, seg.p1}
  {
    if Near(seg.p0, line[0], eps) then [seg.p1, seg.p0] + line else [seg.p0, seg.p1] + line
  }

  /** What one pass of the inner loop leaves: the line, the pool, and whether the line is complete. */
  datatype Pass = Pass(line: seq<Vec2>, pool: seq<Segment>, done: bool)

  /**
   * One pass of the inner loop, as written: both candidates are found in the
   * same pool; the head segment is spliced out first, then the tail index,
   * taken from the old pool, is spliced from the new one.
   */
  function Round(line: seq<Vec2>, pool: seq<Segment>, eps: real): (r: Pass)
    requires line != []
    ensures r.done <==> forall s :: s in pool ==> !Touches(line, s, eps)
    ensures r.done ==> r.line == line && r.pool == pool
    ensures !r.done ==> |r.pool| < |pool| && (|r.line| == |line| + 2 || |r.line| == |line| + 4)
  {
    var head, tail := LastJoining(pool, line[|line| - 1], eps), LastJoining(pool, line[0], eps);
    NoCandidates(line, pool, eps);
    if head.None? && tail.None? then
      Pass(line, pool, true)
    else
      var line1 := if head.Some? then HeadPush(line, pool[head.value], eps) else line;
      var pool1 := if head.Some? then RemoveAt(pool, head.value) else pool;
      var line2 := if tail.Some? then TailUnshift(line1, pool[tail.value], eps) else line1;
      var pool2 := if tail.Some? then SpliceOne(pool1, tail.value) else pool1;
      Pass(line2, pool2, false)
  }

  /** Both candidate searches come back empty exactly when no pool segment is near either end. */
  lemma NoCandidates(line: seq<Vec2>, pool: seq<Segment>, eps: real)
    requires line != []
    ensures LastJoining(pool, line[|line| - 1], eps).None? && LastJoining(pool, line[0], eps).None? <==>
      forall s :: s in pool ==> !Touches(line, s, eps)
  {
    var first, last := line[0], line[|line| - 1];
    if LastJoining(pool, last, eps).None? && LastJoining(pool, first, eps).None? {
      forall s | s in pool ensures !Touches(line, s, eps) {
        var i :| 0 <= i < |pool| && pool[i] == s;
        assert !Joins(last, pool[i], eps) && !Joins(first, pool[i], eps);
      }
    }
    if forall s :: s in pool ==> !Touches(line, s, eps) {
      forall i | 0 <= i < |pool| ensures !Joins(last, pool[i], eps) && !Joins(first, pool[i], eps) {
        assert pool[i] in pool;
      }
    }
  }

  /** The inner loop body as the sketch runs it: collect, pop, push/unshift, splice. */
  method WalkRound(line0: seq<Vec2>, pool0: seq<Segment>, eps: real) returns (line: seq<Vec2>, pool: seq<Segment>, done: bool)
    requires line0 != []
    ensures Pass(line, pool, done) == Round(line0, pool0, eps)
  {
    var heads, tails := CollectCandidates(line0, pool0, eps);
    line, pool := line0, pool0;
    if heads == [] && tails == [] {
      done := true;
      return;
    }
    done := false;
    if heads != [] {
      var index := heads[|heads| - 1];
      var newSeg := pool0[index];
      if Near(newSeg.p0, line[|line| - 1], eps) {
        line := line + [newSeg.p0, newSeg.p1];
      } else {
        line := line + [newSeg.p1, newSeg.p0];
      }
      pool := SpliceOne(pool, index);
    }
    if tails != [] {
      var index := tails[|tails| - 1];
      var newSeg := pool0[index];
      if Near(newSeg.p0, line[0], eps) {
        line := [newSeg.p1, newSeg.p0] + line;
      } else {
        line := [newSeg.p0, newSeg.p1] + line;
      }
      pool := SpliceOne(pool, index);
    }
  }

  /** The inner loop run to completion: the finished line and what is left of the pool. */
  function Grow(line: seq<Vec2>, pool: seq<Segment>, eps: real): (r: (seq<Vec2>, seq<Segment>))
    requires line != []
    ensures |r.1| <= |pool| && |r.0| >= |line| && |r.0| % 2 == |line| % 2
    ensures forall s :: s in r.1 ==> !Touches(r.0, s, eps)
    decreases |pool|
  {
    var p := Round(line, pool, eps);
    if p.done then (line, pool)
    else
      var r := Grow(p.line, p.pool, eps);
      SameParity(|line|, |p.line|, |r.0|);
      r
  }

  lemma SameParity(a: nat, b: nat, c: nat)
    requires b == a + 2 || b == a + 4
    requires c % 2 == b % 2
    ensures c % 2 == a % 2
  {
  }

  /** The outer loop: pop the last segment, grow it, emit it, until the pool is empty. */
  function Stitch(pool: seq<Segment>, eps: real): (r: seq<seq<Vec2>>)
    ensures |r| <= |pool|
    ensures r == [] <==> pool == []
    ensures forall l :: l in r ==> |l| >= 2 && |l| % 2 == 0
    decreases |pool|
  {
    if pool == [] then []
    else
      var last := pool[|pool| - 1];
      var grown := Grow([last.p0, last.p1], pool[..|pool| - 1], eps);
      [grown.0] + Stitch(grown.1, eps)
  }

  /**
   * `connectContourSegments` of the walking-triangles utilities, with the
   * loops of the sketch; its result is `Stitch` of the input (see
   * `StitchPairs` for where the points of its lines come from).
   */
  method ConnectContourSegments(segments: seq<Segment>, threshold: Option<real>) returns (lines: seq<seq<Vec2>>)
    ensures lines == Stitch(segments, Nearness(threshold))
  {
    var eps := Nearness(threshold);
    var pool := segments;
    lines := [];
    while pool != []
      invariant lines + Stitch(pool, eps) == Stitch(segments, eps)
      decreases |pool|
    {
      ghost var pool0 := pool;
      var last := pool[|pool| - 1];
      var line;
      line, pool := GrowLine([last.p0, last.p1], pool[..|pool| - 1], eps);
      StitchUnfold(pool0, eps);
      lines := lines + [line];
    }
  }

  /** `u` and `v` are the two endpoints, in either order, of one of `segs`. */
  ghost predicate EndsOf(u: Vec2, v: Vec2, segs: seq<Segment>)
  {
    exists s :: s in segs && ((u == s.p0 && v == s.p1) || (u == s.p1 && v == s.p0))
  }

  /** The line is a run of whole pairs, each pair the two endpoints of one of `segs`. */
  ghost predicate MadeOfPairs(line: seq<Vec2>, segs: seq<Segment>)
    decreases |line|
  {
    line == [] || (|line| >= 2 && EndsOf(line[0], line[1], segs) && MadeOfPairs(line[2..], segs))
  }

  lemma {:induction false} PairsSnoc(line: seq<Vec2>, u: Vec2, v: Vec2, segs: seq<Segment>)
    requires MadeOfPairs(line, segs) && EndsOf(u, v, segs)
    ensures MadeOfPairs(line + [u, v], segs)
    decreases |line|
  {
    if line == [] {
      assert line + [u, v] == [u, v] && [u, v][2..] == [];
    } else {
      var line' := line + [u, v];
      PairsSnoc(line[2..], u, v, segs);
      assert line'[0] == line[0] && line'[1] == line[1] && line'[2..] == line[2..] + [u, v];
    }
  }

  lemma PairsCons(u: Vec2, v: Vec2, line: seq<Vec2>, segs: seq<Segment>)
    requires MadeOfPairs(line, segs) && EndsOf(u, v, segs)
    ensures MadeOfPairs([u, v] + line, segs)
  {
    assert ([u, v] + line)[2..] == line;
  }

  /** A line made of pairs has an even number of points. */
  lemma {:induction false} PairsEven(line: seq<Vec2>, segs: seq<Segment>)
    requires MadeOfPairs(line, segs)
    ensures |line| % 2 == 0
    decreases |line|
  {
    if line != [] {
      PairsEven(line[2..], segs);
    }
  }

  /** A segment's endpoints, in either order, are a pair of it. */
  lemma EndsOfMember(seg: Segment, segs: seq<Segment>)
    requires seg in segs
    ensures EndsOf(seg.p0, seg.p1, segs) && EndsOf(seg.p1, seg.p0, segs)
  {
  }

  /** What a pool holds is among `segs` once the pool is part of `segs`. */
  lemma InPart(seg: Segment, pool: seq<Segment>, segs: seq<Segment>)
    requires seg in pool && multiset(pool) <= multiset(segs)
    ensures seg in segs
  {
    assert seg in multiset(pool);
  }

  /**
   * One pass adds only whole pairs of pool segments to the line, and the
   * pool it leaves is part of the pool it was given.
   */
  lemma RoundPairs(line: seq<Vec2>, pool: seq<Segment>, eps: real, segs: seq<Segment>)
    requires line != [] && MadeOfPairs(line, segs) && multiset(pool) <= multiset(segs)
    ensures MadeOfPairs(Round(line, pool, eps).line, segs)
    ensures multiset(Round(line, pool, eps).pool) <= multiset(pool)
  {
    var head, tail := LastJoining(pool, line[|line| - 1], eps), LastJoining(pool, line[0], eps);
    var line1 := if head.Some? then HeadPush(line, pool[head.value], eps) else line;
    var pool1 := if head.Some? then RemoveAt(pool, head.value) else pool;
    HeadPairs(line, pool, head, eps, segs);
    TailPairs(line1, pool, pool1, tail, eps, segs);
  }

  /** The head step adds a whole pair of a pool segment and shrinks the pool. */
  lemma HeadPairs(line: seq<Vec2>, pool: seq<Segment>, head: Option<nat>, eps: real, segs: seq<Segment>)
    requires line != [] && MadeOfPairs(line, segs) && multiset(pool) <= multiset(segs)
    requires head.Some? ==> head.value < |pool|
    ensures MadeOfPairs(if head.Some? then HeadPush(line, pool[head.value], eps) else line, segs)
    ensures multiset(if head.Some? then RemoveAt(pool, head.value) else pool) <= multiset(pool)
  {
    if head.Some? {
      var seg := pool[head.value];
      InPart(seg, pool, segs);
      EndsOfMember(seg, segs);
      if Near(seg.p0, line[|line| - 1], eps) {
        PairsSnoc(line, seg.p0, seg.p1, segs);
      } else {
        PairsSnoc(line, seg.p1, seg.p0, segs);
      }
    }
  }

  /** The tail step adds a whole pair of a segment of the old pool and splices the new pool. */
  lemma TailPairs(line: seq<Vec2>, pool: seq<Segment>, pool1: seq<Segment>, tail: Option<nat>, eps: real, segs: seq<Segment>)
    requires line != [] && MadeOfPairs(line, segs) && multiset(pool) <= multiset(segs) && multiset(pool1) <= multiset(pool)
    requires tail.Some? ==> tail.value < |pool|
    ensures MadeOfPairs(if tail.Some? then TailUnshift(line, pool[tail.value], eps) else line, segs)
    ensures multiset(if tail.Some? then SpliceOne(pool1, tail.value) else pool1) <= multiset(pool)
  {
    if tail.Some? {
      SpliceShrinks(pool1, tail.value);
      SubTrans(multiset(SpliceOne(pool1, tail.value)), multiset(pool1), multiset(pool));
      var seg := pool[tail.value];
      InPart(seg, pool, segs);
      EndsOfMember(seg, segs);
      if Near(seg.p0, line[0], eps) {
        PairsCons(seg.p1, seg.p0, line, segs);
      } else {
        PairsCons(seg.p0, seg.p1, line, segs);
      }
    }
  }

  /** `splice(index, 1)` never adds to the pool. */
  lemma SpliceShrinks(pool: seq<Segment>, i: nat)
    ensures multiset(SpliceOne(pool, i)) <= multiset(pool)
  {
    if i < |pool| {
      assert multiset(RemoveAt(pool, i)) + multiset{pool[i]} == multiset(pool);
    }
  }

  lemma SubTrans<T>(a: multiset<T>, b: multiset<T>, c: multiset<T>)
    requires a <= b && b <= c
    ensures a <= c
  {
  }

  /**
   * The inner loop run to completion adds only whole pairs of pool segments
   * to the line, and leaves part of the pool it was given.
   */
  lemma {:induction false} GrowPairs(line: seq<Vec2>, pool: seq<Segment>, eps: real, segs: seq<Segment>)
    requires line != [] && MadeOfPairs(line, segs) && multiset(pool) <= multiset(segs)
    ensures MadeOfPairs(Grow(line, pool, eps).0, segs)
    ensures multiset(Grow(line, pool, eps).1) <= multiset(pool)
    decreases |pool|
  {
    var p := Round(line, pool, eps);
    if !p.done {
      RoundPairs(line, pool, eps, segs);
      GrowPairs(p.line, p.pool, eps, segs);
    }
  }

  /** Every line the outer loop emits is a run of pairs, each the endpoints of one of `segs`. */
  lemma {:induction false} StitchPairs(pool: seq<Segment>, eps: real, segs: seq<Segment>)
    requires multiset(pool) <= multiset(segs)
    ensures forall l :: l in Stitch(pool, eps) ==> MadeOfPairs(l, segs)
    decreases |pool|
  {
    if pool != [] {
      var last := pool[|pool| - 1];
      var rest := pool[..|pool| - 1];
      SplitLast(pool);
      assert multiset(rest) <= multiset(pool);
      InPart(last, pool, segs);
      EndsOfMember(last, segs);
      PairsCons(last.p0, last.p1, [], segs);
      assert [last.p0, last.p1] + [] == [last.p0, last.p1];
      GrowPairs([last.p0, last.p1], rest, eps, segs);
      var grown := Grow([last.p0, last.p1], rest, eps);
      StitchPairs(grown.1, eps, segs);
      StitchUnfold(pool, eps);
    }
  }

  lemma StitchUnfold(pool: seq<Segment>, eps: real)
    requires pool != []
    ensures var last := pool[|pool| - 1];
      var grown := Grow([last.p0, last.p1], pool[..|pool| - 1], eps);
      Stitch(pool, eps) == [grown.0] + Stitch(grown.1, eps)
  {
  }

  /** The inner loop of the sketch; its result is `Grow` of the popped segment and the rest of the pool. */
  method GrowLine(line0: seq<Vec2>, pool0: seq<Segment>, eps: real) returns (line: seq<Vec2>, pool: seq<Segment>)
    requires line0 != []
    ensures (line, pool) == Grow(line0, pool0, eps)
  {
    line, pool := line0, pool0;
    while true
      invariant line != [] && Grow(line, pool, eps) == Grow(line0, pool0, eps)
      decreases |pool|
    {
      var done;
      ghost var (line1, pool1) := (line, pool);
      line, pool, done := WalkRound(line, pool, eps);
      if done {
        break;
      }
    }
  }

  /**
   * A pass in which both searches succeed, with head index h and tail index
   * t in the same pool: the tail segment's points are added, but index t is
   * spliced from the pool the head splice already shortened.
   */
  lemma RoundBoth(line: seq<Vec2>, pool: seq<Segment>, eps: real, h: nat, t: nat)
    requires line != []
    requires LastJoining(pool, line[|line| - 1], eps) == Some(h) && LastJoining(pool, line[0], eps) == Some(t)
    ensures Round(line, pool, eps) ==
      Pass(TailUnshift(HeadPush(line, pool[h], eps), pool[t], eps), SpliceOne(RemoveAt(pool, h), t), false)
  {
  }

  lemma AppendAssoc<T>(x: seq<T>, y: seq<T>, z: seq<T>)
    ensures x + (y + z) == x + y + z
  {
  }

  /** A pass in which only the tail search succeeds. */
  lemma RoundTailOnly(line: seq<Vec2>, pool: seq<Segment>, eps: real, t: nat)
    requires line != []
    requires LastJoining(pool, line[|line| - 1], eps) == None && LastJoining(pool, line[0], eps) == Some(t)
    ensures Round(line, pool, eps) == Pass(TailUnshift(line, pool[t], eps), SpliceOne(pool, t), false)
  {
  }

  /**
   * The stale index at work: with the line ((0,0),(10,0)), a head segment at
   * index 0 and a tail segment at index 1, the head splice shifts the tail
   * segment to index 0, so splicing index 1 removes nothing. The tail
   * segment's points are in the line, yet the segment stays in the pool.
   */
  lemma StaleTailIndex(a: Segment, b: Segment, line: seq<Vec2>)
    requires a == Segment(Vec2(10.0, 0.0), Vec2(20.0, 0.0)) && b == Segment(Vec2(0.0, 0.0), Vec2(-10.0, 0.0))
    requires line == [Vec2(0.0, 0.0), Vec2(10.0, 0.0)]
    ensures Round(line, [a, b], DefaultNearness) == Pass([b.p1, b.p0] + line + [a.p0, a.p1], [b], false)
  {
    StaleSearches(a, b, line);
    RoundBoth(line, [a, b], DefaultNearness, 0, 1);
    NearSelf(a.p0);
    NearSelf(b.p0);
    PushThenUnshift(line, a, b, DefaultNearness);
    SpliceAfterRemove(a, b);
  }

  /** In the stale-index pass, the head search finds index 0 and the tail search index 1. */
  lemma StaleSearches(a: Segment, b: Segment, line: seq<Vec2>)
    requires a == Segment(Vec2(10.0, 0.0), Vec2(20.0, 0.0)) && b == Segment(Vec2(0.0, 0.0), Vec2(-10.0, 0.0))
    requires line == [Vec2(0.0, 0.0), Vec2(10.0, 0.0)]
    ensures LastJoining([a, b], line[|line| - 1], DefaultNearness) == Some(0)
    ensures LastJoining([a, b], line[0], DefaultNearness) == Some(1)
  {
    assert line[0] == Vec2(0.0, 0.0) && line[1] == Vec2(10.0, 0.0);
    assert SqDist(Vec2(10.0, 0.0), Vec2(0.0, 0.0)) == 100.0 && SqDist(Vec2(10.0, 0.0), Vec2(-10.0, 0.0)) == 400.0;
    assert SqDist(Vec2(0.0, 0.0), Vec2(10.0, 0.0)) == 100.0 && SqDist(Vec2(0.0, 0.0), Vec2(20.0, 0.0)) == 400.0;
    UnitApart(line[1], a, b);
    UnitApart(line[0], b, a);
    LastJoiningOfPair(a, b, line[1], DefaultNearness);
    LastJoiningOfPair(a, b, line[0], DefaultNearness);
  }

  /** A head segment joining the last point by its first endpoint, then a tail segment joining the first point by its first endpoint. */
  lemma PushThenUnshift(line: seq<Vec2>, a: Segment, b: Segment, eps: real)
    requires line != [] && Near(a.p0, line[|line| - 1], eps) && Near(b.p0, line[0], eps)
    ensures TailUnshift(HeadPush(line, a, eps), b, eps) == [b.p1, b.p0] + line + [a.p0, a.p1]
  {
    var line1 := line + [a.p0, a.p1];
    assert HeadPush(line, a, eps) == line1;
    assert line1[0] == line[0];
    assert TailUnshift(line1, b, eps) == [b.p1, b.p0] + line1;
    AppendAssoc([b.p1, b.p0], line, [a.p0, a.p1]);
  }

  /** Splicing index 1 after index 0 is gone leaves a pool of two as its second element. */
  lemma SpliceAfterRemove<T>(a: T, b: T)
    ensures SpliceOne(RemoveAt([a, b], 0), 1) == [b]
  {
    assert RemoveAt([a, b], 0) == [b];
  }

  /**
   * A point equal to the first endpoint of `s`, at distance 10 or more
   * from both endpoints of `o`: it joins `s` and not `o`.
   */
  lemma UnitApart(p: Vec2, s: Segment, o: Segment)
    requires p == s.p0
    requires SqDist(p, o.p0) >= 100.0 && SqDist(p, o.p1) >= 100.0
    ensures Near(p, s.p0, DefaultNearness) && Near(s.p0, p, DefaultNearness)
    ensures !Joins(p, o, DefaultNearness)
  {
  }

  /** The last-joining search over a pool of two. */
  lemma LastJoiningOfPair(s0: Segment, s1: Segment, p: Vec2, eps: real)
    ensures Joins(p, s1, eps) ==> LastJoining([s0, s1], p, eps) == Some(1)
    ensures !Joins(p, s1, eps) && Joins(p, s0, eps) ==> LastJoining([s0, s1], p, eps) == Some(0)
  {
    assert [s0, s1][..1] == [s0];
  }

  /**
   * Run to the end, the three segments a, b and the popped ((0,0),(10,0))
   * give one line of 8 points: b is joined twice, where the Rust original
   * joins each segment once and gives 6 points.
   */
  lemma StaleTailJoinsTwice(a: Segment, b: Segment, l: Segment)
    requires a == Segment(Vec2(10.0, 0.0), Vec2(20.0, 0.0)) && b == Segment(Vec2(0.0, 0.0), Vec2(-10.0, 0.0))
    requires l == Segment(Vec2(0.0, 0.0), Vec2(10.0, 0.0))
    ensures Stitch([a, b, l], DefaultNearness) == [[b.p0, b.p1, b.p1, b.p0, l.p0, l.p1, a.p0, a.p1]]
  {
    var eps := DefaultNearness;
    var line0 := [l.p0, l.p1];
    StaleTailIndex(a, b, line0);
    var line1 := [b.p1, b.p0] + line0 + [a.p0, a.p1];
    GrowStep(line0, [a, b], eps);
    assert line1[0] == b.p1 && line1[|line1| - 1] == a.p1;
    SecondRoundDistances(a, b);
    GrowSingleTail(line1, b, eps);
    DropLastOfThree(a, b, l);
    StitchUnfold([a, b, l], eps);
    assert Stitch([], eps) == [];
    EightPoints(b.p0, b.p1, b.p1, b.p0, l.p0, l.p1, a.p0, a.p1);
  }

  /** The inner loop over a pool of one segment that joins only the first point, reversed: one pass, then done. */
  lemma GrowSingleTail(line: seq<Vec2>, b: Segment, eps: real)
    requires line != []
    requires !Joins(line[|line| - 1], b, eps) && Joins(line[0], b, eps) && !Near(b.p0, line[0], eps)
    ensures Grow(line, [b], eps) == ([b.p0, b.p1] + line, [])
  {
    var line2 := [b.p0, b.p1] + line;
    RoundSingleTail(line, b, eps);
    assert Grow(line2, [], eps) == (line2, []) by {
      assert Round(line2, [], eps).done;
    }
    GrowStep(line, [b], eps);
  }

  /** A pass over a pool of one segment that joins only the first point, reversed. */
  lemma RoundSingleTail(line: seq<Vec2>, b: Segment, eps: real)
    requires line != []
    requires !Joins(line[|line| - 1], b, eps) && Joins(line[0], b, eps) && !Near(b.p0, line[0], eps)
    ensures Round(line, [b], eps) == Pass([b.p0, b.p1] + line, [], false)
  {
    LastJoiningOfOne(b, line[|line| - 1], eps);
    LastJoiningOfOne(b, line[0], eps);
    RoundTailOnly(line, [b], eps, 0);
    assert SpliceOne([b], 0) == [];
  }

  /** In the second pass, b's endpoints are far from the line's last point and from each other. */
  lemma SecondRoundDistances(a: Segment, b: Segment)
    requires a == Segment(Vec2(10.0, 0.0), Vec2(20.0, 0.0)) && b == Segment(Vec2(0.0, 0.0), Vec2(-10.0, 0.0))
    ensures !Joins(a.p1, b, DefaultNearness) && Joins(b.p1, b, DefaultNearness)
    ensures !Near(b.p0, b.p1, DefaultNearness)
  {
    FarApart(a.p1, b.p0);
    FarApart(a.p1, b.p1);
    FarApart(b.p0, b.p1);
    NearSelf(b.p1);
  }

  lemma FarApart(p: Vec2, q: Vec2)
    requires SqDist(p, q) >= 100.0
    ensures !Near(p, q, DefaultNearness) && !Near(q, p, DefaultNearness)
  {
    SqDistSymmetric(p, q);
  }

  lemma NearSelf(p: Vec2)
    ensures Near(p, p, DefaultNearness)
  {
    assert SqDist(p, p) == 0.0;
  }

  lemma DropLastOfThree<T>(x: T, y: T, z: T)
    ensures [x, y, z][..2] == [x, y] && [x, y, z][2] == z
  {
  }

  /** The last-joining search over a pool of one. */
  lemma LastJoiningOfOne(s: Segment, p: Vec2, eps: real)
    ensures LastJoining([s], p, eps) == if Joins(p, s, eps) then Some(0) else None
  {
    assert [s][..0] == [];
  }

  /** An unfinished pass hands its line and pool on to the rest of the inner loop. */
  lemma GrowStep(line: seq<Vec2>, pool: seq<Segment>, eps: real)
    requires line != [] && !Round(line, pool, eps).done
    ensures Grow(line, pool, eps) == Grow(Round(line, pool, eps).line, Round(line, pool, eps).pool, eps)
  {
  }

  lemma EightPoints(x0: Vec2, x1: Vec2, x2: Vec2, x3: Vec2, x4: Vec2, x5: Vec2, x6: Vec2, x7: Vec2)
    ensures [x0, x1] + ([x2, x3] + [x4, x5] + [x6, x7]) == [x0, x1, x2, x3, x4, x5, x6, x7]
  {
  }
}
