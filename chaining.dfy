/**
 * Vocabulary for the stitchers that add ONE point per matched segment (its
 * far endpoint): a line then holds one point more than it has segments, and
 * segment i of its chain spans points i and i + 1.
 */
module Chaining {
  import opened Geometry
  import opened ContourExtract
  import opened SegmentPool

  /**
   * Consecutive points u, v of a line come from segment s: they are its two
   * endpoints, except that the one at a joint may be replaced by a point
   * within `eps` of it.
   */
  predicate Spans(u: Vec2, v: Vec2, s: Segment, eps: real)
  {
    || (u == s.p0 && v == s.p1)
    || (v == s.p1 && Near(u, s.p0, eps))
    || (v == s.p0 && Near(u, s.p1, eps))
    || (u == s.p1 && Near(v, s.p0, eps))
    || (u == s.p0 && Near(v, s.p1, eps))
  }

  /** Segment i of the chain spans points i and i + 1 of the line. */
  predicate Chained(line: seq<Vec2>, chain: seq<Segment>, eps: real)
  {
    && |line| == |chain| + 1
    && forall i, j :: 0 <= i && j == i + 1 < |line| ==> Spans(line[i], line[j], chain[i], eps)
  }

  /** A line traced along its chain, every point an endpoint of one of the chain's segments. */
  ghost predicate Traces(line: seq<Vec2>, chain: seq<Segment>, eps: real)
  {
    chain != [] && Chained(line, chain, eps) && multiset(line) <= Endpoints(chain)
  }

  /** Only segments moved from the pool into the chain. */
  ghost predicate Moved(chain0: seq<Segment>, pool0: seq<Segment>, chain: seq<Segment>, pool: seq<Segment>)
  {
    && multiset(chain) + multiset(pool) == multiset(chain0) + multiset(pool0)
    && multiset(pool) <= multiset(pool0)
    && |pool| <= |pool0|
  }

  lemma MovedTrans(c0: seq<Segment>, p0: seq<Segment>, c1: seq<Segment>, p1: seq<Segment>, c2: seq<Segment>, p2: seq<Segment>)
    requires Moved(c0, p0, c1, p1) && Moved(c1, p1, c2, p2)
    ensures Moved(c0, p0, c2, p2)
  {
  }

  lemma TracesOne(s: Segment, eps: real)
    ensures Traces([s.p0, s.p1], [s], eps)
  {
    EndpointsOne(s);
  }

  /** Appending the far endpoint of the segment that joins the last point. */
  lemma TakeAtHead(line: seq<Vec2>, chain: seq<Segment>, pool: seq<Segment>, index: nat, far: Vec2, eps: real)
    requires Traces(line, chain, eps) && index < |pool|
    requires far == pool[index].p0 || far == pool[index].p1
    requires Spans(line[|line| - 1], far, pool[index], eps)
    ensures Traces(line + [far], chain + [pool[index]], eps)
    ensures Moved(chain, pool, chain + [pool[index]], RemoveAt(pool, index))
  {
    var s := pool[index];
    TakeFromPool(chain, pool, index);
    EndpointsSnoc(chain, s);
    assert multiset(line + [far]) == multiset(line) + multiset{far};
    UnionMono(multiset(line), Endpoints(chain), multiset{far}, multiset{s.p0, s.p1});
    ChainedSnoc(line, chain, far, s, eps);
  }

  /** Prepending the far endpoint of the segment that joins the first point. */
  lemma TakeAtTail(line: seq<Vec2>, chain: seq<Segment>, pool: seq<Segment>, index: nat, far: Vec2, eps: real)
    requires Traces(line, chain, eps) && index < |pool|
    requires far == pool[index].p0 || far == pool[index].p1
    requires Spans(far, line[0], pool[index], eps)
    ensures Traces([far] + line, [pool[index]] + chain, eps)
    ensures Moved(chain, pool, [pool[index]] + chain, RemoveAt(pool, index))
  {
    var s := pool[index];
    TakeFromPool(chain, pool, index);
    assert ([s] + chain)[1..] == chain;
    assert Endpoints([s] + chain) == multiset{s.p0, s.p1} + Endpoints(chain);
    assert multiset([far] + line) == multiset{far} + multiset(line);
    UnionMono(multiset{far}, multiset{s.p0, s.p1}, multiset(line), Endpoints(chain));
    ChainedCons(line, chain, far, s, eps);
  }

  lemma ChainedSnoc(line: seq<Vec2>, chain: seq<Segment>, v: Vec2, s: Segment, eps: real)
    requires line != [] && Chained(line, chain, eps)
    requires Spans(line[|line| - 1], v, s, eps)
    ensures Chained(line + [v], chain + [s], eps)
  {
    var line', chain' := line + [v], chain + [s];
    forall i, j | 0 <= i && j == i + 1 < |line'|
      ensures Spans(line'[i], line'[j], chain'[i], eps)
    {
      if j < |line| {
        assert line'[i] == line[i] && line'[j] == line[j] && chain'[i] == chain[i];
      }
    }
  }

  lemma ChainedCons(line: seq<Vec2>, chain: seq<Segment>, u: Vec2, s: Segment, eps: real)
    requires line != [] && Chained(line, chain, eps)
    requires Spans(u, line[0], s, eps)
    ensures Chained([u] + line, [s] + chain, eps)
  {
    var line', chain' := [u] + line, [s] + chain;
    forall i, j | 0 <= i && j == i + 1 < |line'|
      ensures Spans(line'[i], line'[j], chain'[i], eps)
    {
      if i > 0 {
        assert line'[i] == line[i - 1] && line'[j] == line[j - 1] && chain'[i] == chain[i - 1];
      }
    }
  }

  /** Read the chain property back point by point. */
  lemma ChainedAt(line: seq<Vec2>, chain: seq<Segment>, eps: real, i: nat)
    requires Chained(line, chain, eps) && i < |chain|
    ensures Spans(line[i], line[i + 1], chain[i], eps)
  {
    var j := i + 1;
    assert Spans(line[i], line[j], chain[i], eps);
  }

  /** The bookkeeping of the outer loop. */
  ghost predicate Stitched(segments: seq<Segment>, lines: seq<seq<Vec2>>, chains: seq<seq<Segment>>, pool: seq<Segment>, eps: real)
  {
    && |lines| == |chains|
    && multiset(Concat(chains)) + multiset(pool) == multiset(segments)
    && TotalLength(lines) == |Concat(chains)| + |lines|
    && AllTrace(lines, chains, eps)
    && Separated(lines, chains, pool, eps)
  }

  ghost predicate AllTrace(lines: seq<seq<Vec2>>, chains: seq<seq<Segment>>, eps: real)
    requires |lines| == |chains|
  {
    forall k :: 0 <= k < |lines| ==> Traces(lines[k], chains[k], eps)
  }

  lemma AllTraceStep(lines: seq<seq<Vec2>>, chains: seq<seq<Segment>>, line: seq<Vec2>, chain: seq<Segment>, eps: real)
    requires |lines| == |chains| && AllTrace(lines, chains, eps) && Traces(line, chain, eps)
    ensures AllTrace(lines + [line], chains + [chain], eps)
  {
    var lines', chains' := lines + [line], chains + [chain];
    forall k | 0 <= k < |lines'| ensures Traces(lines'[k], chains'[k], eps) {
      if k < |lines| {
        assert lines'[k] == lines[k] && chains'[k] == chains[k];
      }
    }
  }

  lemma StitchedStart(segments: seq<Segment>, eps: real)
    ensures Stitched(segments, [], [], segments, eps)
  {
    assert Concat([]) == [];
  }

  lemma StitchedDone(segments: seq<Segment>, lines: seq<seq<Vec2>>, chains: seq<seq<Segment>>, eps: real)
    requires Stitched(segments, lines, chains, [], eps)
    ensures multiset(Concat(chains)) == multiset(segments)
    ensures TotalLength(lines) == |segments| + |lines|
    ensures forall k :: 0 <= k < |lines| ==>
      chains[k] != [] && |lines[k]| == |chains[k]| + 1 && multiset(lines[k]) <= Endpoints(chains[k])
    ensures forall k, i :: 0 <= k < |lines| && 0 <= i < |chains[k]| ==> Spans(lines[k][i], lines[k][i + 1], chains[k][i], eps)
    ensures forall k, k2, s :: 0 <= k < k2 < |lines| && s in chains[k2] ==> !Touches(lines[k], s, eps)
  {
    var none: seq<Segment> := [];
    assert multiset(none) == multiset{};
    assert |multiset(Concat(chains))| == |multiset(segments)|;
    forall k, i | 0 <= k < |lines| && 0 <= i < |chains[k]|
      ensures Spans(lines[k][i], lines[k][i + 1], chains[k][i], eps)
    {
      assert Traces(lines[k], chains[k], eps);
      ChainedAt(lines[k], chains[k], eps, i);
    }
  }

  lemma StitchStep(segments: seq<Segment>, lines: seq<seq<Vec2>>, chains: seq<seq<Segment>>,
                   before: seq<Segment>, first: Segment, rest: seq<Segment>,
                   line: seq<Vec2>, chain: seq<Segment>, pool: seq<Segment>, eps: real)
    requires Stitched(segments, lines, chains, before, eps)
    requires before == rest + [first]
    requires Traces(line, chain, eps)
    requires Moved([first], rest, chain, pool)
    requires forall s :: s in pool ==> !Touches(line, s, eps)
    ensures Stitched(segments, lines + [line], chains + [chain], pool, eps)
  {
    AllTraceStep(lines, chains, line, chain, eps);
    SegmentsStep(segments, chains, before, first, rest, chain, pool);
    TotalLengthSnoc(lines, line);
    ConcatSnoc(chains, chain);
    forall s | s in chain ensures s in before {
      SumMember(s, chain, pool, before);
    }
    forall s | s in pool ensures s in before {
      SumMember(s, pool, chain, before);
    }
    SeparatedStep(lines, chains, before, line, chain, pool, eps);
  }
}
