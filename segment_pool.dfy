/**
 * Vocabulary shared by the contour stitchers: the pool of unordered segments
 * they consume, the endpoint bookkeeping that says no point is invented or
 * dropped, and the "which segment joins this end" searches.
 */
module SegmentPool {
  import opened Wrappers
  import opened Geometry
  import opened ContourExtract

  /** The nearness the TypeScript `isNear` uses when it is given none. */
  const DefaultNearness: real := 1.0

  /** The optional nearness argument, with its default filled in. */
  function Nearness(threshold: Option<real>): real
  {
    if threshold.Some? then threshold.value else DefaultNearness
  }

  /** The TypeScript `isNear(p, q, threshold)`, with its optional threshold. */
  predicate NearBy(p: Vec2, q: Vec2, threshold: Option<real>)
  {
    Near(p, q, Nearness(threshold))
  }

  /** With d the Euclidean distance: isNear holds iff d < threshold, and d < 1 when no threshold is given. */
  lemma NearByIsDistanceBelow(p: Vec2, q: Vec2, threshold: Option<real>, d: real)
    requires d >= 0.0 && d * d == SqDist(p, q)
    ensures threshold.None? ==> (NearBy(p, q, threshold) <==> d < 1.0)
    ensures threshold.Some? ==> (NearBy(p, q, threshold) <==> d < threshold.value)
  {
    NearIsDistanceBelow(p, q, Nearness(threshold), d);
  }

  /** One of the segment's endpoints is near `p`. */
  predicate Joins(p: Vec2, s: Segment, eps: real)
  {
    Near(p, s.p0, eps) || Near(p, s.p1, eps)
  }

  /** A segment joins the first or the last point of a polyline. */
  predicate Touches(line: seq<Vec2>, s: Segment, eps: real)
    requires line != []
  {
    Joins(line[|line| - 1], s, eps) || Joins(line[0], s, eps)
  }

  /**
   * The filter-then-pop search of the Rust stitchers (and the TypeScript
   * candidate lists): the LAST segment in pool order with an endpoint near `p`.
   */
  function LastJoining(pool: seq<Segment>, p: Vec2, eps: real): (r: Option<nat>)
    ensures r.None? <==> forall i :: 0 <= i < |pool| ==> !Joins(p, pool[i], eps)
    ensures r.Some? ==> r.value < |pool| && Joins(p, pool[r.value], eps)
    ensures r.Some? ==> forall i :: r.value < i < |pool| ==> !Joins(p, pool[i], eps)
  {
    if pool == [] then None
    else if Joins(p, pool[|pool| - 1], eps) then Some(|pool| - 1)
    else LastJoining(pool[..|pool| - 1], p, eps)
  }

  /** `Vec::remove(i)` / `splice(i, 1)`: drop element i, keep the order of the rest. */
  function RemoveAt<T>(s: seq<T>, i: nat): (r: seq<T>)
    requires i < |s|
    ensures |r| == |s| - 1
    ensures multiset(r) + multiset{s[i]} == multiset(s)
    ensures forall k :: 0 <= k < i ==> r[k] == s[k]
    ensures forall k :: i <= k < |r| ==> r[k] == s[k + 1]
  {
    assert s == s[..i] + [s[i]] + s[i + 1..];
    s[..i] + s[i + 1..]
  }

  /** The multiset of all endpoints of a list of segments. */
  function Endpoints(segs: seq<Segment>): multiset<Vec2>
  {
    if segs == [] then multiset{}
    else multiset{segs[0].p0, segs[0].p1} + Endpoints(segs[1..])
  }

  lemma {:induction false} EndpointsAppend(a: seq<Segment>, b: seq<Segment>)
    ensures Endpoints(a + b) == Endpoints(a) + Endpoints(b)
  {
    if a == [] {
      assert a + b == b;
    } else {
      assert (a + b)[1..] == a[1..] + b;
      EndpointsAppend(a[1..], b);
    }
  }

  lemma EndpointsRemoveAt(pool: seq<Segment>, i: nat)
    requires i < |pool|
    ensures Endpoints(pool) == Endpoints(RemoveAt(pool, i)) + multiset{pool[i].p0, pool[i].p1}
  {
    var front, back := pool[..i], pool[i + 1..];
    SplitAround(pool, i);
    EndpointsCons(pool[i], back);
    EndpointsAppend(front, [pool[i]] + back);
    EndpointsAppend(front, back);
    var m := multiset{pool[i].p0, pool[i].p1};
    UnionShift(Endpoints(front), Endpoints(back), m);
    UnionAssoc(Endpoints(front), m, Endpoints(back));
  }

  lemma SplitAround(pool: seq<Segment>, i: nat)
    requires i < |pool|
    ensures pool == pool[..i] + ([pool[i]] + pool[i + 1..])
    ensures RemoveAt(pool, i) == pool[..i] + pool[i + 1..]
  {
  }

  lemma EndpointsCons(s: Segment, rest: seq<Segment>)
    ensures Endpoints([s] + rest) == multiset{s.p0, s.p1} + Endpoints(rest)
  {
    assert ([s] + rest)[1..] == rest;
  }

  lemma EndpointsOne(s: Segment)
    ensures Endpoints([s]) == multiset{s.p0, s.p1}
  {
    assert [s][1..] == [];
  }

  lemma EndpointsSnoc(segs: seq<Segment>, s: Segment)
    ensures Endpoints(segs + [s]) == Endpoints(segs) + multiset{s.p0, s.p1}
  {
    EndpointsAppend(segs, [s]);
    EndpointsOne(s);
  }

  /** A non-empty sequence is its front followed by its last element. */
  lemma SplitLast<T>(s: seq<T>)
    requires s != []
    ensures s == s[..|s| - 1] + [s[|s| - 1]]
  {
  }

  lemma UnionAssoc<T>(a: multiset<T>, b: multiset<T>, c: multiset<T>)
    ensures a + b + c == a + (b + c)
  {
  }

  lemma UnionShift<T>(a: multiset<T>, b: multiset<T>, c: multiset<T>)
    ensures a + b + c == a + (c + b)
  {
  }

  lemma UnionMono<T>(a: multiset<T>, b: multiset<T>, c: multiset<T>, d: multiset<T>)
    requires a <= b && c <= d
    ensures a + c <= b + d
  {
  }

  lemma UnionComm<T>(a: multiset<T>, b: multiset<T>)
    ensures a + b == b + a
  {
  }

  /** All points of a list of polylines, one after another. */
  function Flatten(lines: seq<seq<Vec2>>): seq<Vec2>
  {
    if lines == [] then [] else Flatten(lines[..|lines| - 1]) + lines[|lines| - 1]
  }

  /** All segments of a list of chains, one after another. */
  function Concat(chains: seq<seq<Segment>>): seq<Segment>
  {
    if chains == [] then [] else Concat(chains[..|chains| - 1]) + chains[|chains| - 1]
  }

  lemma FlattenSnoc(lines: seq<seq<Vec2>>, line: seq<Vec2>)
    ensures Flatten(lines + [line]) == Flatten(lines) + line
  {
    assert (lines + [line])[..|lines|] == lines;
  }

  lemma ConcatSnoc(chains: seq<seq<Segment>>, chain: seq<Segment>)
    ensures Concat(chains + [chain]) == Concat(chains) + chain
  {
    assert (chains + [chain])[..|chains|] == chains;
  }

  /** Sum of the lengths of a list of polylines. */
  function TotalLength(lines: seq<seq<Vec2>>): nat
  {
    if lines == [] then 0 else TotalLength(lines[..|lines| - 1]) + |lines[|lines| - 1]|
  }

  lemma TotalLengthSnoc(lines: seq<seq<Vec2>>, line: seq<Vec2>)
    ensures TotalLength(lines + [line]) == TotalLength(lines) + |line|
  {
    assert (lines + [line])[..|lines|] == lines;
  }

  /** No emitted line has a free end that a later chain or the pool could still join. */
  ghost predicate Separated(lines: seq<seq<Vec2>>, chains: seq<seq<Segment>>, pool: seq<Segment>, eps: real)
    requires |lines| == |chains|
    requires forall k :: 0 <= k < |lines| ==> lines[k] != []
  {
    && (forall k, k2, s :: 0 <= k < k2 < |lines| && s in chains[k2] ==> !Touches(lines[k], s, eps))
    && (forall k, s :: 0 <= k < |lines| && s in pool ==> !Touches(lines[k], s, eps))
  }

  lemma SegmentsStep(segments: seq<Segment>, chains: seq<seq<Segment>>, before: seq<Segment>, first: Segment,
                     rest: seq<Segment>, chain: seq<Segment>, pool: seq<Segment>)
    requires multiset(Concat(chains)) + multiset(before) == multiset(segments)
    requires before == rest + [first]
    requires multiset(chain) + multiset(pool) == multiset([first]) + multiset(rest)
    ensures multiset(Concat(chains + [chain])) + multiset(pool) == multiset(segments)
    ensures multiset(chain) + multiset(pool) == multiset(before)
  {
    ConcatSnoc(chains, chain);
    assert multiset(before) == multiset(rest) + multiset([first]);
    UnionComm(multiset(rest), multiset([first]));
    var c := multiset(Concat(chains));
    assert multiset(Concat(chains + [chain])) == c + multiset(chain);
    UnionAssoc(c, multiset(chain), multiset(pool));
  }

  /** Moving pool[index] to the end of a chain keeps the multiset of all segments. */
  lemma TakeFromPool(chain: seq<Segment>, pool: seq<Segment>, index: nat)
    requires index < |pool|
    ensures multiset(chain + [pool[index]]) + multiset(RemoveAt(pool, index)) == multiset(chain) + multiset(pool)
    ensures multiset([pool[index]] + chain) == multiset(chain + [pool[index]])
    ensures multiset(RemoveAt(pool, index)) <= multiset(pool)
  {
    var s := pool[index];
    assert multiset(chain + [s]) == multiset(chain) + multiset{s};
    assert multiset([s] + chain) == multiset{s} + multiset(chain);
    UnionShift(multiset(chain), multiset{s}, multiset(RemoveAt(pool, index)));
  }

  /** Whatever is in one part of a split multiset is in the whole. */
  lemma SumMember<T>(x: T, a: seq<T>, b: seq<T>, c: seq<T>)
    requires multiset(a) + multiset(b) == multiset(c) || multiset(b) + multiset(a) == multiset(c)
    requires x in a
    ensures x in c
  {
    assert x in multiset(a);
    assert x in multiset(c);
  }

  lemma SeparatedStep(lines: seq<seq<Vec2>>, chains: seq<seq<Segment>>, before: seq<Segment>,
                      line: seq<Vec2>, chain: seq<Segment>, pool: seq<Segment>, eps: real)
    requires |lines| == |chains| && line != []
    requires forall k :: 0 <= k < |lines| ==> lines[k] != []
    requires Separated(lines, chains, before, eps)
    requires forall s :: s in chain ==> s in before
    requires forall s :: s in pool ==> s in before
    requires forall s :: s in pool ==> !Touches(line, s, eps)
    ensures Separated(lines + [line], chains + [chain], pool, eps)
  {
    var lines', chains' := lines + [line], chains + [chain];
    forall k, k2, s | 0 <= k < k2 < |lines'| && s in chains'[k2]
      ensures !Touches(lines'[k], s, eps)
    {
      if k2 == |lines| {
        assert s in before;
      }
    }
  }
}
