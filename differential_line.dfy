/**
 * The growth step of the differential line: a midpoint node is inserted on
 * every edge longer than the maximum edge length. A node is reduced to its
 * position here, and the maximum edge length is a function of that position.
 */
module DifferentialGrowth {
  import opened Geometry

  /** `current.distanceTo(next) > maxEdgeLen`, stated without a square root. */
  predicate TooLong(p: Vec2, q: Vec2, maxLen: real)
  {
    maxLen < 0.0 || SqDist(p, q) > maxLen * maxLen
  }

  /** TooLong agrees with the Euclidean distance d = sqrt(SqDist(p, q)). */
  lemma TooLongIsDistanceAbove(p: Vec2, q: Vec2, maxLen: real, d: real)
    requires d >= 0.0 && d * d == SqDist(p, q)
    ensures TooLong(p, q, maxLen) <==> d > maxLen
  {
    if maxLen >= 0.0 {
      if d > maxLen {
        SquareStrictMono(maxLen, d);
      } else {
        SquareMono(d, maxLen);
      }
    }
  }

  /** `(current + next) / 2.0` */
  function Mid(p: Vec2, q: Vec2): Vec2
  {
    Vec2((p.x + q.x) / 2.0, (p.y + q.y) / 2.0)
  }

  /** What the loop adds after `p` on the edge to `q`: the midpoint, when the edge is too long. */
  function Inserted(p: Vec2, q: Vec2, maxEdgeLen: Vec2 -> real): seq<Vec2>
  {
    if TooLong(p, q, maxEdgeLen(p)) then [Mid(p, q)] else []
  }

  /** The new node list of one `grow`: every node, each followed by its edge's insertion. */
  function Grown(nodes: seq<Vec2>, maxEdgeLen: Vec2 -> real): (r: seq<Vec2>)
    requires nodes != []
    ensures |nodes| <= |r| <= 2 * |nodes| - 1
    ensures r[0] == nodes[0] && r[|r| - 1] == nodes[|nodes| - 1]
  {
    if |nodes| == 1 then nodes
    else [nodes[0]] + Inserted(nodes[0], nodes[1], maxEdgeLen) + Grown(nodes[1..], maxEdgeLen)
  }

  /** How many of the first k edges get a midpoint. */
  function LongEdges(nodes: seq<Vec2>, k: nat, maxEdgeLen: Vec2 -> real): nat
    requires k < |nodes|
  {
    if k == 0 then 0
    else LongEdges(nodes, k - 1, maxEdgeLen) + if TooLong(nodes[k - 1], nodes[k], maxEdgeLen(nodes[k - 1])) then 1 else 0
  }

  /** Where old node k lands: after k old nodes and the midpoints of the edges between them. */
  function Slot(nodes: seq<Vec2>, k: nat, maxEdgeLen: Vec2 -> real): nat
    requires k < |nodes|
  {
    k + LongEdges(nodes, k, maxEdgeLen)
  }

  /** Counting from the second node on: the first edge contributes its own midpoint. */
  lemma {:induction false} LongEdgesShift(nodes: seq<Vec2>, k: nat, maxEdgeLen: Vec2 -> real)
    requires 0 < k < |nodes|
    ensures LongEdges(nodes, k, maxEdgeLen) ==
      |Inserted(nodes[0], nodes[1], maxEdgeLen)| + LongEdges(nodes[1..], k - 1, maxEdgeLen)
  {
    if k > 1 {
      LongEdgesShift(nodes, k - 1, maxEdgeLen);
      assert nodes[1..][k - 2] == nodes[k - 1] && nodes[1..][k - 1] == nodes[k];
    }
  }

  /** Old node k + 1 lands one slot after old node k, or two when edge k got a midpoint. */
  lemma SlotStep(nodes: seq<Vec2>, k: nat, maxEdgeLen: Vec2 -> real)
    requires k + 1 < |nodes|
    ensures Slot(nodes, k + 1, maxEdgeLen) == Slot(nodes, k, maxEdgeLen) + 1 + |Inserted(nodes[k], nodes[k + 1], maxEdgeLen)|
  {
  }

  /** Old node k of a longer line lands one slot (plus the first edge's midpoint) later than in its tail. */
  lemma SlotShift(nodes: seq<Vec2>, k: nat, maxEdgeLen: Vec2 -> real)
    requires 0 < k < |nodes|
    ensures Slot(nodes, k, maxEdgeLen) == 1 + |Inserted(nodes[0], nodes[1], maxEdgeLen)| + Slot(nodes[1..], k - 1, maxEdgeLen)
  {
    LongEdgesShift(nodes, k, maxEdgeLen);
  }

  /** The grown line has one node per old node and one per long edge. */
  lemma {:induction false} GrownLength(nodes: seq<Vec2>, maxEdgeLen: Vec2 -> real)
    requires nodes != []
    ensures |Grown(nodes, maxEdgeLen)| == |nodes| + LongEdges(nodes, |nodes| - 1, maxEdgeLen)
  {
    if |nodes| > 1 {
      GrownLength(nodes[1..], maxEdgeLen);
      LongEdgesShift(nodes, |nodes| - 1, maxEdgeLen);
    }
  }

  /** Old node k sits at Slot(k) of the grown line: the old nodes are all kept, in order. */
  lemma {:induction false} GrownKeepsNodes(nodes: seq<Vec2>, k: nat, maxEdgeLen: Vec2 -> real)
    requires k < |nodes|
    ensures Slot(nodes, k, maxEdgeLen) < |Grown(nodes, maxEdgeLen)|
    ensures Grown(nodes, maxEdgeLen)[Slot(nodes, k, maxEdgeLen)] == nodes[k]
  {
    if k > 0 {
      var tail := nodes[1..];
      GrownKeepsNodes(tail, k - 1, maxEdgeLen);
      SlotShift(nodes, k, maxEdgeLen);
      assert tail[k - 1] == nodes[k];
    }
  }

  /** Right after old node k comes the midpoint of edge k, when that edge is too long. */
  lemma {:induction false} GrownMidpoints(nodes: seq<Vec2>, k: nat, maxEdgeLen: Vec2 -> real)
    requires k + 1 < |nodes| && TooLong(nodes[k], nodes[k + 1], maxEdgeLen(nodes[k]))
    ensures Slot(nodes, k, maxEdgeLen) + 1 < |Grown(nodes, maxEdgeLen)|
    ensures Grown(nodes, maxEdgeLen)[Slot(nodes, k, maxEdgeLen) + 1] == Mid(nodes[k], nodes[k + 1])
  {
    var tail := nodes[1..];
    if k > 0 {
      GrownMidpoints(tail, k - 1, maxEdgeLen);
      SlotShift(nodes, k, maxEdgeLen);
      assert tail[k - 1] == nodes[k] && tail[k] == nodes[k + 1];
    }
  }

  /** The line: its nodes, replaced wholesale by each `grow`. */
  class DifferentialLine {
    var nodes: seq<Vec2>
    const maxEdgeLen: Vec2 -> real

    constructor(nodes: seq<Vec2>, maxEdgeLen: Vec2 -> real)
      ensures this.nodes == nodes && this.maxEdgeLen == maxEdgeLen
    {
      this.nodes := nodes;
      this.maxEdgeLen := maxEdgeLen;
    }

    /** `grow`: copy each node, inserting a midpoint after it when its edge is too long; then the last node. */
    method Grow()
      requires nodes != []
      modifies this
      ensures nodes == Grown(old(nodes), maxEdgeLen)
    {
      var line := nodes;
      var newNodes := [];
      var j := 0;
      while j < |line| - 1
        invariant 0 <= j <= |line| - 1
        invariant newNodes + Grown(line[j..], maxEdgeLen) == Grown(line, maxEdgeLen)
      {
        var current, next := line[j], line[j + 1];
        GrownStep(line, j, maxEdgeLen);
        Pushed(newNodes, current, next, maxEdgeLen, Grown(line[j + 1..], maxEdgeLen));
        newNodes := newNodes + [current];
        if TooLong(current, next, maxEdgeLen(current)) {
          newNodes := newNodes + [Mid(current, next)];
        }
        j := j + 1;
      }
      LastSlice(line, j);
      newNodes := newNodes + [line[|line| - 1]];
      nodes := newNodes;
    }
  }

  lemma GrownStep(nodes: seq<Vec2>, j: nat, maxEdgeLen: Vec2 -> real)
    requires j < |nodes| - 1
    ensures Grown(nodes[j..], maxEdgeLen) ==
      [nodes[j]] + Inserted(nodes[j], nodes[j + 1], maxEdgeLen) + Grown(nodes[j + 1..], maxEdgeLen)
  {
    assert nodes[j..][1..] == nodes[j + 1..];
  }

  /** Pushing a node and then its edge's insertion extends the copy by one step of Grown. */
  lemma Pushed(before: seq<Vec2>, p: Vec2, q: Vec2, maxEdgeLen: Vec2 -> real, rest: seq<Vec2>)
    ensures TooLong(p, q, maxEdgeLen(p)) ==>
      before + [p] + [Mid(p, q)] + rest == before + ([p] + Inserted(p, q, maxEdgeLen) + rest)
    ensures !TooLong(p, q, maxEdgeLen(p)) ==>
      before + [p] + rest == before + ([p] + Inserted(p, q, maxEdgeLen) + rest)
  {
  }

  lemma LastSlice<T>(s: seq<T>, j: nat)
    requires j == |s| - 1
    ensures s[j..] == [s[|s| - 1]]
  {
  }
}
