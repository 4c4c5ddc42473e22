/**
 * The stitcher of the threshold-partitioning TypeScript sketch. Its contours
 * carry the threshold that produced them; segments are grouped by threshold
 * (groups in the order their threshold first appears) and each group is
 * stitched on its own, so segments of different thresholds are never joined.
 * Within a group the match is the FIRST pool segment near either end of the
 * line, its other endpoint goes to the front (preferred) or the back, and
 * only lines of more than 5 points are kept.
 */
module Badlands3 {
  import opened Wrappers
  import opened Geometry
  import opened ContourExtract
  import opened SegmentPool
  import opened Chaining

  /**
   * `findIndex` with the four-way test: the FIRST segment in pool order with
   * an endpoint near the first or the last point of the line.
   */
  function FirstTouching(pool: seq<Segment>, line: seq<Vec2>, eps: real): (r: Option<nat>)
    requires line != []
    ensures r.None? <==> forall i :: 0 <= i < |pool| ==> !Touches(line, pool[i], eps)
    ensures r.Some? ==> r.value < |pool| && Touches(line, pool[r.value], eps)
    ensures r.Some? ==> forall i :: 0 <= i < r.value ==> !Touches(line, pool[i], eps)
  {
    if pool == [] then None
    else if Touches(line, pool[0], eps) then Some(0)
    else
      match FirstTouching(pool[1..], line, eps)
      case None => None
      case Some(i) => Some(i + 1)
  }

  /** `line` is `line0` with an endpoint of `s` put before its first point, joined through `s`. */
  predicate Unshifted(line0: seq<Vec2>, line: seq<Vec2>, s: Segment, eps: real)
    requires line0 != []
  {
    && |line| == |line0| + 1 && line[1..] == line0
    && (line[0] == s.p0 || line[0] == s.p1)
    && Spans(line[0], line0[0], s, eps)
  }

  /** `line` is `line0` with an endpoint of `s` put after its last point, joined through `s`. */
  predicate Pushed(line0: seq<Vec2>, line: seq<Vec2>, s: Segment, eps: real)
    requires line0 != []
  {
    && |line| == |line0| + 1 && line[..|line0|] == line0
    && (line[|line0|] == s.p0 || line[|line0|] == s.p1)
    && Spans(line0[|line0| - 1], line[|line0|], s, eps)
  }

  /**
   * The four cases for a matched segment, tried in order: its first endpoint
   * near the line's first point, its second near the first point, its first
   * near the last point, its second near the last point. The endpoint not
   * tested is the one added.
   */
  predicate InCaseOrder(line0: seq<Vec2>, line: seq<Vec2>, s: Segment, eps: real)
    requires line0 != []
  {
    var first, last := line0[0], line0[|line0| - 1];
    if Near(s.p0, first, eps) then line == [s.p1] + line0
    else if Near(s.p1, first, eps) then line == [s.p0] + line0
    else if Near(s.p0, last, eps) then line == line0 + [s.p1]
    else line == line0 + [s.p0]
  }

  /**
   * Attaching a matched segment: when one of its endpoints is near the line's
   * first point its other endpoint is unshifted, otherwise (one is near the
   * last point) its other endpoint is pushed, the cases taken in order. One
   * point is added either way.
   */
  method Attach(line0: seq<Vec2>, s: Segment, eps: real) returns (line: seq<Vec2>)
    requires line0 != [] && Touches(line0, s, eps)
    ensures InCaseOrder(line0, line, s, eps)
    ensures Joins(line0[0], s, eps) ==> Unshifted(line0, line, s, eps)
    ensures !Joins(line0[0], s, eps) ==> Pushed(line0, line, s, eps)
  {
    var first, last := line0[0], line0[|line0| - 1];
    NearSymmetric(first, s.p0, eps);
    NearSymmetric(first, s.p1, eps);
    NearSymmetric(last, s.p0, eps);
    NearSymmetric(last, s.p1, eps);
    if Near(s.p0, first, eps) {
      line := [s.p1] + line0;
    } else if Near(s.p1, first, eps) {
      line := [s.p0] + line0;
    } else if Near(s.p0, last, eps) {
      line := line0 + [s.p1];
    } else {
      assert Near(s.p1, last, eps);
      line := line0 + [s.p0];
    }
  }

  /** One round of the inner loop: attach the matched segment and remove it from the pool. */
  method Extend(line0: seq<Vec2>, ghost chain0: seq<Segment>, pool0: seq<Segment>, index: nat, eps: real)
    returns (line: seq<Vec2>, ghost chain: seq<Segment>, pool: seq<Segment>)
    requires Traces(line0, chain0, eps) && index < |pool0| && Touches(line0, pool0[index], eps)
    ensures Traces(line, chain, eps) && Moved(chain0, pool0, chain, pool)
    ensures |line| == |line0| + 1 && |pool| == |pool0| - 1
    // the segment at `index` is the one attached, and it leaves the pool
    ensures InCaseOrder(line0, line, pool0[index], eps)
    ensures pool == RemoveAt(pool0, index)
  {
    var s := pool0[index];
    line := Attach(line0, s, eps);
    pool := RemoveAt(pool0, index);
    if Unshifted(line0, line, s, eps) {
      assert line == [line[0]] + line0;
      TakeAtTail(line0, chain0, pool0, index, line[0], eps);
      chain := [s] + chain0;
    } else {
      assert line == line0 + [line[|line0|]];
      TakeAtHead(line0, chain0, pool0, index, line[|line0|], eps);
      chain := chain0 + [s];
    }
  }

  /** The inner loop: attach first matches until no pool segment is near either end. */
  method GrowLine(line0: seq<Vec2>, ghost chain0: seq<Segment>, pool0: seq<Segment>, eps: real)
    returns (line: seq<Vec2>, ghost chain: seq<Segment>, pool: seq<Segment>)
    requires Traces(line0, chain0, eps)
    ensures Traces(line, chain, eps)
    ensures Moved(chain0, pool0, chain, pool)
    ensures forall s :: s in pool ==> !Touches(line, s, eps)
    ensures pool0 == [] ==> line == line0 && chain == chain0 && pool == []
  {
    line, chain, pool := line0, chain0, pool0;
    while true
      invariant Traces(line, chain, eps)
      invariant Moved(chain0, pool0, chain, pool)
      invariant pool0 == [] ==> line == line0 && chain == chain0 && pool == []
      decreases |pool|
    {
      var index := FirstTouching(pool, line, eps);
      if index.None? {
        forall s | s in pool
          ensures !Touches(line, s, eps)
        {
          var i :| 0 <= i < |pool| && pool[i] == s;
        }
        break;
      }
      ghost var (chain1, pool1) := (chain, pool);
      line, chain, pool := Extend(line, chain, pool, index.value, eps);
      MovedTrans(chain0, pool0, chain1, pool1, chain, pool);
    }
  }

  /** The lines of more than 5 points, in order. */
  function LongLines(built: seq<seq<Vec2>>): (r: seq<seq<Vec2>>)
    ensures |r| <= |built|
    ensures forall l :: l in r <==> l in built && |l| > 5
  {
    if built == [] then []
    else
      var last := built[|built| - 1];
      assert built == built[..|built| - 1] + [last];
      LongLines(built[..|built| - 1]) + (if |last| > 5 then [last] else [])
  }

  lemma LongLinesSnoc(built: seq<seq<Vec2>>, line: seq<Vec2>)
    ensures LongLines(built + [line]) == LongLines(built) + (if |line| > 5 then [line] else [])
  {
    assert (built + [line])[..|built|] == built;
  }

  /**
   * One round of the outer loop: pop the last segment, grow it into a line,
   * and keep the line only if it has more than 5 points. `built` records
   * every line grown, kept or not.
   */
  method EmitLine(ghost segments: seq<Segment>, lines0: seq<seq<Vec2>>, ghost built0: seq<seq<Vec2>>,
                  ghost chains0: seq<seq<Segment>>, pool0: seq<Segment>, eps: real)
    returns (lines: seq<seq<Vec2>>, ghost built: seq<seq<Vec2>>, ghost chains: seq<seq<Segment>>, pool: seq<Segment>)
    requires pool0 != [] && Stitched(segments, built0, chains0, pool0, eps)
    ensures Stitched(segments, built, chains, pool, eps)
    ensures |built| == |built0| + 1 && |pool| < |pool0|
    ensures lines0 == LongLines(built0) ==> lines == LongLines(built)
  {
    var first := pool0[|pool0| - 1];
    var rest := pool0[..|pool0| - 1];
    SplitLast(pool0);
    TracesOne(first, eps);
    var line;
    ghost var chain;
    line, chain, pool := GrowLine([first.p0, first.p1], [first], rest, eps);
    StitchStep(segments, built0, chains0, pool0, first, rest, line, chain, pool, eps);
    built := built0 + [line];
    chains := chains0 + [chain];
    LongLinesSnoc(built0, line);
    if |line| > 5 {
      lines := lines0 + [line];
    } else {
      lines := lines0;
    }
  }

  /**
   * The stitching of one threshold group. The grown lines `built` follow the
   * same rules as the far-endpoint stitcher: every segment used once, one
   * point per segment plus one per line, consecutive points joined through
   * a segment, no later segment joining an earlier line. Only the lines of
   * more than 5 points are returned.
   */
  method StitchGroup(segments: seq<Segment>, eps: real)
    returns (lines: seq<seq<Vec2>>, ghost built: seq<seq<Vec2>>, ghost chains: seq<seq<Segment>>)
    ensures Stitched(segments, built, chains, [], eps)
    ensures lines == LongLines(built)
    ensures |built| <= |segments| && (built == [] <==> segments == [])
  {
    var pool := segments;
    lines, built, chains := [], [], [];
    StitchedStart(segments, eps);
    while pool != []
      invariant |built| <= |segments| - |pool|
      invariant Stitched(segments, built, chains, pool, eps)
      invariant lines == LongLines(built)
      invariant built == [] ==> pool == segments
      decreases |pool|
    {
      lines, built, chains, pool := EmitLine(segments, lines, built, chains, pool, eps);
    }
  }

  /** The segments of a list of contours, threshold tags dropped. */
  function LinesOf(contours: seq<Contour>): (r: seq<Segment>)
    ensures |r| == |contours|
    ensures forall i :: 0 <= i < |r| ==> r[i] == contours[i].line
  {
    if contours == [] then [] else LinesOf(contours[..|contours| - 1]) + [contours[|contours| - 1].line]
  }

  /** The distinct thresholds, in the order they first appear: the keys of the `Map`. */
  function Keys(contours: seq<Contour>): (r: seq<real>)
    ensures forall t :: t in r <==> exists i :: 0 <= i < |contours| && contours[i].threshold == t
    ensures forall i, j :: 0 <= i < j < |r| ==> r[i] != r[j]
  {
    if contours == [] then []
    else
      var front, last := contours[..|contours| - 1], contours[|contours| - 1];
      var prev := Keys(front);
      assert forall i :: 0 <= i < |front| ==> front[i] == contours[i];
      if last.threshold in prev then prev else prev + [last.threshold]
  }

  /** The segments whose threshold is `t`, in input order: the value the `Map` holds for `t`. */
  function Group(contours: seq<Contour>, t: real): (r: seq<Segment>)
    ensures |r| <= |contours|
    ensures forall s :: s in r <==> Contour(s, t) in contours
  {
    if contours == [] then []
    else
      var front, last := contours[..|contours| - 1], contours[|contours| - 1];
      assert contours == front + [last];
      Group(front, t) + (if last.threshold == t then [last.line] else [])
  }

  /** A threshold that has not appeared yet has no segments. */
  lemma GroupOfNewKey(contours: seq<Contour>, t: real)
    requires t !in Keys(contours)
    ensures Group(contours, t) == []
  {
  }

  lemma GroupSnoc(contours: seq<Contour>, c: Contour, t: real)
    ensures Group(contours + [c], t) == Group(contours, t) + (if c.threshold == t then [c.line] else [])
  {
    assert (contours + [c])[..|contours|] == contours;
  }

  lemma KeysSnoc(contours: seq<Contour>, c: Contour)
    ensures Keys(contours + [c]) == if c.threshold in Keys(contours) then Keys(contours) else Keys(contours) + [c.threshold]
  {
    assert (contours + [c])[..|contours|] == contours;
  }

  /**
   * The partition loop: a `Map` from threshold to the segments of that
   * threshold, modelled as its keys in insertion order and the map itself.
   */
  method PartitionByThreshold(contours: seq<Contour>) returns (keys: seq<real>, groups: map<real, seq<Segment>>)
    ensures keys == Keys(contours)
    ensures forall t :: t in groups <==> t in keys
    ensures forall t :: t in groups ==> groups[t] == Group(contours, t)
  {
    keys, groups := [], map[];
    var i := 0;
    while i < |contours|
      invariant 0 <= i <= |contours|
      invariant keys == Keys(contours[..i])
      invariant forall t :: t in groups <==> t in keys
      invariant forall t :: t in groups ==> groups[t] == Group(contours[..i], t)
    {
      var c := contours[i];
      assert contours[..i + 1] == contours[..i] + [c];
      KeysSnoc(contours[..i], c);
      forall t ensures Group(contours[..i + 1], t) == Group(contours[..i], t) + (if c.threshold == t then [c.line] else []) {
        GroupSnoc(contours[..i], c, t);
      }
      if c.threshold in groups {
        groups := groups[c.threshold := groups[c.threshold] + [c.line]];
      } else {
        GroupOfNewKey(contours[..i], c.threshold);
        keys := keys + [c.threshold];
        groups := groups[c.threshold := [c.line]];
      }
      i := i + 1;
    }
    assert contours[..i] == contours;
  }

  /** All segments of the groups of `keys`, counted with multiplicity. */
  ghost function GroupsUnion(contours: seq<Contour>, keys: seq<real>): multiset<Segment>
  {
    if keys == [] then multiset{}
    else GroupsUnion(contours, keys[..|keys| - 1]) + multiset(Group(contours, keys[|keys| - 1]))
  }

  lemma {:induction false} GroupsUnionSnoc(contours: seq<Contour>, c: Contour, keys: seq<real>)
    requires forall i, j :: 0 <= i < j < |keys| ==> keys[i] != keys[j]
    ensures GroupsUnion(contours + [c], keys) ==
      GroupsUnion(contours, keys) + (if c.threshold in keys then multiset{c.line} else multiset{})
  {
    if keys != [] {
      var front, t := keys[..|keys| - 1], keys[|keys| - 1];
      LastKey(keys);
      GroupsUnionSnoc(contours, c, front);
      GroupSnoc(contours, c, t);
      var a, g := GroupsUnion(contours, front), multiset(Group(contours, t));
      var x := if c.threshold in front then multiset{c.line} else multiset{};
      var y := if c.threshold == t then multiset{c.line} else multiset{};
      assert GroupsUnion(contours, keys) == a + g;
      assert GroupsUnion(contours + [c], keys) == (a + x) + (g + y);
      assert x + y == if c.threshold in keys then multiset{c.line} else multiset{};
      UnionInterleave(a, g, x, y);
    }
  }

  lemma UnionInterleave<T>(a: multiset<T>, g: multiset<T>, x: multiset<T>, y: multiset<T>)
    ensures (a + x) + (g + y) == (a + g) + (x + y)
  {
  }

  ghost predicate Distinct(keys: seq<real>)
  {
    forall i, j :: 0 <= i < j < |keys| ==> keys[i] != keys[j]
  }

  /** Dropping the last of distinct keys: the rest stay distinct and do not hold it. */
  lemma LastKey(keys: seq<real>)
    requires keys != [] && forall i, j :: 0 <= i < j < |keys| ==> keys[i] != keys[j]
    ensures Distinct(keys[..|keys| - 1])
    ensures keys[|keys| - 1] !in keys[..|keys| - 1]
    ensures forall x :: x in keys <==> x in keys[..|keys| - 1] || x == keys[|keys| - 1]
  {
    assert keys == keys[..|keys| - 1] + [keys[|keys| - 1]];
  }

  /** The groups partition the input: every segment lands in exactly one group, once. */
  lemma {:induction false} PartitionCovers(contours: seq<Contour>)
    ensures GroupsUnion(contours, Keys(contours)) == multiset(LinesOf(contours))
  {
    if contours != [] {
      var front, c := contours[..|contours| - 1], contours[|contours| - 1];
      assert contours == front + [c];
      PartitionCovers(front);
      GroupsUnionSnoc(front, c, Keys(front));
      KeysSnoc(front, c);
      assert LinesOf(contours) == LinesOf(front) + [c.line];
      var t := c.threshold;
      if t !in Keys(front) {
        var keys := Keys(front) + [t];
        assert keys[..|keys| - 1] == Keys(front);
        GroupOfNewKey(front, t);
        GroupSnoc(front, c, t);
        assert Group(contours, t) == [c.line];
      }
    }
  }

  /** Each segment sits in the group of its own threshold. */
  lemma InOwnGroup(contours: seq<Contour>, i: nat)
    requires i < |contours|
    ensures contours[i].threshold in Keys(contours)
    ensures contours[i].line in Group(contours, contours[i].threshold)
  {
  }

  lemma PrefixSnoc<T>(s: seq<T>, j: nat)
    requires j < |s|
    ensures s[..j + 1] == s[..j] + [s[j]]
  {
  }

  /** The kept lines of every group, group after group. */
  function AllLong(groupBuilt: seq<seq<seq<Vec2>>>): (r: seq<seq<Vec2>>)
    ensures forall l :: l in r ==> |l| > 5
  {
    if groupBuilt == [] then []
    else AllLong(groupBuilt[..|groupBuilt| - 1]) + LongLines(groupBuilt[|groupBuilt| - 1])
  }

  /** All segments the chains of every group use, with multiplicity. */
  ghost function AllUsed(groupChains: seq<seq<seq<Segment>>>): multiset<Segment>
  {
    if groupChains == [] then multiset{}
    else AllUsed(groupChains[..|groupChains| - 1]) + multiset(Concat(groupChains[|groupChains| - 1]))
  }

  /** Every segment a group's chains use carries that group's threshold. */
  ghost predicate FromGroup(contours: seq<Contour>, t: real, chains: seq<seq<Segment>>)
  {
    forall k, s :: 0 <= k < |chains| && s in chains[k] ==> Contour(s, t) in contours
  }

  lemma ChainsStayInGroup(contours: seq<Contour>, t: real, built: seq<seq<Vec2>>, chains: seq<seq<Segment>>, eps: real)
    requires Stitched(Group(contours, t), built, chains, [], eps)
    ensures FromGroup(contours, t, chains)
  {
    forall k, s | 0 <= k < |chains| && s in chains[k]
      ensures Contour(s, t) in contours
    {
      ConcatHas(chains, k, s);
      var none: seq<Segment> := [];
      assert multiset(none) == multiset{};
      assert s in multiset(Concat(chains));
      assert s in multiset(Group(contours, t));
    }
  }

  lemma {:induction false} ConcatHas(chains: seq<seq<Segment>>, k: nat, s: Segment)
    requires k < |chains| && s in chains[k]
    ensures s in Concat(chains)
  {
    var front := chains[..|chains| - 1];
    if k < |front| {
      ConcatHas(front, k, s);
    }
  }

  /** The bookkeeping of the loop over the groups. */
  ghost predicate GroupsDone(contours: seq<Contour>, keys: seq<real>, eps: real, lines: seq<seq<Vec2>>,
                             groupBuilt: seq<seq<seq<Vec2>>>, groupChains: seq<seq<seq<Segment>>>)
  {
    && |groupBuilt| == |groupChains| == |keys|
    && EachStitched(contours, keys, eps, groupBuilt, groupChains)
    && lines == AllLong(groupBuilt)
    && AllUsed(groupChains) == GroupsUnion(contours, keys)
  }

  ghost predicate EachStitched(contours: seq<Contour>, keys: seq<real>, eps: real,
                               groupBuilt: seq<seq<seq<Vec2>>>, groupChains: seq<seq<seq<Segment>>>)
    requires |groupBuilt| == |groupChains| == |keys|
  {
    forall j :: 0 <= j < |keys| ==>
      Stitched(Group(contours, keys[j]), groupBuilt[j], groupChains[j], [], eps) && FromGroup(contours, keys[j], groupChains[j])
  }

  lemma EachStitchedStep(contours: seq<Contour>, keys: seq<real>, t: real, eps: real,
                         groupBuilt: seq<seq<seq<Vec2>>>, groupChains: seq<seq<seq<Segment>>>,
                         built: seq<seq<Vec2>>, chains: seq<seq<Segment>>)
    requires |groupBuilt| == |groupChains| == |keys|
    requires EachStitched(contours, keys, eps, groupBuilt, groupChains)
    requires Stitched(Group(contours, t), built, chains, [], eps)
    ensures EachStitched(contours, keys + [t], eps, groupBuilt + [built], groupChains + [chains])
  {
    var keys', gb', gc' := keys + [t], groupBuilt + [built], groupChains + [chains];
    ChainsStayInGroup(contours, t, built, chains, eps);
    forall j | 0 <= j < |keys'|
      ensures Stitched(Group(contours, keys'[j]), gb'[j], gc'[j], [], eps) && FromGroup(contours, keys'[j], gc'[j])
    {
      if j < |keys| {
        assert keys'[j] == keys[j] && gb'[j] == groupBuilt[j] && gc'[j] == groupChains[j];
      }
    }
  }

  lemma AllLongSnoc(groupBuilt: seq<seq<seq<Vec2>>>, built: seq<seq<Vec2>>)
    ensures AllLong(groupBuilt + [built]) == AllLong(groupBuilt) + LongLines(built)
  {
    assert (groupBuilt + [built])[..|groupBuilt|] == groupBuilt;
  }

  lemma AllUsedSnoc(contours: seq<Contour>, keys: seq<real>, t: real, groupChains: seq<seq<seq<Segment>>>,
                    built: seq<seq<Vec2>>, chains: seq<seq<Segment>>, eps: real)
    requires AllUsed(groupChains) == GroupsUnion(contours, keys)
    requires Stitched(Group(contours, t), built, chains, [], eps)
    ensures AllUsed(groupChains + [chains]) == GroupsUnion(contours, keys + [t])
  {
    assert (groupChains + [chains])[..|groupChains|] == groupChains;
    assert (keys + [t])[..|keys|] == keys;
    StitchedDone(Group(contours, t), built, chains, eps);
  }

  lemma GroupsDoneStep(contours: seq<Contour>, keys: seq<real>, t: real, eps: real, lines: seq<seq<Vec2>>,
                       groupBuilt: seq<seq<seq<Vec2>>>, groupChains: seq<seq<seq<Segment>>>,
                       ls: seq<seq<Vec2>>, built: seq<seq<Vec2>>, chains: seq<seq<Segment>>)
    requires GroupsDone(contours, keys, eps, lines, groupBuilt, groupChains)
    requires Stitched(Group(contours, t), built, chains, [], eps) && ls == LongLines(built)
    ensures GroupsDone(contours, keys + [t], eps, lines + ls, groupBuilt + [built], groupChains + [chains])
  {
    EachStitchedStep(contours, keys, t, eps, groupBuilt, groupChains, built, chains);
    AllLongSnoc(groupBuilt, built);
    AllUsedSnoc(contours, keys, t, groupChains, built, chains, eps);
  }

  lemma GroupsDoneAll(contours: seq<Contour>, eps: real, lines: seq<seq<Vec2>>,
                      groupBuilt: seq<seq<seq<Vec2>>>, groupChains: seq<seq<seq<Segment>>>)
    requires GroupsDone(contours, Keys(contours), eps, lines, groupBuilt, groupChains)
    ensures forall j :: 0 <= j < |groupBuilt| ==>
      Stitched(Group(contours, Keys(contours)[j]), groupBuilt[j], groupChains[j], [], eps)
    ensures forall j, k, s :: 0 <= j < |groupChains| && 0 <= k < |groupChains[j]| && s in groupChains[j][k] ==>
      Contour(s, Keys(contours)[j]) in contours
    ensures AllUsed(groupChains) == multiset(LinesOf(contours))
  {
    PartitionCovers(contours);
    var keys := Keys(contours);
    forall j, k, s | 0 <= j < |groupChains| && 0 <= k < |groupChains[j]| && s in groupChains[j][k]
      ensures Contour(s, keys[j]) in contours
    {
      assert FromGroup(contours, keys[j], groupChains[j]);
    }
  }

  /**
   * `connectContourSegments` of the threshold-partitioning sketch. The ghost
   * `groupBuilt[j]` and `groupChains[j]` are the lines grown (kept or not)
   * and their segments for the j-th threshold in order of first appearance.
   */
  method ConnectContourSegments(contours: seq<Contour>, threshold: Option<real>)
    returns (lines: seq<seq<Vec2>>, ghost groupBuilt: seq<seq<seq<Vec2>>>, ghost groupChains: seq<seq<seq<Segment>>>)
    // each threshold is stitched on its own, with the far-endpoint rules
    ensures |groupBuilt| == |groupChains| == |Keys(contours)|
    ensures forall j :: 0 <= j < |groupBuilt| ==>
      Stitched(Group(contours, Keys(contours)[j]), groupBuilt[j], groupChains[j], [], Nearness(threshold))
    // a line never mixes segments of different thresholds
    ensures forall j, k, s :: 0 <= j < |groupChains| && 0 <= k < |groupChains[j]| && s in groupChains[j][k] ==>
      Contour(s, Keys(contours)[j]) in contours
    // every input segment is used exactly once
    ensures AllUsed(groupChains) == multiset(LinesOf(contours))
    // only lines of more than 5 points are returned, group after group
    ensures lines == AllLong(groupBuilt)
    ensures forall l :: l in lines ==> |l| > 5
  {
    var eps := Nearness(threshold);
    var keys, groups := PartitionByThreshold(contours);
    lines, groupBuilt, groupChains := [], [], [];
    var j := 0;
    while j < |keys|
      invariant 0 <= j <= |keys|
      invariant GroupsDone(contours, keys[..j], eps, lines, groupBuilt, groupChains)
    {
      PrefixSnoc(keys, j);
      var ls;
      ghost var built, chains;
      ls, built, chains := StitchGroup(groups[keys[j]], eps);
      GroupsDoneStep(contours, keys[..j], keys[j], eps, lines, groupBuilt, groupChains, ls, built, chains);
      lines, groupBuilt, groupChains := lines + ls, groupBuilt + [built], groupChains + [chains];
      j := j + 1;
    }
    assert keys[..j] == keys;
    GroupsDoneAll(contours, eps, lines, groupBuilt, groupChains);
  }
}
