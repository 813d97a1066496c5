/** Classification of an indexed triangle list against a plane and the cut
    descriptors of the straddling triangles (Assets/Scripts/CutJob.cs).
    The EdgeCut and TriangleCut records are declared in a file that is not
    part of this model; their fields are taken from their uses. */
module Cutting {
  import opened Geometry

  datatype Triangle = Triangle(i0: int, i1: int, i2: int)

  /** The corners in winding order. */
  function Corners(t: Triangle): seq<int>
  {
    [t.i0, t.i1, t.i2]
  }

  predicate InRange(t: Triangle, vertexCount: int)
  {
    0 <= t.i0 < vertexCount && 0 <= t.i1 < vertexCount && 0 <= t.i2 < vertexCount
  }

  predicate AllInRange(tris: seq<Triangle>, vertexCount: int)
  {
    forall t :: t in tris ==> InRange(t, vertexCount)
  }

  predicate Distinct(t: Triangle)
  {
    t.i0 != t.i1 && t.i1 != t.i2 && t.i2 != t.i0
  }

  /** A triangle list read three indices at a time. */
  function Triangles(indices: seq<int>): seq<Triangle>
    requires |indices| % 3 == 0
  {
    seq(|indices| / 3, k requires 0 <= k < |indices| / 3 =>
      Triangle(indices[3 * k], indices[3 * k + 1], indices[3 * k + 2]))
  }

  /** The triangles written back as a flat index list. */
  function Flatten(ts: seq<Triangle>): (r: seq<int>)
    ensures |r| == 3 * |ts|
  {
    if ts == [] then [] else Flatten(ts[..|ts| - 1]) + Corners(ts[|ts| - 1])
  }

  /** Reading a list as triangles and writing them back gives the list. */
  lemma {:induction false} FlattenTriangles(indices: seq<int>)
    requires |indices| % 3 == 0
    ensures Flatten(Triangles(indices)) == indices
    decreases |indices|
  {
    if indices != [] {
      var n := |indices|;
      var front := indices[..n - 3];
      var ts := Triangles(indices);
      assert Triangles(front) == ts[..|ts| - 1];
      FlattenTriangles(front);
      assert indices == front + [indices[n - 3], indices[n - 2], indices[n - 1]];
    }
  }

  /** Every corner of every triangle of a valid index list names a vertex. */
  lemma TrianglesInRange(indices: seq<int>, vertexCount: int)
    requires |indices| % 3 == 0
    requires forall i :: 0 <= i < |indices| ==> 0 <= indices[i] < vertexCount
    ensures AllInRange(Triangles(indices), vertexCount)
  {
    var ts := Triangles(indices);
    forall t | t in ts
      ensures InRange(t, vertexCount)
    {
      var k :| 0 <= k < |ts| && ts[k] == t;
      assert 3 * k + 2 < |indices|;
    }
  }

  /** One side of one triangle edge crossing the plane: `from` is the vertex
      above the plane, `to` the one below, and `intersection` the fraction of
      the way from `from` to `to` where the edge meets the plane. */
  datatype EdgeCut = EdgeCut(from: int, to: int, intersection: real)

  /** The two cut edges of one straddling triangle. Both touch the vertex
      that is alone on its side. */
  datatype TriangleCut = TriangleCut(cut1: EdgeCut, cut2: EdgeCut)

  /** The interpolation parameter of a crossing, from the distance d1 of the
      above endpoint and d2 of the below endpoint. */
  function Intersection(d1: real, d2: real): (t: real)
    requires d1 != d2
    ensures d1 + t * (d2 - d1) == 0.0
    ensures d1 > 0.0 >= d2 ==> 0.0 < t <= 1.0
    ensures d1 > 0.0 >= d2 ==> (t == 1.0 <==> d2 == 0.0)
  {
    d1 / (d1 + -d2)
  }

  datatype TriangleOutcome = WholeAbove | WholeBelow | Split(cut: TriangleCut)

  /** The per-triangle step of the cut job, given the signed distances of
      the three corners. The branch order is that of the job: all above, all
      below, then the isolated corner is found by comparing the other two. */
  function ClassifyTriangle(t: Triangle, d0: real, d1: real, d2: real): (r: TriangleOutcome)
    ensures r == WholeAbove <==> d0 > 0.0 && d1 > 0.0 && d2 > 0.0
    ensures r == WholeBelow <==> d0 <= 0.0 && d1 <= 0.0 && d2 <= 0.0
    ensures r.Split? <==> exists k: nat :: k < 3 && IsIsolated([d0, d1, d2], k)
  {
    var isAbove0, isAbove1, isAbove2 := d0 > 0.0, d1 > 0.0, d2 > 0.0;
    if isAbove0 && isAbove1 && isAbove2 then
      WholeAbove
    else if !isAbove0 && !isAbove1 && !isAbove2 then
      WholeBelow
    else if isAbove1 == isAbove2 then
      assert IsIsolated([d0, d1, d2], 0);
      if isAbove0 then
        Split(TriangleCut(EdgeCut(t.i0, t.i1, Intersection(d0, d1)),
                          EdgeCut(t.i0, t.i2, Intersection(d0, d2))))
      else
        Split(TriangleCut(EdgeCut(t.i2, t.i0, Intersection(d2, d0)),
                          EdgeCut(t.i1, t.i0, Intersection(d1, d0))))
    else if isAbove0 == isAbove2 then
      assert IsIsolated([d0, d1, d2], 1);
      if isAbove1 then
        Split(TriangleCut(EdgeCut(t.i1, t.i2, Intersection(d1, d2)),
                          EdgeCut(t.i1, t.i0, Intersection(d1, d0))))
      else
        Split(TriangleCut(EdgeCut(t.i0, t.i1, Intersection(d0, d1)),
                          EdgeCut(t.i2, t.i1, Intersection(d2, d1))))
    else
      assert IsIsolated([d0, d1, d2], 2);
      if isAbove2 then
        Split(TriangleCut(EdgeCut(t.i2, t.i0, Intersection(d2, d0)),
                          EdgeCut(t.i2, t.i1, Intersection(d2, d1))))
      else
        Split(TriangleCut(EdgeCut(t.i1, t.i2, Intersection(d1, d2)),
                          EdgeCut(t.i0, t.i2, Intersection(d0, d2))))
  }

  /** The corner after k in winding order. */
  function Next(k: nat): nat
    requires k < 3
  {
    (k + 1) % 3
  }

  /** The corner before k in winding order. */
  function Prev(k: nat): nat
    requires k < 3
  {
    (k + 2) % 3
  }

  /** Corner k is alone on its side of the plane. */
  predicate IsIsolated(d: seq<real>, k: nat)
    requires |d| == 3 && k < 3
  {
    (d[k] > 0.0) != (d[Next(k)] > 0.0) && (d[k] > 0.0) != (d[Prev(k)] > 0.0)
  }

  /** The cut descriptor of a straddling triangle stated by rotation: with
      corners c, distances d and isolated corner k, both edges leaving k are
      cut and each edge cut runs from its above endpoint to its below one.
      When k is above, cut1 is the edge to the next corner; when k is below,
      cut1 is the edge from the previous corner. */
  function CanonicalCut(c: seq<int>, d: seq<real>, k: nat): TriangleCut
    requires |c| == 3 && |d| == 3 && k < 3 && IsIsolated(d, k)
  {
    var next, prev := Next(k), Prev(k);
    if d[k] > 0.0 then
      TriangleCut(EdgeCut(c[k], c[next], Intersection(d[k], d[next])),
                  EdgeCut(c[k], c[prev], Intersection(d[k], d[prev])))
    else
      TriangleCut(EdgeCut(c[prev], c[k], Intersection(d[prev], d[k])),
                  EdgeCut(c[next], c[k], Intersection(d[next], d[k])))
  }

  /** The job's nine-way case analysis computes the rotation-based cut for
      whichever corner is isolated. */
  lemma ClassifyIsCanonical(t: Triangle, d0: real, d1: real, d2: real, k: nat)
    requires k < 3 && IsIsolated([d0, d1, d2], k)
    ensures ClassifyTriangle(t, d0, d1, d2) == Split(CanonicalCut(Corners(t), [d0, d1, d2], k))
  {
  }

  /** With three distinct corners, the branch test of the retriangulation
      (cut1.from == cut2.from) tells exactly whether the isolated corner is
      above, and the corners sit in fixed slots of the descriptor. */
  lemma IsolatedLayout(t: Triangle, d0: real, d1: real, d2: real, k: nat)
    requires Distinct(t) && k < 3 && IsIsolated([d0, d1, d2], k)
    ensures ClassifyTriangle(t, d0, d1, d2).Split?
    ensures var cut, c, d := ClassifyTriangle(t, d0, d1, d2).cut, Corners(t), [d0, d1, d2];
      && (cut.cut1.from == cut.cut2.from <==> d[k] > 0.0)
      && (d[k] > 0.0 ==>
            cut.cut1.from == c[k] && cut.cut2.from == c[k]
            && cut.cut1.to == c[Next(k)] && cut.cut2.to == c[Prev(k)])
      && (d[k] <= 0.0 ==>
            cut.cut1.to == c[k] && cut.cut2.to == c[k]
            && cut.cut1.from == c[Prev(k)] && cut.cut2.from == c[Next(k)])
  {
    ClassifyIsCanonical(t, d0, d1, d2, k);
  }

  /** An edge cut as the job produces it: both endpoints are vertices, the
      first is above the plane and the second is not, and the parameter is
      computed from the above endpoint's distance first. */
  predicate ValidEdgeCut(plane: Plane, positions: seq<Vec3>, e: EdgeCut)
  {
    && 0 <= e.from < |positions| && 0 <= e.to < |positions|
    && IsAbove(plane, positions[e.from]) && !IsAbove(plane, positions[e.to])
    && e.intersection == Intersection(SignedDistance(plane, positions[e.from]),
                                      SignedDistance(plane, positions[e.to]))
  }

  /** Both edge cuts are valid and they share the isolated vertex. */
  predicate ValidTriangleCut(plane: Plane, positions: seq<Vec3>, c: TriangleCut)
  {
    && ValidEdgeCut(plane, positions, c.cut1)
    && ValidEdgeCut(plane, positions, c.cut2)
    && (c.cut1.from == c.cut2.from || c.cut1.to == c.cut2.to)
  }

  /** All four endpoints of the cut are corners of t. */
  predicate CutWithin(c: TriangleCut, t: Triangle)
  {
    var cs := Corners(t);
    c.cut1.from in cs && c.cut1.to in cs && c.cut2.from in cs && c.cut2.to in cs
  }

  /** The signed distances of the three corners of a mesh triangle. */
  function Distances(plane: Plane, positions: seq<Vec3>, t: Triangle): (d: seq<real>)
    requires InRange(t, |positions|)
  {
    [SignedDistance(plane, positions[t.i0]), SignedDistance(plane, positions[t.i1]),
     SignedDistance(plane, positions[t.i2])]
  }

  /** Classification of one triangle of a mesh against the plane. */
  function Classify(plane: Plane, positions: seq<Vec3>, t: Triangle): (r: TriangleOutcome)
    requires InRange(t, |positions|)
    ensures r.Split? ==> ValidTriangleCut(plane, positions, r.cut) && CutWithin(r.cut, t)
    ensures forall k: nat :: k < 3 && IsIsolated(Distances(plane, positions, t), k) ==>
              r == Split(CanonicalCut(Corners(t), Distances(plane, positions, t), k))
    ensures r == WholeAbove <==> IsAbove(plane, positions[t.i0]) && IsAbove(plane, positions[t.i1])
                                 && IsAbove(plane, positions[t.i2])
    ensures r == WholeBelow <==> !IsAbove(plane, positions[t.i0]) && !IsAbove(plane, positions[t.i1])
                                 && !IsAbove(plane, positions[t.i2])
  {
    ClassifyTriangle(t, SignedDistance(plane, positions[t.i0]),
                     SignedDistance(plane, positions[t.i1]),
                     SignedDistance(plane, positions[t.i2]))
  }

  /** The lists the job fills and its `Result[0]` flag. */
  datatype CutOutput = CutOutput(intersected: bool, above: seq<int>, below: seq<int>, cuts: seq<TriangleCut>)

  function Step(acc: CutOutput, t: Triangle, outcome: TriangleOutcome): CutOutput
  {
    match outcome
    case WholeAbove => acc.(above := acc.above + Corners(t))
    case WholeBelow => acc.(below := acc.below + Corners(t))
    case Split(cut) => acc.(intersected := true, cuts := acc.cuts + [cut])
  }

  /** The whole job as a fold over the triangles in order. */
  function CutAll(plane: Plane, positions: seq<Vec3>, tris: seq<Triangle>): (o: CutOutput)
    requires AllInRange(tris, |positions|)
    ensures o.intersected <==> |o.cuts| > 0
    ensures forall i :: 0 <= i < |o.above| ==> 0 <= o.above[i] < |positions|
    ensures forall i :: 0 <= i < |o.below| ==> 0 <= o.below[i] < |positions|
    ensures forall k :: 0 <= k < |o.cuts| ==> ValidTriangleCut(plane, positions, o.cuts[k])
    decreases |tris|
  {
    if tris == [] then
      CutOutput(false, [], [], [])
    else
      var last := tris[|tris| - 1];
      Step(CutAll(plane, positions, tris[..|tris| - 1]), last, Classify(plane, positions, last))
  }

  /** Every triangle goes to exactly one place: the two lists hold whole
      triangles, and together with the cuts they account for each input
      triangle once. */
  lemma {:induction false} CutAllCounts(plane: Plane, positions: seq<Vec3>, tris: seq<Triangle>)
    requires AllInRange(tris, |positions|)
    ensures var o := CutAll(plane, positions, tris);
      && |o.above| % 3 == 0 && |o.below| % 3 == 0
      && |o.above| / 3 + |o.below| / 3 + |o.cuts| == |tris|
    decreases |tris|
  {
    if tris != [] {
      var front, last := tris[..|tris| - 1], tris[|tris| - 1];
      CutAllCounts(plane, positions, front);
      var o := CutAll(plane, positions, front);
      var outcome := Classify(plane, positions, last);
      assert CutAll(plane, positions, tris) == Step(o, last, outcome);
      WholeTriangleMore(|o.above|);
      WholeTriangleMore(|o.below|);
    }
  }

  /** Three more indices on a list of whole triangles make one more triangle. */
  lemma WholeTriangleMore(n: int)
    requires n >= 0 && n % 3 == 0
    ensures (n + 3) % 3 == 0 && (n + 3) / 3 == n / 3 + 1
  {
  }

  /** The triangles of tris that lie wholly on one side, in input order. */
  function WholeTriangles(plane: Plane, positions: seq<Vec3>, tris: seq<Triangle>, side: TriangleOutcome)
    : (r: seq<Triangle>)
    requires AllInRange(tris, |positions|) && !side.Split?
    ensures |r| <= |tris|
    ensures forall t :: t in r ==> t in tris && Classify(plane, positions, t) == side
    ensures forall t :: t in tris && Classify(plane, positions, t) == side ==> t in r
    decreases |tris|
  {
    if tris == [] then
      []
    else
      var last := tris[|tris| - 1];
      WholeTriangles(plane, positions, tris[..|tris| - 1], side)
        + (if Classify(plane, positions, last) == side then [last] else [])
  }

  /** The cut descriptors of the straddling triangles of tris, in input order. */
  function SplitCuts(plane: Plane, positions: seq<Vec3>, tris: seq<Triangle>): (r: seq<TriangleCut>)
    requires AllInRange(tris, |positions|)
    ensures |r| <= |tris|
    decreases |tris|
  {
    if tris == [] then
      []
    else
      var last := tris[|tris| - 1];
      var outcome := Classify(plane, positions, last);
      SplitCuts(plane, positions, tris[..|tris| - 1]) + (if outcome.Split? then [outcome.cut] else [])
  }

  /** Every collected cut is the cut of some straddling input triangle, and
      every straddling triangle's cut is collected. */
  lemma {:induction false} SplitCutsMembers(plane: Plane, positions: seq<Vec3>, tris: seq<Triangle>)
    requires AllInRange(tris, |positions|)
    ensures var r := SplitCuts(plane, positions, tris);
      forall c :: c in r ==> exists t :: t in tris && Classify(plane, positions, t) == Split(c)
    ensures var r := SplitCuts(plane, positions, tris);
      forall t :: t in tris && Classify(plane, positions, t).Split? ==> Classify(plane, positions, t).cut in r
    decreases |tris|
  {
    if tris != [] {
      var front, last := tris[..|tris| - 1], tris[|tris| - 1];
      SplitCutsMembers(plane, positions, front);
      var r0 := SplitCuts(plane, positions, front);
      var outcome := Classify(plane, positions, last);
      var tail := if outcome.Split? then [outcome.cut] else [];
      var r := SplitCuts(plane, positions, tris);
      assert r == r0 + tail;
      assert tris == front + [last];
      forall c | c in r ensures exists t :: t in tris && Classify(plane, positions, t) == Split(c) {
        if c in r0 {
          var t :| t in front && Classify(plane, positions, t) == Split(c);
          assert t in tris;
        } else {
          assert last in tris;
        }
      }
      forall t | t in tris && Classify(plane, positions, t).Split?
        ensures Classify(plane, positions, t).cut in r
      {
        if t != last {
          assert t in front;
        }
      }
    }
  }

  /** The above list is exactly the wholly-above triangles, unchanged and in
      order; likewise below; and there is one cut per straddling triangle, in
      order. */
  lemma {:induction false} CutAllSeparatesSides(plane: Plane, positions: seq<Vec3>, tris: seq<Triangle>)
    requires AllInRange(tris, |positions|)
    ensures CutAll(plane, positions, tris).above
         == Flatten(WholeTriangles(plane, positions, tris, WholeAbove))
    ensures CutAll(plane, positions, tris).below
         == Flatten(WholeTriangles(plane, positions, tris, WholeBelow))
    ensures CutAll(plane, positions, tris).cuts == SplitCuts(plane, positions, tris)
    decreases |tris|
  {
    if tris != [] {
      var front, last := tris[..|tris| - 1], tris[|tris| - 1];
      CutAllSeparatesSides(plane, positions, front);
      var aboveFront := WholeTriangles(plane, positions, front, WholeAbove);
      var belowFront := WholeTriangles(plane, positions, front, WholeBelow);
      var o := CutAll(plane, positions, front);
      var outcome := Classify(plane, positions, last);
      assert CutAll(plane, positions, tris) == Step(o, last, outcome);
      if outcome == WholeAbove {
        assert WholeTriangles(plane, positions, tris, WholeAbove) == aboveFront + [last];
        assert WholeTriangles(plane, positions, tris, WholeBelow) == belowFront;
        FlattenSnoc(aboveFront, last);
      } else if outcome == WholeBelow {
        assert WholeTriangles(plane, positions, tris, WholeAbove) == aboveFront;
        assert WholeTriangles(plane, positions, tris, WholeBelow) == belowFront + [last];
        FlattenSnoc(belowFront, last);
      } else {
        assert WholeTriangles(plane, positions, tris, WholeAbove) == aboveFront;
        assert WholeTriangles(plane, positions, tris, WholeBelow) == belowFront;
      }
    }
  }

  lemma FlattenSnoc(ts: seq<Triangle>, t: Triangle)
    ensures Flatten(ts + [t]) == Flatten(ts) + Corners(t)
  {
    assert (ts + [t])[..|ts|] == ts;
  }

  /** The flag is raised exactly when some triangle straddles the plane; it
      starts false and is only ever set. */
  lemma IntersectedIffStraddling(plane: Plane, positions: seq<Vec3>, tris: seq<Triangle>)
    requires AllInRange(tris, |positions|)
    ensures CutAll(plane, positions, tris).intersected
        <==> exists t :: t in tris && Classify(plane, positions, t).Split?
  {
    CutAllSeparatesSides(plane, positions, tris);
    SplitCutsMembers(plane, positions, tris);
    var cuts := SplitCuts(plane, positions, tris);
    if |cuts| > 0 {
      assert cuts[0] in cuts;
    }
  }

  /** A plane that leaves every vertex on one side passes the whole list
      through to that side and cuts nothing. */
  lemma {:induction false} NoIntersectionFastPath(plane: Plane, positions: seq<Vec3>, tris: seq<Triangle>)
    requires AllInRange(tris, |positions|)
    ensures (forall i :: 0 <= i < |positions| ==> IsAbove(plane, positions[i])) ==>
              CutAll(plane, positions, tris) == CutOutput(false, Flatten(tris), [], [])
    ensures (forall i :: 0 <= i < |positions| ==> !IsAbove(plane, positions[i])) ==>
              CutAll(plane, positions, tris) == CutOutput(false, [], Flatten(tris), [])
    decreases |tris|
  {
    if tris != [] {
      var front, last := tris[..|tris| - 1], tris[|tris| - 1];
      NoIntersectionFastPath(plane, positions, front);
      var outcome := Classify(plane, positions, last);
      assert CutAll(plane, positions, tris) == Step(CutAll(plane, positions, front), last, outcome);
      assert front + [last] == tris;
      FlattenSnoc(front, last);
      if forall i :: 0 <= i < |positions| ==> IsAbove(plane, positions[i]) {
        assert IsAbove(plane, positions[last.i0]) && IsAbove(plane, positions[last.i1])
            && IsAbove(plane, positions[last.i2]);
        assert outcome == WholeAbove;
      }
      if forall i :: 0 <= i < |positions| ==> !IsAbove(plane, positions[i]) {
        assert !IsAbove(plane, positions[last.i0]) && !IsAbove(plane, positions[last.i1])
            && !IsAbove(plane, positions[last.i2]);
        assert outcome == WholeBelow;
      }
    }
  }

  /** The point an edge cut describes lies on the plane. */
  lemma CutPointOnPlane(plane: Plane, positions: seq<Vec3>, e: EdgeCut)
    requires ValidEdgeCut(plane, positions, e)
    ensures 0.0 < e.intersection <= 1.0
    ensures SignedDistance(plane, Lerp3(positions[e.from], positions[e.to], e.intersection)) == 0.0
  {
    DistanceAlongSegment(plane, positions[e.from], positions[e.to], e.intersection);
  }

  /** One more triangle of the input extends the fold by one step. */
  lemma CutAllExtend(plane: Plane, positions: seq<Vec3>, tris: seq<Triangle>, j: nat)
    requires AllInRange(tris, |positions|) && j < |tris|
    ensures CutAll(plane, positions, tris[..j + 1])
         == Step(CutAll(plane, positions, tris[..j]), tris[j], Classify(plane, positions, tris[j]))
  {
    assert tris[..j + 1][..j] == tris[..j];
  }

  /** Stepping by three through a list of whole triangles stays inside the
      list: the triple at 3k is the k-th triangle. */
  lemma NextTriple(indices: seq<int>, i: int, k: int)
    requires |indices| % 3 == 0 && 0 <= i < |indices| && i == 3 * k
    ensures i + 2 < |indices| && 0 <= k < |Triangles(indices)|
    ensures Triangles(indices)[k] == Triangle(indices[i], indices[i + 1], indices[i + 2])
  {
  }

  /** What the finished fold says about the whole index list. */
  lemma CutAllSummary(plane: Plane, positions: seq<Vec3>, indices: seq<int>)
    requires |indices| % 3 == 0 && AllInRange(Triangles(indices), |positions|)
    ensures var o := CutAll(plane, positions, Triangles(indices));
      && |indices| / 3 == |o.above| / 3 + |o.below| / 3 + |o.cuts|
      && (o.intersected <==> exists t :: t in Triangles(indices) && Classify(plane, positions, t).Split?)
  {
    CutAllCounts(plane, positions, Triangles(indices));
    IntersectedIffStraddling(plane, positions, Triangles(indices));
  }

  /** The cut job: one pass over the index list, three indices at a time. */
  method CutJob(plane: Plane, positions: seq<Vec3>, indices: seq<int>)
    returns (result: bool, above: seq<int>, below: seq<int>, cuts: seq<TriangleCut>)
    requires |indices| % 3 == 0
    requires forall i :: 0 <= i < |indices| ==> 0 <= indices[i] < |positions|
    ensures AllInRange(Triangles(indices), |positions|)
    ensures CutOutput(result, above, below, cuts) == CutAll(plane, positions, Triangles(indices))
    ensures |indices| / 3 == |above| / 3 + |below| / 3 + |cuts|
    ensures result <==> exists t :: t in Triangles(indices) && Classify(plane, positions, t).Split?
  {
    var tris := Triangles(indices);
    TrianglesInRange(indices, |positions|);
    result, above, below, cuts := false, [], [], [];
    var i, k := 0, 0;
    while i < |indices|
      invariant 0 <= i <= |indices| && i == 3 * k && 0 <= k <= |tris|
      invariant CutOutput(result, above, below, cuts) == CutAll(plane, positions, tris[..k])
    {
      NextTriple(indices, i, k);
      var index0, index1, index2 := indices[i], indices[i + 1], indices[i + 2];
      var tri := Triangle(index0, index1, index2);
      CutAllExtend(plane, positions, tris, k);
      var outcome := Classify(plane, positions, tri);
      if outcome.WholeAbove? {
        above := above + [index0, index1, index2];
      } else if outcome.WholeBelow? {
        below := below + [index0, index1, index2];
      } else {
        result := true;
        cuts := cuts + [outcome.cut];
      }
      i, k := i + 3, k + 1;
    }
    assert tris[..k] == tris;
    CutAllSummary(plane, positions, indices);
  }
}
