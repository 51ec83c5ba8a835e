/**
 * Curb heights from a labelled point cloud: which points of a road segment
 * count, whether there are enough of them, the difference of the medians of
 * the sidewalk and road heights, its colour class, and the sample distances
 * along a curb line.
 */
module Curb {
  import opened Common
  import opened Geometry
  import opened Numeric

  /** The point-cloud classes that matter here (`Labels.GROUND`, `Labels.ROAD`) and every other class. */
  datatype Label = Ground | Road | OtherLabel(code: int)

  /** A point of the cloud; `z` is its last coordinate column. */
  datatype Point3 = Point3(x: real, y: real, z: real)

  /** Ground points may be relabelled as road, so both take part. */
  predicate GroundOrRoad(l: Label)
  {
    l == Ground || l == Road
  }

  // ---------------------------------------------------------------------------
  // create_mask

  /** Whether `pt` lies in one of `polygons`, as the OR of the per-polygon clip masks. */
  function InAny<P>(pt: Point3, polygons: seq<P>, inside: (Point3, P) -> bool): bool
  {
    if polygons == [] then false
    else InAny(pt, polygons[..|polygons| - 1], inside) || inside(pt, polygons[|polygons| - 1])
  }

  /** The OR of the clip masks is the union of the polygons. */
  lemma {:induction false} InAnyExists<P>(pt: Point3, polygons: seq<P>, inside: (Point3, P) -> bool)
    ensures InAny(pt, polygons, inside) <==> exists k :: 0 <= k < |polygons| && inside(pt, polygons[k])
  {
    if polygons != [] {
      var init := polygons[..|polygons| - 1];
      InAnyExists(pt, init, inside);
      if InAny(pt, init, inside) {
        var k :| 0 <= k < |init| && inside(pt, init[k]);
        assert polygons[k] == init[k];
      }
      if exists k :: 0 <= k < |polygons| && inside(pt, polygons[k]) {
        var k :| 0 <= k < |polygons| && inside(pt, polygons[k]);
        if k < |init| {
          assert init[k] == polygons[k];
        }
      }
    }
  }

  /** `np.where(mask)[0]`: the indices of the ground and road points, ascending. */
  method GroundOrRoadIds(labels: array<Label>) returns (maskIds: seq<int>)
    ensures forall j :: 0 <= j < |maskIds| ==> 0 <= maskIds[j] < labels.Length && GroundOrRoad(labels[maskIds[j]])
    ensures forall a, b :: 0 <= a < b < |maskIds| ==> maskIds[a] < maskIds[b]
    ensures forall t :: 0 <= t < labels.Length && GroundOrRoad(labels[t]) ==> t in maskIds
  {
    maskIds := [];
    for i := 0 to labels.Length
      invariant forall j :: 0 <= j < |maskIds| ==> 0 <= maskIds[j] < i && GroundOrRoad(labels[maskIds[j]])
      invariant forall a, b :: 0 <= a < b < |maskIds| ==> maskIds[a] < maskIds[b]
      invariant forall t :: 0 <= t < i && GroundOrRoad(labels[t]) ==> t in maskIds
    {
      if GroundOrRoad(labels[i]) {
        maskIds := maskIds + [i];
      }
    }
  }

  /** `road_mask`: the OR, polygon by polygon, of the clip masks of the selected points. */
  method ClipMasks<P>(points: array<Point3>, maskIds: seq<int>, polygons: seq<P>, inside: (Point3, P) -> bool)
    returns (roadMask: array<bool>)
    requires forall j :: 0 <= j < |maskIds| ==> 0 <= maskIds[j] < points.Length
    ensures fresh(roadMask) && roadMask.Length == |maskIds|
    ensures forall j :: 0 <= j < |maskIds| ==> roadMask[j] == InAny(points[maskIds[j]], polygons, inside)
  {
    roadMask := new bool[|maskIds|](_ => false);
    for p := 0 to |polygons|
      invariant forall j :: 0 <= j < roadMask.Length ==> roadMask[j] == InAny(points[maskIds[j]], polygons[..p], inside)
    {
      assert polygons[..p + 1][..p] == polygons[..p];
      for j := 0 to roadMask.Length
        invariant forall k :: 0 <= k < j ==> roadMask[k] == InAny(points[maskIds[k]], polygons[..p + 1], inside)
        invariant forall k :: j <= k < roadMask.Length ==> roadMask[k] == InAny(points[maskIds[k]], polygons[..p], inside)
      {
        roadMask[j] := roadMask[j] || inside(points[maskIds[j]], polygons[p]);
      }
    }
    assert polygons[..|polygons|] == polygons;
  }

  /**
   * `create_mask`: a point is marked iff it is a ground or road point and it
   * lies in one of the polygons; `inside` is the clip of one point by one
   * polygon.
   */
  method CreateMask<P>(points: array<Point3>, labels: array<Label>, polygons: seq<P>, inside: (Point3, P) -> bool)
    returns (labelMask: array<bool>)
    requires points.Length == labels.Length
    ensures fresh(labelMask) && labelMask.Length == points.Length
    ensures forall i :: 0 <= i < points.Length ==>
      (labelMask[i] <==> GroundOrRoad(labels[i]) && InAny(points[i], polygons, inside))
  {
    var n := points.Length;
    var maskIds := GroundOrRoadIds(labels);
    var roadMask := ClipMasks(points, maskIds, polygons, inside);

    // label_mask[mask_ids[road_mask]] = True
    labelMask := new bool[n](_ => false);
    for j := 0 to |maskIds|
      modifies labelMask
      invariant forall k :: 0 <= k < j ==> labelMask[maskIds[k]] == roadMask[k]
      invariant forall i :: 0 <= i < n && i !in maskIds[..j] ==> !labelMask[i]
    {
      assert maskIds[j] !in maskIds[..j];
      if roadMask[j] {
        labelMask[maskIds[j]] := true;
      }
      assert maskIds[..j + 1] == maskIds[..j] + [maskIds[j]];
    }
    assert maskIds[..|maskIds|] == maskIds;
    forall i | 0 <= i < n
      ensures labelMask[i] <==> GroundOrRoad(labels[i]) && InAny(points[i], polygons, inside)
    {
      if GroundOrRoad(labels[i]) {
        var k :| 0 <= k < |maskIds| && maskIds[k] == i;
        assert labelMask[i] == roadMask[k];
      } else {
        assert i !in maskIds by {
          forall k | 0 <= k < |maskIds|
            ensures maskIds[k] != i
          {
          }
        }
      }
    }
  }

  // ---------------------------------------------------------------------------
  // Sorting and medians

  predicate Sorted(s: seq<real>)
  {
    forall i, j :: 0 <= i < j < |s| ==> s[i] <= s[j]
  }

  /** `x` put before the first element of `s` that is not below it. */
  function Insert(x: real, s: seq<real>): (r: seq<real>)
    ensures multiset(r) == multiset(s) + multiset{x} && |r| == |s| + 1
  {
    if s == [] then [x]
    else if x <= s[0] then [x] + s
    else
      assert s == [s[0]] + s[1..];
      [s[0]] + Insert(x, s[1..])
  }

  /** A head no larger than every element keeps a sorted tail sorted. */
  lemma SortedCons(h: real, t: seq<real>)
    requires Sorted(t) && forall k :: 0 <= k < |t| ==> h <= t[k]
    ensures Sorted([h] + t)
  {
    forall i, j | 0 <= i < j < |[h] + t|
      ensures ([h] + t)[i] <= ([h] + t)[j]
    {
      if i > 0 {
        assert ([h] + t)[i] == t[i - 1];
      }
      assert ([h] + t)[j] == t[j - 1];
    }
  }

  /** Inserting into a sorted list keeps it sorted. */
  lemma {:induction false} InsertSorted(x: real, s: seq<real>)
    requires Sorted(s)
    ensures Sorted(Insert(x, s))
  {
    if s != [] {
      if x <= s[0] {
        SortedCons(x, s);
      } else {
        var tail := s[1..];
        var t := Insert(x, tail);
        SortedTail(s);
        InsertSorted(x, tail);
        forall k | 0 <= k < |t|
          ensures s[0] <= t[k]
        {
          assert t[k] in multiset(t);
          if t[k] != x {
            assert t[k] in multiset(tail);
            var j :| 0 <= j < |tail| && tail[j] == t[k];
            assert s[j + 1] == t[k];
          }
        }
        SortedCons(s[0], t);
      }
    }
  }

  /** The ascending order of `s`: the reference for an in-place sort. */
  function SortedOf(s: seq<real>): (r: seq<real>)
    ensures |r| == |s|
  {
    if s == [] then [] else Insert(s[|s| - 1], SortedOf(s[..|s| - 1]))
  }

  /** `SortedOf` is a sorted permutation of its input. */
  lemma SortedOfSorts(s: seq<real>)
    ensures Sorted(SortedOf(s)) && multiset(SortedOf(s)) == multiset(s)
  {
    SortedOfSorted(s);
    SortedOfPermutes(s);
  }

  lemma {:induction false} SortedOfSorted(s: seq<real>)
    ensures Sorted(SortedOf(s))
  {
    if s != [] {
      var init := s[..|s| - 1];
      SortedOfSorted(init);
      InsertSorted(s[|s| - 1], SortedOf(init));
    }
  }

  lemma {:induction false} SortedOfPermutes(s: seq<real>)
    ensures multiset(SortedOf(s)) == multiset(s)
  {
    if s != [] {
      var init, x := s[..|s| - 1], s[|s| - 1];
      SortedOfPermutes(init);
      assert SortedOf(s) == Insert(x, SortedOf(init));
      assert s == init + [x];
    }
  }

  lemma SortedTail(s: seq<real>)
    requires Sorted(s) && s != []
    ensures Sorted(s[1..])
  {
    forall i, j | 0 <= i < j < |s[1..]|
      ensures s[1..][i] <= s[1..][j]
    {
      assert s[1..][i] == s[i + 1] && s[1..][j] == s[j + 1];
    }
  }

  /** Removing the equal heads of two lists with the same elements leaves tails with the same elements. */
  lemma TailMultiset(a: seq<real>, b: seq<real>)
    requires a != [] && b != [] && a[0] == b[0] && multiset(a) == multiset(b)
    ensures multiset(a[1..]) == multiset(b[1..])
  {
    assert a == [a[0]] + a[1..] && b == [b[0]] + b[1..];
    assert multiset(a[1..]) == multiset(a) - multiset{a[0]};
    assert multiset(b[1..]) == multiset(b) - multiset{b[0]};
  }

  /** A list has one ascending order: two sorted lists with the same elements are equal. */
  lemma {:induction false} SortedUnique(a: seq<real>, b: seq<real>)
    requires Sorted(a) && Sorted(b) && multiset(a) == multiset(b)
    ensures a == b
    decreases |a|
  {
    assert |a| == |multiset(a)| == |b|;
    if a != [] {
      assert a[0] in multiset(b) && b[0] in multiset(a);
      var i :| 0 <= i < |b| && b[i] == a[0];
      var j :| 0 <= j < |a| && a[j] == b[0];
      assert a[0] == b[0];
      TailMultiset(a, b);
      SortedTail(a);
      SortedTail(b);
      SortedUnique(a[1..], b[1..]);
      assert a == [a[0]] + a[1..] && b == [b[0]] + b[1..];
    }
  }

  /** The elements of `a` from `lo` up to `hi` are in ascending order. */
  predicate SortedBetween(a: array<real>, lo: int, hi: int)
    reads a
  {
    forall k, l :: lo <= k < l < hi && 0 <= k && l < a.Length ==> a[k] <= a[l]
  }

  /** One insertion step: moves `a[i]` down into the ascending prefix before it. */
  method InsertDown(a: array<real>, i: int)
    requires 0 <= i < a.Length && SortedBetween(a, 0, i)
    modifies a
    ensures SortedBetween(a, 0, i + 1) && multiset(a[..]) == multiset(old(a[..]))
  {
    var j := i;
    while j > 0 && a[j - 1] > a[j]
      invariant 0 <= j <= i
      invariant multiset(a[..]) == multiset(old(a[..]))
      invariant forall k, l :: 0 <= k < l <= i && k != j && l != j ==> a[k] <= a[l]
      invariant forall l :: j < l <= i ==> a[j] < a[l]
    {
      Swap(a, j - 1, j);
      j := j - 1;
    }
  }

  /** Exchanges two entries of `a`, keeping its multiset. */
  method Swap(a: array<real>, x: int, y: int)
    requires 0 <= x < a.Length && 0 <= y < a.Length
    modifies a
    ensures a[..] == old(a[..])[x := old(a[y])][y := old(a[x])]
    ensures multiset(a[..]) == multiset(old(a[..]))
  {
    a[x], a[y] := a[y], a[x];
  }

  /** `array.sort()`: the array in ascending order, in place. */
  method SortInPlace(a: array<real>)
    modifies a
    ensures Sorted(a[..]) && multiset(a[..]) == multiset(old(a[..]))
  {
    var i := 0;
    while i < a.Length
      invariant 0 <= i <= a.Length
      invariant SortedBetween(a, 0, i)
      invariant multiset(a[..]) == multiset(old(a[..]))
    {
      InsertDown(a, i);
      i := i + 1;
    }
    forall k, l | 0 <= k < l < |a[..]|
      ensures a[..][k] <= a[..][l]
    {
    }
  }

  /** `statistics.median` of a sorted, non-empty list. */
  function Median(s: seq<real>): (m: real)
    requires s != []
    ensures Sorted(s) ==> s[0] <= m <= s[|s| - 1]
    ensures |s| % 2 == 1 ==> m in s
  {
    var n := |s|;
    if n % 2 == 1 then s[n / 2] else (s[n / 2 - 1] + s[n / 2]) / 2.0
  }

  // ---------------------------------------------------------------------------
  // calculate_curb_height

  /** The median of a list, sorted first, as `statistics.median` computes it. */
  function MedianOf(zs: seq<real>): (m: real)
    requires zs != []
    ensures exists i :: 0 <= i < |zs| && zs[i] <= m
    ensures exists i :: 0 <= i < |zs| && m <= zs[i]
  {
    var s := SortedOf(zs);
    SortedOfSorts(zs);
    assert s[0] in multiset(zs) && s[|s| - 1] in multiset(zs);
    Median(s)
  }

  /**
   * `MedianOf` is a median: in the sorted permutation of the list, the first
   * ⌈n/2⌉ values are at most it and the last ⌈n/2⌉ are at least it.
   */
  lemma MedianRank(zs: seq<real>)
    requires zs != []
    ensures var s := SortedOf(zs);
      && Sorted(s) && multiset(s) == multiset(zs)
      && (forall i :: 0 <= i < (|s| + 1) / 2 ==> s[i] <= MedianOf(zs))
      && (forall i :: |s| / 2 <= i < |s| ==> MedianOf(zs) <= s[i])
  {
    SortedOfSorts(zs);
    MedianSplits(SortedOf(zs));
  }

  /** In a sorted list the median is at least the lower half and at most the upper half. */
  lemma MedianSplits(s: seq<real>)
    requires Sorted(s) && s != []
    ensures forall i :: 0 <= i < (|s| + 1) / 2 ==> s[i] <= Median(s)
    ensures forall i :: |s| / 2 <= i < |s| ==> Median(s) <= s[i]
  {
    var n := |s|;
    var lo, hi := s[(n - 1) / 2], s[n / 2];
    assert lo <= hi;
    assert lo <= Median(s) <= hi by {
      if n % 2 == 0 { assert (n - 1) / 2 == n / 2 - 1; }
    }
    forall i | 0 <= i < (n + 1) / 2 ensures s[i] <= Median(s) {
      assert i <= (n - 1) / 2;
      assert s[i] <= lo;
    }
    forall i | n / 2 <= i < n ensures Median(s) <= s[i] {
      assert hi <= s[i];
    }
  }

  /** The heights of the points labelled `want` inside the segment polygon, in point order. */
  function SegmentZ<P>(points: seq<Point3>, labels: seq<Label>, segment: P, inside: (Point3, P) -> bool,
                       want: Label): seq<real>
    requires |points| == |labels|
  {
    if points == [] then []
    else
      var n := |points| - 1;
      SegmentZ(points[..n], labels[..n], segment, inside, want)
        + (if labels[n] == want && inside(points[n], segment) then [points[n].z] else [])
  }

  /** `points_in_segment[labels_in_segment == want][:, -1]`, as a fresh array. */
  method LabelledZ<P>(points: array<Point3>, labels: array<Label>, labelMask: array<bool>, segment: P,
                      inside: (Point3, P) -> bool, want: Label)
    returns (z: array<real>)
    requires points.Length == labels.Length == labelMask.Length && GroundOrRoad(want)
    requires forall i :: 0 <= i < points.Length ==>
      (labelMask[i] <==> GroundOrRoad(labels[i]) && InAny(points[i], [segment], inside))
    ensures fresh(z) && z[..] == SegmentZ(points[..], labels[..], segment, inside, want)
  {
    var zs: seq<real> := [];
    for i := 0 to points.Length
      invariant zs == SegmentZ(points[..i], labels[..i], segment, inside, want)
    {
      assert [segment][..0] == [];
      assert InAny(points[i], [segment], inside) == inside(points[i], segment);
      assert points[..i + 1][..i] == points[..i] && labels[..i + 1][..i] == labels[..i];
      if labelMask[i] && labels[i] == want {
        zs := zs + [points[i].z];
      }
    }
    assert points[..points.Length] == points[..] && labels[..labels.Length] == labels[..];
    z := new real[|zs|](k requires 0 <= k < |zs| => zs[k]);
  }

  /**
   * One side of `calculate_curb_height`: with strictly more than `minNrPoints`
   * heights labelled `want`, their median after sorting in place.
   */
  method SideHeight<P>(points: array<Point3>, labels: array<Label>, labelMask: array<bool>, segment: P,
                       inside: (Point3, P) -> bool, want: Label, minNrPoints: nat)
    returns (height: real, enough: bool)
    requires points.Length == labels.Length == labelMask.Length && GroundOrRoad(want)
    requires forall i :: 0 <= i < points.Length ==>
      (labelMask[i] <==> GroundOrRoad(labels[i]) && InAny(points[i], [segment], inside))
    ensures var zs := SegmentZ(points[..], labels[..], segment, inside, want);
      && (enough <==> |zs| > minNrPoints)
      && (enough ==> height == MedianOf(zs))
  {
    ghost var zs := SegmentZ(points[..], labels[..], segment, inside, want);
    var z := LabelledZ(points, labels, labelMask, segment, inside, want);
    height := 0.0;
    enough := z.Length > minNrPoints;
    if enough {
      SortInPlace(z);
      SortedOfSorts(zs);
      SortedUnique(z[..], SortedOf(zs));
      height := Median(z[..]);
    }
  }

  /**
   * `calculate_curb_height`: enough points means strictly more than
   * `minNrPoints` road points and strictly more ground points; then the height
   * is the median ground height minus the median road height, otherwise it
   * stays NaN (None).
   */
  method CalculateCurbHeight<P>(points: array<Point3>, labels: array<Label>, segment: P,
                                inside: (Point3, P) -> bool, minNrPoints: nat)
    returns (curbHeight: Option<real>, availablePoints: bool)
    requires points.Length == labels.Length
    ensures var road := SegmentZ(points[..], labels[..], segment, inside, Road);
      var ground := SegmentZ(points[..], labels[..], segment, inside, Ground);
      && (availablePoints <==> |road| > minNrPoints && |ground| > minNrPoints)
      && (!availablePoints ==> curbHeight == None)
      && (availablePoints ==> curbHeight == Some(MedianOf(ground) - MedianOf(road)))
  {
    ghost var road := SegmentZ(points[..], labels[..], segment, inside, Road);
    ghost var ground := SegmentZ(points[..], labels[..], segment, inside, Ground);
    curbHeight, availablePoints := None, true;
    var labelMask := CreateMask(points, labels, [segment], inside);

    var roadHeight, roadEnough := SideHeight(points, labels, labelMask, segment, inside, Road, minNrPoints);
    assert roadEnough <==> |road| > minNrPoints;
    assert roadEnough ==> roadHeight == MedianOf(road);
    if !roadEnough {
      availablePoints := false;
    }
    var sidewalkHeight, sidewalkEnough := SideHeight(points, labels, labelMask, segment, inside, Ground, minNrPoints);
    assert sidewalkEnough <==> |ground| > minNrPoints;
    assert sidewalkEnough ==> sidewalkHeight == MedianOf(ground);
    if !sidewalkEnough {
      availablePoints := false;
    }

    if availablePoints {
      curbHeight := Some(sidewalkHeight - roadHeight);
    }
    assert points[..] == old(points[..]) && labels[..] == old(labels[..]);
  }

  // ---------------------------------------------------------------------------
  // get_height_color

  /** `get_height_color`: black without enough points, green below `minH`, orange otherwise (NaN included). */
  function GetHeightColor(curbHeight: Option<real>, availablePoints: bool, minH: real): (color: string)
    ensures color == "black" <==> !availablePoints
    ensures color == "green" <==> availablePoints && curbHeight.Some? && curbHeight.value < minH
    ensures color == "black" || color == "green" || color == "orange"
  {
    if !availablePoints then "black"
    else if curbHeight.Some? && curbHeight.value < minH then "green"
    else "orange"
  }

  /** A lower curb never gets a worse colour: green at `h` stays green at every `h2 <= h`. */
  lemma GreenDownwardClosed(h: real, h2: real, minH: real)
    requires GetHeightColor(Some(h), true, minH) == "green" && h2 <= h
    ensures GetHeightColor(Some(h2), true, minH) == "green"
  {
  }

  // ---------------------------------------------------------------------------
  // get_points_on_line

  /**
   * `np.arange(0, line.length, distance_delta)`: the multiples of the step
   * strictly below the length; None where numpy raises (a zero step).
   */
  function SampleDistances(l: Line, delta: real): (r: Option<seq<real>>)
    requires ValidLine(l)
    ensures r.None? <==> delta == 0.0
    ensures r.Some? ==> forall i :: 0 <= i < |r.value| ==> r.value[i] == i as real * delta
    ensures delta < 0.0 ==> r == Some([])
  {
    if delta == 0.0 then None
    else
      var n := Ceil(Length(l) / delta);
      assert delta < 0.0 ==> n <= 0 by {
        if delta < 0.0 {
          LengthNonNegative(l);
          DivNonPositive(Length(l), delta);
        }
      }
      Some(seq(if n < 0 then 0 else n, i => i as real * delta))
  }

  /**
   * With a positive step, the samples are exactly the multiples of the step
   * in `[0, length)`: each lies there, and the next multiple does not.
   */
  lemma SampleDistancesExactly(l: Line, delta: real)
    requires ValidLine(l) && delta > 0.0
    ensures var ds := SampleDistances(l, delta).value;
      && (forall i :: 0 <= i < |ds| ==> 0.0 <= ds[i] < Length(l))
      && |ds| as real * delta >= Length(l)
  {
    LengthNonNegative(l);
    var q := Length(l) / delta;
    DivNonNegative(Length(l), delta);
    var n := Ceil(q);
    var ds := SampleDistances(l, delta).value;
    assert |ds| == n;
    forall i | 0 <= i < |ds|
      ensures 0.0 <= ds[i] < Length(l)
    {
      MultipleBelow(i as real, q, delta, Length(l));
    }
    MultipleReaches(n as real, q, delta, Length(l));
  }

  /** `get_points_on_line`: the line's points at the sample distances (the appended extra is dropped by `[:-1]`). */
  function PointsOnLine(l: Line, delta: real): (r: Option<seq<Point>>)
    requires ValidLine(l)
    ensures r.None? <==> delta == 0.0
    ensures r.Some? ==> |r.value| == |SampleDistances(l, delta).value|
    ensures r.Some? ==> forall i :: 0 <= i < |r.value| ==>
      r.value[i] == PointAt(l, SampleDistances(l, delta).value[i])
  {
    match SampleDistances(l, delta)
    case None => None
    case Some(ds) =>
      assert forall i :: 0 <= i < |ds| ==> ds[i] >= 0.0 by {
        if delta > 0.0 {
          SampleDistancesExactly(l, delta);
        }
      }
      Some(seq(|ds|, i requires 0 <= i < |ds| => PointAt(l, ds[i])))
  }
}
