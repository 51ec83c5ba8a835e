/**
 * The route-weight decoder of the width codec: a summed route weight is
 * bucketed into half-open ranges whose bounds grow by a factor 100, each
 * bucket standing for one configured path width.
 */
module RouteWeight {

  /** A decoded width; `NaN` is NumPy's not-a-number. */
  datatype Width = NaN | Width(value: real)

  /** The configured widths, widest first, and the minimum path width. */
  datatype WidthTable = WidthTable(w6: real, w5: real, w4: real, w3: real, w2: real, w1: real, minPath: real)
  {
    /** The width of bucket k: 0 is `width_6`, ..., 5 is `width_1`, 6 is `min_path_width`. */
    function At(k: int): real
      requires 0 <= k <= 6
    {
      match k
      case 0 => w6
      case 1 => w5
      case 2 => w4
      case 3 => w3
      case 4 => w2
      case 5 => w1
      case _ => minPath
    }

    /** Wider buckets come first: the order the configuration is meant to have. */
    predicate Ordered()
    {
      w6 >= w5 >= w4 >= w3 >= w2 >= w1 >= minPath >= 0.0
    }
  }

  /** The weight that marks a segment at or below the minimum width. */
  const Sentinel: real := 100000000000000.0

  function Pow100(k: nat): (r: real)
    ensures r >= 1.0
  {
    if k == 0 then 1.0 else 100.0 * Pow100(k - 1)
  }

  /** Bucket k holds the weights in [100^k, 100^(k+1)), bucket 0 the weights in (0, 100). */
  predicate InBucket(w: real, k: int)
  {
    0 <= k <= 6 && (if k == 0 then 0.0 < w else Pow100(k) <= w) && w < Pow100(k + 1)
  }

  function GetRouteWidth(w: real, t: WidthTable): (r: Width)
  {
    if w == 0.0 then NaN
    else if 0.0 < w < 100.0 then Width(t.w6)
    else if 100.0 <= w < 10000.0 then Width(t.w5)
    else if 10000.0 <= w < 1000000.0 then Width(t.w4)
    else if 1000000.0 <= w < 100000000.0 then Width(t.w3)
    else if 100000000.0 <= w < 10000000000.0 then Width(t.w2)
    else if 10000000000.0 <= w < 1000000000000.0 then Width(t.w1)
    else if 1000000000000.0 <= w < 100000000000000.0 then Width(t.minPath)
    else if w == 100000000000000.0 then Width(0.0)
    else if w > 100000000000000.0 then NaN
    else NaN
  }

  /** Every weight in (0, 10^14) falls in exactly one bucket. */
  lemma {:induction false} BucketUnique(w: real)
    requires 0.0 < w < Sentinel
    ensures exists k :: InBucket(w, k)
    ensures forall k, j :: InBucket(w, k) && InBucket(w, j) ==> k == j
  {
    PowTable();
    if w < 100.0 { assert InBucket(w, 0); }
    else if w < 10000.0 { assert InBucket(w, 1); }
    else if w < 1000000.0 { assert InBucket(w, 2); }
    else if w < 100000000.0 { assert InBucket(w, 3); }
    else if w < 10000000000.0 { assert InBucket(w, 4); }
    else if w < 1000000000000.0 { assert InBucket(w, 5); }
    else { assert InBucket(w, 6); }
    forall k, j | InBucket(w, k) && InBucket(w, j) ensures k == j {
      if k < j { PowMonotone(k + 1, j); }
      if j < k { PowMonotone(j + 1, k); }
    }
  }

  lemma PowTable()
    ensures Pow100(1) == 100.0 && Pow100(2) == 10000.0 && Pow100(3) == 1000000.0
    ensures Pow100(4) == 100000000.0 && Pow100(5) == 10000000000.0
    ensures Pow100(6) == 1000000000000.0 && Pow100(7) == Sentinel
  {
  }

  lemma {:induction false} PowMonotone(i: nat, j: nat)
    requires i <= j
    ensures Pow100(i) <= Pow100(j)
    decreases j - i
  {
    if i < j { PowMonotone(i, j - 1); }
  }

  /**
   * The decoder against the bucket table: a weight in bucket k decodes to the
   * k-th configured width; 0, negative weights and weights above the sentinel
   * decode to NaN; the sentinel itself decodes to width 0.
   */
  lemma {:induction false} RouteWidthByBucket(w: real, t: WidthTable)
    ensures forall k :: InBucket(w, k) ==> GetRouteWidth(w, t) == Width(t.At(k))
    ensures w <= 0.0 || w > Sentinel <==> GetRouteWidth(w, t) == NaN
    ensures w == Sentinel ==> GetRouteWidth(w, t) == Width(0.0)
  {
    PowTable();
    if 0.0 < w < Sentinel {
      BucketUnique(w);
    }
  }

  /**
   * With an ordered configuration, a heavier weight never decodes to a wider
   * path: decoding is antitone on (0, 10^14].
   */
  lemma {:induction false} RouteWidthAntitone(w1: real, w2: real, t: WidthTable)
    requires t.Ordered() && 0.0 < w1 <= w2 <= Sentinel
    ensures GetRouteWidth(w1, t).Width? && GetRouteWidth(w2, t).Width?
    ensures GetRouteWidth(w2, t).value <= GetRouteWidth(w1, t).value
  {
  }
}
