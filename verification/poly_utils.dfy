/**
 * Polyline, segment and width utilities of the skeleton extractor: cutting a
 * line at an arc length, re-cutting the longest line until every line is
 * short enough, decomposition into two-point segments, sampling points along
 * a line, pruning short dead ends and small holes, and turning boundary
 * distances into width estimates.
 */
module PolyUtils {
  import opened Common
  import opened Geometry
  import opened Numeric

  // ---------------------------------------------------------------------------
  // cut

  /** Arc lengths re-measured from arc length `d`. */
  function ShiftFrom(cum: seq<real>, d: real): (r: seq<real>)
    ensures |r| == |cum| && forall k :: 0 <= k < |cum| ==> r[k] == cum[k] - d
  {
    seq(|cum|, k requires 0 <= k < |cum| => cum[k] - d)
  }

  /**
   * What `cut(line, d)` returns: the line itself when `d` is not strictly
   * inside it; otherwise the part up to arc length `d` and the part from it.
   * When a vertex lies exactly at `d`, both parts share that vertex; otherwise
   * the interpolated cut point ends the first part and starts the second.
   */
  function CutPieces(l: Line, d: real): seq<Line>
    requires ValidLine(l)
  {
    if d <= 0.0 || d >= Length(l) then [l]
    else
      var i := FirstReaching(l, d);
      if l.cum[i] == d then
        [Line(l.coords[..i + 1], l.cum[..i + 1]), Line(l.coords[i..], ShiftFrom(l.cum[i..], d))]
      else
        var cp := PointAt(l, d);
        [Line(l.coords[..i] + [cp], l.cum[..i] + [d]), Line([cp] + l.coords[i..], [0.0] + ShiftFrom(l.cum[i..], d))]
  }

  /**
   * Cutting strictly inside a line gives two valid lines of lengths `d` and
   * `length - d` that meet at the point at arc length `d`; their vertices are
   * the original ones in order, with the cut point added unless it is a vertex.
   */
  lemma {:induction false} CutPiecesSplit(l: Line, d: real)
    requires ValidLine(l) && 0.0 < d < Length(l)
    ensures var r := CutPieces(l, d);
      && |r| == 2 && ValidLine(r[0]) && ValidLine(r[1])
      && Length(r[0]) == d && Length(r[1]) == Length(l) - d
      && r[0].coords[|r[0].coords| - 1] == PointAt(l, d) == r[1].coords[0]
      && (r[0].coords + r[1].coords[1..] == l.coords
          || r[0].coords[..|r[0].coords| - 1] + r[1].coords[1..] == l.coords)
  {
    var i := FirstReaching(l, d);
    var r := CutPieces(l, d);
    if l.cum[i] == d {
      var a := Line(l.coords[..i + 1], l.cum[..i + 1]);
      var b := Line(l.coords[i..], ShiftFrom(l.cum[i..], d));
      assert r == [a, b];
      CutAtVertex(l, d, i);
    } else {
      var cp := PointAt(l, d);
      var a := Line(l.coords[..i] + [cp], l.cum[..i] + [d]);
      var b := Line([cp] + l.coords[i..], [0.0] + ShiftFrom(l.cum[i..], d));
      assert r == [a, b];
      CutInside(l, d, i);
    }
  }

  lemma CutAtVertex(l: Line, d: real, i: int)
    requires ValidLine(l) && 0.0 < d < Length(l) && i == FirstReaching(l, d) && l.cum[i] == d
    ensures var a := Line(l.coords[..i + 1], l.cum[..i + 1]);
      var b := Line(l.coords[i..], ShiftFrom(l.cum[i..], d));
      && ValidLine(a) && ValidLine(b) && Length(a) == d && Length(b) == Length(l) - d
      && a.coords[|a.coords| - 1] == PointAt(l, d) == b.coords[0]
      && a.coords + b.coords[1..] == l.coords
  {
    PointAtVertex(l, d);
    HeadPieceAtVertex(l, i);
    TailPiece(l, i, d);
    assert l.coords[..i + 1] + l.coords[i..][1..] == l.coords;
  }

  lemma CutInside(l: Line, d: real, i: int)
    requires ValidLine(l) && 0.0 < d < Length(l) && i == FirstReaching(l, d) && l.cum[i] != d
    ensures var cp := PointAt(l, d);
      var a := Line(l.coords[..i] + [cp], l.cum[..i] + [d]);
      var b := Line([cp] + l.coords[i..], [0.0] + ShiftFrom(l.cum[i..], d));
      && ValidLine(a) && ValidLine(b) && Length(a) == d && Length(b) == Length(l) - d
      && a.coords[|a.coords| - 1] == cp == b.coords[0]
      && a.coords[..|a.coords| - 1] + b.coords[1..] == l.coords
  {
    var cp := PointAt(l, d);
    PointAtDistances(l, d);
    HeadPieceInside(l, i, d, cp);
    TailPieceInside(l, i, d, cp);
    assert (l.coords[..i] + [cp])[..i] + ([cp] + l.coords[i..])[1..] == l.coords;
  }

  lemma HeadPieceAtVertex(l: Line, i: int)
    requires ValidLine(l) && 0 < i < |l.coords|
    ensures ValidLine(Line(l.coords[..i + 1], l.cum[..i + 1]))
  {
    var a := Line(l.coords[..i + 1], l.cum[..i + 1]);
    forall k | 0 <= k < |a.coords| - 1 ensures StepOk(a, k) { assert StepOk(l, k); }
  }

  lemma TailPiece(l: Line, i: int, d: real)
    requires ValidLine(l) && 0 <= i < |l.coords| - 1 && l.cum[i] == d
    ensures ValidLine(Line(l.coords[i..], ShiftFrom(l.cum[i..], d)))
  {
    var b := Line(l.coords[i..], ShiftFrom(l.cum[i..], d));
    forall k | 0 <= k < |b.coords| - 1 ensures StepOk(b, k) { assert StepOk(l, i + k); }
  }

  lemma HeadPieceInside(l: Line, i: int, d: real, cp: Point)
    requires ValidLine(l) && 0 < i < |l.coords| && l.cum[i - 1] < d
    requires SqDist(l.coords[i - 1], cp) == (d - l.cum[i - 1]) * (d - l.cum[i - 1])
    ensures ValidLine(Line(l.coords[..i] + [cp], l.cum[..i] + [d]))
  {
    var a := Line(l.coords[..i] + [cp], l.cum[..i] + [d]);
    forall k | 0 <= k < |a.coords| - 1 ensures StepOk(a, k) {
      if k < i - 1 { assert StepOk(l, k); }
    }
  }

  lemma TailPieceInside(l: Line, i: int, d: real, cp: Point)
    requires ValidLine(l) && 0 < i < |l.coords| && d <= l.cum[i]
    requires SqDist(cp, l.coords[i]) == (l.cum[i] - d) * (l.cum[i] - d)
    ensures ValidLine(Line([cp] + l.coords[i..], [0.0] + ShiftFrom(l.cum[i..], d)))
  {
    var b := Line([cp] + l.coords[i..], [0.0] + ShiftFrom(l.cum[i..], d));
    forall k | 0 <= k < |b.coords| - 1 ensures StepOk(b, k) {
      if k > 0 { assert StepOk(l, i + k - 1); }
    }
  }

  /** `cut` scans the vertices for the first one projecting at or beyond `d`. */
  method Cut(l: Line, d: real) returns (pieces: seq<Line>)
    requires ValidLine(l)
    ensures pieces == CutPieces(l, d)
    ensures d <= 0.0 || d >= Length(l) ==> pieces == [l]
    ensures 0.0 < d < Length(l) ==> |pieces| == 2
  {
    if d <= 0.0 || d >= Length(l) {
      return [l];
    }
    var i := 0;
    while l.cum[i] < d
      invariant 0 <= i < |l.cum|
      invariant forall j :: 0 <= j < i ==> l.cum[j] < d
      decreases |l.cum| - i
    {
      i := i + 1;
    }
    assert i == FirstReaching(l, d);
    if l.cum[i] == d {
      pieces := [Line(l.coords[..i + 1], l.cum[..i + 1]), Line(l.coords[i..], ShiftFrom(l.cum[i..], d))];
    } else {
      var cp := PointAt(l, d);
      pieces := [Line(l.coords[..i] + [cp], l.cum[..i] + [d]), Line([cp] + l.coords[i..], [0.0] + ShiftFrom(l.cum[i..], d))];
    }
  }

  // ---------------------------------------------------------------------------
  // shorten_linestrings

  /** A row of the centerline frame: geometry, its `length` column and its `cl_id`. */
  datatype Row = Row(geom: Line, length: real, clId: int)

  predicate RowOk(r: Row)
  {
    ValidLine(r.geom) && r.length == Length(r.geom)
  }

  predicate RowsOk(rows: seq<Row>)
  {
    forall k :: 0 <= k < |rows| ==> RowOk(rows[k])
  }

  /** `centerline_df['length'].max()` */
  function MaxLength(rows: seq<Row>): (m: real)
    requires rows != []
    ensures forall k :: 0 <= k < |rows| ==> rows[k].length <= m
    ensures exists k :: 0 <= k < |rows| && rows[k].length == m
  {
    if |rows| == 1 then rows[0].length
    else
      var m := MaxLength(rows[1..]);
      assert forall k :: 1 <= k < |rows| ==> rows[k] == rows[1..][k - 1];
      if rows[0].length >= m then rows[0].length else m
  }

  /** `centerline_df['length'].idxmax()`: the first row of maximal length. */
  function IdxMax(rows: seq<Row>): (i: int)
    requires rows != []
    ensures 0 <= i < |rows| && rows[i].length == MaxLength(rows)
    ensures forall k :: 0 <= k < i ==> rows[k].length < MaxLength(rows)
  {
    IdxMaxFrom(rows, 0)
  }

  function IdxMaxFrom(rows: seq<Row>, j: int): (i: int)
    requires 0 <= j < |rows|
    requires forall k :: 0 <= k < j ==> rows[k].length < MaxLength(rows)
    ensures j <= i < |rows| && rows[i].length == MaxLength(rows)
    ensures forall k :: 0 <= k < i ==> rows[k].length < MaxLength(rows)
    decreases |rows| - j
  {
    if rows[j].length == MaxLength(rows) then j
    else
      assert j + 1 < |rows| by {
        var k :| 0 <= k < |rows| && rows[k].length == MaxLength(rows);
        assert j < k;
      }
      IdxMaxFrom(rows, j + 1)
  }

  /** The rows built from `cut`'s pieces; each inherits the parent's `cl_id`. */
  function PieceRows(pieces: seq<Line>, clId: int): (rs: seq<Row>)
    requires forall k :: 0 <= k < |pieces| ==> ValidLine(pieces[k])
    ensures |rs| == |pieces| && RowsOk(rs)
    ensures forall k :: 0 <= k < |rs| ==> rs[k].geom == pieces[k] && rs[k].clId == clId
  {
    seq(|pieces|, k requires 0 <= k < |pieces| => Row(pieces[k], Length(pieces[k]), clId))
  }

  /** Lengths are cut at `maxLen - 0.01`; the loop only ends when that is positive. */
  predicate CutsProgress(maxLen: real)
  {
    maxLen > 0.01
  }

  /** How many more cuts a row of this length needs before it fits. */
  function Need(x: real, maxLen: real): nat
    requires CutsProgress(maxLen)
  {
    if x <= maxLen then 0 else
      var q := (x - maxLen) / (maxLen - 0.01);
      DivPositive(x - maxLen, maxLen - 0.01);
      q.Floor + 1
  }

  function TotalNeed(rows: seq<Row>, maxLen: real): nat
    requires CutsProgress(maxLen)
  {
    if rows == [] then 0 else Need(rows[0].length, maxLen) + TotalNeed(rows[1..], maxLen)
  }

  lemma {:induction false} TotalNeedAppend(a: seq<Row>, b: seq<Row>, maxLen: real)
    requires CutsProgress(maxLen)
    ensures TotalNeed(a + b, maxLen) == TotalNeed(a, maxLen) + TotalNeed(b, maxLen)
  {
    if a != [] {
      assert (a + b)[1..] == a[1..] + b;
      TotalNeedAppend(a[1..], b, maxLen);
    } else {
      assert a + b == b;
    }
  }

  /** Cutting a too-long row at `maxLen - 0.01` leaves less cutting to do. */
  lemma NeedDrops(x: real, maxLen: real)
    requires CutsProgress(maxLen) && x > maxLen
    ensures Need(maxLen - 0.01, maxLen) == 0
    ensures Need(x - (maxLen - 0.01), maxLen) < Need(x, maxLen)
  {
    var c := maxLen - 0.01;
    var q := (x - maxLen) / c;
    if x - c > maxLen {
      var q' := (x - c - maxLen) / c;
      DivShift(x - maxLen, c);
      assert x - c - maxLen == (x - maxLen) - c;
      assert q' == q - 1.0;
      assert q'.Floor == q.Floor - 1;
    }
  }

  /** One pass of the loop: replace the longest row by its pieces, appended at the end. */
  function Step(rows: seq<Row>, maxLen: real): (r: seq<Row>)
    requires RowsOk(rows) && rows != [] && MaxLength(rows) > maxLen
    ensures RowsOk(r)
  {
    var i := IdxMax(rows);
    assert RowOk(rows[i]);
    CutPiecesValid(rows[i].geom, maxLen - 0.01);
    RemoveRowOk(rows, i);
    var rest := rows[..i] + rows[i + 1..];
    var pr := PieceRows(CutPieces(rows[i].geom, maxLen - 0.01), rows[i].clId);
    AppendRowsOk(rest, pr);
    rest + pr
  }

  lemma CutPiecesValid(l: Line, d: real)
    requires ValidLine(l)
    ensures forall k :: 0 <= k < |CutPieces(l, d)| ==> ValidLine(CutPieces(l, d)[k])
  {
    if 0.0 < d < Length(l) {
      CutPiecesSplit(l, d);
    }
  }

  lemma RemoveRowOk(rows: seq<Row>, i: int)
    requires RowsOk(rows) && 0 <= i < |rows|
    ensures RowsOk(rows[..i] + rows[i + 1..])
  {
    var r := rows[..i] + rows[i + 1..];
    forall k | 0 <= k < |r| ensures RowOk(r[k]) {
      if k < i { assert r[k] == rows[k]; } else { assert r[k] == rows[k + 1]; }
    }
  }

  lemma AppendRowsOk(a: seq<Row>, b: seq<Row>)
    requires RowsOk(a) && RowsOk(b)
    ensures RowsOk(a + b)
  {
    forall k | 0 <= k < |a + b| ensures RowOk((a + b)[k]) {
      if k >= |a| { assert (a + b)[k] == b[k - |a|]; }
    }
  }

  /** What one pass does: the longest row is dropped and its two pieces are appended. */
  lemma StepShape(rows: seq<Row>, maxLen: real)
    requires RowsOk(rows) && rows != [] && CutsProgress(maxLen) && MaxLength(rows) > maxLen
    ensures var i := IdxMax(rows);
      var r := Step(rows, maxLen);
      && |r| == |rows| + 1
      && r[..|rows| - 1] == rows[..i] + rows[i + 1..]
      && r[|rows| - 1].length == maxLen - 0.01
      && r[|rows|].length == rows[i].length - (maxLen - 0.01)
      && r[|rows| - 1].clId == rows[i].clId && r[|rows|].clId == rows[i].clId
  {
    var i := IdxMax(rows);
    var c := maxLen - 0.01;
    assert RowOk(rows[i]);
    CutPiecesSplit(rows[i].geom, c);
  }

  lemma {:induction false} StepDecreases(rows: seq<Row>, maxLen: real)
    requires RowsOk(rows) && rows != [] && CutsProgress(maxLen) && MaxLength(rows) > maxLen
    ensures TotalNeed(Step(rows, maxLen), maxLen) < TotalNeed(rows, maxLen)
  {
    var i := IdxMax(rows);
    var r := Step(rows, maxLen);
    StepShape(rows, maxLen);
    var rest, pr := r[..|rows| - 1], r[|rows| - 1..];
    assert r == rest + pr;
    RemovalNeed(rows, i, maxLen);
    TotalNeedAppend(rest, pr, maxLen);
    PiecesNeed(pr, rows[i].length, maxLen);
  }

  lemma PiecesNeed(pr: seq<Row>, x: real, maxLen: real)
    requires CutsProgress(maxLen) && x > maxLen
    requires |pr| == 2 && pr[0].length == maxLen - 0.01 && pr[1].length == x - (maxLen - 0.01)
    ensures TotalNeed(pr, maxLen) < Need(x, maxLen)
  {
    assert pr[1..][1..] == [];
    assert TotalNeed(pr[1..], maxLen) == Need(pr[1].length, maxLen);
    assert TotalNeed(pr, maxLen) == Need(pr[0].length, maxLen) + Need(pr[1].length, maxLen);
    NeedDrops(x, maxLen);
  }

  lemma {:induction false} RemovalNeed(rows: seq<Row>, i: int, maxLen: real)
    requires CutsProgress(maxLen) && 0 <= i < |rows|
    ensures TotalNeed(rows[..i] + rows[i + 1..], maxLen) + Need(rows[i].length, maxLen) == TotalNeed(rows, maxLen)
  {
    assert rows == rows[..i] + ([rows[i]] + rows[i + 1..]);
    TotalNeedAppend(rows[..i], [rows[i]] + rows[i + 1..], maxLen);
    assert ([rows[i]] + rows[i + 1..])[1..] == rows[i + 1..];
    TotalNeedAppend(rows[..i], rows[i + 1..], maxLen);
  }

  /** The frame `shorten_linestrings` returns. */
  function Shortened(rows: seq<Row>, maxLen: real): (r: seq<Row>)
    requires RowsOk(rows) && CutsProgress(maxLen)
    decreases TotalNeed(rows, maxLen)
  {
    if rows == [] || MaxLength(rows) <= maxLen then rows
    else
      StepDecreases(rows, maxLen);
      Shortened(Step(rows, maxLen), maxLen)
  }

  method ShortenLinestrings(rows: seq<Row>, maxLen: real) returns (out: seq<Row>)
    requires RowsOk(rows) && CutsProgress(maxLen)
    ensures out == Shortened(rows, maxLen)
  {
    out := rows;
    while out != [] && MaxLength(out) > maxLen
      invariant RowsOk(out) && Shortened(out, maxLen) == Shortened(rows, maxLen)
      decreases TotalNeed(out, maxLen)
    {
      StepDecreases(out, maxLen);
      var i := IdxMax(out);
      var longest := out[i];
      assert RowOk(longest);
      var cutLs := Cut(longest.geom, maxLen - 0.01);
      CutPiecesSplit(longest.geom, maxLen - 0.01);
      out := out[..i] + out[i + 1..] + PieceRows(cutLs, longest.clId);
    }
  }

  /** The loop's condition: some row is longer than `maxLen`. */
  predicate TooLong(rows: seq<Row>, maxLen: real)
  {
    rows != [] && MaxLength(rows) > maxLen
  }

  /** The frame after `n` passes of the loop, or after it exits if that comes first. */
  function Passes(rows: seq<Row>, maxLen: real, n: nat): (r: seq<Row>)
    requires RowsOk(rows)
    ensures RowsOk(r)
  {
    if n == 0 then rows
    else
      var prev := Passes(rows, maxLen, n - 1);
      if TooLong(prev, maxLen) then Step(prev, maxLen) else prev
  }

  /**
   * When `maxLen - 0.01` is not positive, `cut` returns the longest row
   * whole, so a pass only moves it to the end.
   */
  lemma StepStalls(rows: seq<Row>, maxLen: real)
    requires RowsOk(rows) && TooLong(rows, maxLen) && !CutsProgress(maxLen)
    ensures var i := IdxMax(rows);
      Step(rows, maxLen) == rows[..i] + rows[i + 1..] + [rows[i]]
  {
    assert RowOk(rows[IdxMax(rows)]);
  }

  /** A stalled pass keeps the longest row, so the loop's condition still holds. */
  lemma StalledStepTooLong(rows: seq<Row>, maxLen: real)
    requires RowsOk(rows) && TooLong(rows, maxLen) && !CutsProgress(maxLen)
    ensures TooLong(Step(rows, maxLen), maxLen)
  {
    StepStalls(rows, maxLen);
    var r := Step(rows, maxLen);
    assert r[|r| - 1].length == MaxLength(rows);
  }

  /**
   * With `max_ls_length <= 0.01` and a row longer than it, the loop never
   * exits: after any number of passes some row is still too long.
   */
  lemma {:induction false} LoopNeverExits(rows: seq<Row>, maxLen: real, n: nat)
    requires RowsOk(rows) && TooLong(rows, maxLen) && !CutsProgress(maxLen)
    ensures TooLong(Passes(rows, maxLen, n), maxLen)
  {
    if n > 0 {
      LoopNeverExits(rows, maxLen, n - 1);
      StalledStepTooLong(Passes(rows, maxLen, n - 1), maxLen);
    }
  }

  /** The total length of the rows that carry `cl_id` `id`. */
  function ClLength(rows: seq<Row>, id: int): real
  {
    if rows == [] then 0.0
    else (if rows[0].clId == id then rows[0].length else 0.0) + ClLength(rows[1..], id)
  }

  lemma {:induction false} ClLengthAppend(a: seq<Row>, b: seq<Row>, id: int)
    ensures ClLength(a + b, id) == ClLength(a, id) + ClLength(b, id)
  {
    if a != [] {
      assert (a + b)[1..] == a[1..] + b;
      ClLengthAppend(a[1..], b, id);
    } else {
      assert a + b == b;
    }
  }

  lemma {:induction false} StepKeepsClLength(rows: seq<Row>, maxLen: real, id: int)
    requires RowsOk(rows) && rows != [] && CutsProgress(maxLen) && MaxLength(rows) > maxLen
    ensures ClLength(Step(rows, maxLen), id) == ClLength(rows, id)
  {
    var i := IdxMax(rows);
    var r := Step(rows, maxLen);
    StepShape(rows, maxLen);
    var rest, pr := r[..|rows| - 1], r[|rows| - 1..];
    assert r == rest + pr;
    RemovalClLength(rows, i, id);
    ClLengthAppend(rest, pr, id);
    PairClLength(pr, id);
  }

  lemma {:induction false} RemovalClLength(rows: seq<Row>, i: int, id: int)
    requires 0 <= i < |rows|
    ensures ClLength(rows[..i] + rows[i + 1..], id) + (if rows[i].clId == id then rows[i].length else 0.0)
      == ClLength(rows, id)
  {
    assert rows == rows[..i] + ([rows[i]] + rows[i + 1..]);
    ClLengthAppend(rows[..i], [rows[i]] + rows[i + 1..], id);
    assert ([rows[i]] + rows[i + 1..])[1..] == rows[i + 1..];
    ClLengthAppend(rows[..i], rows[i + 1..], id);
  }

  lemma PairClLength(pr: seq<Row>, id: int)
    requires |pr| == 2
    ensures ClLength(pr, id) == (if pr[0].clId == id then pr[0].length else 0.0)
                              + (if pr[1].clId == id then pr[1].length else 0.0)
  {
    assert pr[1..][1..] == [];
    assert ClLength(pr[1..], id) == (if pr[1].clId == id then pr[1].length else 0.0) + ClLength(pr[1..][1..], id);
  }

  lemma StepKeepsClIds(rows: seq<Row>, maxLen: real)
    requires RowsOk(rows) && rows != [] && CutsProgress(maxLen) && MaxLength(rows) > maxLen
    ensures forall k :: 0 <= k < |Step(rows, maxLen)| ==>
      exists j :: 0 <= j < |rows| && rows[j].clId == Step(rows, maxLen)[k].clId
  {
    var i := IdxMax(rows);
    var r := Step(rows, maxLen);
    StepShape(rows, maxLen);
    forall k | 0 <= k < |r| ensures exists j :: 0 <= j < |rows| && rows[j].clId == r[k].clId {
      if k < i { assert r[k] == r[..|rows| - 1][k] == rows[k]; }
      else if k < |rows| - 1 { assert r[k] == r[..|rows| - 1][k] == rows[k + 1]; }
      else { assert r[k].clId == rows[i].clId; }
    }
  }

  /**
   * On exit every row is at most `maxLen` long, every row is still a valid
   * line whose `length` column is its length, the total length carried by
   * each `cl_id` is unchanged, and no row has a `cl_id` the input lacked.
   */
  lemma {:induction false} ShortenedProps(rows: seq<Row>, maxLen: real)
    requires RowsOk(rows) && CutsProgress(maxLen)
    ensures var r := Shortened(rows, maxLen);
      && RowsOk(r)
      && (forall k :: 0 <= k < |r| ==> r[k].length <= maxLen)
      && (forall id :: ClLength(r, id) == ClLength(rows, id))
      && (forall k :: 0 <= k < |r| ==> exists j :: 0 <= j < |rows| && rows[j].clId == r[k].clId)
    decreases TotalNeed(rows, maxLen)
  {
    if rows == [] || MaxLength(rows) <= maxLen {
    } else {
      var s := Step(rows, maxLen);
      StepDecreases(rows, maxLen);
      ShortenedProps(s, maxLen);
      forall id ensures ClLength(s, id) == ClLength(rows, id) {
        StepKeepsClLength(rows, maxLen, id);
      }
      StepKeepsClIds(rows, maxLen);
    }
  }

  // ---------------------------------------------------------------------------
  // linestring_to_segments, get_segments

  /** The i-th two-point segment `[coords[i], coords[i+1]]` of a line. */
  function SegmentAt(l: Line, i: int): Line
    requires ValidLine(l) && 0 <= i < |l.coords| - 1
  {
    Line([l.coords[i], l.coords[i + 1]], [0.0, l.cum[i + 1] - l.cum[i]])
  }

  function Segments(l: Line): seq<Line>
    requires ValidLine(l)
  {
    seq(|l.coords| - 1, i requires 0 <= i < |l.coords| - 1 => SegmentAt(l, i))
  }

  method LinestringToSegments(l: Line) returns (segs: seq<Line>)
    requires ValidLine(l)
    ensures |segs| == |l.coords| - 1
    ensures forall i :: 0 <= i < |segs| ==> segs[i].coords == [l.coords[i], l.coords[i + 1]]
    ensures segs == Segments(l)
  {
    segs := [];
    for i := 0 to |l.coords| - 1
      invariant segs == Segments(l)[..i]
    {
      segs := segs + [SegmentAt(l, i)];
    }
  }

  function SumLengths(segs: seq<Line>): real
    requires forall k :: 0 <= k < |segs| ==> ValidLine(segs[k])
  {
    if segs == [] then 0.0 else SumLengths(segs[..|segs| - 1]) + Length(segs[|segs| - 1])
  }

  /**
   * The segments of a line are valid lines, each ends where the next starts,
   * the first starts at the line's start, the last ends at its end, and their
   * lengths add up to the line's length.
   */
  lemma {:induction false} SegmentsCoverLine(l: Line)
    requires ValidLine(l)
    ensures var s := Segments(l);
      && (forall k :: 0 <= k < |s| ==> ValidLine(s[k]))
      && (forall k :: 0 <= k < |s| - 1 ==> s[k].coords[1] == s[k + 1].coords[0])
      && s[0].coords[0] == l.coords[0] && s[|s| - 1].coords[1] == l.coords[|l.coords| - 1]
      && SumLengths(s) == Length(l)
  {
    var s := Segments(l);
    forall k | 0 <= k < |s| ensures ValidLine(s[k]) {
      assert StepOk(l, k);
      assert StepOk(s[k], 0);
    }
    SegmentPrefixSum(l, |s|);
    assert s[..|s|] == s;
  }

  lemma {:induction false} SegmentPrefixSum(l: Line, n: int)
    requires ValidLine(l) && 0 <= n <= |l.coords| - 1
    requires forall k :: 0 <= k < |Segments(l)| ==> ValidLine(Segments(l)[k])
    ensures SumLengths(Segments(l)[..n]) == l.cum[n]
  {
    var s := Segments(l);
    if n > 0 {
      assert s[..n][..n - 1] == s[..n - 1];
      SegmentPrefixSum(l, n - 1);
    }
  }

  /** Every part's segments, in part order. */
  function PartsSegments(parts: seq<Line>): seq<Line>
    requires forall k :: 0 <= k < |parts| ==> ValidLine(parts[k])
  {
    if parts == [] then [] else PartsSegments(parts[..|parts| - 1]) + Segments(parts[|parts| - 1])
  }

  predicate GeomOk(g: Geom)
  {
    match g
    case LineString(l) => ValidLine(l)
    case MultiLineString(parts) => forall k :: 0 <= k < |parts| ==> ValidLine(parts[k])
    case OtherGeom => true
  }

  method GetSegments(g: Geom) returns (segs: seq<Line>)
    requires GeomOk(g)
    ensures g.LineString? ==> segs == Segments(g.line)
    ensures g.MultiLineString? ==> segs == PartsSegments(g.parts)
    ensures g.OtherGeom? ==> segs == []
  {
    segs := [];
    if g.MultiLineString? {
      for k := 0 to |g.parts|
        invariant segs == PartsSegments(g.parts[..k])
      {
        assert g.parts[..k + 1][..k] == g.parts[..k];
        var more := LinestringToSegments(g.parts[k]);
        segs := segs + more;
      }
      assert g.parts[..|g.parts|] == g.parts;
    }
    if g.LineString? {
      var more := LinestringToSegments(g.line);
      segs := segs + more;
    }
  }

  // ---------------------------------------------------------------------------
  // interpolate_by_distance, interpolate

  /** `round(length / resolution) + 1` */
  function SampleCount(l: Line, res: real): int
    requires ValidLine(l) && res != 0.0
  {
    RoundHalfEven(Length(l) / res) + 1
  }

  /** More than one sample only happens for a positive resolution and a line of positive length. */
  lemma SeveralSamplesNeedPositiveResolution(l: Line, res: real)
    requires ValidLine(l) && res != 0.0 && SampleCount(l, res) >= 2
    ensures res > 0.0 && Length(l) > 0.0
  {
    LengthNonNegative(l);
    if res < 0.0 {
      DivNonPositive(Length(l), res);
    }
  }

  /** The arc length of sample i. */
  function SampleDistance(res: real, i: int): (d: real)
    requires res > 0.0 && i >= 0
    ensures d >= 0.0
  {
    MulNonNegative(res, i as real);
    res * i as real
  }

  /**
   * The points `interpolate_by_distance` yields: the midpoint alone when the
   * count is 1, otherwise the points at arc lengths `resolution * i` for
   * `i` in `0 .. count - 1` (none when the count is not positive).
   */
  function Samples(l: Line, res: real): seq<Point>
    requires ValidLine(l) && res != 0.0
  {
    var n := SampleCount(l, res);
    LengthNonNegative(l);
    if n == 1 then [PointAt(l, Length(l) / 2.0)]
    else if n <= 0 then []
    else
      SeveralSamplesNeedPositiveResolution(l, res);
      seq(n, i requires 0 <= i < n => PointAt(l, SampleDistance(res, i)))
  }

  /**
   * `interpolate_by_distance`: the sample points, or None for a zero
   * resolution, where `length / resolution` raises a division by zero.
   */
  method InterpolateByDistance(l: Line, res: real) returns (r: Option<seq<Point>>)
    requires ValidLine(l)
    ensures r.None? <==> res == 0.0
    ensures r.Some? ==> r.value == Samples(l, res)
  {
    if res == 0.0 {
      return None;
    }
    var allPoints := [];
    var count := RoundHalfEven(Length(l) / res) + 1;
    LengthNonNegative(l);
    if count == 1 {
      allPoints := allPoints + [PointAt(l, Length(l) / 2.0)];
    } else {
      var i := 0;
      while i < count
        invariant 0 <= i && (count >= 2 ==> i <= count)
        invariant count >= 2 ==> res > 0.0
        invariant count >= 2 ==> allPoints == Samples(l, res)[..i]
        invariant count < 2 ==> allPoints == []
      {
        SeveralSamplesNeedPositiveResolution(l, res);
        allPoints := allPoints + [PointAt(l, SampleDistance(res, i))];
        i := i + 1;
      }
      if count >= 2 {
        assert Samples(l, res)[..count] == Samples(l, res);
      }
    }
    r := Some(allPoints);
  }

  /**
   * A positive resolution always gives at least one point. With two or more
   * points, the first is the line's start, consecutive points lie `res`
   * apart in arc length, and the last is within half a resolution of the end.
   */
  lemma {:induction false} SamplesCoverLine(l: Line, res: real)
    requires ValidLine(l) && res > 0.0
    ensures |Samples(l, res)| >= 1
    ensures var n := SampleCount(l, res);
      n >= 2 ==>
        && |Samples(l, res)| == n
        && Samples(l, res)[0] == l.coords[0]
        && Length(l) - res / 2.0 <= SampleDistance(res, n - 1) <= Length(l) + res / 2.0
  {
    LengthNonNegative(l);
    var q := Length(l) / res;
    DivNonNegative(Length(l), res);
    var n := SampleCount(l, res);
    assert n >= 1 by {
      assert RoundHalfEven(q) as real >= q - 0.5 >= -0.5;
    }
    if n >= 2 {
      assert |Samples(l, res)| == n;
      assert Samples(l, res)[0] == PointAt(l, SampleDistance(res, 0));
      assert SampleDistance(res, 0) == 0.0;
      RoundedQuotientBounds(Length(l), res);
      assert SampleDistance(res, n - 1) == res * (RoundHalfEven(q) as real);
    } else {
      assert n == 1;
    }
  }

  /** Every part's samples, in part order. */
  function PartsSamples(parts: seq<Line>, res: real): seq<Point>
    requires (parts != [] ==> res != 0.0) && forall k :: 0 <= k < |parts| ==> ValidLine(parts[k])
  {
    if parts == [] then [] else PartsSamples(parts[..|parts| - 1], res) + Samples(parts[|parts| - 1], res)
  }

  /**
   * What `interpolate` gives: the points, Python's None for a geometry that
   * is neither kind of line, or the division by zero a zero resolution raises
   * in the first `interpolate_by_distance` call.
   */
  datatype Interpolated = Points(pts: seq<Point>) | NotALine | ZeroResolution

  /**
   * `interpolate(line, resolution)`. A zero resolution fails on a line and on
   * a multi-line with at least one part; a multi-line without parts never
   * divides and gives no points.
   */
  method Interpolate(g: Geom, res: real) returns (r: Interpolated)
    requires GeomOk(g)
    ensures g.LineString? ==> r == if res == 0.0 then ZeroResolution else Points(Samples(g.line, res))
    ensures g.MultiLineString? ==>
      r == if res == 0.0 && g.parts != [] then ZeroResolution else Points(PartsSamples(g.parts, res))
    ensures g.OtherGeom? ==> r == NotALine
  {
    r := NotALine;
    if g.MultiLineString? {
      var allPoints := [];
      for k := 0 to |g.parts|
        invariant k > 0 ==> res != 0.0
        invariant allPoints == PartsSamples(g.parts[..k], res)
      {
        assert g.parts[..k + 1][..k] == g.parts[..k];
        var pts := InterpolateByDistance(g.parts[k], res);
        if pts.None? {
          return ZeroResolution;
        }
        allPoints := allPoints + pts.value;
      }
      assert g.parts[..|g.parts|] == g.parts;
      return Points(allPoints);
    }
    if g.LineString? {
      var pts := InterpolateByDistance(g.line, res);
      if pts.None? {
        return ZeroResolution;
      }
      return Points(pts.value);
    }
  }

  /** With a positive resolution every part contributes at least one point. */
  lemma {:induction false} PartsSamplesAtLeastOnePerPart(parts: seq<Line>, res: real)
    requires res > 0.0 && forall k :: 0 <= k < |parts| ==> ValidLine(parts[k])
    ensures |PartsSamples(parts, res)| >= |parts|
  {
    if parts != [] {
      PartsSamplesAtLeastOnePerPart(parts[..|parts| - 1], res);
      SamplesCoverLine(parts[|parts| - 1], res);
    }
  }

  // ---------------------------------------------------------------------------
  // polygon_to_multilinestring, get_avg_width, get_avg_width_cl

  /** The polygon's boundary as one line collection: the exterior ring, then every hole. */
  function BoundaryRings(poly: Polygon): (rings: seq<seq<Point>>)
    ensures |rings| == |poly.interiors| + 1
    ensures rings[0] == poly.exterior
    ensures forall k :: 0 <= k < |poly.interiors| ==> rings[k + 1] == poly.interiors[k]
  {
    [poly.exterior] + poly.interiors
  }

  /**
   * The distance from each sample point to the boundary rings; `boundaryDist`
   * stands for `nearest_points` followed by `distance`.
   */
  function SampleDistances(rings: seq<seq<Point>>, pts: seq<Point>,
                           boundaryDist: (seq<seq<Point>>, Point) -> real): (ds: seq<real>)
    ensures |ds| == |pts|
    ensures forall k :: 0 <= k < |pts| ==> ds[k] == boundaryDist(rings, pts[k])
  {
    seq(|pts|, k requires 0 <= k < |pts| => boundaryDist(rings, pts[k]))
  }

  /** The loop over the sample points that collects their boundary distances. */
  method BoundaryDistances(rings: seq<seq<Point>>, pts: seq<Point>, boundaryDist: (seq<seq<Point>>, Point) -> real)
    returns (distances: seq<real>)
    ensures distances == SampleDistances(rings, pts, boundaryDist)
  {
    distances := [];
    for q := 0 to |pts|
      invariant distances == SampleDistances(rings, pts[..q], boundaryDist)
    {
      distances := distances + [boundaryDist(rings, pts[q])];
    }
    assert pts[..|pts|] == pts;
  }

  /** Twice the mean distance: the average width. */
  function MeanWidth(ds: seq<real>): real
    requires ds != []
  {
    Sum(ds) / (|ds| as real) * 2.0
  }

  /** Twice the smallest distance: the minimum width. */
  function MinWidth(ds: seq<real>): real
    requires ds != []
  {
    MinOf(ds) * 2.0
  }

  /**
   * The rounded (average, minimum) width over a list of distances; None where
   * the source divides by zero (no samples).
   */
  function WidthsOf(ds: seq<real>, precision: nat): Option<(real, real)>
  {
    if ds == [] then None else Some((RoundTo(MeanWidth(ds), precision), RoundTo(MinWidth(ds), precision)))
  }

  /**
   * Widths exist iff there is a sample. The minimum width is twice one of the
   * sample distances, at most twice every one of them, and never exceeds the
   * average width, before and after rounding.
   */
  lemma {:induction false} WidthsOfProps(ds: seq<real>, precision: nat)
    ensures WidthsOf(ds, precision).None? <==> ds == []
    ensures ds != [] ==>
      && MinWidth(ds) <= MeanWidth(ds)
      && (exists d :: d in ds && MinWidth(ds) == 2.0 * d)
      && (forall d :: d in ds ==> MinWidth(ds) <= 2.0 * d)
      && WidthsOf(ds, precision).value.1 <= WidthsOf(ds, precision).value.0
  {
    if ds != [] {
      var n := |ds| as real;
      var m := MinOf(ds);
      var total := Sum(ds);
      MinTimesCountAtMostSum(ds);
      assert n * m <= total;
      DivMonotone(n * m, total, n);
      assert (n * m) / n == m;
      ScaleMonotone(m, total / n, 2.0);
      assert MinWidth(ds) == m * 2.0;
      assert MeanWidth(ds) == total / n * 2.0;
      RoundToMonotone(MinWidth(ds), MeanWidth(ds), precision);
      assert m in ds && MinWidth(ds) == 2.0 * m;
    }
  }

  /** The widths `get_avg_width` reports for one segment; None where it divides by zero. */
  function SegmentWidths(poly: Polygon, seg: Line, boundaryDist: (seq<seq<Point>>, Point) -> real,
                         res: real, precision: nat): Option<(real, real)>
    requires ValidLine(seg)
  {
    if res == 0.0 then None
    else WidthsOf(SampleDistances(BoundaryRings(poly), Samples(seg, res), boundaryDist), precision)
  }

  /**
   * `get_avg_width`: one (average, minimum) width pair per segment, in
   * segment order; None when some segment has no sample or the resolution
   * is zero, where the source raises a division by zero. A positive
   * resolution never fails, and no segments give two empty arrays.
   */
  method GetAvgWidth(poly: Polygon, segments: seq<Line>, boundaryDist: (seq<seq<Point>>, Point) -> real,
                     res: real, precision: nat)
    returns (r: Option<(seq<real>, seq<real>)>)
    requires forall k :: 0 <= k < |segments| ==> ValidLine(segments[k])
    ensures r.None? <==> exists k :: 0 <= k < |segments| && SegmentWidths(poly, segments[k], boundaryDist, res, precision).None?
    ensures r.Some? ==>
      && |r.value.0| == |segments| == |r.value.1|
      && forall k :: 0 <= k < |segments| ==>
           SegmentWidths(poly, segments[k], boundaryDist, res, precision) == Some((r.value.0[k], r.value.1[k]))
    ensures res > 0.0 ==> r.Some?
  {
    var avgWidth: seq<real> := [];
    var minWidth: seq<real> := [];
    var sidewalkLines := BoundaryRings(poly);
    for j := 0 to |segments|
      invariant |avgWidth| == j == |minWidth|
      invariant j > 0 ==> res != 0.0
      invariant forall k :: 0 <= k < j ==>
        var ds := SampleDistances(sidewalkLines, Samples(segments[k], res), boundaryDist);
        ds != [] && avgWidth[k] == MeanWidth(ds) && minWidth[k] == MinWidth(ds)
    {
      var points := InterpolateByDistance(segments[j], res);
      if points.None? {
        assert SegmentWidths(poly, segments[j], boundaryDist, res, precision).None?;
        return None;
      }
      var distances := BoundaryDistances(sidewalkLines, points.value, boundaryDist);
      if |distances| == 0 {
        assert SegmentWidths(poly, segments[j], boundaryDist, res, precision).None?;
        if res > 0.0 {
          SamplesCoverLine(segments[j], res);
        }
        return None;
      }
      avgWidth := avgWidth + [MeanWidth(distances)];
      minWidth := minWidth + [MinWidth(distances)];
    }
    var avgRounded := seq(|avgWidth|, k requires 0 <= k < |avgWidth| => RoundTo(avgWidth[k], precision));
    var minRounded := seq(|minWidth|, k requires 0 <= k < |minWidth| => RoundTo(minWidth[k], precision));
    r := Some((avgRounded, minRounded));
  }

  /**
   * `get_avg_width_cl`: the widths over all samples of a whole centerline;
   * None for a geometry that is neither kind of line, for a zero resolution,
   * and when there is no sample.
   */
  method GetAvgWidthCl(poly: Polygon, g: Geom, boundaryDist: (seq<seq<Point>>, Point) -> real,
                       res: real, precision: nat)
    returns (r: Option<(real, real)>)
    requires GeomOk(g)
    ensures g.OtherGeom? ==> r.None?
    ensures res == 0.0 ==> r.None?
    ensures res != 0.0 && g.LineString? ==>
      r == WidthsOf(SampleDistances(BoundaryRings(poly), Samples(g.line, res), boundaryDist), precision)
    ensures res != 0.0 && g.MultiLineString? ==>
      r == WidthsOf(SampleDistances(BoundaryRings(poly), PartsSamples(g.parts, res), boundaryDist), precision)
  {
    var sidewalkLines := BoundaryRings(poly);
    var points := Interpolate(g, res);
    if !points.Points? {
      return None;
    }
    var distances := BoundaryDistances(sidewalkLines, points.pts, boundaryDist);
    if |distances| == 0 {
      return None;
    }
    r := Some((RoundTo(MeanWidth(distances), precision), RoundTo(MinWidth(distances), precision)));
  }

  // ---------------------------------------------------------------------------
  // remove_short_lines

  /**
   * Piece i is a dead end when either of its end points is disjoint from the
   * other pieces; `disjoint` stands for shapely's `Point.disjoint`.
   */
  predicate IsDeadEnd(parts: seq<Line>, i: int, disjoint: (Point, seq<Line>) -> bool)
    requires 0 <= i < |parts| && |parts[i].coords| >= 1
  {
    var others := parts[..i] + parts[i + 1..];
    var coords := parts[i].coords;
    disjoint(coords[0], others) || disjoint(coords[|coords| - 1], others)
  }

  /** The indices of the pieces `remove_short_lines` keeps: not a dead end, or longer than the minimum. */
  function KeptPiece(parts: seq<Line>, disjoint: (Point, seq<Line>) -> bool, minLength: real): int -> bool
    requires forall k :: 0 <= k < |parts| ==> ValidLine(parts[k])
  {
    i => 0 <= i < |parts| && ValidLine(parts[i]) && (!IsDeadEnd(parts, i, disjoint) || Length(parts[i]) > minLength)
  }

  method RemoveShortLines(g: Geom, disjoint: (Point, seq<Line>) -> bool, minLength: real)
    returns (r: Option<Geom>)
    requires GeomOk(g)
    ensures g.MultiLineString? ==>
      r == Some(MultiLineString(Select(g.parts, KeptPiece(g.parts, disjoint, minLength))))
    ensures g.LineString? ==> r == Some(g)
    ensures g.OtherGeom? ==> r.None?
  {
    r := None;
    if g.MultiLineString? {
      var parts := g.parts;
      var passingLines := [];
      for i := 0 to |parts|
        invariant passingLines == Select(parts[..i], KeptPiece(parts, disjoint, minLength))
      {
        assert parts[..i + 1][..i] == parts[..i];
        var linestring := parts[i];
        var otherLines := parts[..i] + parts[i + 1..];
        var p0 := linestring.coords[0];
        var p1 := linestring.coords[|linestring.coords| - 1];
        var isDeadend := false;
        if disjoint(p0, otherLines) {
          isDeadend := true;
        }
        if disjoint(p1, otherLines) {
          isDeadend := true;
        }
        if !isDeadend || Length(linestring) > minLength {
          passingLines := passingLines + [linestring];
        }
      }
      assert parts[..|parts|] == parts;
      return Some(MultiLineString(passingLines));
    }
    if g.LineString? {
      return Some(g);
    }
  }

  /**
   * The pruned collection is the input with pieces left out, in order; piece
   * i survives iff it is not a dead end or is longer than `minLength`, so a
   * dead end is dropped exactly when it is that short.
   */
  lemma PrunedPieces(parts: seq<Line>, disjoint: (Point, seq<Line>) -> bool, minLength: real)
    requires forall k :: 0 <= k < |parts| ==> ValidLine(parts[k])
    ensures var kept := Select(parts, KeptPiece(parts, disjoint, minLength));
      var idx := SelectedIndices(|parts|, KeptPiece(parts, disjoint, minLength));
      && IsSubsequence(kept, parts)
      && |kept| == |idx|
      && (forall k :: 0 <= k < |idx| ==> 0 <= idx[k] < |parts| && kept[k] == parts[idx[k]])
      && (forall a, b :: 0 <= a < b < |idx| ==> idx[a] < idx[b])
      && (forall i :: 0 <= i < |parts| ==>
            (i in idx <==> !IsDeadEnd(parts, i, disjoint) || Length(parts[i]) > minLength))
  {
    SelectExactly(parts, KeptPiece(parts, disjoint, minLength));
    SelectIsSubsequence(parts, KeptPiece(parts, disjoint, minLength));
  }

  // ---------------------------------------------------------------------------
  // remove_interiors

  /** Holes whose own area (`area`, shapely's `Polygon.area` of the ring) exceeds `eps`. */
  function LargeHole(holes: seq<seq<Point>>, area: seq<Point> -> real, eps: real): int -> bool
  {
    i => 0 <= i < |holes| && area(holes[i]) > eps
  }

  method RemoveInteriors(poly: Polygon, area: seq<Point> -> real, eps: real) returns (r: Polygon)
    ensures r == Polygon(poly.exterior, Select(poly.interiors, LargeHole(poly.interiors, area, eps)))
  {
    var listInteriors := [];
    for i := 0 to |poly.interiors|
      invariant listInteriors == Select(poly.interiors[..i], LargeHole(poly.interiors, area, eps))
    {
      assert poly.interiors[..i + 1][..i] == poly.interiors[..i];
      var interior := poly.interiors[i];
      if area(interior) > eps {
        listInteriors := listInteriors + [interior];
      }
    }
    assert poly.interiors[..|poly.interiors|] == poly.interiors;
    r := Polygon(poly.exterior, listInteriors);
  }

  /**
   * The exterior is kept; the holes kept are exactly those with area above
   * `eps`, in their original order.
   */
  lemma RemovedInteriors(holes: seq<seq<Point>>, area: seq<Point> -> real, eps: real)
    ensures var kept := Select(holes, LargeHole(holes, area, eps));
      && IsSubsequence(kept, holes)
      && (forall h :: h in kept ==> h in holes && area(h) > eps)
      && (forall i :: 0 <= i < |holes| && area(holes[i]) > eps ==> holes[i] in kept)
  {
    var keep := LargeHole(holes, area, eps);
    SelectExactly(holes, keep);
    SelectIsSubsequence(holes, keep);
    var kept := Select(holes, keep);
    var idx := SelectedIndices(|holes|, keep);
    forall i | 0 <= i < |holes| && area(holes[i]) > eps
      ensures holes[i] in kept
    {
      assert i in idx;
      var k :| 0 <= k < |idx| && idx[k] == i;
      assert kept[k] == holes[i];
    }
    forall h | h in kept
      ensures h in holes && area(h) > eps
    {
      var k :| 0 <= k < |kept| && kept[k] == h;
      assert keep(idx[k]);
    }
  }

  // ---------------------------------------------------------------------------
  // reverse_line, dist, bbox_to_polygon, create_df_centerlines

  /** The same polyline walked from its last vertex to its first. */
  function ReverseLine(l: Line): (r: Line)
    requires ValidLine(l)
    ensures ValidLine(r) && Length(r) == Length(l)
    ensures |r.coords| == |l.coords|
    ensures forall k :: 0 <= k < |l.coords| ==> r.coords[k] == l.coords[|l.coords| - 1 - k]
  {
    var n := |l.coords|;
    var r := Line(seq(n, k requires 0 <= k < n => l.coords[n - 1 - k]),
                  seq(n, k requires 0 <= k < n => Length(l) - l.cum[n - 1 - k]));
    forall k | 0 <= k < n - 1
      ensures StepOk(r, k)
    {
      assert StepOk(l, n - 2 - k);
      SqDistSymmetric(l.coords[n - 2 - k], l.coords[n - 1 - k]);
    }
    assert r.cum[0] == Length(l) - l.cum[n - 1];
    assert Length(l) == l.cum[n - 1];
    assert r.cum[n - 1] == Length(l) - l.cum[0] == Length(l);
    r
  }

  lemma SqDistSymmetric(a: Point, b: Point)
    ensures SqDist(a, b) == SqDist(b, a)
  {
    assert (a.x - b.x) * (a.x - b.x) == (b.x - a.x) * (b.x - a.x);
    assert (a.y - b.y) * (a.y - b.y) == (b.y - a.y) * (b.y - a.y);
  }

  /** Reversing twice gives back the original polyline. */
  lemma ReverseLineInvolution(l: Line)
    requires ValidLine(l)
    ensures ReverseLine(ReverseLine(l)) == l
  {
    var rr := ReverseLine(ReverseLine(l));
    assert rr.coords == l.coords;
    assert rr.cum == l.cum;
  }

  /** `dist(a, b)`: `d` is the Euclidean distance of `a` and `b`. */
  predicate IsDist(a: Point, b: Point, d: real)
  {
    d >= 0.0 && d * d == SqDist(a, b)
  }

  /** The Euclidean distance is unique and symmetric. */
  lemma DistUnique(a: Point, b: Point, d: real, e: real)
    requires IsDist(a, b, d) && IsDist(b, a, e)
    ensures d == e
  {
    SqDistSymmetric(a, b);
    assert (d - e) * (d + e) == 0.0;
    if d + e > 0.0 {
      ProductZero(d - e, d + e);
    }
  }

  /**
   * `bbox_to_polygon`: the rectangle spanned by two opposite corners, walked
   * corner to corner; consecutive corners (and the last and first) share one
   * coordinate, so every side is axis-parallel.
   */
  function BboxToPolygon(lo: Point, hi: Point): (poly: Polygon)
    ensures |poly.exterior| == 4 && poly.interiors == []
    ensures poly.exterior[0] == lo && poly.exterior[2] == hi
    ensures var c := poly.exterior;
      c[0].x == c[1].x && c[1].y == c[2].y && c[2].x == c[3].x && c[3].y == c[0].y
    ensures lo.x <= hi.x && lo.y <= hi.y ==>
      forall c :: c in poly.exterior ==> lo.x <= c.x <= hi.x && lo.y <= c.y <= hi.y
  {
    Polygon([lo, Point(lo.x, hi.y), hi, Point(hi.x, lo.y)], [])
  }

  /** A row of the frame `create_df_centerlines` builds; `route_weight` is NaN (None). */
  datatype CenterlineRecord = CenterlineRecord(geometry: Line, length: real, routeWeight: Option<real>)

  method CreateDfCenterlines(g: Geom) returns (records: seq<CenterlineRecord>)
    requires GeomOk(g)
    ensures g.LineString? ==> records == [CenterlineRecord(g.line, Length(g.line), None)]
    ensures g.MultiLineString? ==>
      && |records| == |g.parts|
      && forall k :: 0 <= k < |g.parts| ==>
           records[k] == CenterlineRecord(g.parts[k], Length(g.parts[k]), None)
    ensures g.OtherGeom? ==> records == []
  {
    var centerlineList := [];
    if g.LineString? {
      centerlineList := centerlineList + [g.line];
    }
    if g.MultiLineString? {
      for k := 0 to |g.parts|
        invariant centerlineList == g.parts[..k]
      {
        centerlineList := centerlineList + [g.parts[k]];
      }
    }
    records := [];
    for k := 0 to |centerlineList|
      invariant |records| == k
      invariant forall m :: 0 <= m < k ==>
        records[m] == CenterlineRecord(centerlineList[m], Length(centerlineList[m]), None)
    {
      records := records + [CenterlineRecord(centerlineList[k], Length(centerlineList[k]), None)];
    }
  }

  // ---------------------------------------------------------------------------
  // fix_invalid

  /** A polygonal shape: a single polygon or a multipolygon. */
  datatype Shape = Single(polygon: Polygon) | Multi(polygons: seq<Polygon>)

  /** Python's `~` on a bool: `~True == -2`, `~False == -1`. */
  function BitNot(b: bool): (r: int)
    ensures r < 0
  {
    -(if b then 1 else 0) - 1
  }

  /** After buffering, a single polygon from a multipolygon input is wrapped back. */
  function Rewrap(orig: Shape, buffered: Shape): Shape
  {
    if buffered.Single? && orig.Multi? then Multi([buffered.polygon]) else buffered
  }

  /** `fix_invalid` as written: the guard `~poly.is_valid` is a non-zero integer, hence always true. */
  function FixInvalidAsWritten(s: Shape, isValid: Shape -> bool, buffer: Shape -> Shape): Shape
  {
    if BitNot(isValid(s)) != 0 then Rewrap(s, buffer(s)) else s
  }

  /** As written, every shape is buffered, valid or not. */
  lemma FixInvalidAsWrittenAlwaysBuffers(s: Shape, isValid: Shape -> bool, buffer: Shape -> Shape)
    ensures FixInvalidAsWritten(s, isValid, buffer) == Rewrap(s, buffer(s))
  {
  }

  /** A valid single polygon that the written code replaces by its buffer. */
  lemma FixInvalidAsWrittenChangesValidShape()
    ensures var s := Single(Polygon([Point(0.0, 0.0), Point(1.0, 0.0), Point(0.0, 1.0)], []));
      var buffer := (t: Shape) => Multi([]);
      FixInvalidAsWritten(s, t => true, buffer) != s
  {
  }

  /** `fix_invalid` with the intended guard `not poly.is_valid`. */
  function FixInvalid(s: Shape, isValid: Shape -> bool, buffer: Shape -> Shape): (r: Shape)
    ensures isValid(s) ==> r == s
    ensures !isValid(s) && s.Multi? && !buffer(s).Multi? ==> r == Multi([buffer(s).polygon])
    ensures !isValid(s) && (s.Single? || buffer(s).Multi?) ==> r == buffer(s)
  {
    if !isValid(s) then Rewrap(s, buffer(s)) else s
  }
}
