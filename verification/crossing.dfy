/**
 * The crossing-edge synthesizer: every source node is offered the target
 * nodes nearest to it, and edges are kept either as the first few per
 * source, or under the rule that no source connects twice to the same
 * connected component of the walking network, or (for curb crossings) as the
 * shortest edge per component and target that actually crosses a road.
 *
 * The Euclidean distance matrix between the nodes, the row-wise `argsort`,
 * the centroid-edge lengths, the road `intersects` test and the network's
 * shortest-path query are parameters.
 */
module Crossing {
  import opened Common
  import opened Geometry

  /** A node of the source or target frame: its point, its centroid and its component id. */
  datatype Node = Node(geometry: Point, centroid: Point, cc: int)

  /** The value `np.fill_diagonal` writes. */
  const Masked: real := 1000000.0

  /** The target window of a search: below `max_dist`, or strictly between `min_dist` and `max_dist`. */
  datatype Window = Below(maxDist: real) | Between(minDist: real, maxDist: real)

  predicate InWindow(w: Window, d: real)
  {
    match w
    case Below(maxDist) => d < maxDist
    case Between(minDist, maxDist) => minDist < d < maxDist
  }

  predicate IsMatrix(m: seq<seq<real>>, rows: int, cols: int)
  {
    |m| == rows && forall i :: 0 <= i < |m| ==> |m[i]| == cols
  }

  predicate InRange(ts: seq<int>, n: int)
  {
    forall k :: 0 <= k < |ts| ==> 0 <= ts[k] < n
  }

  /**
   * `np.fill_diagonal(dist_matrix, 10**6)`: entry (i, i) is overwritten for
   * every i that is both a row and a column index, whatever the nodes are.
   */
  function MaskDiagonal(dist: seq<seq<real>>): (m: seq<seq<real>>)
    ensures |m| == |dist|
    ensures forall i :: 0 <= i < |dist| ==> |m[i]| == |dist[i]|
    ensures forall i, j :: 0 <= i < |dist| && 0 <= j < |dist[i]| ==>
      m[i][j] == if i == j then Masked else dist[i][j]
  {
    seq(|dist|, i requires 0 <= i < |dist| =>
      seq(|dist[i]|, j requires 0 <= j < |dist[i]| => if i == j then Masked else dist[i][j]))
  }

  /**
   * `ord` is a row's `argsort`: a permutation of its column indices listing
   * them by non-decreasing value; the order among equal values is left open.
   */
  predicate IsArgsort(row: seq<real>, ord: seq<int>)
  {
    && |ord| == |row|
    && InRange(ord, |row|)
    && Distinct(ord)
    && (forall t :: 0 <= t < |row| ==> t in ord)
    && (forall a, b :: 0 <= a < b < |ord| ==> row[ord[a]] <= row[ord[b]])
  }

  /** Position k of the sorted row lies in the window. */
  function InWindowAt(row: seq<real>, ord: seq<int>, w: Window): int -> bool
  {
    k => 0 <= k < |ord| && 0 <= ord[k] < |row| && InWindow(w, row[ord[k]])
  }

  /** `list(row[row_idxs])`: the sorted targets whose distance lies in the window. */
  function Candidates(row: seq<real>, ord: seq<int>, w: Window): (c: seq<int>)
    ensures InRange(c, |row|)
  {
    SelectInWindow(row, ord, w);
    Select(ord, InWindowAt(row, ord, w))
  }

  lemma SelectInWindow(row: seq<real>, ord: seq<int>, w: Window)
    ensures InRange(Select(ord, InWindowAt(row, ord, w)), |row|)
  {
    var keep := InWindowAt(row, ord, w);
    SelectExactly(ord, keep);
    var idx := SelectedIndices(|ord|, keep);
    forall k | 0 <= k < |idx|
      ensures keep(idx[k])
    {
      assert idx[k] in idx;
    }
  }

  /**
   * The candidates are exactly the targets whose distance lies in the
   * window, each once, nearest first.
   */
  lemma CandidatesExactly(row: seq<real>, ord: seq<int>, w: Window)
    requires IsArgsort(row, ord)
    ensures var c := Candidates(row, ord, w);
      && (forall t :: t in c <==> 0 <= t < |row| && InWindow(w, row[t]))
      && Distinct(c)
      && (forall a, b :: 0 <= a < b < |c| ==> row[c[a]] <= row[c[b]])
  {
    CandidatesComplete(row, ord, w);
    CandidatesSound(row, ord, w);
    CandidatesOrdered(row, ord, w);
  }

  lemma CandidatesComplete(row: seq<real>, ord: seq<int>, w: Window)
    requires IsArgsort(row, ord)
    ensures forall t :: 0 <= t < |row| && InWindow(w, row[t]) ==> t in Candidates(row, ord, w)
  {
    var keep := InWindowAt(row, ord, w);
    SelectExactly(ord, keep);
    var c := Candidates(row, ord, w);
    var idx := SelectedIndices(|ord|, keep);
    forall t | 0 <= t < |row| && InWindow(w, row[t])
      ensures t in c
    {
      assert t in ord;
      var i :| 0 <= i < |ord| && ord[i] == t;
      assert i in idx;
      var k :| 0 <= k < |idx| && idx[k] == i;
      assert c[k] == t;
    }
  }

  lemma CandidatesSound(row: seq<real>, ord: seq<int>, w: Window)
    requires IsArgsort(row, ord)
    ensures forall t :: t in Candidates(row, ord, w) ==> 0 <= t < |row| && InWindow(w, row[t])
  {
    var keep := InWindowAt(row, ord, w);
    SelectExactly(ord, keep);
    var c := Candidates(row, ord, w);
    var idx := SelectedIndices(|ord|, keep);
    forall t | t in c
      ensures 0 <= t < |row| && InWindow(w, row[t])
    {
      var k :| 0 <= k < |c| && c[k] == t;
      assert idx[k] in idx;
      assert keep(idx[k]);
    }
  }

  lemma CandidatesOrdered(row: seq<real>, ord: seq<int>, w: Window)
    requires IsArgsort(row, ord)
    ensures var c := Candidates(row, ord, w);
      Distinct(c) && forall a, b :: 0 <= a < b < |c| ==> row[c[a]] <= row[c[b]]
  {
    var keep := InWindowAt(row, ord, w);
    SelectExactly(ord, keep);
    var c := Candidates(row, ord, w);
    var idx := SelectedIndices(|ord|, keep);
    forall a, b | 0 <= a < b < |c|
      ensures c[a] != c[b] && row[c[a]] <= row[c[b]]
    {
      assert idx[a] < idx[b];
      assert c[a] == ord[idx[a]] && c[b] == ord[idx[b]];
    }
  }

  /** With `max_dist` at most 10**6, source i is never offered target i. */
  lemma DiagonalNeverCandidate(dist: seq<seq<real>>, ord: seq<int>, w: Window, i: int)
    requires 0 <= i < |dist| && i < |dist[i]|
    requires IsArgsort(MaskDiagonal(dist)[i], ord)
    requires w.maxDist <= Masked
    ensures i !in Candidates(MaskDiagonal(dist)[i], ord, w)
  {
    CandidatesExactly(MaskDiagonal(dist)[i], ord, w);
  }

  /** `nodes_to_connect`: the candidate list of every source. */
  function NodesToConnect(masked: seq<seq<real>>, ord: seq<seq<int>>, w: Window): (ntc: seq<seq<int>>)
    requires |ord| == |masked|
    ensures |ntc| == |masked|
    ensures forall i :: 0 <= i < |masked| ==> ntc[i] == Candidates(masked[i], ord[i], w)
  {
    seq(|masked|, i requires 0 <= i < |masked| => Candidates(masked[i], ord[i], w))
  }

  // ---------------------------------------------------------------------------
  // Unconstrained selection: the first `max_connections` candidates per source

  /** How many of `len` candidates pass `j < max_connections`. */
  function TakeCount(maxConn: int, len: nat): (n: nat)
    ensures n <= len
    ensures n <= maxConn || n == 0
    ensures n < len ==> n >= maxConn
  {
    if maxConn <= 0 then 0 else if maxConn < len then maxConn else len
  }

  /** The index pairs of one source and its first candidates. */
  function Block(i: int, cands: seq<int>, maxConn: int): seq<(int, int)>
  {
    seq(TakeCount(maxConn, |cands|), j requires 0 <= j < TakeCount(maxConn, |cands|) => (i, cands[j]))
  }

  /** `[[i, nodes_to_connect[i][j]] for i ... for j ... if j < max_connections]` over the first n sources. */
  function UnconstrainedEdges(ntc: seq<seq<int>>, maxConn: int, n: nat): seq<(int, int)>
    requires n <= |ntc|
  {
    if n == 0 then [] else UnconstrainedEdges(ntc, maxConn, n - 1) + Block(n - 1, ntc[n - 1], maxConn)
  }

  /**
   * The unconstrained edges pair each source i with exactly its first
   * min(max_connections, #candidates) candidates, and list the sources in
   * order.
   */
  lemma {:induction false} UnconstrainedEdgesShape(ntc: seq<seq<int>>, maxConn: int, n: nat)
    requires n <= |ntc|
    ensures forall k :: 0 <= k < |UnconstrainedEdges(ntc, maxConn, n)| ==>
      UnconstrainedEdgeOk(ntc, maxConn, n, UnconstrainedEdges(ntc, maxConn, n)[k])
    ensures forall i, j :: 0 <= i < n && 0 <= j < TakeCount(maxConn, |ntc[i]|) ==>
      (i, ntc[i][j]) in UnconstrainedEdges(ntc, maxConn, n)
    ensures SourcesOrdered(UnconstrainedEdges(ntc, maxConn, n))
  {
    if n > 0 {
      UnconstrainedEdgesShape(ntc, maxConn, n - 1);
      var prev := UnconstrainedEdges(ntc, maxConn, n - 1);
      var blk := Block(n - 1, ntc[n - 1], maxConn);
      var e := UnconstrainedEdges(ntc, maxConn, n);
      assert e == prev + blk;
      forall k | 0 <= k < |e|
        ensures UnconstrainedEdgeOk(ntc, maxConn, n, e[k])
      {
        if k >= |prev| {
          var j := k - |prev|;
          assert e[k] == blk[j] == (n - 1, ntc[n - 1][j]);
        } else {
          assert e[k] == prev[k];
          assert UnconstrainedEdgeOk(ntc, maxConn, n - 1, prev[k]);
        }
      }
      forall i, j | 0 <= i < n && 0 <= j < TakeCount(maxConn, |ntc[i]|)
        ensures (i, ntc[i][j]) in e
      {
        if i == n - 1 {
          assert e[|prev| + j] == blk[j];
        } else {
          assert (i, ntc[i][j]) in prev;
        }
      }
      forall a, b | 0 <= a < b < |e|
        ensures e[a].0 <= e[b].0
      {
        if b >= |prev| {
          assert e[b] == blk[b - |prev|];
          if a < |prev| {
            assert e[a] == prev[a];
            assert UnconstrainedEdgeOk(ntc, maxConn, n - 1, prev[a]);
          } else {
            assert e[a] == blk[a - |prev|];
          }
        } else {
          assert e[a] == prev[a] && e[b] == prev[b];
        }
      }
      assert SourcesOrdered(e);
    }
  }

  /** Edges are listed source by source. */
  predicate SourcesOrdered(e: seq<(int, int)>)
  {
    forall a, b :: 0 <= a < b < |e| ==> e[a].0 <= e[b].0
  }

  /** Edge (i, t) joins one of the first n sources to one of its first `max_connections` candidates. */
  predicate UnconstrainedEdgeOk(ntc: seq<seq<int>>, maxConn: int, n: int, e: (int, int))
    requires n <= |ntc|
  {
    0 <= e.0 < n && exists j :: 0 <= j < TakeCount(maxConn, |ntc[e.0]|) && e.1 == ntc[e.0][j]
  }

  // ---------------------------------------------------------------------------
  // The connected-component rule

  /** The component of every target. */
  function TargetCcs(targets: seq<Node>): (cc: seq<int>)
    ensures |cc| == |targets|
    ensures forall j :: 0 <= j < |targets| ==> cc[j] == targets[j].cc
  {
    seq(|targets|, j requires 0 <= j < |targets| => targets[j].cc)
  }

  /** The components of a list of targets, in list order. */
  function CcsOf(ts: seq<int>, cc: seq<int>): (r: seq<int>)
    requires InRange(ts, |cc|)
    ensures |r| == |ts|
    ensures forall k :: 0 <= k < |ts| ==> r[k] == cc[ts[k]]
  {
    seq(|ts|, k requires 0 <= k < |ts| => cc[ts[k]])
  }

  /**
   * The targets one source accepts, scanning its candidates nearest first:
   * a candidate is taken while fewer than `max_connections` are taken and
   * its component is not among the taken ones (the restricted list starts
   * empty).
   */
  function Accepted(cands: seq<int>, cc: seq<int>, maxConn: int): (a: seq<int>)
    requires InRange(cands, |cc|)
    ensures InRange(a, |cc|)
  {
    if cands == [] then []
    else
      var a := Accepted(cands[..|cands| - 1], cc, maxConn);
      var t := cands[|cands| - 1];
      if cc[t] !in CcsOf(a, cc) && |a| < maxConn then a + [t] else a
  }

  lemma CcsOfAppend(a: seq<int>, t: int, cc: seq<int>)
    requires InRange(a, |cc|) && 0 <= t < |cc|
    ensures CcsOf(a + [t], cc) == CcsOf(a, cc) + [cc[t]]
  {
    assert CcsOf(a + [t], cc)[|a|] == cc[t];
  }

  /**
   * The accepted targets are candidates, in candidate order; there are at
   * most `max_connections` of them; their components are pairwise distinct;
   * and a candidate left out had its component taken already or arrived
   * when the quota was full.
   */
  lemma AcceptedProps(cands: seq<int>, cc: seq<int>, maxConn: int)
    requires InRange(cands, |cc|)
    ensures var a := Accepted(cands, cc, maxConn);
      && IsSubsequence(a, cands)
      && (a == [] || |a| <= maxConn)
      && Distinct(CcsOf(a, cc))
      && (forall k :: 0 <= k < |cands| ==> cands[k] in a || cc[cands[k]] in CcsOf(a, cc) || |a| >= maxConn)
  {
    AcceptedSubsequence(cands, cc, maxConn);
    AcceptedDistinct(cands, cc, maxConn);
    AcceptedCovers(cands, cc, maxConn);
  }

  lemma {:induction false} AcceptedSubsequence(cands: seq<int>, cc: seq<int>, maxConn: int)
    requires InRange(cands, |cc|)
    ensures IsSubsequence(Accepted(cands, cc, maxConn), cands)
  {
    if cands != [] {
      var init := cands[..|cands| - 1];
      AcceptedSubsequence(init, cc, maxConn);
      assert init + [cands[|cands| - 1]] == cands;
      SubsequenceExtend(Accepted(init, cc, maxConn), init, cands[|cands| - 1]);
    }
  }

  lemma {:induction false} AcceptedDistinct(cands: seq<int>, cc: seq<int>, maxConn: int)
    requires InRange(cands, |cc|)
    ensures var a := Accepted(cands, cc, maxConn);
      (a == [] || |a| <= maxConn) && Distinct(CcsOf(a, cc))
  {
    if cands != [] {
      var init := cands[..|cands| - 1];
      var t := cands[|cands| - 1];
      AcceptedDistinct(init, cc, maxConn);
      var a0 := Accepted(init, cc, maxConn);
      if Accepted(cands, cc, maxConn) != a0 {
        CcsOfAppend(a0, t, cc);
      }
    }
  }

  lemma {:induction false} AcceptedCovers(cands: seq<int>, cc: seq<int>, maxConn: int)
    requires InRange(cands, |cc|)
    ensures var a := Accepted(cands, cc, maxConn);
      forall k :: 0 <= k < |cands| ==> cands[k] in a || cc[cands[k]] in CcsOf(a, cc) || |a| >= maxConn
  {
    if cands != [] {
      var init := cands[..|cands| - 1];
      var t := cands[|cands| - 1];
      AcceptedCovers(init, cc, maxConn);
      var a0 := Accepted(init, cc, maxConn);
      var a := Accepted(cands, cc, maxConn);
      if a != a0 {
        CcsOfAppend(a0, t, cc);
        assert CcsOf(a, cc) == CcsOf(a0, cc) + [cc[t]];
      }
      forall k | 0 <= k < |cands|
        ensures cands[k] in a || cc[cands[k]] in CcsOf(a, cc) || |a| >= maxConn
      {
        if k < |init| {
          assert cands[k] == init[k];
        }
      }
    }
  }

  /**
   * When the candidate at position p is accepted, its component was not yet
   * taken, and every nearer candidate's component already was: it is the
   * nearest remaining candidate of a fresh component.
   */
  lemma NearestFreshFirst(cands: seq<int>, cc: seq<int>, maxConn: int, p: int)
    requires InRange(cands, |cc|) && 0 <= p < |cands|
    requires |Accepted(cands[..p + 1], cc, maxConn)| > |Accepted(cands[..p], cc, maxConn)|
    ensures cc[cands[p]] !in CcsOf(Accepted(cands[..p], cc, maxConn), cc)
    ensures forall q :: 0 <= q < p ==> cc[cands[q]] in CcsOf(Accepted(cands[..p], cc, maxConn), cc)
  {
    var before := cands[..p];
    assert cands[..p + 1][..p] == before;
    var a := Accepted(before, cc, maxConn);
    AcceptedProps(before, cc, maxConn);
    forall q | 0 <= q < p
      ensures cc[cands[q]] in CcsOf(a, cc)
    {
      assert before[q] == cands[q];
      if cands[q] in a {
        var m :| 0 <= m < |a| && a[m] == cands[q];
        assert CcsOf(a, cc)[m] == cc[cands[q]];
      }
    }
  }

  /** Accepting more candidates only extends the accepted list. */
  lemma {:induction false} AcceptedPrefix(cands: seq<int>, cc: seq<int>, maxConn: int, p: int)
    requires InRange(cands, |cc|) && 0 <= p <= |cands|
    ensures var a := Accepted(cands, cc, maxConn);
      var b := Accepted(cands[..p], cc, maxConn);
      |b| <= |a| && a[..|b|] == b
    decreases |cands| - p
  {
    if p < |cands| {
      var init := cands[..|cands| - 1];
      assert init[..p] == cands[..p];
      AcceptedPrefix(init, cc, maxConn, p);
    } else {
      assert cands[..p] == cands;
    }
  }

  /**
   * The nearest candidate is always accepted when any connection is
   * allowed, whatever its component: the source's own component is not
   * excluded.
   */
  lemma NearestAlwaysAccepted(cands: seq<int>, cc: seq<int>, maxConn: int)
    requires InRange(cands, |cc|) && cands != [] && maxConn > 0
    ensures Accepted(cands, cc, maxConn) != [] && Accepted(cands, cc, maxConn)[0] == cands[0]
  {
    AcceptedPrefix(cands, cc, maxConn, 1);
    assert cands[..1][..0] == [];
  }

  /** The index pairs of one source and a list of its targets. */
  function Pairs(i: int, ts: seq<int>): (r: seq<(int, int)>)
    ensures |r| == |ts| && forall k :: 0 <= k < |ts| ==> r[k] == (i, ts[k])
  {
    seq(|ts|, k requires 0 <= k < |ts| => (i, ts[k]))
  }

  predicate AllInRange(ntc: seq<seq<int>>, n: int)
  {
    forall i :: 0 <= i < |ntc| ==> InRange(ntc[i], n)
  }

  /** The cc-rule edges of the first n sources, source by source. */
  function CcRuleEdges(ntc: seq<seq<int>>, cc: seq<int>, maxConn: int, n: nat): seq<(int, int)>
    requires n <= |ntc| && AllInRange(ntc, |cc|)
  {
    if n == 0 then [] else CcRuleEdges(ntc, cc, maxConn, n - 1) + Pairs(n - 1, Accepted(ntc[n - 1], cc, maxConn))
  }

  /** The straight edge between the nodes of an index pair. */
  function EdgeOf(sources: seq<Node>, targets: seq<Node>, e: (int, int)): Edge
    requires 0 <= e.0 < |sources| && 0 <= e.1 < |targets|
  {
    Edge(sources[e.0].geometry, targets[e.1].geometry)
  }

  predicate EdgesInRange(edges: seq<(int, int)>, ns: int, nt: int)
  {
    forall k :: 0 <= k < |edges| ==> 0 <= edges[k].0 < ns && 0 <= edges[k].1 < nt
  }

  /** The geometries are, one to one and in order, the straight edges of the index pairs. */
  predicate GeometriesMatch(sources: seq<Node>, targets: seq<Node>, edges: seq<(int, int)>, geoms: seq<Edge>)
  {
    && EdgesInRange(edges, |sources|, |targets|)
    && |geoms| == |edges|
    && forall k :: 0 <= k < |edges| ==> geoms[k] == EdgeOf(sources, targets, edges[k])
  }

  lemma GeometriesMatchAppend(sources: seq<Node>, targets: seq<Node>,
                              a: seq<(int, int)>, ga: seq<Edge>, b: seq<(int, int)>, gb: seq<Edge>)
    requires GeometriesMatch(sources, targets, a, ga) && GeometriesMatch(sources, targets, b, gb)
    ensures GeometriesMatch(sources, targets, a + b, ga + gb)
  {
    forall k | 0 <= k < |a + b|
      ensures 0 <= (a + b)[k].0 < |sources| && 0 <= (a + b)[k].1 < |targets|
      ensures (ga + gb)[k] == EdgeOf(sources, targets, (a + b)[k])
    {
      if k >= |a| {
        assert (a + b)[k] == b[k - |a|];
      }
    }
  }

  lemma {:induction false} UnconstrainedInRange(ntc: seq<seq<int>>, maxConn: int, n: nat, nt: int)
    requires n <= |ntc| && AllInRange(ntc, nt)
    ensures EdgesInRange(UnconstrainedEdges(ntc, maxConn, n), n, nt)
  {
    if n > 0 {
      UnconstrainedInRange(ntc, maxConn, n - 1, nt);
    }
  }

  /** The inputs every search shares: distances are the matrix, `ord` its masked rows' argsort. */
  predicate SearchOk(sources: seq<Node>, targets: seq<Node>, dist: seq<seq<real>>, ord: seq<seq<int>>)
  {
    && IsMatrix(dist, |sources|, |targets|)
    && |ord| == |sources|
    && forall i :: 0 <= i < |sources| ==> IsArgsort(MaskDiagonal(dist)[i], ord[i])
  }

  /**
   * The cc-rule loop body for one source: walks its candidates, nearest
   * first, keeping the restricted components and the connection count, and
   * yields the pairs and the edges it adds.
   */
  method ConnectSource(sources: seq<Node>, targets: seq<Node>, sourceNode: int, cands: seq<int>, maxConn: int)
    returns (edges: seq<(int, int)>, edgesGeometries: seq<Edge>)
    requires 0 <= sourceNode < |sources| && InRange(cands, |targets|)
    ensures edges == Pairs(sourceNode, Accepted(cands, TargetCcs(targets), maxConn))
    ensures GeometriesMatch(sources, targets, edges, edgesGeometries)
  {
    var cc := TargetCcs(targets);
    edges, edgesGeometries := [], [];
    var restrictedCc: seq<int>, connectionsCount := [], 0;
    for k := 0 to |cands|
      invariant restrictedCc == CcsOf(Accepted(cands[..k], cc, maxConn), cc)
      invariant connectionsCount == |Accepted(cands[..k], cc, maxConn)|
      invariant edges == Pairs(sourceNode, Accepted(cands[..k], cc, maxConn))
      invariant GeometriesMatch(sources, targets, edges, edgesGeometries)
    {
      assert cands[..k + 1][..k] == cands[..k];
      var targetNode := cands[k];
      var targetCc := targets[targetNode].cc;
      if targetCc !in restrictedCc && connectionsCount < maxConn {
        CcsOfAppend(Accepted(cands[..k], cc, maxConn), targetNode, cc);
        edges := edges + [(sourceNode, targetNode)];
        edgesGeometries := edgesGeometries + [EdgeOf(sources, targets, (sourceNode, targetNode))];
        restrictedCc := restrictedCc + [targetCc];
        connectionsCount := connectionsCount + 1;
      }
    }
    assert cands[..|cands|] == cands;
  }

  /** The component-rule branch of `get_connections`: every source's accepted edges, source by source. */
  method CcRuleConnections(sources: seq<Node>, targets: seq<Node>, nodesToConnect: seq<seq<int>>, maxConn: int)
    returns (edges: seq<(int, int)>, edgesGeometries: seq<Edge>)
    requires |nodesToConnect| == |sources| && AllInRange(nodesToConnect, |targets|)
    ensures edges == CcRuleEdges(nodesToConnect, TargetCcs(targets), maxConn, |nodesToConnect|)
    ensures GeometriesMatch(sources, targets, edges, edgesGeometries)
  {
    var cc := TargetCcs(targets);
    edges, edgesGeometries := [], [];
    for sourceNode := 0 to |nodesToConnect|
      invariant edges == CcRuleEdges(nodesToConnect, cc, maxConn, sourceNode)
      invariant GeometriesMatch(sources, targets, edges, edgesGeometries)
    {
      var newEdges, newGeometries := ConnectSource(sources, targets, sourceNode, nodesToConnect[sourceNode], maxConn);
      GeometriesMatchAppend(sources, targets, edges, edgesGeometries, newEdges, newGeometries);
      edges := edges + newEdges;
      edgesGeometries := edgesGeometries + newGeometries;
    }
  }

  /**
   * `get_connections`: the index pairs of the new edges and, one to one, the
   * straight edges between their nodes. Without the rule each source takes
   * its first `max_connections` candidates; with it, the greedy
   * component-exclusive choice.
   */
  method GetConnections(sources: seq<Node>, targets: seq<Node>, dist: seq<seq<real>>, ord: seq<seq<int>>,
                        maxDist: real, maxConn: int, includeCcRule: bool)
    returns (edges: seq<(int, int)>, edgesGeometries: seq<Edge>)
    requires SearchOk(sources, targets, dist, ord)
    ensures var ntc := NodesToConnect(MaskDiagonal(dist), ord, Below(maxDist));
      edges == if includeCcRule then CcRuleEdges(ntc, TargetCcs(targets), maxConn, |ntc|)
               else UnconstrainedEdges(ntc, maxConn, |ntc|)
    ensures GeometriesMatch(sources, targets, edges, edgesGeometries)
  {
    var masked := MaskDiagonal(dist);
    var nodesToConnect := NodesToConnect(masked, ord, Below(maxDist));
    assert AllInRange(nodesToConnect, |targets|);
    if includeCcRule {
      edges, edgesGeometries := CcRuleConnections(sources, targets, nodesToConnect, maxConn);
    } else {
      edges := UnconstrainedEdges(nodesToConnect, maxConn, |nodesToConnect|);
      UnconstrainedInRange(nodesToConnect, maxConn, |nodesToConnect|, |targets|);
      edgesGeometries := seq(|edges|, k requires 0 <= k < |edges| => EdgeOf(sources, targets, edges[k]));
    }
  }

  /** `get_crossing_edges`: the edge geometries `get_connections` yields, on the `cc` column. */
  method GetCrossingEdges(sources: seq<Node>, targets: seq<Node>, dist: seq<seq<real>>, ord: seq<seq<int>>,
                          maxDist: real, maxConn: int, includeCcRule: bool)
    returns (edgesGeometries: seq<Edge>)
    requires SearchOk(sources, targets, dist, ord)
    ensures var ntc := NodesToConnect(MaskDiagonal(dist), ord, Below(maxDist));
      var edges := if includeCcRule then CcRuleEdges(ntc, TargetCcs(targets), maxConn, |ntc|)
                   else UnconstrainedEdges(ntc, maxConn, |ntc|);
      GeometriesMatch(sources, targets, edges, edgesGeometries)
  {
    var edges;
    edges, edgesGeometries := GetConnections(sources, targets, dist, ord, maxDist, maxConn, includeCcRule);
  }

  // ---------------------------------------------------------------------------
  // get_crossing_edges_from_curb_heights: the best-edge table

  /** An entry of `edges_dict[source_cc][target_node]`: the edge and its length. */
  datatype Best = Best(edge: Edge, length: real)

  /** A candidate edge that passed the component and count checks, offered to the table. */
  datatype Offer = Offer(cc: int, target: int, best: Best)

  /**
   * The state of the scan over one source's candidates: the table, the
   * restricted components, the connection count, and (for the proofs only)
   * every offer made so far.
   */
  datatype Scan = Scan(table: Dict<int, Dict<int, Best>>, restricted: seq<int>, count: int, offers: seq<Offer>)

  /** The table after a prefix of the sources, with the offers made so far. */
  datatype Built = Built(table: Dict<int, Dict<int, Best>>, offers: seq<Offer>)

  predicate TableOk(t: Dict<int, Dict<int, Best>>)
  {
    WellFormed(t) && forall c :: c in t.vals ==> WellFormed(t.vals[c])
  }

  lemma InnerOk(t: Dict<int, Dict<int, Best>>, c: int)
    requires TableOk(t) && c in t.vals
    ensures WellFormed(t.vals[c])
  {
  }

  /** The nodes and the matrix of centroid-to-centroid edge lengths. */
  predicate CurbInputsOk(sources: seq<Node>, targets: seq<Node>, lengths: seq<seq<real>>)
  {
    IsMatrix(lengths, |sources|, |targets|)
  }

  /**
   * Target t is considered for source s: it is skipped when its component is
   * restricted or the count is full; otherwise the centroid edge is offered
   * and written when the pair is new or the edge strictly shorter, which
   * also counts the connection and restricts the component.
   */
  function OfferStep(sc: Scan, sources: seq<Node>, targets: seq<Node>, lengths: seq<seq<real>>,
                     s: int, t: int, maxConn: int): (r: Scan)
    requires CurbInputsOk(sources, targets, lengths) && 0 <= s < |sources| && 0 <= t < |targets|
    requires TableOk(sc.table) && sources[s].cc in sc.table.vals
    ensures TableOk(r.table) && sources[s].cc in r.table.vals
    ensures || (r.restricted == sc.restricted && r.count == sc.count)
            || (r.restricted == sc.restricted + [targets[t].cc] && r.count == sc.count + 1 && sc.count < maxConn)
  {
    var sourceCc := sources[s].cc;
    var targetCc := targets[t].cc;
    if targetCc in sc.restricted || sc.count >= maxConn then sc
    else
      var inner := sc.table.vals[sourceCc];
      var pos := Best(Edge(sources[s].centroid, targets[t].centroid), lengths[s][t]);
      var offers := sc.offers + [Offer(sourceCc, t, pos)];
      if t in inner.vals && !(inner.vals[t].length > pos.length) then
        Scan(sc.table, sc.restricted, sc.count, offers)
      else
        Scan(Put(sc.table, sourceCc, Put(inner, t, pos)), sc.restricted + [targetCc], sc.count + 1, offers)
  }

  /**
   * The three outcomes of one offer: a restricted component or a full count
   * skips the target; a known pair whose stored edge is not strictly longer
   * changes nothing (no count, no restriction); otherwise the entry is
   * written, the count goes up and the target's component is restricted.
   */
  lemma OfferStepOutcome(sc: Scan, sources: seq<Node>, targets: seq<Node>, lengths: seq<seq<real>>,
                         s: int, t: int, maxConn: int)
    requires CurbInputsOk(sources, targets, lengths) && 0 <= s < |sources| && 0 <= t < |targets|
    requires TableOk(sc.table) && sources[s].cc in sc.table.vals
    ensures var r := OfferStep(sc, sources, targets, lengths, s, t, maxConn);
      var inner := sc.table.vals[sources[s].cc];
      var len := lengths[s][t];
      && (targets[t].cc in sc.restricted || sc.count >= maxConn ==> r == sc)
      && (targets[t].cc !in sc.restricted && sc.count < maxConn && t in inner.vals && inner.vals[t].length <= len ==>
            r.table == sc.table && r.restricted == sc.restricted && r.count == sc.count)
      && (targets[t].cc !in sc.restricted && sc.count < maxConn && (t !in inner.vals || inner.vals[t].length > len) ==>
            && r.table.vals[sources[s].cc].vals[t] == Best(Edge(sources[s].centroid, targets[t].centroid), len)
            && r.restricted == sc.restricted + [targets[t].cc] && r.count == sc.count + 1)
  {
  }

  /**
   * One source's pass over its candidates: its component gets an (empty)
   * entry if it has none, the restricted list starts as that component, and
   * every candidate is offered in turn.
   */
  function ScanSource(table: Dict<int, Dict<int, Best>>, offers: seq<Offer>, sources: seq<Node>, targets: seq<Node>,
                      lengths: seq<seq<real>>, s: int, cands: seq<int>, maxConn: int): (r: Scan)
    requires CurbInputsOk(sources, targets, lengths) && 0 <= s < |sources| && InRange(cands, |targets|)
    requires TableOk(table)
    ensures TableOk(r.table) && sources[s].cc in r.table.vals
    ensures r.count >= 0 && |r.restricted| == r.count + 1 && r.restricted[0] == sources[s].cc
    ensures r.count <= maxConn || r.count == 0
  {
    var sourceCc := sources[s].cc;
    if cands == [] then
      Scan(if sourceCc in table.vals then table else Put(table, sourceCc, EmptyDict()), [sourceCc], 0, offers)
    else
      var sc := ScanSource(table, offers, sources, targets, lengths, s, cands[..|cands| - 1], maxConn);
      OfferStep(sc, sources, targets, lengths, s, cands[|cands| - 1], maxConn)
  }

  /** The table after the first n sources. */
  function BuildTable(sources: seq<Node>, targets: seq<Node>, lengths: seq<seq<real>>,
                      ntc: seq<seq<int>>, maxConn: int, n: nat): (b: Built)
    requires CurbInputsOk(sources, targets, lengths) && n <= |ntc| == |sources| && AllInRange(ntc, |targets|)
    ensures TableOk(b.table)
  {
    if n == 0 then Built(EmptyDict(), [])
    else
      var prev := BuildTable(sources, targets, lengths, ntc, maxConn, n - 1);
      var sc := ScanSource(prev.table, prev.offers, sources, targets, lengths, n - 1, ntc[n - 1], maxConn);
      Built(sc.table, sc.offers)
  }

  /** No entry joins a component to a target of that same component. */
  predicate NoOwnCc(table: Dict<int, Dict<int, Best>>, targets: seq<Node>)
  {
    forall c :: c in table.vals ==> forall t :: t in table.vals[c].vals ==> 0 <= t < |targets| && targets[t].cc != c
  }

  /** Every offer has an entry for its pair, no longer than the offer. */
  predicate OffersRecorded(table: Dict<int, Dict<int, Best>>, offers: seq<Offer>)
  {
    forall o :: o in offers ==>
      o.cc in table.vals && o.target in table.vals[o.cc].vals && table.vals[o.cc].vals[o.target].length <= o.best.length
  }

  /** Every entry is one of the offers for its pair. */
  predicate EntriesOffered(table: Dict<int, Dict<int, Best>>, offers: seq<Offer>)
  {
    forall c :: c in table.vals ==> forall t :: t in table.vals[c].vals ==> Offer(c, t, table.vals[c].vals[t]) in offers
  }

  predicate TableInv(table: Dict<int, Dict<int, Best>>, offers: seq<Offer>, targets: seq<Node>)
  {
    NoOwnCc(table, targets) && OffersRecorded(table, offers) && EntriesOffered(table, offers)
  }

  lemma OfferStepInv(sc: Scan, sources: seq<Node>, targets: seq<Node>, lengths: seq<seq<real>>,
                     s: int, t: int, maxConn: int)
    requires CurbInputsOk(sources, targets, lengths) && 0 <= s < |sources| && 0 <= t < |targets|
    requires TableOk(sc.table) && sources[s].cc in sc.table.vals
    requires sc.restricted != [] && sc.restricted[0] == sources[s].cc
    requires TableInv(sc.table, sc.offers, targets)
    ensures var r := OfferStep(sc, sources, targets, lengths, s, t, maxConn);
      TableInv(r.table, r.offers, targets)
  {
    var r := OfferStep(sc, sources, targets, lengths, s, t, maxConn);
    var sourceCc := sources[s].cc;
    var targetCc := targets[t].cc;
    if !(targetCc in sc.restricted || sc.count >= maxConn) {
      var inner := sc.table.vals[sourceCc];
      var pos := Best(Edge(sources[s].centroid, targets[t].centroid), lengths[s][t]);
      var o := Offer(sourceCc, t, pos);
      assert r.offers == sc.offers + [o];
      assert targetCc != sourceCc;
      if t in inner.vals && !(inner.vals[t].length > pos.length) {
        assert r.table == sc.table;
      } else {
        assert r.table.vals == sc.table.vals[sourceCc := Put(inner, t, pos)];
        assert r.table.vals[sourceCc].vals == inner.vals[t := pos];
        forall c, x | c in r.table.vals && x in r.table.vals[c].vals
          ensures 0 <= x < |targets| && targets[x].cc != c
          ensures Offer(c, x, r.table.vals[c].vals[x]) in r.offers
        {
          if c == sourceCc && x == t {
          } else {
            assert c in sc.table.vals && x in sc.table.vals[c].vals;
            assert r.table.vals[c].vals[x] == sc.table.vals[c].vals[x];

          }
        }
        forall p | p in r.offers
          ensures p.cc in r.table.vals && p.target in r.table.vals[p.cc].vals
          ensures r.table.vals[p.cc].vals[p.target].length <= p.best.length
        {
          if p != o {
            assert p in sc.offers;
          }
        }
      }
    }
  }

  lemma {:induction false} ScanSourceInv(table: Dict<int, Dict<int, Best>>, offers: seq<Offer>, sources: seq<Node>,
                                         targets: seq<Node>, lengths: seq<seq<real>>, s: int, cands: seq<int>, maxConn: int)
    requires CurbInputsOk(sources, targets, lengths) && 0 <= s < |sources| && InRange(cands, |targets|)
    requires TableOk(table) && TableInv(table, offers, targets)
    ensures var r := ScanSource(table, offers, sources, targets, lengths, s, cands, maxConn);
      TableInv(r.table, r.offers, targets)
  {
    if cands == [] {
      var sourceCc := sources[s].cc;
      if sourceCc !in table.vals {
        var r := Put(table, sourceCc, EmptyDict());
        assert r.vals == table.vals[sourceCc := EmptyDict()];
        assert forall o :: o in offers ==> o.cc != sourceCc;
        assert r.vals[sourceCc].vals == map[];
        forall c, x | c in r.vals && x in r.vals[c].vals
          ensures 0 <= x < |targets| && targets[x].cc != c
          ensures Offer(c, x, r.vals[c].vals[x]) in offers
        {
          assert c != sourceCc;
        }
      }
    } else {
      var init := cands[..|cands| - 1];
      ScanSourceInv(table, offers, sources, targets, lengths, s, init, maxConn);
      var sc := ScanSource(table, offers, sources, targets, lengths, s, init, maxConn);
      OfferStepInv(sc, sources, targets, lengths, s, cands[|cands| - 1], maxConn);
    }
  }

  /**
   * After any number of sources, every entry `edges_dict[c][t]` is the
   * shortest edge offered for (c, t), every offered pair has an entry, and
   * no entry joins a component to one of its own targets.
   */
  lemma {:induction false} BuildTableShortest(sources: seq<Node>, targets: seq<Node>, lengths: seq<seq<real>>,
                                              ntc: seq<seq<int>>, maxConn: int, n: nat)
    requires CurbInputsOk(sources, targets, lengths) && n <= |ntc| == |sources| && AllInRange(ntc, |targets|)
    ensures TableInv(BuildTable(sources, targets, lengths, ntc, maxConn, n).table,
                     BuildTable(sources, targets, lengths, ntc, maxConn, n).offers, targets)
  {
    if n > 0 {
      BuildTableShortest(sources, targets, lengths, ntc, maxConn, n - 1);
      BuildStepInv(sources, targets, lengths, ntc, maxConn, n);
    }
  }

  lemma BuildStepInv(sources: seq<Node>, targets: seq<Node>, lengths: seq<seq<real>>,
                     ntc: seq<seq<int>>, maxConn: int, n: nat)
    requires CurbInputsOk(sources, targets, lengths) && 0 < n <= |ntc| == |sources| && AllInRange(ntc, |targets|)
    requires TableInv(BuildTable(sources, targets, lengths, ntc, maxConn, n - 1).table,
                      BuildTable(sources, targets, lengths, ntc, maxConn, n - 1).offers, targets)
    ensures TableInv(BuildTable(sources, targets, lengths, ntc, maxConn, n).table,
                     BuildTable(sources, targets, lengths, ntc, maxConn, n).offers, targets)
  {
    var prev := BuildTable(sources, targets, lengths, ntc, maxConn, n - 1);
    ScanSourceInv(prev.table, prev.offers, sources, targets, lengths, n - 1, ntc[n - 1], maxConn);
  }

  /**
   * The loop over one source's candidates in
   * `get_crossing_edges_from_curb_heights`, updating the table in place.
   */
  method OfferTargets(table: Dict<int, Dict<int, Best>>, ghost offers: seq<Offer>, sources: seq<Node>,
                      targets: seq<Node>, lengths: seq<seq<real>>, s: int, cands: seq<int>, maxConn: int)
    returns (edgesDict: Dict<int, Dict<int, Best>>, ghost offersOut: seq<Offer>)
    requires CurbInputsOk(sources, targets, lengths) && 0 <= s < |sources| && InRange(cands, |targets|)
    requires TableOk(table)
    ensures edgesDict == ScanSource(table, offers, sources, targets, lengths, s, cands, maxConn).table
    ensures offersOut == ScanSource(table, offers, sources, targets, lengths, s, cands, maxConn).offers
  {
    var sourceCc := sources[s].cc;
    var restrictedCc, connectionsCount := [sourceCc], 0;
    edgesDict := table;
    if sourceCc !in edgesDict.vals {
      edgesDict := Put(edgesDict, sourceCc, EmptyDict());
    }
    offersOut := offers;
    for k := 0 to |cands|
      invariant Scan(edgesDict, restrictedCc, connectionsCount, offersOut)
                == ScanSource(table, offers, sources, targets, lengths, s, cands[..k], maxConn)
    {
      assert cands[..k + 1][..k] == cands[..k];
      var targetNode := cands[k];
      var targetCc := targets[targetNode].cc;
      if targetCc !in restrictedCc && connectionsCount < maxConn {
        var posEdge := Edge(sources[s].centroid, targets[targetNode].centroid);
        var posLength := lengths[s][targetNode];
        offersOut := offersOut + [Offer(sourceCc, targetNode, Best(posEdge, posLength))];
        var inner := edgesDict.vals[sourceCc];
        if targetNode in inner.vals {
          if inner.vals[targetNode].length > posLength {
            edgesDict := Put(edgesDict, sourceCc, Put(inner, targetNode, Best(posEdge, posLength)));
            connectionsCount := connectionsCount + 1;
            restrictedCc := restrictedCc + [targetCc];
          }
        } else {
          edgesDict := Put(edgesDict, sourceCc, Put(inner, targetNode, Best(posEdge, posLength)));
          connectionsCount := connectionsCount + 1;
          restrictedCc := restrictedCc + [targetCc];
        }
      }
    }
    assert cands[..|cands|] == cands;
  }

  lemma BuildTableStep(sources: seq<Node>, targets: seq<Node>, lengths: seq<seq<real>>,
                       ntc: seq<seq<int>>, maxConn: int, n: nat)
    requires CurbInputsOk(sources, targets, lengths) && n < |ntc| == |sources| && AllInRange(ntc, |targets|)
    ensures var prev := BuildTable(sources, targets, lengths, ntc, maxConn, n);
      var sc := ScanSource(prev.table, prev.offers, sources, targets, lengths, n, ntc[n], maxConn);
      BuildTable(sources, targets, lengths, ntc, maxConn, n + 1) == Built(sc.table, sc.offers)
  {
  }

  lemma NodesInRange(sources: seq<Node>, targets: seq<Node>, dist: seq<seq<real>>, ord: seq<seq<int>>, w: Window)
    requires SearchOk(sources, targets, dist, ord)
    ensures AllInRange(NodesToConnect(MaskDiagonal(dist), ord, w), |targets|)
  {
  }

  /** The best-edge table after every source, searching strictly between `min_dist` and `max_dist`. */
  function CurbTable(sources: seq<Node>, targets: seq<Node>, dist: seq<seq<real>>, ord: seq<seq<int>>,
                     lengths: seq<seq<real>>, minDist: real, maxDist: real, maxConn: int): (b: Built)
    requires SearchOk(sources, targets, dist, ord) && CurbInputsOk(sources, targets, lengths)
    ensures TableOk(b.table)
  {
    var ntc := NodesToConnect(MaskDiagonal(dist), ord, Between(minDist, maxDist));
    NodesInRange(sources, targets, dist, ord, Between(minDist, maxDist));
    BuildTable(sources, targets, lengths, ntc, maxConn, |sources|)
  }

  /** The edges of one component's entries, in insertion order of the targets. */
  function InnerEdges(d: Dict<int, Best>): (r: seq<Edge>)
    requires WellFormed(d)
    ensures |r| == |d.keys|
    ensures forall k :: 0 <= k < |d.keys| ==> r[k] == d.vals[d.keys[k]].edge
  {
    seq(|d.keys|, k requires 0 <= k < |d.keys| => d.vals[d.keys[k]].edge)
  }

  /** The edges of the first n components, component by component. */
  function FlattenUpTo(t: Dict<int, Dict<int, Best>>, n: nat): seq<Edge>
    requires TableOk(t) && n <= |t.keys|
  {
    if n == 0 then []
    else
      KeyIn(t, n - 1);
      InnerOk(t, t.keys[n - 1]);
      FlattenUpTo(t, n - 1) + InnerEdges(t.vals[t.keys[n - 1]])
  }

  /** `[edges_dict[c][t]['edge'] for c in edges_dict.keys() for t in edges_dict[c].keys()]` */
  function FlattenTable(t: Dict<int, Dict<int, Best>>): seq<Edge>
    requires TableOk(t)
  {
    FlattenUpTo(t, |t.keys|)
  }

  /** An edge is listed iff it is the edge of some entry of the table. */
  lemma {:induction false} FlattenMembers(t: Dict<int, Dict<int, Best>>, n: nat)
    requires TableOk(t) && n <= |t.keys|
    ensures forall e :: e in FlattenUpTo(t, n) <==>
      exists i, x :: 0 <= i < n && x in t.vals[t.keys[i]].vals && e == t.vals[t.keys[i]].vals[x].edge
  {
    if n > 0 {
      FlattenMembers(t, n - 1);
      KeyIn(t, n - 1);
      InnerOk(t, t.keys[n - 1]);
      var d := t.vals[t.keys[n - 1]];
      var inner := InnerEdges(d);
      assert FlattenUpTo(t, n) == FlattenUpTo(t, n - 1) + inner;
      InnerMembers(d);
    }
  }

  lemma InnerMembers(d: Dict<int, Best>)
    requires WellFormed(d)
    ensures forall e :: e in InnerEdges(d) <==> exists x :: x in d.vals && e == d.vals[x].edge
  {
    var inner := InnerEdges(d);
    forall e | e in inner
      ensures exists x :: x in d.vals && e == d.vals[x].edge
    {
      var k :| 0 <= k < |inner| && inner[k] == e;
      var x := d.keys[k];
      assert x in d.keys;
      assert x in d.vals && e == d.vals[x].edge;
    }
    forall x | x in d.vals
      ensures d.vals[x].edge in inner
    {
      assert x in d.keys;
      var k :| 0 <= k < |d.keys| && d.keys[k] == x;
      assert inner[k] == d.vals[x].edge;
    }
  }

  /** `Series.nunique()`: the number of distinct values. */
  function NUnique(h: seq<bool>): nat
  {
    |set b | b in h|
  }

  /** A boolean series has more than one distinct value iff it holds both True and False. */
  lemma NUniqueBool(h: seq<bool>)
    ensures NUnique(h) > 1 <==> true in h && false in h
  {
    var vs := set b | b in h;
    if true in h && false in h {
      assert true in vs && false in vs;
      forall b | b in vs
        ensures b in {true, false}
      {
      }
      assert vs == {true, false};
    } else {
      var only := if true in h then true else false;
      forall b | b in vs
        ensures b in {only}
      {
        assert b in h;
      }
      SubsetCard(vs, {only});
    }
  }

  lemma SubsetCard(a: set<bool>, b: set<bool>)
    requires a <= b
    ensures |a| <= |b|
  {
    assert b == a + (b - a);
  }

  /**
   * Edge k crosses a road: `roadHits` stands for `gdf_roads.intersects(edge)`,
   * one result per road feature.
   */
  function CrossesAt(edges: seq<Edge>, roadHits: Edge -> seq<bool>): int -> bool
  {
    k => 0 <= k < |edges| && NUnique(roadHits(edges[k])) > 1
  }

  /** `[edge for edge in edges_geometries if gdf_roads.intersects(edge).nunique() > 1]` */
  function CrossingRoad(edges: seq<Edge>, roadHits: Edge -> seq<bool>): seq<Edge>
  {
    Select(edges, CrossesAt(edges, roadHits))
  }

  /**
   * The road filter keeps, in order, exactly the edges that intersect some
   * road features and miss others.
   */
  lemma CrossingRoadExactly(edges: seq<Edge>, roadHits: Edge -> seq<bool>)
    ensures IsSubsequence(CrossingRoad(edges, roadHits), edges)
    ensures forall e :: e in CrossingRoad(edges, roadHits) <==>
      e in edges && true in roadHits(e) && false in roadHits(e)
  {
    var keep := CrossesAt(edges, roadHits);
    SelectExactly(edges, keep);
    SelectIsSubsequence(edges, keep);
    var r := CrossingRoad(edges, roadHits);
    var idx := SelectedIndices(|edges|, keep);
    forall e | e in r
      ensures e in edges && true in roadHits(e) && false in roadHits(e)
    {
      var k :| 0 <= k < |r| && r[k] == e;
      assert keep(idx[k]);
      NUniqueBool(roadHits(e));
    }
    forall e | e in edges && true in roadHits(e) && false in roadHits(e)
      ensures e in r
    {
      var i :| 0 <= i < |edges| && edges[i] == e;
      NUniqueBool(roadHits(e));
      assert i in idx;
      var k :| 0 <= k < |idx| && idx[k] == i;
      assert r[k] == e;
    }
  }

  /** The loop over source nodes that fills `edges_dict`, one source at a time. */
  method BuildEdgesDict(sources: seq<Node>, targets: seq<Node>, lengths: seq<seq<real>>,
                        nodesToConnect: seq<seq<int>>, maxConn: int)
    returns (edgesDict: Dict<int, Dict<int, Best>>)
    requires CurbInputsOk(sources, targets, lengths) && |nodesToConnect| == |sources|
    requires AllInRange(nodesToConnect, |targets|)
    ensures edgesDict == BuildTable(sources, targets, lengths, nodesToConnect, maxConn, |sources|).table
  {
    edgesDict := EmptyDict();
    ghost var offers: seq<Offer> := [];
    for sourceNode := 0 to |sources|
      invariant Built(edgesDict, offers) == BuildTable(sources, targets, lengths, nodesToConnect, maxConn, sourceNode)
    {
      BuildTableStep(sources, targets, lengths, nodesToConnect, maxConn, sourceNode);
      edgesDict, offers := OfferTargets(edgesDict, offers, sources, targets, lengths, sourceNode,
                                        nodesToConnect[sourceNode], maxConn);
    }
  }

  /**
   * `get_crossing_edges_from_curb_heights`: the table's edges, component by
   * component in first-insertion order, that cross a road.
   */
  method GetCrossingEdgesFromCurbHeights(sources: seq<Node>, targets: seq<Node>, dist: seq<seq<real>>,
                                         ord: seq<seq<int>>, lengths: seq<seq<real>>, roadHits: Edge -> seq<bool>,
                                         minDist: real, maxDist: real, maxConn: int)
    returns (edgesGeometriesFinal: seq<Edge>)
    requires SearchOk(sources, targets, dist, ord) && CurbInputsOk(sources, targets, lengths)
    ensures edgesGeometriesFinal ==
      CrossingRoad(FlattenTable(CurbTable(sources, targets, dist, ord, lengths, minDist, maxDist, maxConn).table), roadHits)
  {
    var nodesToConnect := NodesToConnect(MaskDiagonal(dist), ord, Between(minDist, maxDist));
    NodesInRange(sources, targets, dist, ord, Between(minDist, maxDist));
    var edgesDict := BuildEdgesDict(sources, targets, lengths, nodesToConnect, maxConn);
    var edgesGeometries := FlattenTable(edgesDict);
    edgesGeometriesFinal := CrossingRoad(edgesGeometries, roadHits);
  }

  // ---------------------------------------------------------------------------
  // connect_curb_crossing_edge

  /** What `connect_curb_crossing_edge` returns: None, an empty frame, a frame of edges, or an IndexError. */
  datatype CurbOutcome = NoneReturned | EmptyFrame | Frame(edges: seq<Edge>) | IndexError

  /** The shortest-path length used when the query raises (no path, unknown node). */
  const NoPathLength: real := 1000.0

  /** Network nodes closer than this along the network are not joined. */
  const MinNetworkGap: real := 20.0

  /** `sp_length`: the network distance, or the fallback when the query raises (None). */
  function SpLength(q: Option<real>): (r: real)
    ensures q.None? ==> r == NoPathLength
    ensures q.Some? ==> r == q.value
  {
    match q
    case Some(l) => l
    case None => NoPathLength
  }

  /**
   * `connect_curb_crossing_edge`: the two ends of a curb crossing are joined
   * to the network only when there are exactly two candidate edges whose
   * network nodes lie more than 20 apart along the network (or are not
   * connected at all). `shortestPath` stands for
   * `nx.shortest_path_length`, None when it raises.
   */
  function ConnectCurbCrossingEdge(sources: seq<Node>, targets: seq<Node>, dist: seq<seq<real>>, ord: seq<seq<int>>,
                                   maxDist: real, maxConn: int, shortestPath: (Point, Point) -> Option<real>,
                                   networkToNetwork: bool): (out: CurbOutcome)
    requires SearchOk(sources, targets, dist, ord)
    ensures var ntc := NodesToConnect(MaskDiagonal(dist), ord, Below(maxDist));
      var edges := UnconstrainedEdges(ntc, maxConn, |ntc|);
      && (out.NoneReturned? <==> |edges| != 2)
      && (|edges| == 2 ==>
            EdgesInRange(edges, |sources|, |targets|)
            && var p1, p2 := targets[edges[0].1].geometry, targets[edges[1].1].geometry;
            var sp := SpLength(shortestPath(p1, p2));
            && (out.EmptyFrame? <==> sp <= MinNetworkGap)
            && (out.IndexError? <==> sp > MinNetworkGap && !networkToNetwork && |sources| < 2)
            && (out.Frame? && networkToNetwork ==> out.edges == [Edge(p1, p2)])
            && (out.Frame? && !networkToNetwork ==>
                  out.edges == [EdgeOf(sources, targets, edges[0]), EdgeOf(sources, targets, edges[1]),
                                Edge(sources[0].geometry, sources[1].geometry)]))
  {
    var ntc := NodesToConnect(MaskDiagonal(dist), ord, Below(maxDist));
    NodesInRange(sources, targets, dist, ord, Below(maxDist));
    var edges := UnconstrainedEdges(ntc, maxConn, |ntc|);
    UnconstrainedInRange(ntc, maxConn, |ntc|, |targets|);
    if |edges| != 2 then NoneReturned
    else
      var p1, p2 := targets[edges[0].1].geometry, targets[edges[1].1].geometry;
      var spLength := SpLength(shortestPath(p1, p2));
      if spLength > MinNetworkGap then
        if networkToNetwork then Frame([Edge(p1, p2)])
        else if |sources| < 2 then IndexError
        else Frame([EdgeOf(sources, targets, edges[0]), EdgeOf(sources, targets, edges[1]),
                    Edge(sources[0].geometry, sources[1].geometry)])
      else EmptyFrame
  }

  /**
   * Two curb ends whose network nodes are not connected at all are always
   * joined (the fallback length 1000 exceeds 20), unless the source frame
   * has a single row and three edges are asked for.
   */
  lemma DisconnectedEndsJoined(sources: seq<Node>, targets: seq<Node>, dist: seq<seq<real>>, ord: seq<seq<int>>,
                               maxDist: real, maxConn: int, shortestPath: (Point, Point) -> Option<real>,
                               networkToNetwork: bool)
    requires SearchOk(sources, targets, dist, ord)
    requires var ntc := NodesToConnect(MaskDiagonal(dist), ord, Below(maxDist));
      var edges := UnconstrainedEdges(ntc, maxConn, |ntc|);
      |edges| == 2 && EdgesInRange(edges, |sources|, |targets|)
      && shortestPath(targets[edges[0].1].geometry, targets[edges[1].1].geometry).None?
    requires networkToNetwork || |sources| >= 2
    ensures ConnectCurbCrossingEdge(sources, targets, dist, ord, maxDist, maxConn, shortestPath, networkToNetwork).Frame?
  {
  }
}
