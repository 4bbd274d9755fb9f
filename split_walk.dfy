/**
 * The pure specification of the two per-line decisions of the splitter:
 * whether a linestring is dropped as a short ring (Output::skip_ring), and
 * where the vertex walk of Output::split_linestring cuts it.
 *
 * The walk is specified by `Walk`, which gives the state of the loop after
 * it has consumed a prefix of the vertices: the segments already emitted
 * because the accumulated length went over the maximum, the coordinate
 * buffer, and the accumulated length. `Emitted` adds the trailing write.
 * Lengths are exact reals; the distance is any `Metric`.
 */
module SplitWalk {
  import opened Geo
  import opened Seqs

  /** Sum of the distances between consecutive vertices, added up from the front. */
  function PathLength(d: Metric, pts: seq<Point>): real
    decreases |pts|
  {
    if |pts| <= 1 then 0.0
    else PathLength(d, pts[..|pts| - 1]) + d(pts[|pts| - 2], pts[|pts| - 1])
  }

  /** OGRCurve::get_IsClosed on a non-empty linestring: first and last vertex coincide. */
  predicate IsClosed(line: seq<Point>)
    requires |line| >= 1
  {
    line[0] == Last(line)
  }

  /** The decision of Output::skip_ring. */
  predicate ShouldSkip(d: Metric, minLength: real, line: seq<Point>)
    requires |line| >= 1
  {
    if IsClosed(line) && |line| > 5 then false
    else PathLength(d, line) < minLength
  }

  /** State of the split loop: emitted segments, coordinate buffer, accumulated length. */
  datatype WalkState = WalkState(parts: seq<seq<Point>>, buffer: seq<Point>, length: real)

  /**
   * The split loop of Output::split_linestring after it has consumed `pts`:
   * the length of the new edge is added, the vertex is pushed, and when the
   * length is strictly above `maxLength` the buffer is written and reset to
   * its last vertex with the length reset to 0.
   */
  function Walk(d: Metric, maxLength: real, pts: seq<Point>): WalkState
    decreases |pts|
  {
    if |pts| == 0 then WalkState([], [], 0.0)
    else Step(maxLength, Walk(d, maxLength, pts[..|pts| - 1]), EdgeBefore(d, pts), Last(pts))
  }

  /** The length of the edge that ends at the last vertex of `pts` (0 for the first vertex). */
  function EdgeBefore(d: Metric, pts: seq<Point>): real
    requires |pts| >= 1
  {
    if |pts| > 1 then d(pts[|pts| - 2], Last(pts)) else 0.0
  }

  /** One iteration of the split loop: add the edge, push the vertex, split when over the maximum. */
  function Step(maxLength: real, s: WalkState, edge: real, p: Point): WalkState {
    var length := s.length + edge;
    var buffer := s.buffer + [p];
    if length > maxLength then WalkState(s.parts + [buffer], [p], 0.0)
    else WalkState(s.parts, buffer, length)
  }

  /** All segments written for a non-skipped line: split-triggered ones, then the trailing buffer if it has 2 or more points. */
  function Emitted(d: Metric, maxLength: real, line: seq<Point>): seq<seq<Point>> {
    var w := Walk(d, maxLength, line);
    w.parts + (if |w.buffer| > 1 then [w.buffer] else [])
  }

  /** Each segment after the first starts with the last vertex of the one before. */
  ghost predicate Chained(segs: seq<seq<Point>>) {
    forall i, j :: 0 <= i && j == i + 1 && j < |segs| ==> Links(segs[i], segs[j])
  }

  /** `next` starts with the last vertex of `prev`. */
  predicate Links(prev: seq<Point>, next: seq<Point>) {
    |prev| >= 1 && |next| >= 1 && next[0] == Last(prev)
  }

  /** Concatenation of segments with the vertex shared by neighbours counted once. */
  function Glue(segs: seq<seq<Point>>): seq<Point>
    decreases |segs|
  {
    if |segs| == 0 then []
    else if |segs| == 1 then segs[0]
    else
      var s := Last(segs);
      Glue(segs[..|segs| - 1]) + (if |s| == 0 then [] else s[1..])
  }

  /** Consuming one more vertex of `line` is one `Step` with the edge from the vertex before. */
  lemma WalkSnoc(d: Metric, maxLength: real, line: seq<Point>, i: nat)
    requires i < |line|
    ensures Walk(d, maxLength, line[..i + 1])
         == Step(maxLength, Walk(d, maxLength, line[..i]), if i > 0 then d(line[i - 1], line[i]) else 0.0, line[i])
  {
    assert line[..i + 1][..i] == line[..i];
  }

  // ---------------------------------------------------------------------
  // Invariants of the walk

  /**
   * The accumulated length is the length of the buffer, and a walk over a
   * non-empty line ends with a non-empty buffer whose last vertex is the
   * last vertex consumed.
   */
  lemma {:induction false} WalkTracksBuffer(d: Metric, maxLength: real, pts: seq<Point>)
    ensures var w := Walk(d, maxLength, pts);
            && w.length == PathLength(d, w.buffer)
            && (|pts| == 0 <==> |w.buffer| == 0)
            && (|pts| >= 1 ==> Last(w.buffer) == Last(pts))
    decreases |pts|
  {
    if |pts| > 0 {
      var prefix := pts[..|pts| - 1];
      WalkTracksBuffer(d, maxLength, prefix);
      var s := Walk(d, maxLength, prefix);
      var e := EdgeBefore(d, pts);
      var p := Last(pts);
      var w := Walk(d, maxLength, pts);
      assert w == Step(maxLength, s, e, p);
      var b := s.buffer + [p];
      if s.length + e > maxLength {
        assert w.buffer == [p] && w.length == 0.0;
      } else {
        assert w.buffer == b && w.length == s.length + e;
        if |pts| == 1 {
          assert s == WalkState([], [], 0.0);
          assert b == [p];
        } else {
          assert b[..|b| - 1] == s.buffer;
          assert Last(s.buffer) == pts[|pts| - 2];
          assert PathLength(d, b) == PathLength(d, s.buffer) + d(pts[|pts| - 2], p);
        }
      }
    }
  }

  /** A split-triggered segment is strictly longer than the maximum. */
  lemma {:induction false} PartsExceedMax(d: Metric, maxLength: real, pts: seq<Point>)
    ensures forall p :: p in Walk(d, maxLength, pts).parts ==> PathLength(d, p) > maxLength
    decreases |pts|
  {
    if |pts| > 0 {
      var prefix := pts[..|pts| - 1];
      PartsExceedMax(d, maxLength, prefix);
      WalkTracksBuffer(d, maxLength, prefix);
      var s := Walk(d, maxLength, prefix);
      var e := EdgeBefore(d, pts);
      var b := s.buffer + [Last(pts)];
      var w := Walk(d, maxLength, pts);
      assert w == Step(maxLength, s, e, Last(pts));
      if s.length + e > maxLength {
        assert w.parts == s.parts + [b];
        if |pts| > 1 {
          assert b[..|b| - 1] == s.buffer;
          assert Last(s.buffer) == pts[|pts| - 2];
          assert PathLength(d, b) == PathLength(d, s.buffer) + e;
        } else {
          assert s == WalkState([], [], 0.0);
          assert PathLength(d, b) == 0.0 && e == 0.0;
        }
      } else {
        assert w.parts == s.parts;
      }
    }
  }

  /**
   * With a non-negative maximum: the accumulated length never exceeds it
   * between iterations, every split-triggered segment has at least two
   * vertices and, without its last edge, is at most the maximum long.
   */
  lemma {:induction false} WalkWithinMax(d: Metric, maxLength: real, pts: seq<Point>)
    requires maxLength >= 0.0
    ensures var w := Walk(d, maxLength, pts);
            && w.length <= maxLength
            && forall p :: p in w.parts ==> |p| >= 2 && PathLength(d, p[..|p| - 1]) <= maxLength
    decreases |pts|
  {
    if |pts| > 0 {
      var prefix := pts[..|pts| - 1];
      WalkWithinMax(d, maxLength, prefix);
      WalkTracksBuffer(d, maxLength, prefix);
      var s := Walk(d, maxLength, prefix);
      var e := EdgeBefore(d, pts);
      var b := s.buffer + [Last(pts)];
      var w := Walk(d, maxLength, pts);
      assert w == Step(maxLength, s, e, Last(pts));
      if s.length + e > maxLength {
        assert w.parts == s.parts + [b] && w.length == 0.0;
        assert b[..|b| - 1] == s.buffer;
        assert PathLength(d, b[..|b| - 1]) <= maxLength;
      } else {
        assert w.parts == s.parts && w.length == s.length + e;
      }
    }
  }

  /** Gluing one more segment appends all but its first vertex. */
  lemma GlueSnoc(segs: seq<seq<Point>>, s: seq<Point>)
    requires |segs| >= 1 && |s| >= 1
    ensures Glue(segs + [s]) == Glue(segs) + s[1..]
  {
    assert (segs + [s])[..|segs|] == segs;
  }

  /** Appending a segment that starts where the last one ended keeps the chain. */
  lemma ChainedSnoc(segs: seq<seq<Point>>, s: seq<Point>)
    requires Chained(segs)
    requires |segs| >= 1 ==> Links(Last(segs), s)
    ensures Chained(segs + [s])
  {
    var t := segs + [s];
    forall i, j | 0 <= i && j == i + 1 && j < |t|
      ensures Links(t[i], t[j])
    {
      if j < |segs| {
        assert t[i] == segs[i] && t[j] == segs[j];
      } else {
        assert t[i] == Last(segs) && t[j] == s;
      }
    }
  }

  /**
   * The walk state `w` accounts for exactly the vertices `pts`: chained
   * segments of at least two vertices followed by a non-empty buffer that
   * starts where the last segment ends, glued together give back `pts`.
   */
  ghost predicate Covers(w: WalkState, pts: seq<Point>) {
    && |w.buffer| >= 1
    && Chained(w.parts)
    && (forall p :: p in w.parts ==> |p| >= 2)
    && (w.parts == [] ==> w.buffer == pts)
    && (w.parts != [] ==> Links(Last(w.parts), w.buffer) && Glue(w.parts) + w.buffer[1..] == pts)
  }

  /** Gluing the segments with the buffer extended by one vertex as the last segment. */
  lemma GlueCut(parts: seq<seq<Point>>, buffer: seq<Point>, prefix: seq<Point>, p: Point)
    requires |buffer| >= 1
    requires parts == [] ==> buffer == prefix
    requires parts != [] ==> Glue(parts) + buffer[1..] == prefix
    ensures Glue(parts + [buffer + [p]]) == prefix + [p]
  {
    var b := buffer + [p];
    assert b[1..] == buffer[1..] + [p];
    if parts == [] {
      assert parts + [b] == [b];
    } else {
      GlueSnoc(parts, b);
      Assoc(Glue(parts), buffer[1..], [p]);
    }
  }

  /** Appending a segment of at least two vertices keeps every segment that long. */
  lemma LongSegmentsSnoc(parts: seq<seq<Point>>, b: seq<Point>)
    requires (forall q :: q in parts ==> |q| >= 2) && |b| >= 2
    ensures forall q :: q in parts + [b] ==> |q| >= 2
  {
    assert forall q :: q in parts + [b] ==> q in parts || q == b;
  }

  /** Cutting after one more vertex keeps the covering. */
  lemma CoversCut(s: WalkState, prefix: seq<Point>, p: Point, length: real)
    requires Covers(s, prefix)
    ensures Covers(WalkState(s.parts + [s.buffer + [p]], [p], length), prefix + [p])
  {
    var b := s.buffer + [p];
    var w := WalkState(s.parts + [b], [p], length);
    assert b[0] == s.buffer[0] && Last(b) == p;
    ChainedSnoc(s.parts, b);
    assert Chained(w.parts);
    LongSegmentsSnoc(s.parts, b);
    assert forall q :: q in w.parts ==> |q| >= 2;
    assert Last(w.parts) == b;
    assert Links(Last(w.parts), w.buffer);
    GlueCut(s.parts, s.buffer, prefix, p);
    assert w.buffer[1..] == [];
    assert Glue(w.parts) + w.buffer[1..] == prefix + [p];
  }

  /** Pushing one more vertex without a cut keeps the covering. */
  lemma CoversExtend(s: WalkState, prefix: seq<Point>, p: Point, length: real)
    requires Covers(s, prefix)
    ensures Covers(WalkState(s.parts, s.buffer + [p], length), prefix + [p])
  {
    var b := s.buffer + [p];
    assert b[0] == s.buffer[0];
    assert b[1..] == s.buffer[1..] + [p];
    if s.parts != [] {
      assert Glue(s.parts) + b[1..] == (Glue(s.parts) + s.buffer[1..]) + [p];
    }
  }

  /** One step of the walk keeps the covering, for any edge length. */
  lemma CoversStep(maxLength: real, s: WalkState, prefix: seq<Point>, edge: real, p: Point)
    requires Covers(s, prefix)
    ensures Covers(Step(maxLength, s, edge, p), prefix + [p])
  {
    if s.length + edge > maxLength {
      assert Step(maxLength, s, edge, p) == WalkState(s.parts + [s.buffer + [p]], [p], 0.0);
      CoversCut(s, prefix, p, 0.0);
    } else {
      assert Step(maxLength, s, edge, p) == WalkState(s.parts, s.buffer + [p], s.length + edge);
      CoversExtend(s, prefix, p, s.length + edge);
    }
  }

  /**
   * With a non-negative maximum, the walk loses and invents no vertex: the
   * emitted segments and the buffer, glued at their shared vertices, give
   * back exactly the vertices consumed.
   */
  lemma {:induction false} WalkCovers(d: Metric, maxLength: real, pts: seq<Point>)
    requires maxLength >= 0.0 && |pts| >= 1
    ensures Covers(Walk(d, maxLength, pts), pts)
    decreases |pts|
  {
    var prefix := pts[..|pts| - 1];
    var s := Walk(d, maxLength, prefix);
    var p := Last(pts);
    assert pts == prefix + [p];
    if |pts| == 1 {
      assert s == WalkState([], [], 0.0);
      assert Walk(d, maxLength, pts) == WalkState([], [p], 0.0);
    } else {
      WalkCovers(d, maxLength, prefix);
      CoversStep(maxLength, s, prefix, EdgeBefore(d, pts), p);
    }
  }

  // ---------------------------------------------------------------------
  // Properties of the emitted segments

  /**
   * Each split-triggered segment is longer than the maximum; with a
   * non-negative maximum it has at least two vertices, dropping its last
   * edge leaves a length of at most the maximum, and the trailing buffer is
   * at most the maximum long.
   */
  lemma SegmentLengthBounds(d: Metric, maxLength: real, line: seq<Point>)
    ensures forall p :: p in Walk(d, maxLength, line).parts ==> PathLength(d, p) > maxLength
    ensures maxLength >= 0.0 ==>
              && PathLength(d, Walk(d, maxLength, line).buffer) <= maxLength
              && forall p :: p in Walk(d, maxLength, line).parts ==>
                   |p| >= 2 && PathLength(d, p[..|p| - 1]) <= maxLength
  {
    PartsExceedMax(d, maxLength, line);
    WalkTracksBuffer(d, maxLength, line);
    if maxLength >= 0.0 {
      WalkWithinMax(d, maxLength, line);
    }
  }

  /**
   * With a non-negative maximum, a line longer than the maximum is always
   * cut at least once, whether or not it is a closed ring.
   */
  lemma LongLineIsCut(d: Metric, maxLength: real, line: seq<Point>)
    requires maxLength >= 0.0 && |line| >= 1 && PathLength(d, line) > maxLength
    ensures |Walk(d, maxLength, line).parts| >= 1
  {
    WalkCovers(d, maxLength, line);
    WalkTracksBuffer(d, maxLength, line);
    WalkWithinMax(d, maxLength, line);
  }

  /**
   * With a non-negative maximum and a line of at least two vertices, every
   * emitted segment has at least two vertices, each starts where the one
   * before ended, and gluing them gives back the line exactly.
   */
  lemma EmittedReconstructsLine(d: Metric, maxLength: real, line: seq<Point>)
    requires maxLength >= 0.0 && |line| >= 2
    ensures var segs := Emitted(d, maxLength, line);
            && |segs| >= 1
            && (forall s :: s in segs ==> |s| >= 2)
            && Chained(segs)
            && Glue(segs) == line
  {
    WalkCovers(d, maxLength, line);
    var w := Walk(d, maxLength, line);
    if |w.buffer| > 1 {
      var segs := w.parts + [w.buffer];
      assert Emitted(d, maxLength, line) == segs;
      LongSegmentsSnoc(w.parts, w.buffer);
      if w.parts != [] {
        GlueSnoc(w.parts, w.buffer);
      } else {
        assert segs == [w.buffer];
      }
      assert Glue(segs) == line;
      ChainedSnoc(w.parts, w.buffer);
    } else {
      assert w.parts != [];
      assert w.buffer[1..] == [];
      assert Emitted(d, maxLength, line) == w.parts;
    }
  }

  /** A trailing 1-vertex buffer is never written: every emitted segment is a split-triggered one or a buffer of 2 or more vertices. */
  lemma TrailingSingletonDropped(d: Metric, maxLength: real, line: seq<Point>)
    requires |Walk(d, maxLength, line).buffer| == 1
    ensures Emitted(d, maxLength, line) == Walk(d, maxLength, line).parts
  {
  }

  /** Path length of a prefix never exceeds that of the whole, for a non-negative metric. */
  lemma {:induction false} PathLengthMonotone(d: Metric, pts: seq<Point>, k: nat)
    requires IsMetric(d) && k <= |pts|
    ensures 0.0 <= PathLength(d, pts[..k]) <= PathLength(d, pts)
    decreases |pts|
  {
    if |pts| > 1 {
      var prefix := pts[..|pts| - 1];
      if k < |pts| {
        PathLengthMonotone(d, prefix, k);
        assert prefix[..k] == pts[..k];
      } else {
        assert pts[..k] == pts;
        PathLengthMonotone(d, prefix, |prefix|);
        assert prefix[..|prefix|] == prefix;
      }
    } else {
      assert PathLength(d, pts[..k]) == 0.0;
    }
  }

  /** A line no longer than the maximum is consumed without any split. */
  lemma {:induction false} NoSplitWhenShort(d: Metric, maxLength: real, pts: seq<Point>)
    requires IsMetric(d) && PathLength(d, pts) <= maxLength
    ensures Walk(d, maxLength, pts) == WalkState([], pts, PathLength(d, pts))
    decreases |pts|
  {
    if |pts| > 0 {
      var prefix := pts[..|pts| - 1];
      PathLengthMonotone(d, pts, |pts| - 1);
      NoSplitWhenShort(d, maxLength, prefix);
      NoSplitStep(d, maxLength, pts);
    }
  }

  /** A vertex that keeps the whole line within the maximum does not cause a cut. */
  lemma NoSplitStep(d: Metric, maxLength: real, pts: seq<Point>)
    requires |pts| >= 1 && PathLength(d, pts) <= maxLength
    requires var prefix := pts[..|pts| - 1];
             Walk(d, maxLength, prefix) == WalkState([], prefix, PathLength(d, prefix))
    ensures Walk(d, maxLength, pts) == WalkState([], pts, PathLength(d, pts))
  {
    var prefix := pts[..|pts| - 1];
    var s := Walk(d, maxLength, prefix);
    var e := EdgeBefore(d, pts);
    assert Walk(d, maxLength, pts) == Step(maxLength, s, e, Last(pts));
    assert PathLength(d, pts) == PathLength(d, prefix) + e;
    PrefixSnocLast(pts);
  }

  /** A line of at least two vertices and total length at most the maximum is written as one segment, the whole line. */
  lemma ShortLineIsOneSegment(d: Metric, maxLength: real, line: seq<Point>)
    requires IsMetric(d) && |line| >= 2 && PathLength(d, line) <= maxLength
    ensures Emitted(d, maxLength, line) == [line]
  {
    NoSplitWhenShort(d, maxLength, line);
  }

  /**
   * Splitting is idempotent: with a non-negative metric and maximum, running
   * the walk again on any emitted segment emits that segment unchanged.
   */
  lemma ResplitIsIdentity(d: Metric, maxLength: real, line: seq<Point>, seg: seq<Point>)
    requires IsMetric(d) && maxLength >= 0.0
    requires seg in Emitted(d, maxLength, line)
    ensures Emitted(d, maxLength, seg) == [seg]
  {
    SegmentLengthBounds(d, maxLength, line);
    var w := Walk(d, maxLength, line);
    if seg in w.parts {
      NoSplitWhenShort(d, maxLength, seg[..|seg| - 1]);
      SplitPieceResplit(d, maxLength, seg);
    } else {
      assert seg == w.buffer && |seg| > 1;
      ShortLineIsOneSegment(d, maxLength, seg);
    }
  }

  /**
   * A piece whose walk up to its last vertex makes no cut, and which is
   * longer than the maximum with that vertex, is cut exactly at its end,
   * so it is emitted whole.
   */
  lemma SplitPieceResplit(d: Metric, maxLength: real, seg: seq<Point>)
    requires |seg| >= 2 && maxLength < PathLength(d, seg)
    requires var prefix := seg[..|seg| - 1];
             Walk(d, maxLength, prefix) == WalkState([], prefix, PathLength(d, prefix))
    ensures Emitted(d, maxLength, seg) == [seg]
  {
    var prefix := seg[..|seg| - 1];
    var s := Walk(d, maxLength, prefix);
    var e := EdgeBefore(d, seg);
    assert Walk(d, maxLength, seg) == Step(maxLength, s, e, Last(seg));
    assert PathLength(d, seg) == PathLength(d, prefix) + e;
    PrefixSnocLast(seg);
    assert Walk(d, maxLength, seg) == WalkState([seg], [Last(seg)], 0.0);
    assert Emitted(d, maxLength, seg) == [seg] + [];
  }

  /**
   * The worked example: vertices at cumulative distances 0, 1000, 2100 and
   * 2500 with a maximum of 2000 are written as [v0, v1, v2] (split-triggered,
   * 2100 > 2000) and then [v2, v3] (trailing).
   */
  lemma WorkedExample(d: Metric, v0: Point, v1: Point, v2: Point, v3: Point)
    requires d(v0, v1) == 1000.0 && d(v1, v2) == 1100.0 && d(v2, v3) == 400.0
    ensures Walk(d, 2000.0, [v0, v1, v2, v3]) == WalkState([[v0, v1, v2]], [v2, v3], 400.0)
    ensures Emitted(d, 2000.0, [v0, v1, v2, v3]) == [[v0, v1, v2], [v2, v3]]
  {
    assert [v0, v1, v2, v3][..3] == [v0, v1, v2];
    assert [v0, v1, v2][..2] == [v0, v1];
    assert [v0, v1][..1] == [v0];
    assert [v0][..0] == [];
    assert Walk(d, 2000.0, [v0]) == WalkState([], [v0], 0.0);
    assert Walk(d, 2000.0, [v0, v1]) == WalkState([], [v0, v1], 1000.0);
    assert EdgeBefore(d, [v0, v1, v2]) == 1100.0;
    assert [v0, v1] + [v2] == [v0, v1, v2];
    assert Step(2000.0, WalkState([], [v0, v1], 1000.0), 1100.0, v2) == WalkState([[v0, v1, v2]], [v2], 0.0);
    assert Walk(d, 2000.0, [v0, v1, v2]) == WalkState([[v0, v1, v2]], [v2], 0.0);
    assert EdgeBefore(d, [v0, v1, v2, v3]) == 400.0;
    assert [v2] + [v3] == [v2, v3];
  }
}
