/**
 * What the per-line, per-feature and per-run outcomes of the Output class
 * promise: the written segments are the pieces of the split walk, they glue
 * back to the input line, every write is a line of two or more points when
 * the maximum is non-negative, the counter stays in range, commits and
 * starts stay paired when the transaction size is not 0, and the run
 * processes features strictly one after the other.
 */
module OutputProperties {
  import opened Geo
  import opened Seqs
  import opened SplitWalk
  import opened Transactions
  import opened OutputLayer

  /** Every write in `events` holds at least two points. */
  ghost predicate WritesAreLines(events: seq<Event>) {
    forall e :: e in events && e.Write? ==> |e.points| >= 2
  }

  /** Any write in a log is one of its written segments. */
  lemma {:induction false} WriteInSegments(events: seq<Event>, e: Event)
    requires e in events && e.Write?
    ensures e.points in Segments(events)
    decreases |events|
  {
    var prefix := events[..|events| - 1];
    if e != Last(events) {
      assert events == prefix + [Last(events)];
      WriteInSegments(prefix, e);
    }
  }

  lemma WritesAreLinesConcat(a: seq<Event>, b: seq<Event>)
    requires WritesAreLines(a) && WritesAreLines(b)
    ensures WritesAreLines(a + b)
  {
  }

  // ---------------------------------------------------------------------
  // One line

  /**
   * The segments Output::split_linestring writes for a line are none when
   * the line is skipped and otherwise exactly the pieces of the split walk
   * (the split-triggered parts, then the trailing buffer when it has two or
   * more points), each written with the feature's fields.
   */
  lemma LineWrites(opts: Options, d: Metric, count: int, fields: seq<Field>, line: seq<Point>)
    requires |line| >= 1
    ensures var o := LineOutcome(opts, d, count, fields, line);
            && Segments(o.events) == (if ShouldSkip(d, opts.minLength, line) then [] else Emitted(d, opts.maxLength, line))
            && WritesCarry(o.events, fields)
  {
    if ShouldSkip(d, opts.minLength, line) {
      assert LineOutcome(opts, d, count, fields, line) == Outcome(count, []);
    } else {
      var w := Walk(d, opts.maxLength, line);
      var s := SplitWrites(opts.transactionSize, count, fields, w.parts);
      var start := StartIfUnbatched(opts.transactionSize);
      var trailing := TrailingWrite(fields, w.buffer);
      assert LineOutcome(opts, d, count, fields, line).events == start + s.events + trailing;
      SplitWritesWriteParts(opts.transactionSize, count, fields, w.parts);
      SegmentsConcat(start, s.events);
      SegmentsConcat(start + s.events, trailing);
      NoSegmentsInStart(opts.transactionSize);
      TrailingSegments(fields, w.buffer);
      assert Emitted(d, opts.maxLength, line) == w.parts + (if |w.buffer| > 1 then [w.buffer] else []);
      assert [] + w.parts == w.parts;
    }
  }

  /** The Start issued for an unbatched line writes no segment. */
  lemma NoSegmentsInStart(transactionSize: int)
    ensures Segments(StartIfUnbatched(transactionSize)) == []
  {
    if transactionSize == 0 {
      assert [Start][..0] == [];
    }
  }

  /** The trailing write writes the buffer when it has 2 or more points, and nothing otherwise. */
  lemma TrailingSegments(fields: seq<Field>, buffer: seq<Point>)
    ensures Segments(TrailingWrite(fields, buffer)) == (if |buffer| > 1 then [buffer] else [])
    ensures WritesCarry(TrailingWrite(fields, buffer), fields)
  {
    if |buffer| > 1 {
      assert [Write(fields, buffer)][..0] == [];
    }
  }

  /**
   * When a line of two or more points is kept and the maximum is
   * non-negative, its written segments have two or more points each, each
   * starts where the previous one ended, and glued together they give back
   * the line.
   */
  lemma LineSegmentsReconstructLine(opts: Options, d: Metric, count: int, fields: seq<Field>, line: seq<Point>)
    requires |line| >= 2 && opts.maxLength >= 0.0 && !ShouldSkip(d, opts.minLength, line)
    ensures var segs := Segments(LineOutcome(opts, d, count, fields, line).events);
            && |segs| >= 1
            && (forall s :: s in segs ==> |s| >= 2)
            && Chained(segs)
            && Glue(segs) == line
  {
    LineWrites(opts, d, count, fields, line);
    EmittedReconstructsLine(d, opts.maxLength, line);
  }

  /** With a non-negative maximum every write of a line holds two or more points. */
  lemma LineWritesAreLines(opts: Options, d: Metric, count: int, fields: seq<Field>, line: seq<Point>)
    requires |line| >= 1 && opts.maxLength >= 0.0
    ensures WritesAreLines(LineOutcome(opts, d, count, fields, line).events)
  {
    var events := LineOutcome(opts, d, count, fields, line).events;
    LineWrites(opts, d, count, fields, line);
    var w := Walk(d, opts.maxLength, line);
    WalkWithinMax(d, opts.maxLength, line);
    forall e | e in events && e.Write?
      ensures |e.points| >= 2
    {
      WriteInSegments(events, e);
    }
  }

  /** A line leaves the counter in range when it was in range before. */
  lemma LineKeepsRange(opts: Options, d: Metric, count: int, fields: seq<Field>, line: seq<Point>)
    requires |line| >= 1 && CounterInRange(opts.transactionSize, count)
    ensures CounterInRange(opts.transactionSize, LineOutcome(opts, d, count, fields, line).count)
  {
    if !ShouldSkip(d, opts.minLength, line) {
      SplitWritesKeepRange(opts.transactionSize, count, fields, Walk(d, opts.maxLength, line).parts);
    }
  }

  /**
   * With a transaction size of 0 every kept line opens with a Start, and
   * each of its split-triggered writes is followed by a commit, which
   * leaves the counter at 0.
   */
  lemma UnbatchedLine(opts: Options, d: Metric, count: int, fields: seq<Field>, line: seq<Point>)
    requires |line| >= 1 && opts.transactionSize == 0 && count >= 0
    requires !ShouldSkip(d, opts.minLength, line)
    ensures var o := LineOutcome(opts, d, count, fields, line);
            var parts := Walk(d, opts.maxLength, line).parts;
            && o.events[0] == Start
            && Commits(o.events) == |parts|
            && o.count == (if |parts| > 0 then 0 else count)
  {
    var w := Walk(d, opts.maxLength, line);
    var s := SplitWrites(opts.transactionSize, count, fields, w.parts);
    var trailing := TrailingWrite(fields, w.buffer);
    NonPositiveSizeCommitsEveryWrite(opts.transactionSize, count, fields, w.parts);
    var events := [Start] + s.events + trailing;
    assert multiset(events) == multiset([Start]) + multiset(s.events) + multiset(trailing);
  }

  /**
   * With a transaction size other than 0 a line issues no Start of its
   * own: commits and starts stay in adjacent pairs.
   */
  lemma BatchedLinePaired(opts: Options, d: Metric, count: int, fields: seq<Field>, line: seq<Point>)
    requires |line| >= 1 && opts.transactionSize != 0
    ensures CommitStartPaired(LineOutcome(opts, d, count, fields, line).events)
  {
    if ShouldSkip(d, opts.minLength, line) {
      assert LineOutcome(opts, d, count, fields, line) == Outcome(count, []);
    } else {
      var w := Walk(d, opts.maxLength, line);
      var s := SplitWrites(opts.transactionSize, count, fields, w.parts);
      var trailing := TrailingWrite(fields, w.buffer);
      assert StartIfUnbatched(opts.transactionSize) == [];
      assert LineOutcome(opts, d, count, fields, line).events == [] + s.events + trailing;
      assert [] + s.events + trailing == s.events + trailing;
      SplitWritesWriteParts(opts.transactionSize, count, fields, w.parts);
      TrailingPaired(fields, w.buffer);
      CommitStartPairedConcat(s.events, trailing);
    }
  }

  /** The trailing write holds no Commit and no Start. */
  lemma TrailingPaired(fields: seq<Field>, buffer: seq<Point>)
    ensures CommitStartPaired(TrailingWrite(fields, buffer))
  {
  }

  // ---------------------------------------------------------------------
  // Features

  /** An empty geometry, or one that is neither a line nor a multi-line, writes nothing. */
  lemma NothingWrittenForOtherGeometry(opts: Options, d: Metric, count: int, f: Feature)
    requires IsEmpty(f.geometry) || f.geometry.OtherGeometry?
    ensures FeatureOutcome(opts, d, count, f) == Outcome(count, [])
  {
  }

  /** A multi-line with a single component is processed like that component alone. */
  lemma SingleComponentMulti(opts: Options, d: Metric, count: int, fields: seq<Field>, line: seq<Point>)
    ensures FeatureOutcome(opts, d, count, Feature(MultiLineString([line]), fields))
         == FeatureOutcome(opts, d, count, Feature(LineString(line), fields))
  {
    assert line in [line];
    if |line| >= 1 {
      var o := LineOutcome(opts, d, count, fields, line);
      assert [line][..0] == [];
      assert LinesOutcome(opts, d, count, fields, [line]) == Then(Outcome(count, []), o);
      assert o.events == [] + o.events;
    }
  }

  /** Running two batches of components one after the other is running their concatenation. */
  lemma {:induction false} LinesConcat(opts: Options, d: Metric, count: int, fields: seq<Field>, a: seq<seq<Point>>, b: seq<seq<Point>>)
    requires forall l :: l in a ==> |l| >= 1
    requires forall l :: l in b ==> |l| >= 1
    ensures LinesOutcome(opts, d, count, fields, a + b)
         == Then(LinesOutcome(opts, d, count, fields, a), LinesOutcome(opts, d, LinesOutcome(opts, d, count, fields, a).count, fields, b))
    decreases |b|
  {
    var first := LinesOutcome(opts, d, count, fields, a);
    if |b| == 0 {
      assert a + b == a;
      ThenNothing(first);
    } else {
      var b' := b[..|b| - 1];
      assert (a + b)[..|a + b| - 1] == a + b';
      assert Last(a + b) == Last(b);
      LinesConcat(opts, d, count, fields, a, b');
      var rest := LinesOutcome(opts, d, first.count, fields, b');
      var next := LineOutcome(opts, d, rest.count, fields, Last(b));
      assert LinesOutcome(opts, d, count, fields, a + b) == Then(Then(first, rest), next);
      ThenAssoc(first, rest, next);
    }
  }

  /** The components of a multi-line leave the counter in range. */
  lemma {:induction false} LinesKeepRange(opts: Options, d: Metric, count: int, fields: seq<Field>, lines: seq<seq<Point>>)
    requires forall l :: l in lines ==> |l| >= 1
    requires CounterInRange(opts.transactionSize, count)
    ensures CounterInRange(opts.transactionSize, LinesOutcome(opts, d, count, fields, lines).count)
    decreases |lines|
  {
    if |lines| > 0 {
      var prefix := lines[..|lines| - 1];
      LinesKeepRange(opts, d, count, fields, prefix);
      LineKeepsRange(opts, d, LinesOutcome(opts, d, count, fields, prefix).count, fields, Last(lines));
    }
  }

  /** With a non-negative maximum every write of a multi-line holds two or more points. */
  lemma {:induction false} LinesWritesAreLines(opts: Options, d: Metric, count: int, fields: seq<Field>, lines: seq<seq<Point>>)
    requires forall l :: l in lines ==> |l| >= 1
    requires opts.maxLength >= 0.0
    ensures WritesAreLines(LinesOutcome(opts, d, count, fields, lines).events)
    decreases |lines|
  {
    if |lines| > 0 {
      var prefix := lines[..|lines| - 1];
      var o := LinesOutcome(opts, d, count, fields, prefix);
      LinesWritesAreLines(opts, d, count, fields, prefix);
      LineWritesAreLines(opts, d, o.count, fields, Last(lines));
      WritesAreLinesConcat(o.events, LineOutcome(opts, d, o.count, fields, Last(lines)).events);
    }
  }

  /** With a transaction size other than 0 the components of a multi-line keep commits and starts paired. */
  lemma {:induction false} BatchedLinesPaired(opts: Options, d: Metric, count: int, fields: seq<Field>, lines: seq<seq<Point>>)
    requires forall l :: l in lines ==> |l| >= 1
    requires opts.transactionSize != 0
    ensures CommitStartPaired(LinesOutcome(opts, d, count, fields, lines).events)
    decreases |lines|
  {
    if |lines| > 0 {
      var prefix := lines[..|lines| - 1];
      var o := LinesOutcome(opts, d, count, fields, prefix);
      BatchedLinesPaired(opts, d, count, fields, prefix);
      BatchedLinePaired(opts, d, o.count, fields, Last(lines));
      CommitStartPairedConcat(o.events, LineOutcome(opts, d, o.count, fields, Last(lines)).events);
    }
  }

  /** A feature leaves the counter in range. */
  lemma FeatureKeepsRange(opts: Options, d: Metric, count: int, f: Feature)
    requires Processable(f.geometry) && CounterInRange(opts.transactionSize, count)
    ensures CounterInRange(opts.transactionSize, FeatureOutcome(opts, d, count, f).count)
  {
    if !IsEmpty(f.geometry) {
      match f.geometry
      case MultiLineString(lines) => LinesKeepRange(opts, d, count, f.fields, lines);
      case LineString(points) => LineKeepsRange(opts, d, count, f.fields, points);
      case OtherGeometry(_) =>
    }
  }

  /** With a non-negative maximum every write of a feature holds two or more points. */
  lemma FeatureWritesAreLines(opts: Options, d: Metric, count: int, f: Feature)
    requires Processable(f.geometry) && opts.maxLength >= 0.0
    ensures WritesAreLines(FeatureOutcome(opts, d, count, f).events)
  {
    if !IsEmpty(f.geometry) {
      match f.geometry
      case MultiLineString(lines) => LinesWritesAreLines(opts, d, count, f.fields, lines);
      case LineString(points) => LineWritesAreLines(opts, d, count, f.fields, points);
      case OtherGeometry(_) =>
    }
  }

  /** With a transaction size other than 0 a feature keeps commits and starts paired. */
  lemma BatchedFeaturePaired(opts: Options, d: Metric, count: int, f: Feature)
    requires Processable(f.geometry) && opts.transactionSize != 0
    ensures CommitStartPaired(FeatureOutcome(opts, d, count, f).events)
  {
    if !IsEmpty(f.geometry) {
      match f.geometry
      case MultiLineString(lines) => BatchedLinesPaired(opts, d, count, f.fields, lines);
      case LineString(points) => BatchedLinePaired(opts, d, count, f.fields, points);
      case OtherGeometry(_) =>
    }
  }

  // ---------------------------------------------------------------------
  // The run

  /** Running two batches of features one after the other is running their concatenation. */
  lemma {:induction false} RunConcat(opts: Options, d: Metric, count: int, a: seq<Feature>, b: seq<Feature>)
    requires forall f :: f in a ==> Processable(f.geometry)
    requires forall f :: f in b ==> Processable(f.geometry)
    ensures RunOutcome(opts, d, count, a + b)
         == Then(RunOutcome(opts, d, count, a), RunOutcome(opts, d, RunOutcome(opts, d, count, a).count, b))
    decreases |b|
  {
    var first := RunOutcome(opts, d, count, a);
    if |b| == 0 {
      assert a + b == a;
      ThenNothing(first);
    } else {
      var b' := b[..|b| - 1];
      assert (a + b)[..|a + b| - 1] == a + b';
      assert Last(a + b) == Last(b);
      RunConcat(opts, d, count, a, b');
      var rest := RunOutcome(opts, d, first.count, b');
      var next := FeatureOutcome(opts, d, rest.count, Last(b));
      assert RunOutcome(opts, d, count, a + b) == Then(Then(first, rest), next);
      ThenAssoc(first, rest, next);
    }
  }

  /** The counter stays in range over a whole run. */
  lemma {:induction false} RunKeepsRange(opts: Options, d: Metric, count: int, features: seq<Feature>)
    requires forall f :: f in features ==> Processable(f.geometry)
    requires CounterInRange(opts.transactionSize, count)
    ensures CounterInRange(opts.transactionSize, RunOutcome(opts, d, count, features).count)
    decreases |features|
  {
    if |features| > 0 {
      var prefix := features[..|features| - 1];
      RunKeepsRange(opts, d, count, prefix);
      FeatureKeepsRange(opts, d, RunOutcome(opts, d, count, prefix).count, Last(features));
    }
  }

  /** With a non-negative maximum every write of a run holds two or more points. */
  lemma {:induction false} RunWritesAreLines(opts: Options, d: Metric, count: int, features: seq<Feature>)
    requires forall f :: f in features ==> Processable(f.geometry)
    requires opts.maxLength >= 0.0
    ensures WritesAreLines(RunOutcome(opts, d, count, features).events)
    decreases |features|
  {
    if |features| > 0 {
      var prefix := features[..|features| - 1];
      var o := RunOutcome(opts, d, count, prefix);
      RunWritesAreLines(opts, d, count, prefix);
      FeatureWritesAreLines(opts, d, o.count, Last(features));
      WritesAreLinesConcat(o.events, FeatureOutcome(opts, d, o.count, Last(features)).events);
    }
  }

  /**
   * With a transaction size other than 0 no Start is issued outside a
   * commit-start pair over a whole run: every commit opens the next
   * transaction, and nothing opens one before the first write, neither the
   * constructor nor the run.
   */
  lemma {:induction false} BatchedRunPaired(opts: Options, d: Metric, count: int, features: seq<Feature>)
    requires forall f :: f in features ==> Processable(f.geometry)
    requires opts.transactionSize != 0
    ensures CommitStartPaired(RunOutcome(opts, d, count, features).events)
    decreases |features|
  {
    if |features| > 0 {
      var prefix := features[..|features| - 1];
      var o := RunOutcome(opts, d, count, prefix);
      BatchedRunPaired(opts, d, count, prefix);
      BatchedFeaturePaired(opts, d, o.count, Last(features));
      CommitStartPairedConcat(o.events, FeatureOutcome(opts, d, o.count, Last(features)).events);
    }
  }

  /**
   * Re-splitting a written piece can drop it: the walk alone gives the piece
   * back (SplitWalk.ResplitIsIdentity), but `skip_ring` runs first, so with
   * the default options a trailing piece of 100 metres is written from the
   * line and then written not at all when split on its own.
   */
  lemma ResplitDropsShortPiece(d: Metric, count: int, fields: seq<Field>, v0: Point, v1: Point, v2: Point, v3: Point)
    requires d(v0, v1) == 1000.0 && d(v1, v2) == 1100.0 && d(v2, v3) == 100.0
    ensures !ShouldSkip(d, DefaultOptions().minLength, [v0, v1, v2, v3])
    ensures Emitted(d, DefaultOptions().maxLength, [v0, v1, v2, v3]) == [[v0, v1, v2], [v2, v3]]
    ensures LineOutcome(DefaultOptions(), d, count, fields, [v2, v3]) == Outcome(count, [])
  {
    var line := [v0, v1, v2, v3];
    assert line[..3] == [v0, v1, v2] && [v0, v1, v2][..2] == [v0, v1] && [v0, v1][..1] == [v0];
    assert PathLength(d, [v0, v1]) == 1000.0;
    assert PathLength(d, [v0, v1, v2]) == 2100.0;
    assert PathLength(d, line) == 2200.0;
    assert Walk(d, 2000.0, [v0]) == WalkState([], [v0], 0.0);
    assert Walk(d, 2000.0, [v0, v1]) == WalkState([], [v0, v1], 1000.0);
    assert EdgeBefore(d, [v0, v1, v2]) == 1100.0;
    assert [v0, v1] + [v2] == [v0, v1, v2];
    assert Step(2000.0, WalkState([], [v0, v1], 1000.0), 1100.0, v2) == WalkState([[v0, v1, v2]], [v2], 0.0);
    assert Walk(d, 2000.0, [v0, v1, v2]) == WalkState([[v0, v1, v2]], [v2], 0.0);
    assert EdgeBefore(d, line) == 100.0;
    assert [v2] + [v3] == [v2, v3];
    assert Walk(d, 2000.0, line) == WalkState([[v0, v1, v2]], [v2, v3], 100.0);
    assert [v2, v3][..1] == [v2];
    assert PathLength(d, [v2, v3]) == 100.0;
  }
}
