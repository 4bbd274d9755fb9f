/**
 * The Output class of the splitter (output.hpp, output.cpp): the options it
 * is configured with, its per-line split-and-write procedure, the dispatch
 * over line and multi-line features, the reading loop and the final commit.
 *
 * Calls into the output layer (CreateFeature, StartTransaction,
 * CommitTransaction, SyncToDisk) are recorded in the ghost event log `log`.
 * The methods SkipRing, WriteSplitParts, SplitLines and Run carry the
 * source's loops. SkipRing is proved against `PathLength`, WriteSplitParts
 * against `Walk` and `SplitWrites`; SplitLinestring, SplitLines,
 * SplitAndWriteFeature and Run against a function of the old state
 * (`LineOutcome`, `LinesOutcome`, `FeatureOutcome`, `RunOutcome`) giving the
 * new counter and the events appended to the log. WritePart, CountSplitWrite
 * and Finalize have no loop and state their new state directly.
 */
module OutputLayer {
  import opened Geo
  import opened Seqs
  import opened SplitWalk
  import opened Transactions

  /** The command-line configuration (struct Options). */
  datatype Options = Options(
    outputFilename: string,
    outputFormat: string,
    transactionSize: int,
    geographic: bool,
    minLength: real,
    maxLength: real,
    datasetCreationOptions: seq<string>,
    layerCreationOptions: seq<string>)

  /** The defaults of struct Options before any command-line option is applied. */
  function DefaultOptions(): (o: Options)
    ensures o.outputFormat == "ESRI Shapefile"
    ensures o.transactionSize == 1000
    ensures !o.geographic
    ensures o.minLength == 200.0 && o.maxLength == 2000.0
    ensures o.outputFilename == "" && o.datasetCreationOptions == [] && o.layerCreationOptions == []
  {
    Options("", "ESRI Shapefile", 1000, false, 200.0, 2000.0, [], [])
  }

  /** The geometry of an input feature. */
  datatype Geometry =
    | LineString(points: seq<Point>)
    | MultiLineString(lines: seq<seq<Point>>)
    | OtherGeometry(empty: bool)

  /** An input feature: its geometry and its attribute values. */
  datatype Feature = Feature(geometry: Geometry, fields: seq<Field>)

  /** OGRGeometry::IsEmpty: no vertex at all. */
  predicate IsEmpty(g: Geometry) {
    match g
    case LineString(points) => |points| == 0
    case MultiLineString(lines) => forall l :: l in lines ==> |l| == 0
    case OtherGeometry(empty) => empty
  }

  /**
   * Geometries on which the splitter terminates: Output::skip_ring loops
   * forever on a linestring without points, which a non-empty multi-line
   * may contain.
   */
  predicate Processable(g: Geometry) {
    g.MultiLineString? && !IsEmpty(g) ==> forall l :: l in g.lines ==> |l| >= 1
  }

  /** The Start issued at the head of every non-skipped line when the transaction size is 0. */
  function StartIfUnbatched(transactionSize: int): seq<Event> {
    if transactionSize == 0 then [Start] else []
  }

  /** The write of the trailing buffer, done only when it holds 2 or more points. */
  function TrailingWrite(fields: seq<Field>, buffer: seq<Point>): seq<Event> {
    if |buffer| > 1 then [Write(fields, buffer)] else []
  }

  /** Output::split_linestring on one line, starting from the counter value `count`. */
  function LineOutcome(opts: Options, d: Metric, count: int, fields: seq<Field>, line: seq<Point>): Outcome
    requires |line| >= 1
  {
    if ShouldSkip(d, opts.minLength, line) then Outcome(count, [])
    else
      var w := Walk(d, opts.maxLength, line);
      var o := SplitWrites(opts.transactionSize, count, fields, w.parts);
      Outcome(o.count, StartIfUnbatched(opts.transactionSize) + o.events + TrailingWrite(fields, w.buffer))
  }

  /** The component lines of a multi-line, processed in index order. */
  function LinesOutcome(opts: Options, d: Metric, count: int, fields: seq<Field>, lines: seq<seq<Point>>): Outcome
    requires forall l :: l in lines ==> |l| >= 1
    decreases |lines|
  {
    if |lines| == 0 then Outcome(count, [])
    else
      var o := LinesOutcome(opts, d, count, fields, lines[..|lines| - 1]);
      Then(o, LineOutcome(opts, d, o.count, fields, Last(lines)))
  }

  /** Output::split_and_write_feature. */
  function FeatureOutcome(opts: Options, d: Metric, count: int, f: Feature): Outcome
    requires Processable(f.geometry)
  {
    if IsEmpty(f.geometry) then Outcome(count, [])
    else
      match f.geometry
      case MultiLineString(lines) => LinesOutcome(opts, d, count, f.fields, lines)
      case LineString(points) => LineOutcome(opts, d, count, f.fields, points)
      case OtherGeometry(_) => Outcome(count, [])
  }

  /** Output::run: the features in reading order. */
  function RunOutcome(opts: Options, d: Metric, count: int, features: seq<Feature>): Outcome
    requires forall f :: f in features ==> Processable(f.geometry)
    decreases |features|
  {
    if |features| == 0 then Outcome(count, [])
    else
      var o := RunOutcome(opts, d, count, features[..|features| - 1]);
      Then(o, FeatureOutcome(opts, d, o.count, Last(features)))
  }

  /** Processing one more component of a multi-line. */
  lemma LinesOutcomeSnoc(opts: Options, d: Metric, count: int, fields: seq<Field>, lines: seq<seq<Point>>, i: nat)
    requires i < |lines| && forall l :: l in lines ==> |l| >= 1
    ensures LinesOutcome(opts, d, count, fields, lines[..i + 1])
         == Then(LinesOutcome(opts, d, count, fields, lines[..i]),
                 LineOutcome(opts, d, LinesOutcome(opts, d, count, fields, lines[..i]).count, fields, lines[i]))
  {
    assert lines[..i + 1][..i] == lines[..i];
  }

  /** Processing one more feature. */
  lemma RunOutcomeSnoc(opts: Options, d: Metric, count: int, features: seq<Feature>, i: nat)
    requires i < |features| && forall f :: f in features ==> Processable(f.geometry)
    ensures RunOutcome(opts, d, count, features[..i + 1])
         == Then(RunOutcome(opts, d, count, features[..i]),
                 FeatureOutcome(opts, d, RunOutcome(opts, d, count, features[..i]).count, features[i]))
  {
    assert features[..i + 1][..i] == features[..i];
  }

  class Output {
    /** The options, held by reference and never written. */
    const options: Options
    /** Distances are taken on the sphere; fixed at construction. */
    const geographicMode: bool
    /** Output::distance for this mode. */
    const dist: Metric
    /** Split-triggered writes since the last commit (m_transaction_count). */
    var transactionCount: int
    /** The calls made into the output layer so far. */
    ghost var log: seq<Event>

    ghost predicate Valid()
      reads this
    {
      CounterInRange(options.transactionSize, transactionCount)
    }

    /**
     * Output::Output without its data-source set-up: the mode is geographic
     * when the input's reference system is, or when the options force it.
     */
    constructor (inputIsGeographic: bool, options: Options, sqrt: real -> real)
      requires IsSqrt(sqrt)
      ensures this.options == options
      ensures geographicMode == (inputIsGeographic || options.geographic)
      ensures forall a, b :: dist(a, b) == Distance(sqrt, geographicMode, a, b)
      ensures IsMetric(dist)
      ensures transactionCount == 0 && log == []
      ensures Valid()
    {
      var geographic := inputIsGeographic || options.geographic;
      this.options := options;
      geographicMode := geographic;
      dist := (a, b) => Distance(sqrt, geographic, a, b);
      transactionCount := 0;
      log := [];
      new;
      DistanceIsMetric(sqrt, geographic);
    }

    /**
     * Output::skip_ring: a closed line of more than 5 points is kept;
     * any other line is dropped exactly when its length is below the minimum.
     */
    method SkipRing(line: seq<Point>) returns (skip: bool)
      requires |line| >= 1
      ensures IsClosed(line) && |line| > 5 ==> !skip
      ensures !(IsClosed(line) && |line| > 5) ==> (skip <==> PathLength(dist, line) < options.minLength)
    {
      if line[0] == line[|line| - 1] && |line| > 5 {
        return false;
      }
      var length := 0.0;
      var i := 1;
      while i != |line|
        invariant 1 <= i <= |line|
        invariant length == PathLength(dist, line[..i])
      {
        assert line[..i + 1][..i] == line[..i];
        length := length + dist(line[i - 1], line[i]);
        i := i + 1;
      }
      assert line[..i] == line;
      skip := length < options.minLength;
    }

    /**
     * Output::write_part: the buffer is written with the feature's fields,
     * then truncated to its last point.
     */
    method WritePart(fields: seq<Field>, buffer: seq<Point>) returns (rest: seq<Point>)
      requires |buffer| >= 1
      modifies this`log
      ensures log == old(log) + [Write(fields, buffer)]
      ensures rest == [Last(buffer)]
    {
      log := log + [Write(fields, buffer)];
      rest := [buffer[|buffer| - 1]];
    }

    /**
     * The counter update after a split-triggered write: once the counter
     * exceeds the transaction size, commit, start a new transaction and
     * reset the counter.
     */
    method CountSplitWrite()
      modifies this
      ensures var t := Tick(options.transactionSize, old(transactionCount));
              transactionCount == t.count && log == old(log) + t.events
    {
      transactionCount := transactionCount + 1;
      if transactionCount > options.transactionSize {
        log := log + [Commit, Start];
        transactionCount := 0;
      }
    }

    /**
     * The vertex loop of Output::split_linestring: accumulate edge lengths,
     * write the buffer whenever the length since the last cut exceeds the
     * maximum, and return the buffer left at the end.
     */
    method WriteSplitParts(fields: seq<Field>, line: seq<Point>) returns (buffer: seq<Point>)
      modifies this
      ensures var w := Walk(dist, options.maxLength, line);
              var o := SplitWrites(options.transactionSize, old(transactionCount), fields, w.parts);
              buffer == w.buffer && transactionCount == o.count && log == old(log) + o.events
    {
      var length := 0.0;
      buffer := [];
      ghost var parts: seq<seq<Point>> := [];
      var i := 0;
      while i != |line|
        invariant 0 <= i <= |line|
        invariant Walk(dist, options.maxLength, line[..i]) == WalkState(parts, buffer, length)
        invariant var o := SplitWrites(options.transactionSize, old(transactionCount), fields, parts);
                  transactionCount == o.count && log == old(log) + o.events
      {
        WalkSnoc(dist, options.maxLength, line, i);
        ghost var next := Step(options.maxLength, WalkState(parts, buffer, length),
                               if i > 0 then dist(line[i - 1], line[i]) else 0.0, line[i]);
        ghost var o := SplitWrites(options.transactionSize, old(transactionCount), fields, parts);
        if i > 0 {
          length := length + dist(line[i - 1], line[i]);
        }
        buffer := buffer + [line[i]];
        if length > options.maxLength {
          SplitWritesSnoc(options.transactionSize, old(transactionCount), fields, parts, buffer);
          ghost var t := Tick(options.transactionSize, o.count);
          ghost var written := [Write(fields, buffer)];
          parts := parts + [buffer];
          buffer := WritePart(fields, buffer);
          length := 0.0;
          CountSplitWrite();
          assert log == ((old(log) + o.events) + written) + t.events;
          Regroup(old(log), o.events, written, t.events);
        }
        assert WalkState(parts, buffer, length) == next;
        i := i + 1;
      }
      assert line[..i] == line;
    }

    /** Output::split_linestring. */
    method SplitLinestring(fields: seq<Field>, line: seq<Point>)
      requires Valid() && |line| >= 1
      modifies this
      ensures Valid()
      ensures var o := LineOutcome(options, dist, old(transactionCount), fields, line);
              transactionCount == o.count && log == old(log) + o.events
      ensures ShouldSkip(dist, options.minLength, line) ==> transactionCount == old(transactionCount) && log == old(log)
    {
      var skip := SkipRing(line);
      if skip {
        assert log == old(log) + [];
        return;
      }
      if options.transactionSize == 0 {
        log := log + [Start];
      }
      ghost var start := StartIfUnbatched(options.transactionSize);
      assert log == old(log) + start;
      var buffer := WriteSplitParts(fields, line);
      ghost var o := SplitWrites(options.transactionSize, old(transactionCount), fields, Walk(dist, options.maxLength, line).parts);
      ghost var trailing := TrailingWrite(fields, buffer);
      if |buffer| > 1 {
        buffer := WritePart(fields, buffer);
      }
      assert log == ((old(log) + start) + o.events) + trailing;
      Regroup(old(log), start, o.events, trailing);
      SplitWritesKeepRange(options.transactionSize, old(transactionCount), fields, Walk(dist, options.maxLength, line).parts);
    }

    /** The loop of Output::split_and_write_feature over the components of a multi-line, in index order. */
    method SplitLines(fields: seq<Field>, lines: seq<seq<Point>>)
      requires Valid() && forall l :: l in lines ==> |l| >= 1
      modifies this
      ensures Valid()
      ensures var o := LinesOutcome(options, dist, old(transactionCount), fields, lines);
              transactionCount == o.count && log == old(log) + o.events
    {
      var i := 0;
      while i != |lines|
        invariant 0 <= i <= |lines|
        invariant Valid()
        invariant var o := LinesOutcome(options, dist, old(transactionCount), fields, lines[..i]);
                  transactionCount == o.count && log == old(log) + o.events
      {
        ghost var done := LinesOutcome(options, dist, old(transactionCount), fields, lines[..i]);
        LinesOutcomeSnoc(options, dist, old(transactionCount), fields, lines, i);
        SplitLinestring(fields, lines[i]);
        Assoc(old(log), done.events, LineOutcome(options, dist, done.count, fields, lines[i]).events);
        i := i + 1;
      }
      assert lines[..i] == lines;
    }

    /** Output::split_and_write_feature. */
    method SplitAndWriteFeature(feature: Feature)
      requires Valid() && Processable(feature.geometry)
      modifies this
      ensures Valid()
      ensures var o := FeatureOutcome(options, dist, old(transactionCount), feature);
              transactionCount == o.count && log == old(log) + o.events
    {
      if IsEmpty(feature.geometry) {
        return;
      }
      match feature.geometry
      case MultiLineString(lines) =>
        SplitLines(feature.fields, lines);
      case LineString(points) =>
        SplitLinestring(feature.fields, points);
      case OtherGeometry(_) =>
    }

    /** Output::run: every feature of the input, in reading order. */
    method Run(features: seq<Feature>)
      requires Valid() && forall f :: f in features ==> Processable(f.geometry)
      modifies this
      ensures Valid()
      ensures var o := RunOutcome(options, dist, old(transactionCount), features);
              transactionCount == o.count && log == old(log) + o.events
    {
      var i := 0;
      while i != |features|
        invariant 0 <= i <= |features|
        invariant Valid()
        invariant var o := RunOutcome(options, dist, old(transactionCount), features[..i]);
                  transactionCount == o.count && log == old(log) + o.events
      {
        ghost var done := RunOutcome(options, dist, old(transactionCount), features[..i]);
        RunOutcomeSnoc(options, dist, old(transactionCount), features, i);
        SplitAndWriteFeature(features[i]);
        Assoc(old(log), done.events, FeatureOutcome(options, dist, done.count, features[i]).events);
        i := i + 1;
      }
      assert features[..i] == features;
    }

    /** Output::finalize: commit the open transaction, then flush to disk. */
    method Finalize()
      modifies this`log
      ensures log == old(log) + [Commit, Sync]
    {
      log := log + [Commit, Sync];
    }
  }
}
