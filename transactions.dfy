/**
 * What the splitter asks of the output layer, as a log of events, and the
 * process-wide transaction counter of Output::split_linestring
 * (m_transaction_count): it is bumped after each split-triggered write and,
 * once it exceeds the transaction size, the open transaction is committed,
 * a new one is started and the counter goes back to 0.
 */
module Transactions {
  import opened Geo
  import opened Seqs

  /** An attribute value copied from the input feature to each written part. */
  datatype Field = IntegerField(i: int) | RealField(r: real) | StringField(s: string) | NullField

  /** A call into the output layer. */
  datatype Event =
    | Write(fields: seq<Field>, points: seq<Point>)  // CreateFeature of one part
    | Start                                          // StartTransaction
    | Commit                                         // CommitTransaction
    | Sync                                           // SyncToDisk

  /** The counter after some calls, and the events those calls issued. */
  datatype Outcome = Outcome(count: int, events: seq<Event>)

  /** The counter update after one split-triggered write (output.cpp, lines 119-124). */
  function Tick(transactionSize: int, count: int): Outcome {
    if count + 1 > transactionSize then Outcome(0, [Commit, Start])
    else Outcome(count + 1, [])
  }

  /** The events of writing the split-triggered parts in order, each followed by its counter update. */
  function SplitWrites(transactionSize: int, count: int, fields: seq<Field>, parts: seq<seq<Point>>): Outcome
    decreases |parts|
  {
    if |parts| == 0 then Outcome(count, [])
    else WriteAndTick(transactionSize, SplitWrites(transactionSize, count, fields, parts[..|parts| - 1]), fields, Last(parts))
  }

  /** One split-triggered write (output.cpp, line 116) followed by its counter update. */
  function WriteAndTick(transactionSize: int, o: Outcome, fields: seq<Field>, part: seq<Point>): Outcome {
    var t := Tick(transactionSize, o.count);
    Outcome(t.count, o.events + [Write(fields, part)] + t.events)
  }

  /** `first`, then `next` started from the counter `first` left. */
  function Then(first: Outcome, next: Outcome): Outcome {
    Outcome(next.count, first.events + next.events)
  }

  /** Sequencing outcomes is associative. */
  lemma ThenAssoc(x: Outcome, y: Outcome, z: Outcome)
    ensures Then(Then(x, y), z) == Then(x, Then(y, z))
  {
    assert (x.events + y.events) + z.events == x.events + (y.events + z.events);
  }

  /** Following an outcome by nothing leaves it unchanged. */
  lemma ThenNothing(x: Outcome)
    ensures Then(x, Outcome(x.count, [])) == x
  {
    assert x.events + [] == x.events;
  }

  /** Writing one more split-triggered part is one `WriteAndTick`. */
  lemma SplitWritesSnoc(transactionSize: int, count: int, fields: seq<Field>, parts: seq<seq<Point>>, part: seq<Point>)
    ensures SplitWrites(transactionSize, count, fields, parts + [part])
         == WriteAndTick(transactionSize, SplitWrites(transactionSize, count, fields, parts), fields, part)
  {
    assert (parts + [part])[..|parts|] == parts;
  }

  /** The point sequences written, in order. */
  function Segments(events: seq<Event>): seq<seq<Point>>
    decreases |events|
  {
    if |events| == 0 then []
    else
      var e := events[|events| - 1];
      Segments(events[..|events| - 1]) + (if e.Write? then [e.points] else [])
  }

  /** Every write carries `fields`. */
  ghost predicate WritesCarry(events: seq<Event>, fields: seq<Field>) {
    forall e :: e in events && e.Write? ==> e.fields == fields
  }

  /** The number of commits. */
  function Commits(events: seq<Event>): nat {
    multiset(events)[Commit]
  }

  /**
   * Commits and starts come in adjacent pairs: an event is a Commit exactly
   * when the next one is a Start, the log does not begin with a Start and
   * does not end with a Commit.
   */
  ghost predicate CommitStartPaired(events: seq<Event>) {
    && (|events| >= 1 ==> events[0] != Start && events[|events| - 1] != Commit)
    && forall i, j :: 0 <= i && j == i + 1 && j < |events| ==> (events[i] == Commit <==> events[j] == Start)
  }

  /** The counter is in 0..transactionSize, or 0 when the size is negative. */
  predicate CounterInRange(transactionSize: int, count: int) {
    0 <= count && (count <= transactionSize || count == 0)
  }

  // ---------------------------------------------------------------------
  // Lemmas

  lemma {:induction false} SegmentsConcat(a: seq<Event>, b: seq<Event>)
    ensures Segments(a + b) == Segments(a) + Segments(b)
    decreases |b|
  {
    if |b| > 0 {
      var b' := b[..|b| - 1];
      assert (a + b)[..|a + b| - 1] == a + b';
      SegmentsConcat(a, b');
    } else {
      assert a + b == a;
    }
  }

  lemma CommitStartPairedConcat(a: seq<Event>, b: seq<Event>)
    requires CommitStartPaired(a) && CommitStartPaired(b)
    ensures CommitStartPaired(a + b)
  {
    var c := a + b;
    forall i, j | 0 <= i && j == i + 1 && j < |c|
      ensures c[i] == Commit <==> c[j] == Start
    {
      if j < |a| {
        assert c[i] == a[i] && c[j] == a[j];
      } else if i >= |a| {
        assert c[i] == b[i - |a|] && c[j] == b[j - |a|];
      } else {
        assert c[i] == a[|a| - 1] && c[j] == b[0];
      }
    }
  }

  /**
   * The writes of the split-triggered parts are the parts themselves, in
   * order and with the feature's fields; commits and starts come in pairs.
   */
  lemma {:induction false} SplitWritesWriteParts(transactionSize: int, count: int, fields: seq<Field>, parts: seq<seq<Point>>)
    ensures var o := SplitWrites(transactionSize, count, fields, parts);
            && Segments(o.events) == parts
            && WritesCarry(o.events, fields)
            && CommitStartPaired(o.events)
    decreases |parts|
  {
    if |parts| > 0 {
      var prefix := parts[..|parts| - 1];
      SplitWritesWriteParts(transactionSize, count, fields, prefix);
      WriteAndTickStep(transactionSize, SplitWrites(transactionSize, count, fields, prefix), fields, Last(parts));
      assert prefix + [Last(parts)] == parts;
    }
  }

  /** One write and counter update appends the part to the written segments and keeps commits and starts paired. */
  lemma WriteAndTickStep(transactionSize: int, o: Outcome, fields: seq<Field>, part: seq<Point>)
    ensures var o' := WriteAndTick(transactionSize, o, fields, part);
            && Segments(o'.events) == Segments(o.events) + [part]
            && (WritesCarry(o.events, fields) ==> WritesCarry(o'.events, fields))
            && (CommitStartPaired(o.events) ==> CommitStartPaired(o'.events))
  {
    var t := Tick(transactionSize, o.count);
    var w := [Write(fields, part)];
    SegmentsConcat(o.events + w, t.events);
    SegmentsConcat(o.events, w);
    assert Segments(w) == [part] by {
      assert w[..0] == [];
    }
    assert Segments(t.events) == [] by {
      if t.events != [] {
        assert t.events[..1] == [Commit];
        assert t.events[..1][..0] == [];
      }
    }
    if CommitStartPaired(o.events) {
      CommitStartPairedConcat(o.events, w);
      CommitStartPairedConcat(o.events + w, t.events);
    }
  }

  /**
   * With a non-negative transaction size and the counter in range, after k
   * split-triggered writes the counter is again in range, and the number of
   * commits and the new counter are the quotient and remainder of
   * (old counter + k) by (size + 1): a commit happens exactly at every
   * (size + 1)-th write.
   */
  lemma {:induction false} CounterClosedForm(transactionSize: int, count: int, fields: seq<Field>, parts: seq<seq<Point>>)
    requires 0 <= transactionSize && 0 <= count <= transactionSize
    ensures var o := SplitWrites(transactionSize, count, fields, parts);
            && 0 <= o.count <= transactionSize
            && count + |parts| == (transactionSize + 1) * Commits(o.events) + o.count
    decreases |parts|
  {
    if |parts| > 0 {
      var prefix := parts[..|parts| - 1];
      CounterClosedForm(transactionSize, count, fields, prefix);
      var o := SplitWrites(transactionSize, count, fields, prefix);
      var o' := WriteAndTick(transactionSize, o, fields, Last(parts));
      assert o' == SplitWrites(transactionSize, count, fields, parts);
      WriteAndTickCommits(transactionSize, o, fields, Last(parts));
      var n, c, c' := count + |prefix|, Commits(o.events), Commits(o'.events);
      assert n == (transactionSize + 1) * c + o.count;
      ClosedFormStep(transactionSize + 1, n, c, o.count, c', o'.count);
      assert count + |parts| == (transactionSize + 1) * c' + o'.count;
    } else {
      assert SplitWrites(transactionSize, count, fields, parts) == Outcome(count, []);
      assert Commits([]) == 0;
    }
  }

  /** Arithmetic of one counter step: quotient and remainder by m after one more write. */
  lemma ClosedFormStep(m: int, n: int, c: int, r: int, c': int, r': int)
    requires n == m * c + r
    requires (r == m - 1 && c' == c + 1 && r' == 0) || (r < m - 1 && c' == c && r' == r + 1)
    ensures n + 1 == m * c' + r'
  {
    if r == m - 1 {
      assert m * c' == m * c + m;
    }
  }

  /** One write and counter update commits exactly when the counter was at the transaction size. */
  lemma WriteAndTickCommits(transactionSize: int, o: Outcome, fields: seq<Field>, part: seq<Point>)
    requires 0 <= o.count <= transactionSize
    ensures var o' := WriteAndTick(transactionSize, o, fields, part);
            && (o.count == transactionSize ==> o'.count == 0 && Commits(o'.events) == Commits(o.events) + 1)
            && (o.count < transactionSize ==> o'.count == o.count + 1 && Commits(o'.events) == Commits(o.events))
  {
    var t := Tick(transactionSize, o.count);
    var events := o.events + [Write(fields, part)] + t.events;
    assert multiset(events) == multiset(o.events) + multiset([Write(fields, part)]) + multiset(t.events);
  }

  /**
   * With a transaction size of 0 or less, every split-triggered write is
   * followed by a commit and a start, and the counter is 0 after any write.
   */
  lemma {:induction false} NonPositiveSizeCommitsEveryWrite(transactionSize: int, count: int, fields: seq<Field>, parts: seq<seq<Point>>)
    requires transactionSize <= 0 <= count
    ensures var o := SplitWrites(transactionSize, count, fields, parts);
            && Commits(o.events) == |parts|
            && (|parts| > 0 ==> o.count == 0)
            && (|parts| == 0 ==> o.count == count)
    decreases |parts|
  {
    if |parts| > 0 {
      var prefix := parts[..|parts| - 1];
      NonPositiveSizeCommitsEveryWrite(transactionSize, count, fields, prefix);
      var o := SplitWrites(transactionSize, count, fields, prefix);
      var t := Tick(transactionSize, o.count);
      var events := o.events + [Write(fields, Last(parts))] + t.events;
      assert t.events == [Commit, Start];
      assert multiset(events)[Commit] == Commits(o.events) + 1;
    }
  }

  /** The counter stays in range over any number of split-triggered writes. */
  lemma SplitWritesKeepRange(transactionSize: int, count: int, fields: seq<Field>, parts: seq<seq<Point>>)
    requires CounterInRange(transactionSize, count)
    ensures CounterInRange(transactionSize, SplitWrites(transactionSize, count, fields, parts).count)
  {
    if transactionSize >= 0 {
      CounterClosedForm(transactionSize, count, fields, parts);
    } else {
      NonPositiveSizeCommitsEveryWrite(transactionSize, count, fields, parts);
    }
  }

  /**
   * The batching example: with a transaction size of 2 and a fresh counter,
   * five split-triggered writes commit once, right after the third write,
   * and leave the counter at 2.
   */
  lemma FiveWritesWithSizeTwo(fields: seq<Field>, s1: seq<Point>, s2: seq<Point>, s3: seq<Point>, s4: seq<Point>, s5: seq<Point>)
    ensures SplitWrites(2, 0, fields, [s1, s2, s3, s4, s5])
         == Outcome(2, [Write(fields, s1), Write(fields, s2), Write(fields, s3), Commit, Start,
                        Write(fields, s4), Write(fields, s5)])
  {
    var f := fields;
    assert [s1, s2, s3, s4, s5][..4] == [s1, s2, s3, s4];
    assert [s1, s2, s3, s4][..3] == [s1, s2, s3];
    assert [s1, s2, s3][..2] == [s1, s2];
    assert [s1, s2][..1] == [s1];
    assert [s1][..0] == [];
    assert SplitWrites(2, 0, f, [s1]) == Outcome(1, [Write(f, s1)]);
    assert SplitWrites(2, 0, f, [s1, s2]) == Outcome(2, [Write(f, s1), Write(f, s2)]);
    assert SplitWrites(2, 0, f, [s1, s2, s3])
        == Outcome(0, [Write(f, s1), Write(f, s2), Write(f, s3), Commit, Start]);
    assert SplitWrites(2, 0, f, [s1, s2, s3, s4])
        == Outcome(1, [Write(f, s1), Write(f, s2), Write(f, s3), Commit, Start, Write(f, s4)]);
  }
}
