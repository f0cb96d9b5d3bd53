/** Exactly which logs a batching consumer recovers from, whatever crashes: a condition on the log and the
    table alone, not on what a run holds when it crashes. */
module BatchRecovery {
  import opened Options
  import opened Statements
  import opened BatchLog
  import opened BatchRuns

  /** Every run, with its crashes, flush failures and redeliveries, shows the row-at-a-time table whenever it
      has caught up. */
  ghost predicate AlwaysRecovers<K(!new), V(!new)>(log: seq<Message<K, V>>, db: map<K, Row<V>>) {
    forall states: seq<State<K, V>>, steps: seq<Step> ::
      IsRunFrom(log, Start(db), states, steps) && states[|steps|].pos == states[|steps|].high ==>
        ShowsPlainUpsert(log, db, states[|steps|])
  }

  /** Up to a malformed message no message changes the table. */
  ghost predicate MalformedIsHarmless<K, V>(log: seq<Message<K, V>>, db: map<K, Row<V>>) {
    forall j, b :: 0 <= b <= j < |log| && log[j].Malformed? ==> Reference(log, db, b) == db
  }

  // ---- Sufficient ------------------------------------------------------------------------------------------------

  /** The messages up to offset `quiet` leave the table alone, and behind it none is malformed. */
  ghost predicate QuietUntil<K, V>(log: seq<Message<K, V>>, db: map<K, Row<V>>, quiet: nat) {
    && quiet <= |log|
    && (forall b: nat :: b <= quiet ==> Reference(log, db, b) == db)
    && (forall i :: quiet <= i < |log| ==> log[i].Good?)
  }

  lemma {:induction false} LastMalformed<K, V>(log: seq<Message<K, V>>, n: nat) returns (quiet: nat)
    requires n <= |log|
    ensures quiet <= n
    ensures quiet > 0 ==> log[quiet - 1].Malformed?
    ensures forall i :: quiet <= i < n ==> log[i].Good?
  {
    if n == 0 || log[n - 1].Malformed? {
      quiet := n;
    } else {
      quiet := LastMalformed(log, n - 1);
    }
  }

  lemma HarmlessIsQuiet<K, V>(log: seq<Message<K, V>>, db: map<K, Row<V>>) returns (quiet: nat)
    requires MalformedIsHarmless(log, db)
    ensures QuietUntil(log, db, quiet)
  {
    quiet := LastMalformed(log, |log|);
    forall b: nat | b <= quiet
      ensures Reference(log, db, b) == db
    {
      if b < quiet {
        assert log[quiet - 1].Malformed?;
      } else if quiet > 0 {
        assert Reference(log, db, quiet - 1) == db;
        assert LogEntries(log, 0, quiet) == LogEntries(log, 0, quiet - 1) + EntriesOf(log[quiet - 1]);
        assert LogEntries(log, 0, quiet) == LogEntries(log, 0, quiet - 1);
      }
    }
  }

  /** No message between `quiet` and `high` carries the key. */
  ghost predicate Untouched<K, V>(log: seq<Message<K, V>>, quiet: nat, high: nat, k: K)
    requires high <= |log|
  {
    high <= quiet || !Occurs(log, quiet, high, k)
  }

  lemma UntouchedBefore<K, V>(log: seq<Message<K, V>>, quiet: nat, low: nat, high: nat, k: K)
    requires low <= high <= |log| && Untouched(log, quiet, high, k)
    ensures Untouched(log, quiet, low, k)
  {
    if quiet < low {
      OccursSplit(log, quiet, low, high, k);
    }
  }

  lemma UntouchedRow<K, V>(log: seq<Message<K, V>>, db: map<K, Row<V>>, quiet: nat, q: nat, k: K)
    requires QuietUntil(log, db, quiet) && q <= |log| && Untouched(log, quiet, q, k)
    ensures Get(Reference(log, db, q), k) == Get(db, k)
  {
    if q <= quiet {
      assert Reference(log, db, q) == db;
    } else {
      ReferenceAt(log, db, quiet, q, k);
      assert Reference(log, db, quiet) == db;
    }
  }

  /** The mark is ahead of the batch only within the quiet part, and the table still has its old rows for keys
      that only the quiet part carries. */
  ghost predicate StaysSafe<K(!new), V>(log: seq<Message<K, V>>, db: map<K, Row<V>>, quiet: nat, s: State<K, V>) {
    && BatchInvariant(log, s)
    && s.marked <= Max(s.start, quiet)
    && forall k :: Untouched(log, quiet, s.high, k) ==> Get(s.db, k) == Get(db, k)
  }

  /** A batched row of such a key is the row the table has. */
  lemma UntouchedBatchRow<K(!new), V>(log: seq<Message<K, V>>, db: map<K, Row<V>>, quiet: nat, s: State<K, V>, k: K)
    requires InOrder(log) && QuietUntil(log, db, quiet) && StaysSafe(log, db, quiet, s)
    requires k in s.batch && Untouched(log, quiet, s.high, k)
    ensures Some(RowOf(s.batch[k])) == Get(db, k) == Get(s.db, k)
  {
    BatchedRow(log, db, s, k);
    UntouchedBefore(log, quiet, s.pos, s.high, k);
    UntouchedRow(log, db, quiet, s.pos, k);
  }

  lemma StepStaysSafe<K(!new), V>(log: seq<Message<K, V>>, db: map<K, Row<V>>, quiet: nat, s: State<K, V>, step: Step)
    requires InOrder(log) && QuietUntil(log, db, quiet) && StaysSafe(log, db, quiet, s) && Enabled(log, s, step)
    ensures StaysSafe(log, db, quiet, Next(log, s, step))
  {
    StepKeepsBatch(log, s, step);
    var t := Next(log, s, step);
    forall k | Untouched(log, quiet, t.high, k)
      ensures Get(t.db, k) == Get(db, k)
    {
      UntouchedBefore(log, quiet, s.high, t.high, k);
      if k in s.batch {
        UntouchedBatchRow(log, db, quiet, s, k);
      }
    }
  }

  lemma {:induction false} SafeHolds<K(!new), V>(log: seq<Message<K, V>>, db: map<K, Row<V>>, quiet: nat,
                                                states: seq<State<K, V>>, steps: seq<Step>, n: nat)
    requires InOrder(log) && QuietUntil(log, db, quiet)
    requires IsRunFrom(log, Start(db), states, steps) && n <= |steps|
    ensures StaysSafe(log, db, quiet, states[n])
  {
    if n > 0 {
      SafeHolds(log, db, quiet, states, steps, n - 1);
      StepStaysSafe(log, db, quiet, states[n - 1], steps[n - 1]);
    } else {
      BatchInvariantHolds(log, db, states, steps, 0);
    }
  }

  lemma SafeRestartLosesNothing<K(!new), V>(log: seq<Message<K, V>>, db: map<K, Row<V>>, quiet: nat, s: State<K, V>, c: nat)
    requires InOrder(log) && QuietUntil(log, db, quiet) && StaysSafe(log, db, quiet, s) && c <= s.marked
    ensures !Loses(log, s, c)
  {
    if c <= s.start {
      EarlyRestartLosesNothing(log, s, c);
    } else {
      forall k | k in s.batch && !Occurs(log, c, s.high, k)
        ensures Get(s.db, k) == Some(RowOf(s.batch[k]))
      {
        if quiet < s.high {
          OccursSplit(log, c, quiet, s.high, k);
        }
        UntouchedBatchRow(log, db, quiet, s, k);
      }
    }
  }

  lemma HarmlessRecovers<K(!new), V(!new)>(log: seq<Message<K, V>>, db: map<K, Row<V>>)
    requires InOrder(log) && MalformedIsHarmless(log, db)
    ensures AlwaysRecovers(log, db)
  {
    var quiet := HarmlessIsQuiet(log, db);
    forall states: seq<State<K, V>>, steps: seq<Step> | IsRunFrom(log, Start(db), states, steps) && states[|steps|].pos == states[|steps|].high
      ensures ShowsPlainUpsert(log, db, states[|steps|])
    {
      forall i | 0 <= i < |steps| && steps[i].Restart?
        ensures Bounds(log, states[i]) && !Loses(log, states[i], steps[i].committed)
      {
        SafeHolds(log, db, quiet, states, steps, i);
        SafeRestartLosesNothing(log, db, quiet, states[i], steps[i].committed);
      }
      CrashRecoveryRefinesPlainUpsert(log, db, states, steps);
    }
  }

  // ---- Necessary -------------------------------------------------------------------------------------------------

  /** Receives b messages and flushes them. */
  lemma FlushedRun<K(!new), V>(log: seq<Message<K, V>>, db: map<K, Row<V>>, b: nat)
    returns (states: seq<State<K, V>>, steps: seq<Step>)
    requires b <= |log|
    ensures IsRunFrom(log, Start(db), states, steps)
    ensures BatchInvariant(log, states[|steps|])
    ensures states[|steps|].pos == states[|steps|].high == b && states[|steps|].batch == map[]
  {
    var s0: State<K, V> := Start(db);
    var head := seq(b, _ => Receive);
    var first := ReceiveMany(log, s0, b);
    var flushed := DoFlush(first[b], Commits);
    StepKeepsBatch(log, first[b], Flush(Commits));
    RunAppend(log, first, head, Flush(Commits), [flushed], []);
    states, steps := first + [flushed], head + [Flush(Commits)] + [];
  }

  /** The same, followed by the messages up to a malformed one at offset j and a crash: the table is still the
      one that was flushed, and everything received since is gone. */
  lemma CrashAfterMalformed<K(!new), V>(log: seq<Message<K, V>>, states: seq<State<K, V>>, steps: seq<Step>, j: nat)
    returns (all: seq<State<K, V>>, allSteps: seq<Step>)
    requires IsRun(log, states, steps) && BatchInvariant(log, states[|steps|])
    requires states[|steps|].pos == states[|steps|].high <= j < |log| && log[j].Malformed?
    ensures IsRunFrom(log, states[0], all, allSteps)
    ensures all[|allSteps|].pos == all[|allSteps|].high == j + 1 && all[|allSteps|].batch == map[]
    ensures all[|allSteps|].db == states[|steps|].db
  {
    var s := states[|steps|];
    var n := j - s.pos;
    var more := ReceiveMany(log, s, n);
    var before := more[n];
    var after := DoReceive(before, log[j]);
    var crashed := DoRestart(after, j + 1);
    var rest := seq(n, _ => Receive);
    RunAppend(log, more, rest, Receive, [after], []);
    RunAppend(log, more + [after], rest + [Receive] + [], Restart(j + 1), [crashed], []);
    all, allSteps := JoinRuns(log, states, steps, more + [after] + [crashed], rest + [Receive] + [] + [Restart(j + 1)] + []);
  }

  lemma JoinRuns<K, V>(log: seq<Message<K, V>>, a: seq<State<K, V>>, aSteps: seq<Step>, b: seq<State<K, V>>, bSteps: seq<Step>)
    returns (states: seq<State<K, V>>, steps: seq<Step>)
    requires IsRun(log, a, aSteps) && IsRun(log, b, bSteps) && b[0] == a[|aSteps|]
    ensures IsRunFrom(log, a[0], states, steps) && states[|steps|] == b[|bSteps|]
  {
    states, steps := a + b[1..], aSteps + bSteps;
    forall i | 0 <= i < |steps|
      ensures Enabled(log, states[i], steps[i]) && states[i + 1] == Next(log, states[i], steps[i])
    {
      if i < |aSteps| {
        assert steps[i] == aSteps[i] && states[i] == a[i] && states[i + 1] == a[i + 1];
      } else {
        var l := i - |aSteps|;
        assert steps[i] == bSteps[l] && states[i] == b[l] && states[i + 1] == b[l + 1];
      }
    }
  }

  lemma EmptyBatchView<K, V>(s: State<K, V>)
    requires s.batch == map[]
    ensures View(s) == s.db
  {
  }

  /** The flushed prefix b and the prefix that ends with the malformed message leave the same table. */
  lemma PrefixesAgree<K(!new), V(!new)>(log: seq<Message<K, V>>, db: map<K, Row<V>>, b: nat, j: nat)
    requires AlwaysRecovers(log, db) && b <= j < |log| && log[j].Malformed?
    ensures Reference(log, db, b) == Reference(log, db, j + 1)
  {
    var states, steps := FlushedRun(log, db, b);
    var all, allSteps := CrashAfterMalformed(log, states, steps, j);
    assert ShowsPlainUpsert(log, db, states[|steps|]);
    assert ShowsPlainUpsert(log, db, all[|allSteps|]);
    EmptyBatchView(states[|steps|]);
    EmptyBatchView(all[|allSteps|]);
  }

  lemma RecoveringIsHarmless<K(!new), V(!new)>(log: seq<Message<K, V>>, db: map<K, Row<V>>)
    requires AlwaysRecovers(log, db)
    ensures InOrder(log) && MalformedIsHarmless(log, db)
  {
    forall states: seq<State<K, V>>, steps: seq<Step> | IsRunFrom(log, Start(db), states, steps) && NoRestart(steps)
      ensures ShowsPlainUpsert(log, db, states[|steps|])
    {
      NoRestartIsCaughtUp(log, db, states, steps, |steps|);
    }
    EveryScheduleRefinesIffInOrder(log, db);
    forall j, b | 0 <= b <= j < |log| && log[j].Malformed?
      ensures Reference(log, db, b) == db
    {
      PrefixesAgree(log, db, b, j);
      PrefixesAgree(log, db, 0, j);
    }
  }

  /** Every run recovers, whatever crashes and wherever redelivery begins, if and only if the log is in order
      and no message up to a malformed one changes the table. */
  lemma AlwaysRecoversIff<K(!new), V(!new)>(log: seq<Message<K, V>>, db: map<K, Row<V>>)
    ensures AlwaysRecovers(log, db) <==> InOrder(log) && MalformedIsHarmless(log, db)
  {
    if InOrder(log) && MalformedIsHarmless(log, db) {
      HarmlessRecovers(log, db);
    }
    if AlwaysRecovers(log, db) {
      RecoveringIsHarmless(log, db);
    }
  }

  // ---- A tie within one message -----------------------------------------------------------------------------------

  /** Two entries of one key and one stamp: the batch keeps the first, the row-at-a-time upsert the last. */
  lemma TieDiffers<K, V>(e: Entry<K, V>, f: Entry<K, V>)
    requires e.key == f.key && e.time == f.time
    ensures AbsorbAll(map[], [e, f]) == map[e.key := e]
    ensures Newest([e, f], e.key) == Some(e) && Latest([e, f], e.key) == Some(f)
  {
    var es := [e, f];
    assert es[..1] == [e] && es[..1][..0] == [];
    assert AbsorbAll(map[], es[..1]) == map[e.key := e];
    assert Newest(es[..1], e.key) == Some(e);
  }

  /** A concrete log of one message with such a tie. */
  lemma TieInMessageDiffers()
    ensures var log := [Good([Entry(1, 7, 100), Entry(1, 8, 100)])];
            var s0: State<int, int> := Start(map[]);
            var s1 := DoReceive(s0, log[0]);
            && IsRunFrom(log, s0, [s0, s1], [Receive])
            && Get(View(s1), 1) == Some(Row(7, 100))
            && Get(Reference(log, map[], 1), 1) == Some(Row(8, 100))
            && !InOrder(log)
  {
    var e, f: Entry<int, int> := Entry(1, 7, 100), Entry(1, 8, 100);
    var log := [Good([e, f])];
    TieDiffers(e, f);
    SingleMessage(log, 0);
    PlainUpsertKeepsLatest(map[], [e, f], 1);
    assert EntriesOf(log[0]) == [e, f];
  }
}
