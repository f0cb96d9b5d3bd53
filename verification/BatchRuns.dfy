/** The batching consumer of one log partition as a state machine: receiving, flushing with every
    outcome the database can have, crashing, and being redelivered the log from a committed offset. */
module BatchRuns {
  import opened Options
  import opened Statements
  import opened BatchLog

  /** A successful flush, remembered for the accounting theorems: it wrote `rows`, the winners among the
      entries of messages lo, .., hi - 1. */
  datatype Write<K, V> = Write(lo: nat, hi: nat, rows: map<K, Entry<K, V>>)

  /** `pos` is the next offset to receive, `marked` the offset redelivery may start from at the latest.
      The last three components are history: `start` is where the current batch begins, `high` the
      highest offset ever reached, `writes` the flushes the database has accepted. */
  datatype State<K, V> = State(
    pos: nat,
    batch: map<K, Entry<K, V>>,
    lastMsg: Option<nat>,
    marked: nat,
    db: map<K, Row<V>>,
    start: nat,
    high: nat,
    writes: seq<Write<K, V>>)

  /** A crash, a rebalance and a fresh start are all Restart: memory is lost and delivery begins at a
      committed offset. */
  datatype Step = Receive | Flush(outcome: Outcome) | Restart(committed: nat)

  function Start<K, V>(db: map<K, Row<V>>): State<K, V> {
    State(0, map[], None, 0, db, 0, 0, [])
  }

  function Max(a: nat, b: nat): nat {
    if a < b then b else a
  }

  /** What the flush statement writes. */
  function RowsOf<K, V>(batch: map<K, Entry<K, V>>): map<K, Row<V>> {
    map k | k in batch :: RowOf(batch[k])
  }

  predicate Enabled<K, V>(log: seq<Message<K, V>>, s: State<K, V>, step: Step) {
    match step
    case Receive => s.pos < |log|
    case Flush(_) => true
    case Restart(c) => c <= s.marked
  }

  function DoReceive<K, V>(s: State<K, V>, m: Message<K, V>): State<K, V> {
    var t := s.(pos := s.pos + 1, high := Max(s.high, s.pos + 1));
    match m
    case Malformed => t.(marked := Max(s.marked, s.pos + 1))
    case Good(entries) => t.(batch := AbsorbAll(s.batch, entries), lastMsg := Some(s.pos))
  }

  function Written<K, V>(s: State<K, V>): State<K, V> {
    s.(db := s.db + RowsOf(s.batch), writes := s.writes + [Write(s.start, s.pos, s.batch)])
  }

  function DoFlush<K, V>(s: State<K, V>, outcome: Outcome): State<K, V> {
    if s.batch == map[] then s
    else match outcome
      case Fails => s
      case CommitsUnseen => Written(s)
      case Commits =>
        var upTo := if s.lastMsg.Some? then s.lastMsg.value + 1 else 0;
        Written(s).(batch := map[], lastMsg := None, marked := Max(s.marked, upTo), start := s.pos)
  }

  function DoRestart<K, V>(s: State<K, V>, c: nat): State<K, V> {
    s.(pos := c, batch := map[], lastMsg := None, marked := c, start := c)
  }

  function Next<K, V>(log: seq<Message<K, V>>, s: State<K, V>, step: Step): State<K, V>
    requires Enabled(log, s, step)
  {
    match step
    case Receive => DoReceive(s, log[s.pos])
    case Flush(o) => DoFlush(s, o)
    case Restart(c) => DoRestart(s, c)
  }

  /** Runs: every interleaving of enabled steps, as the states reached after each of them. */
  ghost predicate IsRun<K, V>(log: seq<Message<K, V>>, states: seq<State<K, V>>, steps: seq<Step>) {
    && |states| == |steps| + 1
    && forall i :: 0 <= i < |steps| ==> Enabled(log, states[i], steps[i]) && states[i + 1] == Next(log, states[i], steps[i])
  }

  ghost predicate IsRunFrom<K, V>(log: seq<Message<K, V>>, s: State<K, V>, states: seq<State<K, V>>, steps: seq<Step>) {
    IsRun(log, states, steps) && states[0] == s
  }

  ghost predicate NoRestart(steps: seq<Step>) {
    forall i :: 0 <= i < |steps| ==> !steps[i].Restart?
  }

  /** The database with the in-memory batch laid over it. */
  function View<K, V>(s: State<K, V>): map<K, Row<V>> {
    s.db + RowsOf(s.batch)
  }

  /** The view is the row-at-a-time upsert of everything up to the high-water mark. */
  ghost predicate ShowsPlainUpsert<K, V>(log: seq<Message<K, V>>, db: map<K, Row<V>>, s: State<K, V>) {
    s.high <= |log| && View(s) == Reference(log, db, s.high)
  }

  lemma ViewAt<K, V>(s: State<K, V>, k: K)
    ensures Get(View(s), k) == if k in s.batch then Some(RowOf(s.batch[k])) else Get(s.db, k)
  {
  }

  // ---- The batch representation -----------------------------------------------------------------------

  ghost predicate Bounds<K, V>(log: seq<Message<K, V>>, s: State<K, V>) {
    s.start <= s.pos <= s.high <= |log| && s.marked <= s.pos
  }

  /** Every map value sits under its own key and is the first entry of maximal timestamp since the last
      successful flush; a non-empty batch remembers the last good message it has seen. */
  ghost predicate BatchInvariant<K(!new), V>(log: seq<Message<K, V>>, s: State<K, V>) {
    && Bounds(log, s)
    && HoldsNewest(s.batch, LogEntries(log, s.start, s.pos))
    && (forall k :: k in s.batch ==> s.batch[k].key == k)
    && (s.lastMsg.Some? ==> s.lastMsg.value < s.pos)
    && (s.batch != map[] ==> s.lastMsg.Some? && LastGood(log, s.lastMsg.value, s.pos))
  }

  ghost predicate LastGood<K, V>(log: seq<Message<K, V>>, i: nat, pos: nat)
    requires pos <= |log|
  {
    i < pos && log[i].Good? && forall j :: i < j < pos ==> log[j].Malformed?
  }

  lemma ReceiveKeepsBatch<K(!new), V>(log: seq<Message<K, V>>, s: State<K, V>)
    requires BatchInvariant(log, s) && s.pos < |log|
    ensures BatchInvariant(log, DoReceive(s, log[s.pos]))
  {
    var t, m := DoReceive(s, log[s.pos]), log[s.pos];
    var seen := LogEntries(log, s.start, s.pos);
    assert LogEntries(log, s.start, s.pos + 1) == seen + EntriesOf(m);
    AbsorbAllHoldsNewest(s.batch, seen, EntriesOf(m));
    assert t.batch == AbsorbAll(s.batch, EntriesOf(m));
    forall k | k in t.batch
      ensures t.batch[k].key == k
    {
      NewestKey(seen + EntriesOf(m), k);
      assert Get(t.batch, k) == Newest(seen + EntriesOf(m), k);
    }
  }

  lemma StepKeepsBatch<K(!new), V>(log: seq<Message<K, V>>, s: State<K, V>, step: Step)
    requires BatchInvariant(log, s) && Enabled(log, s, step)
    ensures BatchInvariant(log, Next(log, s, step))
  {
    if step.Receive? {
      ReceiveKeepsBatch(log, s);
    }
  }

  /** The batch representation holds in every reachable state of every run on every log. */
  lemma {:induction false} BatchInvariantHolds<K(!new), V>(log: seq<Message<K, V>>, db: map<K, Row<V>>,
                                                          states: seq<State<K, V>>, steps: seq<Step>, n: nat)
    requires IsRunFrom(log, Start(db), states, steps) && n <= |steps|
    ensures BatchInvariant(log, states[n])
  {
    if n > 0 {
      BatchInvariantHolds(log, db, states, steps, n - 1);
      StepKeepsBatch(log, states[n - 1], steps[n - 1]);
    }
  }

  // ---- Where the mark is -----------------------------------------------------------------------------------------

  /** Behind the last good message only malformed ones have been read, and each of those was marked. */
  ghost predicate TailIsMarked<K, V>(s: State<K, V>) {
    s.lastMsg.Some? && s.lastMsg.value + 1 < s.pos ==> s.marked == s.pos
  }

  lemma StepKeepsTailMarked<K(!new), V>(log: seq<Message<K, V>>, s: State<K, V>, step: Step)
    requires BatchInvariant(log, s) && TailIsMarked(s) && Enabled(log, s, step)
    ensures TailIsMarked(Next(log, s, step))
  {
  }

  lemma {:induction false} TailIsMarkedHolds<K(!new), V>(log: seq<Message<K, V>>, db: map<K, Row<V>>,
                                                        states: seq<State<K, V>>, steps: seq<Step>, n: nat)
    requires IsRunFrom(log, Start(db), states, steps) && n <= |steps|
    ensures BatchInvariant(log, states[n]) && TailIsMarked(states[n])
  {
    BatchInvariantHolds(log, db, states, steps, n);
    if n > 0 {
      TailIsMarkedHolds(log, db, states, steps, n - 1);
      StepKeepsTailMarked(log, states[n - 1], steps[n - 1]);
    }
  }

  /** What a flush that the consumer sees committed does to the mark. */
  lemma CommittedFlushMarks<K(!new), V>(log: seq<Message<K, V>>, s: State<K, V>)
    requires BatchInvariant(log, s) && TailIsMarked(s) && s.batch != map[]
    ensures DoFlush(s, Commits).marked == s.pos && DoFlush(s, Commits).batch == map[]
  {
  }

  /** In every run a committed flush of a non-empty batch marks everything that has been received, and a failed
      or unseen one moves the mark not at all. */
  lemma FlushMarksAllReceived<K(!new), V>(log: seq<Message<K, V>>, db: map<K, Row<V>>,
                                         states: seq<State<K, V>>, steps: seq<Step>, n: nat)
    requires IsRunFrom(log, Start(db), states, steps) && n < |steps| && steps[n].Flush?
    ensures states[n + 1].marked ==
            if steps[n] == Flush(Commits) && states[n].batch != map[] then states[n].pos else states[n].marked
    ensures states[n + 1].pos == states[n].pos
  {
    TailIsMarkedHolds(log, db, states, steps, n);
    if steps[n] == Flush(Commits) && states[n].batch != map[] {
      CommittedFlushMarks(log, states[n]);
    }
  }

  /** Receiving moves the mark exactly when the message does not decode, and then to just past it. */
  lemma ReceiveMarksMalformedOnly<K(!new), V>(log: seq<Message<K, V>>, db: map<K, Row<V>>,
                                             states: seq<State<K, V>>, steps: seq<Step>, n: nat)
    requires IsRunFrom(log, Start(db), states, steps) && n < |steps| && steps[n].Receive?
    ensures states[n].pos < |log| && states[n + 1].pos == states[n].pos + 1
    ensures states[n + 1].marked == if log[states[n].pos].Malformed? then states[n].pos + 1 else states[n].marked
  {
    BatchInvariantHolds(log, db, states, steps, n);
  }

  // ---- Recovery: the table is the row-at-a-time table ------------------------------------------------------

  /** Every key that re-reading up to the high-water mark will not touch already has its final row. */
  ghost predicate Recoverable<K(!new), V>(log: seq<Message<K, V>>, db: map<K, Row<V>>, s: State<K, V>)
    requires Bounds(log, s)
  {
    forall k :: !Occurs(log, s.start, s.high, k) ==> Get(s.db, k) == Get(Reference(log, db, s.high), k)
  }

  /** Restarting at `c` loses a buffered entry: its row is not in the database, and no message from `c`
      up to the high-water mark carries its key. */
  ghost predicate Loses<K, V>(log: seq<Message<K, V>>, s: State<K, V>, c: nat)
    requires Bounds(log, s) && c <= s.marked
  {
    exists k :: k in s.batch && !Occurs(log, c, s.high, k) && Get(s.db, k) != Some(RowOf(s.batch[k]))
  }

  /** What a batch holds under a key is the key's row in the reference at the current position. */
  lemma BatchedRow<K(!new), V>(log: seq<Message<K, V>>, db: map<K, Row<V>>, s: State<K, V>, k: K)
    requires InOrder(log) && BatchInvariant(log, s)
    ensures k in s.batch <==> Occurs(log, s.start, s.pos, k)
    ensures k in s.batch ==> Get(Reference(log, db, s.pos), k) == Some(RowOf(s.batch[k]))
  {
    var w := LogEntries(log, s.start, s.pos);
    assert Get(s.batch, k) == Newest(w, k);
    OccursInBoth(w, k);
    WindowAgrees(log, s.start, s.pos, k);
    ReferenceAt(log, db, s.start, s.pos, k);
  }

  lemma ReceiveKeepsRecoverable<K(!new), V>(log: seq<Message<K, V>>, db: map<K, Row<V>>, s: State<K, V>)
    requires BatchInvariant(log, s) && s.pos < |log|
    requires Recoverable(log, db, s)
    ensures BatchInvariant(log, DoReceive(s, log[s.pos]))
    ensures Recoverable(log, db, DoReceive(s, log[s.pos]))
  {
    ReceiveKeepsBatch(log, s);
    var t := DoReceive(s, log[s.pos]);
    forall k | !Occurs(log, t.start, t.high, k)
      ensures Get(t.db, k) == Get(Reference(log, db, t.high), k)
    {
      OccursSplit(log, s.start, s.high, t.high, k);
      ReferenceAt(log, db, s.high, t.high, k);
    }
  }

  lemma FlushKeepsRecoverable<K(!new), V>(log: seq<Message<K, V>>, db: map<K, Row<V>>, s: State<K, V>, o: Outcome)
    requires InOrder(log) && BatchInvariant(log, s)
    requires Recoverable(log, db, s)
    ensures Bounds(log, DoFlush(s, o))
    ensures Recoverable(log, db, DoFlush(s, o))
  {
    var t := DoFlush(s, o);
    forall k | !Occurs(log, t.start, t.high, k)
      ensures Get(t.db, k) == Get(Reference(log, db, t.high), k)
    {
      OccursSplit(log, s.start, s.pos, s.high, k);
      BatchedRow(log, db, s, k);
      ReferenceAt(log, db, s.pos, s.high, k);
    }
  }

  /** A restart keeps the state recoverable exactly when it loses no entry. */
  lemma RestartRecoverableIff<K(!new), V>(log: seq<Message<K, V>>, db: map<K, Row<V>>, s: State<K, V>, c: nat)
    requires InOrder(log) && BatchInvariant(log, s) && c <= s.marked
    requires Recoverable(log, db, s)
    ensures Bounds(log, DoRestart(s, c))
    ensures Recoverable(log, db, DoRestart(s, c)) <==> !Loses(log, s, c)
  {
    forall k | !Occurs(log, c, s.high, k)
      ensures k in s.batch ==> Get(Reference(log, db, s.high), k) == Some(RowOf(s.batch[k]))
      ensures k !in s.batch ==> Get(s.db, k) == Get(Reference(log, db, s.high), k)
    {
      BatchedRow(log, db, s, k);
      OccursSplit(log, c, s.pos, s.high, k);
      OccursSplit(log, s.start, s.pos, s.high, k);
      ReferenceAt(log, db, s.pos, s.high, k);
    }
  }

  /** Once everything up to the high-water mark has been re-read, being recoverable is the same as showing
      the row-at-a-time table. */
  lemma CaughtUpIff<K(!new), V>(log: seq<Message<K, V>>, db: map<K, Row<V>>, s: State<K, V>)
    requires InOrder(log) && BatchInvariant(log, s) && s.pos == s.high
    ensures Recoverable(log, db, s) <==> View(s) == Reference(log, db, s.high)
  {
    forall k
      ensures Get(View(s), k) == if k in s.batch then Get(Reference(log, db, s.high), k) else Get(s.db, k)
      ensures k in s.batch <==> Occurs(log, s.start, s.high, k)
    {
      ViewAt(s, k);
      BatchedRow(log, db, s, k);
    }
    if Recoverable(log, db, s) {
      MapsEqual(View(s), Reference(log, db, s.high));
    }
  }

  /** No restart of the run loses an entry. */
  ghost predicate Lossless<K(!new), V>(log: seq<Message<K, V>>, states: seq<State<K, V>>, steps: seq<Step>)
    requires IsRun(log, states, steps)
  {
    forall i :: 0 <= i < |steps| && steps[i].Restart? && Bounds(log, states[i]) ==>
                  !Loses(log, states[i], steps[i].committed)
  }

  lemma {:induction false} RecoverableHolds<K(!new), V>(log: seq<Message<K, V>>, db: map<K, Row<V>>,
                                                       states: seq<State<K, V>>, steps: seq<Step>, n: nat)
    requires InOrder(log)
    requires IsRunFrom(log, Start(db), states, steps) && n <= |steps|
    requires Lossless(log, states, steps)
    ensures BatchInvariant(log, states[n]) && Recoverable(log, db, states[n])
  {
    BatchInvariantHolds(log, db, states, steps, n);
    if n > 0 {
      RecoverableHolds(log, db, states, steps, n - 1);
      RecoverableStep(log, db, states[n - 1], steps[n - 1]);
    }
  }

  lemma RecoverableStep<K(!new), V>(log: seq<Message<K, V>>, db: map<K, Row<V>>, s: State<K, V>, step: Step)
    requires InOrder(log) && BatchInvariant(log, s) && Recoverable(log, db, s)
    requires Enabled(log, s, step)
    requires step.Restart? ==> !Loses(log, s, step.committed)
    ensures Bounds(log, Next(log, s, step)) && Recoverable(log, db, Next(log, s, step))
  {
    match step
    case Receive => ReceiveKeepsRecoverable(log, db, s);
    case Flush(o) => FlushKeepsRecoverable(log, db, s, o);
    case Restart(c) => RestartRecoverableIff(log, db, s, c);
  }

  /** Main result: on an ordered log, malformed messages included, over every interleaving in which no
      restart loses an entry, a consumer that has re-read to its high-water mark shows the
      row-at-a-time upsert of the whole prefix. */
  lemma CrashRecoveryRefinesPlainUpsert<K(!new), V>(log: seq<Message<K, V>>, db: map<K, Row<V>>,
                                                   states: seq<State<K, V>>, steps: seq<Step>)
    requires InOrder(log)
    requires IsRunFrom(log, Start(db), states, steps)
    requires Lossless(log, states, steps)
    requires states[|steps|].pos == states[|steps|].high
    ensures ShowsPlainUpsert(log, db, states[|steps|])
  {
    RecoverableHolds(log, db, states, steps, |steps|);
    CaughtUpIff(log, db, states[|steps|]);
  }

  // ---- Logs without malformed messages never lose anything -----------------------------------------------

  ghost predicate MalformedFree<K, V>(log: seq<Message<K, V>>) {
    forall i :: 0 <= i < |log| ==> log[i].Good?
  }

  lemma {:induction false} MarkedBelowBatch<K(!new), V>(log: seq<Message<K, V>>, db: map<K, Row<V>>,
                                                       states: seq<State<K, V>>, steps: seq<Step>, n: nat)
    requires MalformedFree(log)
    requires IsRunFrom(log, Start(db), states, steps) && n <= |steps|
    ensures BatchInvariant(log, states[n]) && states[n].marked <= states[n].start
  {
    BatchInvariantHolds(log, db, states, steps, n);
    if n > 0 {
      MarkedBelowBatch(log, db, states, steps, n - 1);
      var s := states[n - 1];
      assert states[n] == Next(log, s, steps[n - 1]);
    }
  }

  lemma EarlyRestartLosesNothing<K(!new), V>(log: seq<Message<K, V>>, s: State<K, V>, c: nat)
    requires BatchInvariant(log, s) && c <= s.marked && c <= s.start
    ensures !Loses(log, s, c)
  {
    forall k | k in s.batch
      ensures Occurs(log, c, s.high, k)
    {
      assert Get(s.batch, k) == Newest(LogEntries(log, s.start, s.pos), k);
      OccursInBoth(LogEntries(log, s.start, s.pos), k);
      OccursSplit(log, c, s.start, s.high, k);
      OccursSplit(log, s.start, s.pos, s.high, k);
    }
  }

  lemma MalformedFreeIsLossless<K(!new), V>(log: seq<Message<K, V>>, db: map<K, Row<V>>,
                                           states: seq<State<K, V>>, steps: seq<Step>)
    requires MalformedFree(log)
    requires IsRunFrom(log, Start(db), states, steps)
    ensures Lossless(log, states, steps)
  {
    forall i | 0 <= i < |steps| && steps[i].Restart?
      ensures Bounds(log, states[i]) && !Loses(log, states[i], steps[i].committed)
    {
      MarkedBelowBatch(log, db, states, steps, i);
      EarlyRestartLosesNothing(log, states[i], steps[i].committed);
    }
  }

  /** The documented case: no malformed message, timestamps strictly increasing per key, any run at all. */
  lemma CrashRecovery<K(!new), V>(log: seq<Message<K, V>>, db: map<K, Row<V>>,
                                 states: seq<State<K, V>>, steps: seq<Step>)
    requires MalformedFree(log) && StrictlyIncreasing(LogEntries(log, 0, |log|))
    requires IsRunFrom(log, Start(db), states, steps)
    requires states[|steps|].pos == states[|steps|].high
    ensures ShowsPlainUpsert(log, db, states[|steps|])
  {
    StrictIsInOrder(log);
    MalformedFreeIsLossless(log, db, states, steps);
    CrashRecoveryRefinesPlainUpsert(log, db, states, steps);
  }

  // ---- Exactly when a restart is harmless -------------------------------------------------------------------

  /** Without a restart a key outside the re-read window keeps its row. */
  lemma {:induction false} ContinuationKeepsRecoverable<K(!new), V>(
    log: seq<Message<K, V>>, db: map<K, Row<V>>, states: seq<State<K, V>>, steps: seq<Step>, n: nat)
    requires InOrder(log) && IsRun(log, states, steps) && NoRestart(steps) && n <= |steps|
    requires BatchInvariant(log, states[0])
    requires states[|steps|].high == states[0].high
    ensures BatchInvariant(log, states[n])
    ensures states[0].high <= states[n].high
    ensures states[n].high == states[0].high ==> (Recoverable(log, db, states[n]) <==> Recoverable(log, db, states[0]))
  {
    if n > 0 {
      ContinuationKeepsRecoverable(log, db, states, steps, n - 1);
      var s, step := states[n - 1], steps[n - 1];
      StepKeepsBatch(log, s, step);
      assert states[n] == Next(log, s, step);
      if states[n].high == states[0].high {
        StepKeepsUnrecoverable(log, db, s, step);
        if Recoverable(log, db, s) {
          RecoverableStep(log, db, s, step);
        }
      }
    }
  }

  lemma StepKeepsUnrecoverable<K(!new), V>(log: seq<Message<K, V>>, db: map<K, Row<V>>, s: State<K, V>, step: Step)
    requires InOrder(log) && BatchInvariant(log, s) && Enabled(log, s, step) && !step.Restart?
    requires Next(log, s, step).high == s.high
    ensures Bounds(log, Next(log, s, step))
    ensures Recoverable(log, db, Next(log, s, step)) ==> Recoverable(log, db, s)
  {
    StepKeepsBatch(log, s, step);
    var t := Next(log, s, step);
    forall k | Recoverable(log, db, t) && !Occurs(log, s.start, s.high, k)
      ensures Get(s.db, k) == Get(Reference(log, db, s.high), k)
    {
      BatchedRow(log, db, s, k);
      OccursSplit(log, s.start, s.pos, s.high, k);
      assert !Occurs(log, t.start, t.high, k);
      assert Get(t.db, k) == Get(Reference(log, db, t.high), k);
    }
  }

  /** Exactness: take any recoverable state, restart it at `c`, and let it run on without another restart
      until it has re-read exactly to the old high-water mark. It then shows the row-at-a-time table if
      and only if the restart lost nothing. */
  lemma RestartHarmlessIff<K(!new), V>(log: seq<Message<K, V>>, db: map<K, Row<V>>, s: State<K, V>, c: nat,
                                      states: seq<State<K, V>>, steps: seq<Step>)
    requires InOrder(log) && BatchInvariant(log, s) && Recoverable(log, db, s) && c <= s.marked
    requires IsRunFrom(log, DoRestart(s, c), states, steps) && NoRestart(steps)
    requires states[|steps|].pos == states[|steps|].high == s.high
    ensures View(states[|steps|]) == Reference(log, db, s.high) <==> !Loses(log, s, c)
  {
    StepKeepsBatch(log, s, Restart(c));
    RestartRecoverableIff(log, db, s, c);
    ContinuationKeepsRecoverable(log, db, states, steps, |steps|);
    CaughtUpIff(log, db, states[|steps|]);
  }

  // ---- Exactly which logs batching handles like the plain upsert ----------------------------------------------

  /** The schedule that receives b messages, flushes, and receives up to message p. */
  function WindowSchedule(b: nat, p: nat): seq<Step>
    requires b <= p
  {
    seq(b, _ => Receive) + [Flush(Commits)] + seq(p - b, _ => Receive)
  }

  /** Receives the next n messages. */
  lemma {:induction false} ReceiveMany<K(!new), V>(log: seq<Message<K, V>>, s: State<K, V>, n: nat)
    returns (states: seq<State<K, V>>)
    requires BatchInvariant(log, s) && s.pos + n <= |log| && s.pos == s.high
    ensures IsRunFrom(log, s, states, seq(n, _ => Receive))
    ensures BatchInvariant(log, states[n])
    ensures states[n].pos == states[n].high == s.pos + n && states[n].start == s.start && states[n].db == s.db
  {
    if n == 0 {
      states := [s];
    } else {
      var before := ReceiveMany(log, s, n - 1);
      ReceiveKeepsBatch(log, before[n - 1]);
      states := before + [DoReceive(before[n - 1], log[before[n - 1].pos])];
    }
  }

  lemma RunAppend<K, V>(log: seq<Message<K, V>>, a: seq<State<K, V>>, aSteps: seq<Step>, step: Step,
                        b: seq<State<K, V>>, bSteps: seq<Step>)
    requires IsRun(log, a, aSteps) && IsRun(log, b, bSteps)
    requires Enabled(log, a[|aSteps|], step) && b[0] == Next(log, a[|aSteps|], step)
    ensures IsRun(log, a + b, aSteps + [step] + bSteps)
  {
    var states, steps := a + b, aSteps + [step] + bSteps;
    forall i | 0 <= i < |steps|
      ensures Enabled(log, states[i], steps[i]) && states[i + 1] == Next(log, states[i], steps[i])
    {
      if i < |aSteps| {
        assert steps[i] == aSteps[i] && states[i] == a[i] && states[i + 1] == a[i + 1];
      } else if i > |aSteps| {
        var j := i - |aSteps| - 1;
        assert steps[i] == bSteps[j] && states[i] == b[j] && states[i + 1] == b[j + 1];
      }
    }
  }

  /** That schedule ends with exactly the messages b, .., p - 1 in the batch. */
  lemma WindowRun<K(!new), V>(log: seq<Message<K, V>>, db: map<K, Row<V>>, b: nat, p: nat) returns (states: seq<State<K, V>>)
    requires b <= p <= |log|
    ensures IsRunFrom(log, Start(db), states, WindowSchedule(b, p))
    ensures states[p + 1].pos == states[p + 1].high == p
    ensures HoldsNewest(states[p + 1].batch, LogEntries(log, b, p))
  {
    var s0: State<K, V> := Start(db);
    var first := ReceiveMany(log, s0, b);
    var flushed := DoFlush(first[b], Commits);
    StepKeepsBatch(log, first[b], Flush(Commits));
    var second := ReceiveMany(log, flushed, p - b);
    var head, tail := seq(b, _ => Receive), seq(p - b, _ => Receive);
    RunAppend(log, first, head, Flush(Commits), second, tail);
    states := first + second;
    assert states[p + 1] == second[p - b];
    if first[b].batch == map[] {
      NothingBatched(log, b);
      LogSplit(log, 0, b, p);
      assert LogEntries(log, 0, p) == LogEntries(log, b, p);
    }
  }

  lemma NothingBatched<K(!new), V>(log: seq<Message<K, V>>, b: nat)
    requires b <= |log|
    requires HoldsNewest(map[], LogEntries(log, 0, b))
    ensures LogEntries(log, 0, b) == []
  {
    var w := LogEntries(log, 0, b);
    if w != [] {
      var empty: map<K, Entry<K, V>> := map[];
      assert Get(empty, w[0].key) == Newest(w, w[0].key);
      var _ := NewestIsFirstMaximal(w, w[0].key);
      assert false;
    }
  }

  ghost predicate RefinesUnderEverySchedule<K(!new), V(!new)>(log: seq<Message<K, V>>, db: map<K, Row<V>>) {
    forall states: seq<State<K, V>>, steps :: IsRunFrom(log, Start(db), states, steps) && NoRestart(steps) ==>
                              ShowsPlainUpsert(log, db, states[|steps|])
  }

  lemma {:induction false} NoRestartIsCaughtUp<K(!new), V>(log: seq<Message<K, V>>, db: map<K, Row<V>>,
                                                          states: seq<State<K, V>>, steps: seq<Step>, n: nat)
    requires IsRunFrom(log, Start(db), states, steps) && NoRestart(steps) && n <= |steps|
    ensures states[n].pos == states[n].high
  {
    if n > 0 {
      NoRestartIsCaughtUp(log, db, states, steps, n - 1);
      assert states[n] == Next(log, states[n - 1], steps[n - 1]);
    }
  }

  lemma OrderedLogRefines<K(!new), V(!new)>(log: seq<Message<K, V>>, db: map<K, Row<V>>)
    requires InOrder(log)
    ensures RefinesUnderEverySchedule(log, db)
  {
    forall states: seq<State<K, V>>, steps | IsRunFrom(log, Start(db), states, steps) && NoRestart(steps)
      ensures ShowsPlainUpsert(log, db, states[|steps|])
    {
      NoRestartIsCaughtUp(log, db, states, steps, |steps|);
      CrashRecoveryRefinesPlainUpsert(log, db, states, steps);
    }
  }

  lemma RefiningLogIsOrdered<K(!new), V(!new)>(log: seq<Message<K, V>>, db: map<K, Row<V>>)
    requires RefinesUnderEverySchedule(log, db)
    ensures InOrder(log)
  {
    forall lo: nat, hi: nat, k | lo <= hi <= |log|
      ensures WindowAgreesAt(log, lo, hi, k)
    {
      var states := WindowRun(log, db, lo, hi);
      assert ShowsPlainUpsert(log, db, states[|WindowSchedule(lo, hi)|]);
      RefinedWindowAgrees(log, db, states[hi + 1], lo, hi, k);
    }
    AgreeingWindowsAreInOrder(log);
  }

  /** Batching shows the row-at-a-time table under every crash-free schedule, whatever the table held
      before, exactly when the log is in order. */
  lemma EveryScheduleRefinesIffInOrder<K(!new), V(!new)>(log: seq<Message<K, V>>, db: map<K, Row<V>>)
    ensures RefinesUnderEverySchedule(log, db) <==> InOrder(log)
  {
    if InOrder(log) {
      OrderedLogRefines(log, db);
    }
    if RefinesUnderEverySchedule(log, db) {
      RefiningLogIsOrdered(log, db);
    }
  }

  lemma RefinedWindowAgrees<K(!new), V>(log: seq<Message<K, V>>, db: map<K, Row<V>>, s: State<K, V>, lo: nat, hi: nat, k: K)
    requires lo <= hi <= |log|
    requires HoldsNewest(s.batch, LogEntries(log, lo, hi))
    requires View(s) == Reference(log, db, hi)
    ensures WindowAgreesAt(log, lo, hi, k)
  {
    var w := LogEntries(log, lo, hi);
    OccursInBoth(w, k);
    if Newest(w, k).Some? {
      assert Get(s.batch, k) == Newest(w, k);
      ViewAt(s, k);
      ReferenceAt(log, db, lo, hi, k);
      NewestKey(w, k);
      LatestKey(w, k);
    }
  }

  lemma {:induction false} LatestKey<K, V>(es: seq<Entry<K, V>>, k: K)
    ensures Latest(es, k).Some? ==> Latest(es, k).value.key == k
  {
    if es != [] {
      LatestKey(es[..|es| - 1], k);
    }
  }

  // ---- At-least-once accounting ------------------------------------------------------------------------------

  /** `e`, received in message i, was written by a flush the database accepted, or lost in that same batch
      to an entry with its key that is at least as new. */
  ghost predicate WrittenOff<K, V>(writes: seq<Write<K, V>>, i: nat, e: Entry<K, V>) {
    exists w :: w in writes && w.lo <= i < w.hi && Beats(w.rows, e)
  }

  predicate Beats<K, V>(rows: map<K, Entry<K, V>>, e: Entry<K, V>) {
    e.key in rows && rows[e.key].time >= e.time
  }

  /** Everything received before the current batch is accounted for by the database, everything since by the
      batch. */
  ghost predicate Accounted<K(!new), V(!new)>(log: seq<Message<K, V>>, s: State<K, V>)
    requires Bounds(log, s)
  {
    && (forall i: nat, e :: i < s.start && e in EntriesOf(log[i]) ==> WrittenOff(s.writes, i, e))
    && (forall i: nat, e :: s.start <= i < s.pos && e in EntriesOf(log[i]) ==> Beats(s.batch, e))
  }

  lemma {:induction false} NewestBeats<K, V>(es: seq<Entry<K, V>>, e: Entry<K, V>)
    requires e in es
    ensures Newest(es, e.key).Some? && Newest(es, e.key).value.time >= e.time
  {
    var _ := NewestIsFirstMaximal(es, e.key);
  }

  lemma EntryInWindow<K, V>(log: seq<Message<K, V>>, lo: nat, i: nat, hi: nat, e: Entry<K, V>)
    requires lo <= i < hi <= |log| && e in EntriesOf(log[i])
    ensures e in LogEntries(log, lo, hi)
  {
    LogSplit(log, lo, i + 1, hi);
  }

  /** The batch beats every entry of its own window. */
  lemma BatchBeatsWindow<K(!new), V>(log: seq<Message<K, V>>, s: State<K, V>, i: nat, e: Entry<K, V>)
    requires BatchInvariant(log, s) && s.start <= i < s.pos && e in EntriesOf(log[i])
    ensures Beats(s.batch, e)
  {
    EntryInWindow(log, s.start, i, s.pos, e);
    NewestBeats(LogEntries(log, s.start, s.pos), e);
    assert Get(s.batch, e.key) == Newest(LogEntries(log, s.start, s.pos), e.key);
  }

  lemma StepKeepsAccounted<K(!new), V(!new)>(log: seq<Message<K, V>>, s: State<K, V>, step: Step)
    requires BatchInvariant(log, s) && Enabled(log, s, step) && Accounted(log, s)
    requires step.Restart? ==> step.committed <= s.start
    ensures Bounds(log, Next(log, s, step))
    ensures Accounted(log, Next(log, s, step))
  {
    StepKeepsBatch(log, s, step);
    var t := Next(log, s, step);
    forall i: nat, e | i < t.start && e in EntriesOf(log[i])
      ensures WrittenOff(t.writes, i, e)
    {
      if i < s.start {
        var w :| w in s.writes && w.lo <= i < w.hi && Beats(w.rows, e);
        assert w in t.writes;
      } else {
        assert Write(s.start, s.pos, s.batch) in t.writes;
      }
    }
    forall i: nat, e | t.start <= i < t.pos && e in EntriesOf(log[i])
      ensures Beats(t.batch, e)
    {
      BatchBeatsWindow(log, t, i, e);
    }
  }

  lemma {:induction false} AccountedHolds<K(!new), V(!new)>(log: seq<Message<K, V>>, db: map<K, Row<V>>,
                                                           states: seq<State<K, V>>, steps: seq<Step>, n: nat)
    requires IsRunFrom(log, Start(db), states, steps) && n <= |steps|
    requires MalformedFree(log) || NoRestart(steps)
    ensures Bounds(log, states[n]) && Accounted(log, states[n])
  {
    if n > 0 {
      AccountedHolds(log, db, states, steps, n - 1);
      BatchInvariantHolds(log, db, states, steps, n - 1);
      if MalformedFree(log) {
        MarkedBelowBatch(log, db, states, steps, n - 1);
      }
      StepKeepsAccounted(log, states[n - 1], steps[n - 1]);
    }
  }

  /** On a malformed-free log, in every reachable state of every run, each entry of a message below the
      marked offset has been written or lost to one at least as new in the same batch. */
  lemma MarkedMeansWritten<K(!new), V(!new)>(log: seq<Message<K, V>>, db: map<K, Row<V>>,
                                            states: seq<State<K, V>>, steps: seq<Step>, n: nat, i: nat, e: Entry<K, V>)
    requires MalformedFree(log)
    requires IsRunFrom(log, Start(db), states, steps) && n <= |steps|
    requires i < states[n].marked && i < |log| && e in EntriesOf(log[i])
    ensures WrittenOff(states[n].writes, i, e)
  {
    AccountedHolds(log, db, states, steps, n);
    MarkedBelowBatch(log, db, states, steps, n);
  }

  /** Without restarts, on any log, each received entry is accounted for that way or by the held batch. */
  lemma ReceivedMeansWrittenOrHeld<K(!new), V(!new)>(log: seq<Message<K, V>>, db: map<K, Row<V>>,
                                                    states: seq<State<K, V>>, steps: seq<Step>, n: nat, i: nat, e: Entry<K, V>)
    requires IsRunFrom(log, Start(db), states, steps) && n <= |steps| && NoRestart(steps)
    requires i < states[n].pos && i < |log| && e in EntriesOf(log[i])
    ensures WrittenOff(states[n].writes, i, e) || Beats(states[n].batch, e)
  {
    AccountedHolds(log, db, states, steps, n);
  }

  // ---- The malformed message that loses data -----------------------------------------------------------------

  /** A concrete run: one good entry is buffered, a malformed message is marked at once, and a crash restarts
      past both. The entry is gone: the consumer has caught up and its view is not the plain upsert. */
  lemma MalformedMarkLosesData()
    ensures var log := [Good([Entry(1, 7, 100)]), Malformed];
            exists states: seq<State<int, int>>, steps ::
              && IsRunFrom<int, int>(log, Start(map[]), states, steps)
              && InOrder(log)
              && states[|steps|].pos == states[|steps|].high == |log|
              && View(states[|steps|]) == map[] != Reference(log, map[], |log|)
              && !WrittenOff(states[|steps|].writes, 0, Entry(1, 7, 100))
  {
    var e: Entry<int, int> := Entry(1, 7, 100);
    var log := [Good([e]), Malformed];
    var s0: State<int, int> := Start(map[]);
    var s1 := DoReceive(s0, log[0]);
    var s2 := DoReceive(s1, log[1]);
    var s3 := DoRestart(s2, 2);
    var states, steps := [s0, s1, s2, s3], [Receive, Receive, Restart(2)];
    assert IsRunFrom(log, s0, states, steps);
    assert LogEntries(log, 0, 1) == [e];
    assert LogEntries(log, 0, 2) == LogEntries(log, 0, 1) + [];
    StrictIsInOrder(log);
    assert 1 in Reference(log, map[], 2) by {
      PlainUpsertKeepsLatest(map[], LogEntries(log, 0, 2), 1);
    }
    assert states[|steps|] == s3;
  }
}
