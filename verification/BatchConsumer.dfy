/** consumeMACBatch and consumeARPBatch in the form they are written in: a map, a cursor and an offset,
    updated in place, and a flush that unzips the map into parallel arrays for one statement. */
module BatchConsumer {
  import opened Options
  import opened Statements
  import opened BatchLog
  import opened BatchRuns

  const MAX_BATCH: nat := 500

  ghost predicate Distinct<K>(keys: seq<K>) {
    forall i, j :: 0 <= i < j < |keys| ==> keys[i] != keys[j]
  }

  /** The parallel arrays list exactly the batch: one position per key, and that key's own entry there. */
  ghost predicate ListsBatch<K, V>(batch: map<K, Entry<K, V>>, keys: seq<K>, bodies: seq<V>, times: seq<int>) {
    && |keys| == |bodies| == |times|
    && (forall i :: 0 <= i < |keys| ==> keys[i] in batch && batch[keys[i]] == Entry(keys[i], bodies[i], times[i]))
    && (forall k :: k in batch ==> k in keys)
  }

  /** The batch's values taken apart, in whatever order the map is walked. */
  method Unzip<K(==), V>(batch: map<K, Entry<K, V>>) returns (keys: seq<K>, bodies: seq<V>, times: seq<int>)
    requires forall k :: k in batch ==> batch[k].key == k
    ensures |keys| == |bodies| == |times| == |batch|
    ensures Distinct(keys)
    ensures ListsBatch(batch, keys, bodies, times)
  {
    keys, bodies, times := [], [], [];
    var rest := batch.Keys;
    while rest != {}
      invariant rest <= batch.Keys
      invariant |keys| == |bodies| == |times|
      invariant |keys| + |rest| == |batch|
      invariant forall k :: k in keys <==> k in batch && k !in rest
      invariant forall i :: 0 <= i < |keys| ==> batch[keys[i]] == Entry(keys[i], bodies[i], times[i])
      invariant Distinct(keys)
      decreases rest
    {
      var k :| k in rest;
      var e := batch[k];
      keys, bodies, times := keys + [e.key], bodies + [e.body], times + [e.time];
      rest := rest - {k};
    }
  }

  /** One INSERT .. ON CONFLICT DO UPDATE over the arrays, row by row. PostgreSQL refuses a statement that
      would update one row twice; otherwise the statement commits or not as the outcome says. */
  method ExecUpsert<K(==), V>(db: map<K, Row<V>>, keys: seq<K>, bodies: seq<V>, times: seq<int>, outcome: Outcome)
    returns (db': map<K, Row<V>>, ok: bool)
    requires |keys| == |bodies| == |times|
    ensures !Distinct(keys) || outcome.Fails? ==> db' == db && !ok
    ensures Distinct(keys) && !outcome.Fails? ==>
              && ok == outcome.Commits?
              && db'.Keys == db.Keys + (set k | k in keys)
              && (forall i :: 0 <= i < |keys| ==> db'[keys[i]] == Row(bodies[i], times[i]))
              && (forall k :: k in db && k !in keys ==> db'[k] == db[k])
  {
    if outcome.Fails? {
      return db, false;
    }
    db', ok := db, outcome.Commits?;
    for n := 0 to |keys|
      invariant Distinct(keys[..n])
      invariant db'.Keys == db.Keys + (set k | k in keys[..n])
      invariant forall i :: 0 <= i < n ==> db'[keys[i]] == Row(bodies[i], times[i])
      invariant forall k :: k in db && k !in keys[..n] ==> db'[k] == db[k]
    {
      if keys[n] in keys[..n] {
        return db, false;
      }
      assert keys[..n + 1] == keys[..n] + [keys[n]];
      db' := db'[keys[n] := Row(bodies[n], times[n])];
    }
    assert keys[..|keys|] == keys;
  }

  lemma UpsertWritesBatch<K, V>(db: map<K, Row<V>>, db': map<K, Row<V>>, batch: map<K, Entry<K, V>>,
                                 keys: seq<K>, bodies: seq<V>, times: seq<int>)
    requires ListsBatch(batch, keys, bodies, times)
    requires db'.Keys == db.Keys + (set k | k in keys)
    requires forall i :: 0 <= i < |keys| ==> db'[keys[i]] == Row(bodies[i], times[i])
    requires forall k :: k in db && k !in keys ==> db'[k] == db[k]
    ensures db' == db + RowsOf(batch)
  {
    var want := db + RowsOf(batch);
    assert db'.Keys == want.Keys;
    forall k | k in want
      ensures db'[k] == want[k]
    {
      if k in batch {
        var i :| 0 <= i < |keys| && keys[i] == k;
        assert db'[keys[i]] == Row(bodies[i], times[i]);
      }
    }
  }

  /** Unzipping a non-empty batch and running the statement: the keys are distinct, so the database never
      refuses the statement, and on commit every batched row is written and no other. */
  method WriteBatch<K(==), V>(db: map<K, Row<V>>, batch: map<K, Entry<K, V>>, outcome: Outcome)
    returns (db': map<K, Row<V>>, ok: bool)
    requires forall k :: k in batch ==> batch[k].key == k
    ensures ok == outcome.Commits?
    ensures db' == if outcome.Fails? then db else db + RowsOf(batch)
  {
    var keys, bodies, times := Unzip(batch);
    db', ok := ExecUpsert(db, keys, bodies, times, outcome);
    if !outcome.Fails? {
      UpsertWritesBatch(db, db', batch, keys, bodies, times);
    }
  }

  class Consumer<K(==, !new), V(!new)> {
    ghost const log: seq<Message<K, V>>
    var batch: map<K, Entry<K, V>>
    var lastMsg: Option<nat>
    var pos: nat
    var marked: nat
    var db: map<K, Row<V>>
    ghost var start: nat
    ghost var high: nat
    ghost var writes: seq<Write<K, V>>

    /** The state of the consumer as the state machine sees it. */
    ghost function Abs(): State<K, V>
      reads this
    {
      State(pos, batch, lastMsg, marked, db, start, high, writes)
    }

    ghost predicate Valid()
      reads this
    {
      BatchInvariant(log, Abs()) && TailIsMarked(Abs())
    }

    constructor (ghost log: seq<Message<K, V>>, db: map<K, Row<V>>)
      ensures Valid() && this.log == log && Abs() == Start(db)
    {
      this.log := log;
      this.db := db;
      batch, lastMsg, pos, marked := map[], None, 0, 0;
      start, high, writes := 0, 0, [];
    }

    /** MarkMessage: the marked offset only moves forward. */
    method Mark(offset: nat)
      modifies `marked
      ensures marked == Max(old(marked), offset + 1)
    {
      if marked < offset + 1 {
        marked := offset + 1;
      }
    }

    method Flush(outcome: Outcome)
      requires Valid()
      modifies this
      ensures Valid() && Abs() == DoFlush(old(Abs()), outcome)
      ensures marked == if outcome.Commits? && old(batch) != map[] then pos else old(marked)
      ensures outcome.Commits? ==> batch == map[]
    {
      StepKeepsBatch(log, Abs(), BatchRuns.Flush(outcome));
      StepKeepsTailMarked(log, Abs(), BatchRuns.Flush(outcome));
      if batch != map[] {
        CommittedFlushMarks(log, Abs());
      }
      FlushBatch(outcome);
    }

    method FlushBatch(outcome: Outcome)
      requires forall k :: k in batch ==> batch[k].key == k
      requires batch != map[] ==> lastMsg.Some?
      modifies this
      ensures Abs() == DoFlush(old(Abs()), outcome)
    {
      if |batch| == 0 {
        return;
      }
      var written, ok := WriteBatch(db, batch, outcome);
      db := written;
      if !outcome.Fails? {
        writes := writes + [Write(start, pos, batch)];
      }
      if !ok {
        return;
      }
      Mark(lastMsg.value);
      batch := map[];
      lastMsg := None;
      start := pos;
    }

    /** The loop over the entries of one message. */
    method AbsorbEntries(entries: seq<Entry<K, V>>)
      modifies `batch
      ensures batch == AbsorbAll(old(batch), entries)
    {
      for i := 0 to |entries|
        invariant batch == AbsorbAll(old(batch), entries[..i])
      {
        var e := entries[i];
        assert entries[..i + 1][..|entries[..i + 1]| - 1] == entries[..i];
        if e.key !in batch || e.time > batch[e.key].time {
          batch := batch[e.key := e];
        }
      }
      assert entries[..|entries|] == entries;
    }

    /** The receive branch of the select loop up to the comparison with the batch size. */
    method Take(msg: Message<K, V>)
      modifies this
      ensures Abs() == DoReceive(old(Abs()), msg)
    {
      match msg
      case Malformed =>
        Mark(pos);
        pos, high := pos + 1, Max(high, pos + 1);
      case Good(entries) =>
        AbsorbEntries(entries);
        lastMsg := Some(pos);
        pos, high := pos + 1, Max(high, pos + 1);
    }

    /** The whole receive branch, including the flush a full batch triggers. */
    method OnMessage(msg: Message<K, V>, ifFull: Outcome)
      requires Valid() && pos < |log| && msg == log[pos]
      modifies this
      ensures Valid()
      ensures var received := DoReceive(old(Abs()), msg);
              Abs() == if msg.Good? && |received.batch| >= MAX_BATCH then DoFlush(received, ifFull) else received
      ensures msg.Good? && ifFull.Commits? ==> |batch| < 500
      ensures marked == if msg.Malformed? || (ifFull.Commits? && |DoReceive(old(Abs()), msg).batch| >= 500)
                        then pos else old(marked)
    {
      ReceiveKeepsBatch(log, Abs());
      StepKeepsTailMarked(log, Abs(), Receive);
      Take(msg);
      if msg.Good? && |batch| >= MAX_BATCH {
        Flush(ifFull);
      }
    }

    /** The timer branch. */
    method OnTimer(outcome: Outcome)
      requires Valid()
      modifies this
      ensures Valid() && Abs() == DoFlush(old(Abs()), outcome)
      ensures marked == if outcome.Commits? && old(batch) != map[] then pos else old(marked)
    {
      Flush(outcome);
    }

    /** A new session: nothing survives in memory, and delivery begins at a committed offset. */
    method OnRestart(committed: nat)
      requires Valid() && committed <= marked
      modifies this
      ensures Valid() && Abs() == DoRestart(old(Abs()), committed)
      ensures batch == map[] && pos == marked == committed && db == old(db)
    {
      StepKeepsBatch(log, Abs(), Restart(committed));
      StepKeepsTailMarked(log, Abs(), Restart(committed));
      batch, lastMsg := map[], None;
      pos, marked := committed, committed;
      start := committed;
    }

    /** The claim closes: a last flush, after which the next session starts from a committed offset. */
    method OnClose(outcome: Outcome, committed: nat)
      requires Valid() && committed <= DoFlush(Abs(), outcome).marked
      modifies this
      ensures Valid() && Abs() == DoRestart(DoFlush(old(Abs()), outcome), committed)
    {
      Flush(outcome);
      OnRestart(committed);
    }
  }
}
