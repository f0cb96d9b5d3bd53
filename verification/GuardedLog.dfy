/** A guarded table fed from a log: delivery of a whole log, redelivery of a suffix, and every run of
    the ConsumeClaim loop with restarts from committed offsets. */
module GuardedLog {
  import opened Options
  import opened Statements
  import opened Register

  /** A message as the table sees it: rejected (it does not decode, or the statement cannot accept its
      values), or a message for one key. */
  datatype Item<K, C, V> = Item(key: K, msg: Msg<C, V>) | Rejected

  type Table<K, C, V> = map<K, Reg<C, V>>

  function Apply<K, C, V>(defaults: map<C, V>, t: Table<K, C, V>, item: Item<K, C, V>): Table<K, C, V> {
    if item.Rejected? then t else t[item.key := Merge(defaults, Get(t, item.key), item.msg)]
  }

  function ApplyAll<K, C, V>(defaults: map<C, V>, t: Table<K, C, V>, log: seq<Item<K, C, V>>): Table<K, C, V> {
    if log == [] then t else Apply(defaults, ApplyAll(defaults, t, log[..|log| - 1]), log[|log| - 1])
  }

  /** The messages of the log that concern one key. */
  function For<K(==), C, V>(k: K, log: seq<Item<K, C, V>>): seq<Msg<C, V>> {
    if log == [] then []
    else
      var item := log[|log| - 1];
      For(k, log[..|log| - 1]) + if item.Item? && item.key == k then [item.msg] else []
  }

  lemma {:induction false} ForAppend<K, C, V>(k: K, a: seq<Item<K, C, V>>, b: seq<Item<K, C, V>>)
    ensures For(k, a + b) == For(k, a) + For(k, b)
  {
    if b == [] {
      assert a + b == a;
    } else {
      assert (a + b)[..|a + b| - 1] == a + b[..|b| - 1];
      ForAppend(k, a, b[..|b| - 1]);
    }
  }

  /** Each row depends only on the messages for its own key. */
  lemma {:induction false} RowsAreIndependent<K, C, V>(defaults: map<C, V>, t: Table<K, C, V>, log: seq<Item<K, C, V>>, k: K)
    ensures Get(ApplyAll(defaults, t, log), k) == Fold(defaults, Get(t, k), For(k, log))
  {
    if log != [] {
      var init, item := log[..|log| - 1], log[|log| - 1];
      RowsAreIndependent(defaults, t, init, k);
      if item.Item? && item.key == k {
        var ms := For(k, log);
        assert ms[..|ms| - 1] == For(k, init);
      } else {
        assert For(k, log) == For(k, init);
      }
    }
  }

  /** One message, seen by one key. */
  lemma OneItem<K, C, V>(defaults: map<C, V>, t: Table<K, C, V>, item: Item<K, C, V>, k: K)
    ensures For(k, [item]) == if item.Item? && item.key == k then [item.msg] else []
    ensures Get(Apply(defaults, t, item), k) == Fold(defaults, Get(t, k), For(k, [item]))
  {
    assert [item][..0] == [];
    assert ApplyAll(defaults, t, [item]) == Apply(defaults, t, item);
    RowsAreIndependent(defaults, t, [item], k);
  }

  /** Redelivering any suffix of the log leaves the whole table as it was, insert defaults included. */
  lemma RedeliveryLeavesTable<K(!new), C(!new), V>(defaults: map<C, V>, t: Table<K, C, V>, log: seq<Item<K, C, V>>, from: nat)
    requires from <= |log|
    ensures var done := ApplyAll(defaults, t, log);
            ApplyAll(defaults, done, log[from..]) == done
  {
    var done := ApplyAll(defaults, t, log);
    forall k
      ensures Get(ApplyAll(defaults, done, log[from..]), k) == Get(done, k)
    {
      RowsAreIndependent(defaults, t, log, k);
      RowsAreIndependent(defaults, done, log[from..], k);
      assert log == log[..from] + log[from..];
      ForAppend(k, log[..from], log[from..]);
      var ms := For(k, log);
      assert ms[|For(k, log[..from])|..] == For(k, log[from..]);
      RedeliveryIsNoOp(defaults, Get(t, k), ms, |For(k, log[..from])|);
    }
    MapsEqual(ApplyAll(defaults, done, log[from..]), done);
  }

  // ---- Runs of the claim loop ------------------------------------------------------------------------------------

  datatype State<K, C, V> = State(pos: nat, marked: nat, table: Table<K, C, V>, high: nat)

  /** The outcome of a Receive is what becomes of the statement, should the message be one the table can
      accept. */
  datatype Step = Receive(outcome: Outcome) | Restart(committed: nat)

  predicate Enabled<K, C, V>(log: seq<Item<K, C, V>>, s: State<K, C, V>, step: Step) {
    match step
    case Receive(_) => s.pos < |log|
    case Restart(c) => c <= s.marked
  }

  /** The table after a message whose statement had that outcome. */
  function Received<K, C, V>(defaults: map<C, V>, t: Table<K, C, V>, item: Item<K, C, V>, o: Outcome): Table<K, C, V> {
    if o.Fails? then t else Apply(defaults, t, item)
  }

  /** The consumer has seen the message through without an error. */
  predicate Acknowledged<K, C, V>(item: Item<K, C, V>, o: Outcome) {
    item.Item? && o.Commits?
  }

  /** Only an acknowledged message is marked; the others are passed over. */
  function Next<K, C, V>(defaults: map<C, V>, log: seq<Item<K, C, V>>, s: State<K, C, V>, step: Step): State<K, C, V>
    requires Enabled(log, s, step)
  {
    match step
    case Receive(o) =>
      var item := log[s.pos];
      var high := if s.high < s.pos + 1 then s.pos + 1 else s.high;
      var marked := if Acknowledged(item, o) && s.marked < s.pos + 1 then s.pos + 1 else s.marked;
      State(s.pos + 1, marked, Received(defaults, s.table, item, o), high)
    case Restart(c) => s.(pos := c, marked := c)
  }

  function Start<K, C, V>(t: Table<K, C, V>): State<K, C, V> {
    State(0, 0, t, 0)
  }

  ghost predicate IsRunFrom<K, C, V>(defaults: map<C, V>, log: seq<Item<K, C, V>>, s: State<K, C, V>,
                                     states: seq<State<K, C, V>>, steps: seq<Step>) {
    && |states| == |steps| + 1
    && states[0] == s
    && forall i :: 0 <= i < |steps| ==>
                     Enabled(log, states[i], steps[i]) && states[i + 1] == Next(defaults, log, states[i], steps[i])
  }

  /** The step brings an acceptable message into the table. */
  predicate Handles<K, C, V>(log: seq<Item<K, C, V>>, s: State<K, C, V>, step: Step) {
    step.Receive? && !step.outcome.Fails? && s.pos < |log| && log[s.pos].Item?
  }

  /** The step drops an acceptable message on a database error. */
  predicate Drops<K, C, V>(log: seq<Item<K, C, V>>, s: State<K, C, V>, step: Step) {
    step.Receive? && step.outcome.Fails? && s.pos < |log| && log[s.pos].Item?
  }

  ghost predicate Bounds<K, C, V>(log: seq<Item<K, C, V>>, s: State<K, C, V>) {
    s.marked <= s.pos <= s.high <= |log|
  }

  /** A row may have been moved back by a partial redelivery, but it already has its final timestamp, and
      reading the rest of its messages restores it. */
  ghost predicate Restorable<C, V>(defaults: map<C, V>, row: Option<Reg<C, V>>, rest: seq<Msg<C, V>>, final: Option<Reg<C, V>>) {
    && (row.Some? <==> final.Some?)
    && (row.Some? ==> row.value.time == final.value.time)
    && Fold(defaults, row, rest) == final
  }

  ghost predicate RowRestorable<K, C, V>(defaults: map<C, V>, log: seq<Item<K, C, V>>, t: Table<K, C, V>,
                                         s: State<K, C, V>, k: K)
    requires Bounds(log, s)
  {
    Restorable(defaults, Get(s.table, k), For(k, log[s.pos..s.high]), Fold(defaults, Get(t, k), For(k, log[..s.high])))
  }

  lemma SplitFor<K, C, V>(k: K, log: seq<Item<K, C, V>>, c: nat, pos: nat, high: nat)
    requires c <= pos <= high <= |log|
    ensures For(k, log[c..high]) == For(k, log[c..pos]) + For(k, log[pos..high])
    ensures For(k, log[..high]) == For(k, log[..c]) + (For(k, log[c..pos]) + For(k, log[pos..high]))
  {
    assert log[c..high] == log[c..pos] + log[pos..high];
    ForAppend(k, log[c..pos], log[pos..high]);
    assert log[..high] == log[..c] + log[c..high];
    ForAppend(k, log[..c], log[c..high]);
  }

  /** The same on the messages of one key: p before the restart offset, a and b behind it. */
  lemma RestoreFromFurtherBack<C(!new), V>(defaults: map<C, V>, r: Option<Reg<C, V>>, p: seq<Msg<C, V>>, a: seq<Msg<C, V>>,
                                          b: seq<Msg<C, V>>, row: Option<Reg<C, V>>)
    requires Restorable(defaults, row, b, Fold(defaults, r, p + (a + b)))
    ensures Restorable(defaults, row, a + b, Fold(defaults, r, p + (a + b)))
  {
    if row.Some? {
      RedeliverMore(defaults, r, p, a, b, row.value);
    } else {
      TimeIsMaximum(defaults, r, p + (a + b));
      assert |p + (a + b)| == 0;
    }
  }

  lemma RestartKeepsRestorable<K, C(!new), V>(defaults: map<C, V>, log: seq<Item<K, C, V>>, t: Table<K, C, V>,
                                             s: State<K, C, V>, k: K, c: nat)
    requires Bounds(log, s) && c <= s.marked && RowRestorable(defaults, log, t, s, k)
    ensures RowRestorable(defaults, log, t, s.(pos := c, marked := c), k)
  {
    SplitFor(k, log, c, s.pos, s.high);
    RestoreFromFurtherBack(defaults, Get(t, k), For(k, log[..c]), For(k, log[c..s.pos]), For(k, log[s.pos..s.high]),
                           Get(s.table, k));
  }

  /** A message received for the first time. */
  lemma NewMessageKeepsRestorable<K, C, V>(defaults: map<C, V>, log: seq<Item<K, C, V>>, t: Table<K, C, V>,
                                           s: State<K, C, V>, o: Outcome, k: K)
    requires Bounds(log, s) && s.pos == s.high < |log| && RowRestorable(defaults, log, t, s, k)
    requires !o.Fails? || log[s.pos].Rejected?
    ensures Bounds(log, Next(defaults, log, s, Receive(o)))
    ensures RowRestorable(defaults, log, t, Next(defaults, log, s, Receive(o)), k)
  {
    var s', item := Next(defaults, log, s, Receive(o)), log[s.pos];
    OneItem(defaults, s.table, item, k);
    assert log[..s'.high] == log[..s.high] + [item];
    ForAppend(k, log[..s.high], [item]);
    FoldAppend(defaults, Get(t, k), For(k, log[..s.high]), For(k, [item]));
    assert log[s.pos..s.high] == [] == log[s'.pos..s'.high];
  }

  lemma SplitOne<K, C, V>(k: K, log: seq<Item<K, C, V>>, pos: nat, high: nat)
    requires pos < high <= |log|
    ensures For(k, log[pos..high]) == For(k, [log[pos]]) + For(k, log[pos + 1..high])
  {
    assert log[pos..high] == [log[pos]] + log[pos + 1..high];
    ForAppend(k, [log[pos]], log[pos + 1..high]);
  }

  /** Reading one message, or none, of a tail that restores the row. */
  lemma ReadOneBack<C, V>(defaults: map<C, V>, row: Option<Reg<C, V>>, one: seq<Msg<C, V>>, rest: seq<Msg<C, V>>,
                          final: Option<Reg<C, V>>)
    requires Restorable(defaults, row, one + rest, final)
    requires one == [] || (|one| == 1 && row.Some? && one[0].time <= row.value.time)
    ensures Restorable(defaults, Fold(defaults, row, one), rest, final)
  {
    FoldAppend(defaults, row, one, rest);
    if one != [] {
      assert one[..0] == [];
    }
  }

  /** A message received again. */
  lemma ReplayKeepsRestorable<K, C, V>(defaults: map<C, V>, log: seq<Item<K, C, V>>, t: Table<K, C, V>,
                                       s: State<K, C, V>, o: Outcome, k: K)
    requires Bounds(log, s) && s.pos < s.high && RowRestorable(defaults, log, t, s, k)
    requires !o.Fails? || log[s.pos].Rejected?
    ensures Bounds(log, Next(defaults, log, s, Receive(o)))
    ensures RowRestorable(defaults, log, t, Next(defaults, log, s, Receive(o)), k)
  {
    var item := log[s.pos];
    OneItem(defaults, s.table, item, k);
    SplitOne(k, log, s.pos, s.high);
    if item.Item? && item.key == k {
      ReplayKeepsTime(defaults, log, t, s, k);
    }
    ReadOneBack(defaults, Get(s.table, k), For(k, [item]), For(k, log[s.pos + 1..s.high]),
                Fold(defaults, Get(t, k), For(k, log[..s.high])));
  }

  /** A log position holding a message for the key puts that message into the key's own sequence. */
  lemma MessageAt<K, C, V>(k: K, log: seq<Item<K, C, V>>, pos: nat, high: nat) returns (i: nat)
    requires pos < high <= |log| && log[pos].Item? && log[pos].key == k
    ensures i < |For(k, log[..high])| && For(k, log[..high])[i] == log[pos].msg
  {
    i := |For(k, log[..pos])|;
    SplitFor(k, log, pos, pos + 1, high);
    assert log[pos..pos + 1] == [log[pos]];
    assert [log[pos]][..0] == [];
    assert For(k, [log[pos]]) == [log[pos].msg];
  }

  /** A message below the high-water mark cannot be newer than the final row. */
  lemma ReplayKeepsTime<K, C, V>(defaults: map<C, V>, log: seq<Item<K, C, V>>, t: Table<K, C, V>, s: State<K, C, V>, k: K)
    requires Bounds(log, s) && s.pos < s.high && RowRestorable(defaults, log, t, s, k)
    requires log[s.pos].Item? && log[s.pos].key == k
    ensures Get(s.table, k).Some? && log[s.pos].msg.time <= Get(s.table, k).value.time
  {
    var i := MessageAt(k, log, s.pos, s.high);
    TimeIsMaximum(defaults, Get(t, k), For(k, log[..s.high]));
  }

  function Receives(db: seq<Outcome>): seq<Step> {
    seq(|db|, i requires 0 <= i < |db| => Receive(db[i]))
  }

  /** The state after receiving one message for each of the first n outcomes. */
  function ReceiveMany<K, C, V>(defaults: map<C, V>, log: seq<Item<K, C, V>>, s: State<K, C, V>, db: seq<Outcome>, n: nat):
    (s': State<K, C, V>)
    requires s.pos + |db| <= |log| && n <= |db|
    ensures s'.pos == s.pos + n
  {
    if n == 0 then s else Next(defaults, log, ReceiveMany(defaults, log, s, db, n - 1), Receive(db[n - 1]))
  }

  lemma ReceiveManyIsRun<K, C, V>(defaults: map<C, V>, log: seq<Item<K, C, V>>, s: State<K, C, V>, db: seq<Outcome>)
    returns (states: seq<State<K, C, V>>)
    requires s.pos + |db| <= |log|
    ensures IsRunFrom(defaults, log, s, states, Receives(db))
    ensures states[|db|] == ReceiveMany(defaults, log, s, db, |db|)
  {
    states := seq(|db| + 1, i requires 0 <= i <= |db| => ReceiveMany(defaults, log, s, db, i));
  }

  lemma {:induction false} BoundsHold<K, C, V>(defaults: map<C, V>, log: seq<Item<K, C, V>>, s: State<K, C, V>,
                                              states: seq<State<K, C, V>>, steps: seq<Step>, n: nat)
    requires IsRunFrom(defaults, log, s, states, steps) && Bounds(log, s) && n <= |steps|
    ensures Bounds(log, states[n])
  {
    if n > 0 {
      BoundsHold(defaults, log, s, states, steps, n - 1);
      assert states[n] == Next(defaults, log, states[n - 1], steps[n - 1]);
    }
  }

  lemma StepKeepsRestorable<K, C(!new), V>(defaults: map<C, V>, log: seq<Item<K, C, V>>, t: Table<K, C, V>,
                                          s: State<K, C, V>, step: Step, k: K)
    requires Bounds(log, s) && Enabled(log, s, step) && !Drops(log, s, step)
    requires RowRestorable(defaults, log, t, s, k)
    ensures Bounds(log, Next(defaults, log, s, step))
    ensures RowRestorable(defaults, log, t, Next(defaults, log, s, step), k)
  {
    match step
    case Receive(o) =>
      if s.pos == s.high {
        NewMessageKeepsRestorable(defaults, log, t, s, o, k);
      } else {
        ReplayKeepsRestorable(defaults, log, t, s, o, k);
      }
    case Restart(c) => RestartKeepsRestorable(defaults, log, t, s, k, c);
  }

  ghost predicate RestartBetween(steps: seq<Step>, i: int, j: int) {
    exists r :: i < r < j && 0 <= r < |steps| && steps[r].Restart?
  }

  /** After a database error nothing is handled until the next restart. */
  ghost predicate ErrorsEndSessions<K, C, V>(log: seq<Item<K, C, V>>, states: seq<State<K, C, V>>, steps: seq<Step>)
    requires |states| > |steps|
  {
    forall i, j :: 0 <= i < j < |steps| && Drops(log, states[i], steps[i]) && Handles(log, states[j], steps[j]) ==>
                     RestartBetween(steps, i, j)
  }

  /** A database error since the last restart. */
  ghost predicate Stopped<K, C, V>(log: seq<Item<K, C, V>>, states: seq<State<K, C, V>>, steps: seq<Step>, n: nat)
    requires n <= |steps| < |states|
  {
    exists i :: 0 <= i < n && Drops(log, states[i], steps[i]) && !RestartBetween(steps, i, n)
  }

  /** The state of a consumer that stands still from an error to the next restart: it has read no further
      than the real one, and its rows are the same. */
  ghost predicate StandsStill<K(!new), C, V>(defaults: map<C, V>, log: seq<Item<K, C, V>>, t: Table<K, C, V>,
                                             s: State<K, C, V>, still: State<K, C, V>, stopped: bool) {
    && still.table == s.table && still.marked == s.marked
    && still.pos <= s.pos && still.high <= s.high && (!stopped ==> still.pos == s.pos)
    && Bounds(log, still)
    && forall k :: RowRestorable(defaults, log, t, still, k)
  }

  lemma {:induction false} RestorableHolds<K(!new), C(!new), V>(
    defaults: map<C, V>, log: seq<Item<K, C, V>>, t: Table<K, C, V>,
    states: seq<State<K, C, V>>, steps: seq<Step>, n: nat) returns (still: State<K, C, V>)
    requires IsRunFrom(defaults, log, Start(t), states, steps) && n <= |steps|
    requires ErrorsEndSessions(log, states, steps)
    ensures StandsStill(defaults, log, t, states[n], still, Stopped(log, states, steps, n))
  {
    if n == 0 {
      still := states[0];
      assert log[..0] == log[0..0] == [];
    } else {
      var before := RestorableHolds(defaults, log, t, states, steps, n - 1);
      var s, step := states[n - 1], steps[n - 1];
      StoppedStep(log, states, steps, n);
      if step.Receive? && (Stopped(log, states, steps, n - 1) || Drops(log, s, step)) {
        still := before;
      } else {
        still := Next(defaults, log, before, step);
        forall k
          ensures RowRestorable(defaults, log, t, still, k)
        {
          StepKeepsRestorable(defaults, log, t, before, step, k);
        }
      }
    }
  }

  /** How a step stops the consumer and a restart sets it going again. */
  lemma StoppedStep<K, C, V>(log: seq<Item<K, C, V>>, states: seq<State<K, C, V>>, steps: seq<Step>, n: nat)
    requires 0 < n <= |steps| < |states|
    ensures steps[n - 1].Restart? ==> !Stopped(log, states, steps, n)
    ensures steps[n - 1].Receive? ==>
              (Stopped(log, states, steps, n) <==>
               Stopped(log, states, steps, n - 1) || Drops(log, states[n - 1], steps[n - 1]))
  {
    if steps[n - 1].Restart? {
      forall i | 0 <= i < n && Drops(log, states[i], steps[i])
        ensures RestartBetween(steps, i, n)
      {
        assert i < n - 1 < n && steps[n - 1].Restart?;
      }
    } else {
      forall i | 0 <= i < n - 1
        ensures RestartBetween(steps, i, n) <==> RestartBetween(steps, i, n - 1)
      {
      }
      assert !RestartBetween(steps, n - 1, n);
    }
  }

  /** On every log, whatever the timestamps, the absent fields and the rejected messages, and over every run
      in which nothing is handled between a database error and the next restart: a consumer that has
      re-read to its high-water mark without an error holds exactly the table of one clean delivery. */
  lemma GuardedRecovery<K(!new), C(!new), V>(defaults: map<C, V>, log: seq<Item<K, C, V>>, t: Table<K, C, V>,
                                            states: seq<State<K, C, V>>, steps: seq<Step>)
    requires IsRunFrom(defaults, log, Start(t), states, steps)
    requires ErrorsEndSessions(log, states, steps) && !Stopped(log, states, steps, |steps|)
    requires states[|steps|].pos == states[|steps|].high
    ensures states[|steps|].high <= |log|
    ensures states[|steps|].table == ApplyAll(defaults, t, log[..states[|steps|].high])
  {
    var s := states[|steps|];
    var still := RestorableHolds(defaults, log, t, states, steps, |steps|);
    forall k
      ensures Get(s.table, k) == Get(ApplyAll(defaults, t, log[..s.high]), k)
    {
      assert RowRestorable(defaults, log, t, still, k);
      assert log[s.pos..s.high] == [];
      RowsAreIndependent(defaults, t, log[..s.high], k);
    }
    MapsEqual(s.table, ApplyAll(defaults, t, log[..s.high]));
  }
}
