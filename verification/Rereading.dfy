/** What a database error costs a guarded table: which messages are marked past unhandled, and exactly when
    re-reading the log repairs a row. */
module Rereading {
  import opened Options
  import opened Statements
  import opened Register
  import opened GuardedLog

  // ---- One row ---------------------------------------------------------------------------------------------------

  /** What the messages say about a column: the value in the last accepted message that carries it, or else
      what was there before. */
  ghost function Spoken<C, V>(defaults: map<C, V>, r: Option<Reg<C, V>>, ms: seq<Msg<C, V>>, c: C): Option<V> {
    if exists j :: LastPresent(r, ms, c, j) then
      var j :| LastPresent(r, ms, c, j);
      Some(ms[j].cols[c])
    else
      Get(Base(defaults, r), c)
  }

  lemma LastPresentSpeaks<C, V>(defaults: map<C, V>, r: Option<Reg<C, V>>, ms: seq<Msg<C, V>>, c: C, j: int)
    requires LastPresent(r, ms, c, j)
    ensures Spoken(defaults, r, ms, c) == Some(ms[j].cols[c])
  {
    assert forall i :: LastPresent(r, ms, c, i) ==> !(i < j) && !(j < i);
  }

  lemma NobodySpeaks<C, V>(defaults: map<C, V>, r: Option<Reg<C, V>>, ms: seq<Msg<C, V>>, c: C)
    requires NeverPresent(r, ms, c)
    ensures Spoken(defaults, r, ms, c) == Get(Base(defaults, r), c)
  {
    assert forall i :: !LastPresent(r, ms, c, i);
  }

  lemma ColumnIsSpoken<C, V>(defaults: map<C, V>, r: Option<Reg<C, V>>, ms: seq<Msg<C, V>>, c: C)
    requires r.Some? || ms != []
    ensures Fold(defaults, r, ms).Some?
    ensures Get(Fold(defaults, r, ms).value.cols, c) == Spoken(defaults, r, ms, c)
  {
    var j := ColumnMeaning(defaults, r, ms, c);
    if 0 <= j {
      LastPresentSpeaks(defaults, r, ms, c, j);
    } else {
      NobodySpeaks(defaults, r, ms, c);
    }
  }

  /** The row's own time, or one in the tail, is the newest time of everything ever sent for the key. */
  ghost predicate TimeRegained<C, V>(r: Option<Reg<C, V>>, all: seq<Msg<C, V>>, row: Option<Reg<C, V>>, tail: seq<Msg<C, V>>) {
    forall t :: IsMaxTime(r, all, t) ==> IsMaxTime(row, tail, t)
  }

  /** The last message of the tail that is accepted against the row and carries the column, or the row itself
      if there is none, says what the whole sequence says. */
  ghost predicate ColumnRegained<C, V>(defaults: map<C, V>, r: Option<Reg<C, V>>, all: seq<Msg<C, V>>,
                                       row: Option<Reg<C, V>>, tail: seq<Msg<C, V>>, c: C) {
    Spoken(defaults, row, tail, c) == Spoken(defaults, r, all, c)
  }

  ghost predicate Regained<C(!new), V>(defaults: map<C, V>, r: Option<Reg<C, V>>, all: seq<Msg<C, V>>,
                                       row: Option<Reg<C, V>>, tail: seq<Msg<C, V>>) {
    TimeRegained(r, all, row, tail) && forall c :: ColumnRegained(defaults, r, all, row, tail, c)
  }

  /** A row is never newer than what one clean delivery would have left. */
  ghost predicate NotAhead<C, V>(row: Option<Reg<C, V>>, final: Option<Reg<C, V>>) {
    row.Some? ==> final.Some? && row.value.time <= final.value.time
  }

  lemma SameTimeIff<C, V>(defaults: map<C, V>, r: Option<Reg<C, V>>, all: seq<Msg<C, V>>,
                          row: Option<Reg<C, V>>, tail: seq<Msg<C, V>>)
    requires Fold(defaults, r, all).Some?
    ensures TimeRegained(r, all, row, tail) <==>
            Fold(defaults, row, tail).Some? && Fold(defaults, row, tail).value.time == Fold(defaults, r, all).value.time
  {
    TimeIsMaximum(defaults, r, all);
    TimeIsMaximum(defaults, row, tail);
  }

  /** Re-reading the tail gives the row of one clean delivery exactly when the row is regained. */
  lemma RereadRowIff<C(!new), V>(defaults: map<C, V>, r: Option<Reg<C, V>>, all: seq<Msg<C, V>>,
                                 row: Option<Reg<C, V>>, tail: seq<Msg<C, V>>)
    requires tail != [] ==> all != []
    requires NotAhead(row, Fold(defaults, r, all))
    ensures Fold(defaults, row, tail) == Fold(defaults, r, all) <==> Regained(defaults, r, all, row, tail)
  {
    TimeIsMaximum(defaults, r, all);
    TimeIsMaximum(defaults, row, tail);
    if Fold(defaults, r, all).Some? {
      SameTimeIff(defaults, r, all, row, tail);
      forall c
        ensures Get(Fold(defaults, r, all).value.cols, c) == Spoken(defaults, r, all, c)
        ensures Fold(defaults, row, tail).Some? ==>
                  Get(Fold(defaults, row, tail).value.cols, c) == Spoken(defaults, row, tail, c)
      {
        ColumnIsSpoken(defaults, r, all, c);
        if Fold(defaults, row, tail).Some? {
          ColumnIsSpoken(defaults, row, tail, c);
        }
      }
      if Regained(defaults, r, all, row, tail) {
        forall c
          ensures Get(Fold(defaults, row, tail).value.cols, c) == Get(Fold(defaults, r, all).value.cols, c)
        {
          assert ColumnRegained(defaults, r, all, row, tail, c);
        }
        RegsEqual(Fold(defaults, row, tail).value, Fold(defaults, r, all).value);
      }
    }
  }

  // ---- The whole table ---------------------------------------------------------------------------------------------

  ghost predicate RowNotAhead<K, C, V>(defaults: map<C, V>, log: seq<Item<K, C, V>>, t: Table<K, C, V>,
                                       s: State<K, C, V>, k: K)
    requires Bounds(log, s)
  {
    NotAhead(Get(s.table, k), Fold(defaults, Get(t, k), For(k, log[..s.high])))
  }

  /** Messages can only move the final row's time forward. */
  lemma {:induction false} LongerIsNewer<C, V>(defaults: map<C, V>, r: Option<Reg<C, V>>, a: seq<Msg<C, V>>, b: seq<Msg<C, V>>)
    ensures NotAhead(Fold(defaults, r, a), Fold(defaults, r, a + b))
  {
    if b == [] {
      assert a + b == a;
    } else {
      assert (a + b)[..|a + b| - 1] == a + b[..|b| - 1];
      LongerIsNewer(defaults, r, a, b[..|b| - 1]);
    }
  }

  lemma LaterIsNewer<K, C, V>(defaults: map<C, V>, log: seq<Item<K, C, V>>, t: Table<K, C, V>, row: Option<Reg<C, V>>,
                              a: nat, b: nat, k: K)
    requires a <= b <= |log|
    requires NotAhead(row, Fold(defaults, Get(t, k), For(k, log[..a])))
    ensures NotAhead(row, Fold(defaults, Get(t, k), For(k, log[..b])))
  {
    assert log[..b] == log[..a] + log[a..b];
    ForAppend(k, log[..a], log[a..b]);
    LongerIsNewer(defaults, Get(t, k), For(k, log[..a]), For(k, log[a..b]));
  }

  lemma StepKeepsNotAhead<K, C, V>(defaults: map<C, V>, log: seq<Item<K, C, V>>, t: Table<K, C, V>,
                                   s: State<K, C, V>, step: Step, k: K)
    requires Bounds(log, s) && Enabled(log, s, step) && RowNotAhead(defaults, log, t, s, k)
    ensures Bounds(log, Next(defaults, log, s, step))
    ensures RowNotAhead(defaults, log, t, Next(defaults, log, s, step), k)
  {
    if step.Receive? {
      var s', item := Next(defaults, log, s, step), log[s.pos];
      LaterIsNewer(defaults, log, t, Get(s.table, k), s.high, s'.high, k);
      if item.Item? && item.key == k {
        var i := MessageAt(k, log, s.pos, s'.high);
        TimeIsMaximum(defaults, Get(t, k), For(k, log[..s'.high]));
      }
    }
  }

  lemma {:induction false} NotAheadHolds<K, C, V>(defaults: map<C, V>, log: seq<Item<K, C, V>>, t: Table<K, C, V>,
                                                 states: seq<State<K, C, V>>, steps: seq<Step>, n: nat, k: K)
    requires IsRunFrom(defaults, log, Start(t), states, steps) && n <= |steps|
    ensures Bounds(log, states[n]) && RowNotAhead(defaults, log, t, states[n], k)
  {
    if n > 0 {
      NotAheadHolds(defaults, log, t, states, steps, n - 1, k);
      StepKeepsNotAhead(defaults, log, t, states[n - 1], steps[n - 1], k);
    }
  }

  /** Only messages are read, and the database fails on none. */
  ghost predicate ErrorFree(steps: seq<Step>) {
    forall i :: 0 <= i < |steps| ==> steps[i].Receive? && !steps[i].outcome.Fails?
  }

  /** An error-free stretch folds what it reads into each row. */
  lemma {:induction false} ErrorFreeReads<K, C, V>(defaults: map<C, V>, log: seq<Item<K, C, V>>, s: State<K, C, V>,
                                                  states: seq<State<K, C, V>>, steps: seq<Step>, n: nat, k: K)
    requires IsRunFrom(defaults, log, s, states, steps) && ErrorFree(steps) && Bounds(log, s) && n <= |steps|
    ensures Bounds(log, states[n]) && states[n].pos == s.pos + n
    ensures s.high <= states[n].high
    ensures Get(states[n].table, k) == Fold(defaults, Get(s.table, k), For(k, log[s.pos..states[n].pos]))
  {
    BoundsHold(defaults, log, s, states, steps, n);
    if n == 0 {
      assert log[s.pos..s.pos] == [];
    } else {
      ErrorFreeReads(defaults, log, s, states, steps, n - 1, k);
      var before := states[n - 1];
      var item := log[before.pos];
      assert states[n] == Next(defaults, log, before, steps[n - 1]);
      OneItem(defaults, before.table, item, k);
      assert log[s.pos..before.pos + 1] == log[s.pos..before.pos] + [item];
      ForAppend(k, log[s.pos..before.pos], [item]);
      FoldAppend(defaults, Get(s.table, k), For(k, log[s.pos..before.pos]), For(k, [item]));
    }
  }

  /** The row of k, as it is when reading starts again at c, is regained by the messages from c up to `end`. */
  ghost predicate RowRegained<K, C(!new), V>(defaults: map<C, V>, log: seq<Item<K, C, V>>, t: Table<K, C, V>,
                                             table: Table<K, C, V>, c: nat, end: nat, k: K)
    requires c <= end <= |log|
  {
    Regained(defaults, Get(t, k), For(k, log[..end]), Get(table, k), For(k, log[c..end]))
  }

  lemma RereadRestoresRowIff<K, C(!new), V>(
    defaults: map<C, V>, log: seq<Item<K, C, V>>, t: Table<K, C, V>, states: seq<State<K, C, V>>, steps: seq<Step>,
    c: nat, again: seq<State<K, C, V>>, rest: seq<Step>, k: K)
    requires IsRunFrom(defaults, log, Start(t), states, steps) && c <= states[|steps|].marked
    requires IsRunFrom(defaults, log, Next(defaults, log, states[|steps|], Restart(c)), again, rest) && ErrorFree(rest)
    requires again[|rest|].pos == again[|rest|].high
    ensures c <= again[|rest|].high <= |log|
    ensures Get(again[|rest|].table, k) == Get(ApplyAll(defaults, t, log[..again[|rest|].high]), k) <==>
            RowRegained(defaults, log, t, states[|steps|].table, c, again[|rest|].high, k)
  {
    var s, end := states[|steps|], again[|rest|].high;
    NotAheadHolds(defaults, log, t, states, steps, |steps|, k);
    ErrorFreeReads(defaults, log, again[0], again, rest, |rest|, k);
    LaterIsNewer(defaults, log, t, Get(s.table, k), s.high, end, k);
    SplitFor(k, log, c, c, end);
    RowsAreIndependent(defaults, t, log[..end], k);
    RereadRowIff(defaults, Get(t, k), For(k, log[..end]), Get(s.table, k), For(k, log[c..end]));
  }

  /** Exactness. Take any run, with database errors wherever they fell, restart it at any committed offset, and
      let it read without an error to its high-water mark or beyond. The table is then the one of one clean
      delivery if and only if every row was regained. */
  lemma RereadRestoresIff<K(!new), C(!new), V>(
    defaults: map<C, V>, log: seq<Item<K, C, V>>, t: Table<K, C, V>, states: seq<State<K, C, V>>, steps: seq<Step>,
    c: nat, again: seq<State<K, C, V>>, rest: seq<Step>)
    requires IsRunFrom(defaults, log, Start(t), states, steps) && c <= states[|steps|].marked
    requires IsRunFrom(defaults, log, Next(defaults, log, states[|steps|], Restart(c)), again, rest) && ErrorFree(rest)
    requires again[|rest|].pos == again[|rest|].high
    ensures c <= again[|rest|].high <= |log|
    ensures again[|rest|].table == ApplyAll(defaults, t, log[..again[|rest|].high]) <==>
            forall k :: RowRegained(defaults, log, t, states[|steps|].table, c, again[|rest|].high, k)
  {
    var end := again[|rest|];
    BoundsHold(defaults, log, Start(t), states, steps, |steps|);
    ErrorFreeStays(defaults, log, again[0], again, rest);
    var clean := ApplyAll(defaults, t, log[..end.high]);
    forall k
      ensures Get(end.table, k) == Get(clean, k) <==>
              RowRegained(defaults, log, t, states[|steps|].table, c, end.high, k)
    {
      RereadRestoresRowIff(defaults, log, t, states, steps, c, again, rest, k);
    }
    if forall k :: RowRegained(defaults, log, t, states[|steps|].table, c, end.high, k) {
      MapsEqual(end.table, clean);
    }
  }

  lemma {:induction false} ErrorFreeStays<K, C, V>(defaults: map<C, V>, log: seq<Item<K, C, V>>, s: State<K, C, V>,
                                                  states: seq<State<K, C, V>>, steps: seq<Step>)
    requires IsRunFrom(defaults, log, s, states, steps) && ErrorFree(steps) && Bounds(log, s)
    ensures Bounds(log, states[|steps|]) && s.pos <= states[|steps|].pos
  {
    BoundsHold(defaults, log, s, states, steps, |steps|);
    if steps != [] {
      var n := |steps| - 1;
      ErrorFreeStays(defaults, log, s, states[..n + 1], steps[..n]);
      assert states[n + 1] == Next(defaults, log, states[n], steps[n]);
    }
  }

  // ---- What is marked past without having been handled ----------------------------------------------------------

  /** Offset i was brought into the table by one of the first n steps. */
  ghost predicate HandledBefore<K, C, V>(log: seq<Item<K, C, V>>, states: seq<State<K, C, V>>, steps: seq<Step>, n: int, i: int)
    requires n <= |steps| < |states|
  {
    exists a :: 0 <= a < n && Handles(log, states[a], steps[a]) && states[a].pos == i
  }

  ghost predicate DroppedBefore<K, C, V>(log: seq<Item<K, C, V>>, states: seq<State<K, C, V>>, steps: seq<Step>, n: int, i: int)
    requires n <= |steps| < |states|
  {
    exists a :: 0 <= a < n && Drops(log, states[a], steps[a]) && states[a].pos == i
  }

  /** In every state of the run, each acceptable message below the marked offset has been handled. */
  ghost predicate NothingSkipped<K, C, V>(log: seq<Item<K, C, V>>, states: seq<State<K, C, V>>, steps: seq<Step>)
    requires |states| == |steps| + 1
  {
    forall n, i :: 0 <= n <= |steps| && 0 <= i < states[n].marked && i < |log| && log[i].Item? ==>
                     HandledBefore(log, states, steps, n, i)
  }

  /** An acknowledged message comes only after every dropped one below it has been handled after all. */
  ghost predicate ErrorsAreRetriedFirst<K, C, V>(log: seq<Item<K, C, V>>, states: seq<State<K, C, V>>, steps: seq<Step>)
    requires |states| == |steps| + 1
  {
    forall a, b :: (0 <= a < b < |steps| && Drops(log, states[a], steps[a]) && Succeeds(log, states[b], steps[b])
                    && states[a].pos < states[b].pos) ==> HandledBefore(log, states, steps, b, states[a].pos)
  }

  predicate Succeeds<K, C, V>(log: seq<Item<K, C, V>>, s: State<K, C, V>, step: Step) {
    step.Receive? && s.pos < |log| && Acknowledged(log[s.pos], step.outcome)
  }

  /** Between the marked offset and the cursor every acceptable message was handled or dropped. */
  lemma {:induction false} ReadSinceMark<K, C, V>(defaults: map<C, V>, log: seq<Item<K, C, V>>, t: Table<K, C, V>,
                                                 states: seq<State<K, C, V>>, steps: seq<Step>, n: nat, i: int)
    requires IsRunFrom(defaults, log, Start(t), states, steps) && n <= |steps|
    requires states[n].marked <= i < states[n].pos && i < |log| && log[i].Item?
    ensures HandledBefore(log, states, steps, n, i) || DroppedBefore(log, states, steps, n, i)
  {
    if n > 0 {
      var s, step := states[n - 1], steps[n - 1];
      assert states[n] == Next(defaults, log, s, step);
      if step.Receive? && i < s.pos {
        ReadSinceMark(defaults, log, t, states, steps, n - 1, i);
      } else {
        assert Handles(log, s, step) || Drops(log, s, step);
      }
    }
  }

  lemma {:induction false} RetriedMeansNotSkipped<K, C, V>(
    defaults: map<C, V>, log: seq<Item<K, C, V>>, t: Table<K, C, V>, states: seq<State<K, C, V>>, steps: seq<Step>, n: nat, i: int)
    requires IsRunFrom(defaults, log, Start(t), states, steps) && n <= |steps|
    requires ErrorsAreRetriedFirst(log, states, steps)
    requires 0 <= i < states[n].marked && i < |log| && log[i].Item?
    ensures HandledBefore(log, states, steps, n, i)
  {
    if n > 0 {
      var s, step := states[n - 1], steps[n - 1];
      assert states[n] == Next(defaults, log, s, step);
      if i < s.marked {
        RetriedMeansNotSkipped(defaults, log, t, states, steps, n - 1, i);
      } else {
        assert Succeeds(log, s, step) && Handles(log, s, step);
        if i < s.pos {
          ReadSinceMark(defaults, log, t, states, steps, n - 1, i);
        }
      }
    }
  }

  lemma SkippedMeansUnretried<K, C, V>(
    defaults: map<C, V>, log: seq<Item<K, C, V>>, t: Table<K, C, V>, states: seq<State<K, C, V>>, steps: seq<Step>, a: nat, b: nat)
    requires IsRunFrom(defaults, log, Start(t), states, steps) && NothingSkipped(log, states, steps)
    requires a < b < |steps| && Drops(log, states[a], steps[a]) && Succeeds(log, states[b], steps[b])
    requires states[a].pos < states[b].pos
    ensures HandledBefore(log, states, steps, b, states[a].pos)
  {
    assert states[b + 1] == Next(defaults, log, states[b], steps[b]);
    var i := states[a].pos;
    assert HandledBefore(log, states, steps, b + 1, i);
  }

  /** Over every run with restarts: in every state all acceptable messages below the marked offset have been
      handled, exactly when no message is acknowledged above a dropped one that has never been handled. */
  lemma NothingSkippedIff<K, C, V>(defaults: map<C, V>, log: seq<Item<K, C, V>>, t: Table<K, C, V>,
                                   states: seq<State<K, C, V>>, steps: seq<Step>)
    requires IsRunFrom(defaults, log, Start(t), states, steps)
    ensures NothingSkipped(log, states, steps) <==> ErrorsAreRetriedFirst(log, states, steps)
  {
    if ErrorsAreRetriedFirst(log, states, steps) {
      forall n, i | 0 <= n <= |steps| && 0 <= i < states[n].marked && i < |log| && log[i].Item?
        ensures HandledBefore(log, states, steps, n, i)
      {
        RetriedMeansNotSkipped(defaults, log, t, states, steps, n, i);
      }
    }
    if NothingSkipped(log, states, steps) {
      forall a, b | 0 <= a < b < |steps| && Drops(log, states[a], steps[a]) && Succeeds(log, states[b], steps[b])
                    && states[a].pos < states[b].pos
        ensures HandledBefore(log, states, steps, b, states[a].pos)
      {
        SkippedMeansUnretried(defaults, log, t, states, steps, a, b);
      }
    }
  }

  // ---- An error that re-reading does not repair -------------------------------------------------------------------

  /** A concrete run: the database fails on a message with a description, a newer message without one is
      handled and marked, and both are read again. The newer row now drops the older message, so the
      description is gone although the consumer has caught up. */
  lemma DroppedMessageStaysLost()
    ensures var log := [Item(1, Msg(1, map['d' := 10])), Item(1, Msg(2, map[]))];
            var steps := [Receive(Fails), Receive(Commits), Restart(0), Receive(Commits), Receive(Commits)];
            exists states: seq<State<int, char, int>> ::
              && IsRunFrom<int, char, int>(map[], log, Start(map[]), states, steps)
              && states[2].marked == |log| && !HandledBefore(log, states, steps, 2, 0)
              && states[5].pos == states[5].high == |log| == states[5].marked
              && Get(states[5].table, 1) == Some(Reg(2, map[]))
              && Get(ApplyAll(map[], map[], log), 1) == Some(Reg(2, map['d' := 10]))
  {
    var m0: Msg<char, int>, m1: Msg<char, int> := Msg(1, map['d' := 10]), Msg(2, map[]);
    var none: map<char, int> := map[];
    var log: seq<Item<int, char, int>> := [Item(1, m0), Item(1, m1)];
    var steps := [Receive(Fails), Receive(Commits), Restart(0), Receive(Commits), Receive(Commits)];
    var s0: State<int, char, int> := Start(map[]);
    var s1 := Next(none, log, s0, steps[0]);
    var s2 := Next(none, log, s1, steps[1]);
    var s3 := Next(none, log, s2, steps[2]);
    var s4 := Next(none, log, s3, steps[3]);
    var s5 := Next(none, log, s4, steps[4]);
    var states := [s0, s1, s2, s3, s4, s5];
    assert IsRunFrom(none, log, s0, states, steps);
    assert none + none == none && none + m0.cols == m0.cols == m0.cols + none;
    var empty: Table<int, char, int> := map[];
    assert log[..1] == [Item(1, m0)] && log[..1][..0] == [];
    assert ApplyAll(none, empty, log[..1]) == map[1 := Reg(1, m0.cols)];
    assert log[..|log| - 1] == log[..1];
    assert Get(ApplyAll(none, empty, log), 1) == Some(Reg(2, m0.cols));
    assert Get(s2.table, 1) == Some(Reg(2, none));
    assert Get(s5.table, 1) == Some(Reg(2, none));
    assert states[5] == s5;
  }
}
