/** One row of a guarded table, as the statements of handleInterface and handleVlan treat it: an insert
    takes the defaults overlaid with the present columns, an update overlays the present columns, and
    an update older than the row is dropped. A column that is absent from a map is NULL. */
module Register {
  import opened Options

  datatype Msg<C, V> = Msg(time: int, cols: map<C, V>)
  datatype Reg<C, V> = Reg(time: int, cols: map<C, V>)

  function Merge<C, V>(defaults: map<C, V>, r: Option<Reg<C, V>>, m: Msg<C, V>): Reg<C, V> {
    match r
    case None => Reg(m.time, defaults + m.cols)
    case Some(row) => if m.time >= row.time then Reg(m.time, row.cols + m.cols) else row
  }

  function Fold<C, V>(defaults: map<C, V>, r: Option<Reg<C, V>>, ms: seq<Msg<C, V>>): Option<Reg<C, V>> {
    if ms == [] then r else Some(Merge(defaults, Fold(defaults, r, ms[..|ms| - 1]), ms[|ms| - 1]))
  }

  lemma {:induction false} FoldAppend<C, V>(defaults: map<C, V>, r: Option<Reg<C, V>>, a: seq<Msg<C, V>>, b: seq<Msg<C, V>>)
    ensures Fold(defaults, r, a + b) == Fold(defaults, Fold(defaults, r, a), b)
  {
    if b == [] {
      assert a + b == a;
    } else {
      assert (a + b)[..|a + b| - 1] == a + b[..|b| - 1];
      FoldAppend(defaults, r, a, b[..|b| - 1]);
    }
  }

  // ---- Exact meaning --------------------------------------------------------------------------------------

  /** Message j is not older than the row it started from nor than any message before it: the messages
      satisfying this form the running-maximum subsequence. */
  ghost predicate Accepted<C, V>(r: Option<Reg<C, V>>, ms: seq<Msg<C, V>>, j: int) {
    && 0 <= j < |ms|
    && (r.Some? ==> r.value.time <= ms[j].time)
    && (forall i :: 0 <= i < j ==> ms[i].time <= ms[j].time)
  }

  /** Message j is the last accepted message in which column c is present. */
  ghost predicate LastPresent<C, V>(r: Option<Reg<C, V>>, ms: seq<Msg<C, V>>, c: C, j: int) {
    && Accepted(r, ms, j) && c in ms[j].cols
    && (forall i :: j < i && Accepted(r, ms, i) ==> c !in ms[i].cols)
  }

  ghost predicate NeverPresent<C, V>(r: Option<Reg<C, V>>, ms: seq<Msg<C, V>>, c: C) {
    forall i :: Accepted(r, ms, i) ==> c !in ms[i].cols
  }

  /** What the columns are before any message is accepted. */
  function Base<C, V>(defaults: map<C, V>, r: Option<Reg<C, V>>): map<C, V> {
    if r.Some? then r.value.cols else defaults
  }

  ghost predicate IsMaxTime<C, V>(r: Option<Reg<C, V>>, ms: seq<Msg<C, V>>, t: int) {
    && (r.Some? ==> r.value.time <= t)
    && (forall i :: 0 <= i < |ms| ==> ms[i].time <= t)
    && ((r.Some? && r.value.time == t) || exists i :: 0 <= i < |ms| && ms[i].time == t)
  }

  /** collected_at is the maximum timestamp handled. */
  lemma {:induction false} TimeIsMaximum<C, V>(defaults: map<C, V>, r: Option<Reg<C, V>>, ms: seq<Msg<C, V>>)
    ensures Fold(defaults, r, ms).Some? <==> r.Some? || ms != []
    ensures Fold(defaults, r, ms).Some? ==> IsMaxTime(r, ms, Fold(defaults, r, ms).value.time)
  {
    if ms != [] {
      var n := |ms| - 1;
      var init := ms[..n];
      TimeIsMaximum(defaults, r, init);
      var t := Fold(defaults, r, ms).value.time;
      assert forall i :: 0 <= i < n ==> ms[i] == init[i];
      if Fold(defaults, r, init).Some? && t == Fold(defaults, r, init).value.time {
        if !(r.Some? && r.value.time == t) {
          var i :| 0 <= i < |init| && init[i].time == t;
          assert ms[i].time == t;
        }
      } else {
        assert ms[n].time == t;
      }
    }
  }

  lemma AcceptedPrefix<C, V>(r: Option<Reg<C, V>>, ms: seq<Msg<C, V>>, j: int)
    requires 0 <= j < |ms| - 1
    ensures Accepted(r, ms, j) <==> Accepted(r, ms[..|ms| - 1], j)
  {
    var init := ms[..|ms| - 1];
    assert forall i :: 0 <= i < |init| ==> ms[i] == init[i];
  }

  lemma LastAccepted<C, V>(defaults: map<C, V>, r: Option<Reg<C, V>>, ms: seq<Msg<C, V>>)
    requires ms != []
    ensures var before := Fold(defaults, r, ms[..|ms| - 1]);
            Accepted(r, ms, |ms| - 1) <==> before.None? || ms[|ms| - 1].time >= before.value.time
  {
    var init := ms[..|ms| - 1];
    TimeIsMaximum(defaults, r, init);
    assert forall i :: 0 <= i < |init| ==> ms[i] == init[i];
  }

  /** A last message that does not speak for the column changes nothing about who spoke last. */
  lemma StillLastPresent<C, V>(r: Option<Reg<C, V>>, ms: seq<Msg<C, V>>, init: seq<Msg<C, V>>, c: C, j: int)
    requires ms != [] && init == ms[..|ms| - 1]
    requires !(Accepted(r, ms, |ms| - 1) && c in ms[|ms| - 1].cols)
    requires LastPresent(r, init, c, j)
    ensures LastPresent(r, ms, c, j) && ms[j] == init[j]
  {
    AcceptedPrefix(r, ms, j);
    forall i | j < i && Accepted(r, ms, i)
      ensures c !in ms[i].cols
    {
      if i < |init| {
        AcceptedPrefix(r, ms, i);
        assert c !in init[i].cols;
      }
    }
  }

  lemma StillNeverPresent<C, V>(r: Option<Reg<C, V>>, ms: seq<Msg<C, V>>, init: seq<Msg<C, V>>, c: C)
    requires ms != [] && init == ms[..|ms| - 1]
    requires !(Accepted(r, ms, |ms| - 1) && c in ms[|ms| - 1].cols)
    requires NeverPresent(r, init, c)
    ensures NeverPresent(r, ms, c)
  {
    forall i | Accepted(r, ms, i)
      ensures c !in ms[i].cols
    {
      if i < |init| {
        AcceptedPrefix(r, ms, i);
        assert c !in init[i].cols;
      }
    }
  }

  /** Column c of the row is what message j says, j being the last accepted message carrying c; a negative j
      stands for no such message. */
  ghost predicate ComesFrom<C, V>(defaults: map<C, V>, r: Option<Reg<C, V>>, ms: seq<Msg<C, V>>, c: C, j: int)
    requires Fold(defaults, r, ms).Some?
  {
    if 0 <= j
    then LastPresent(r, ms, c, j) && Get(Fold(defaults, r, ms).value.cols, c) == Some(ms[j].cols[c])
    else NeverPresent(r, ms, c) && Get(Fold(defaults, r, ms).value.cols, c) == Get(Base(defaults, r), c)
  }

  lemma FirstColumn<C, V>(defaults: map<C, V>, m: Msg<C, V>, c: C) returns (j: int)
    ensures Fold(defaults, None, [m]).Some? && ComesFrom(defaults, None, [m], c, j)
  {
    assert [m][..0] == [];
    j := if c in m.cols then 0 else -1;
  }

  lemma NextColumn<C, V>(defaults: map<C, V>, r: Option<Reg<C, V>>, ms: seq<Msg<C, V>>, c: C, i: int) returns (j: int)
    requires ms != [] && Fold(defaults, r, ms[..|ms| - 1]).Some? && ComesFrom(defaults, r, ms[..|ms| - 1], c, i)
    ensures ComesFrom(defaults, r, ms, c, j)
  {
    var n := |ms| - 1;
    LastAccepted(defaults, r, ms);
    if Accepted(r, ms, n) && c in ms[n].cols {
      j := n;
    } else {
      j := i;
      if 0 <= i {
        StillLastPresent(r, ms, ms[..n], c, i);
      } else {
        StillNeverPresent(r, ms, ms[..n], c);
      }
    }
  }

  /** Each column is the last value present in the running-maximum subsequence, or what it was before. */
  lemma {:induction false} ColumnMeaning<C, V>(defaults: map<C, V>, r: Option<Reg<C, V>>, ms: seq<Msg<C, V>>, c: C)
    returns (j: int)
    requires r.Some? || ms != []
    ensures Fold(defaults, r, ms).Some?
    ensures ComesFrom(defaults, r, ms, c, j)
  {
    if ms == [] {
      j := -1;
    } else if r.None? && |ms| == 1 {
      assert ms == [ms[0]];
      j := FirstColumn(defaults, ms[0], c);
    } else {
      var i := ColumnMeaning(defaults, r, ms[..|ms| - 1], c);
      j := NextColumn(defaults, r, ms, c, i);
    }
  }

  /** A value cleared or set at time t by the newest message carrying the column survives every
      later-arriving message that is older than t. */
  lemma ClearSurvivesLateArrivals<C, V>(defaults: map<C, V>, r: Option<Reg<C, V>>, before: seq<Msg<C, V>>,
                                       m: Msg<C, V>, late: seq<Msg<C, V>>)
    requires Accepted(r, before + [m], |before|)
    requires forall i :: 0 <= i < |late| ==> late[i].time < m.time
    ensures Fold(defaults, r, before + [m] + late) == Fold(defaults, r, before + [m])
    ensures forall c :: c in m.cols ==> Get(Fold(defaults, r, before + [m] + late).value.cols, c) == Some(m.cols[c])
  {
    var ms := before + [m];
    assert ms[..|ms| - 1] == before;
    LastAccepted(defaults, r, ms);
    FoldAppend(defaults, r, ms, late);
    StaleAreDropped(defaults, Fold(defaults, r, ms), late);
  }

  lemma {:induction false} StaleAreDropped<C, V>(defaults: map<C, V>, r: Option<Reg<C, V>>, late: seq<Msg<C, V>>)
    requires r.Some?
    requires forall i :: 0 <= i < |late| ==> late[i].time < r.value.time
    ensures Fold(defaults, r, late) == r
  {
    if late != [] {
      StaleAreDropped(defaults, r, late[..|late| - 1]);
    }
  }

  // ---- Redelivery -------------------------------------------------------------------------------------------

  lemma RegsEqual<C(!new), V>(a: Reg<C, V>, b: Reg<C, V>)
    requires a.time == b.time
    requires forall c :: Get(a.cols, c) == Get(b.cols, c)
    ensures a == b
  {
    MapsEqual(a.cols, b.cols);
  }

  /** From a row that is as new as all of them, exactly the messages of that very time are accepted. */
  lemma AcceptedAtMaximum<C, V>(x: Reg<C, V>, ms: seq<Msg<C, V>>)
    requires forall i :: 0 <= i < |ms| ==> ms[i].time <= x.time
    ensures forall i :: Accepted(Some(x), ms, i) <==> 0 <= i < |ms| && ms[i].time == x.time
  {
  }

  /** Message j is the last one at the row's own time that carries the column. */
  ghost predicate LastAtTime<C, V>(x: Reg<C, V>, ms: seq<Msg<C, V>>, c: C, j: int) {
    && 0 <= j < |ms| && ms[j].time == x.time && c in ms[j].cols
    && forall i :: j < i < |ms| && ms[i].time == x.time ==> c !in ms[i].cols
  }

  /** Read into a row that is as new as all of them, messages set a column to what the last one at the row's
      time carries; otherwise they leave it. */
  lemma ColumnAtMaximum<C, V>(defaults: map<C, V>, ms: seq<Msg<C, V>>, x: Reg<C, V>, c: C) returns (j: int)
    requires forall i :: 0 <= i < |ms| ==> ms[i].time <= x.time
    ensures Fold(defaults, Some(x), ms).Some?
    ensures 0 <= j ==> LastAtTime(x, ms, c, j) && Get(Fold(defaults, Some(x), ms).value.cols, c) == Some(ms[j].cols[c])
    ensures j < 0 ==> (forall i :: 0 <= i < |ms| && ms[i].time == x.time ==> c !in ms[i].cols)
    ensures j < 0 ==> Get(Fold(defaults, Some(x), ms).value.cols, c) == Get(x.cols, c)
  {
    AcceptedAtMaximum(x, ms);
    j := ColumnMeaning(defaults, Some(x), ms, c);
  }

  /** What the column becomes when `b` is read after `a`, all of it no newer than the row. */
  lemma LaterPartDecides<C, V>(defaults: map<C, V>, a: seq<Msg<C, V>>, b: seq<Msg<C, V>>, x: Reg<C, V>, c: C)
    returns (j: int)
    requires forall i :: 0 <= i < |a + b| ==> (a + b)[i].time <= x.time
    ensures j < 0 ==> Get(Fold(defaults, Some(x), a + b).value.cols, c) == Get(Fold(defaults, Some(x), b).value.cols, c)
    ensures 0 <= j ==>
              && j < |a| && LastAtTime(x, a + b, c, j)
              && Get(Fold(defaults, Some(x), a + b).value.cols, c) == Some(a[j].cols[c])
  {
    var ab := a + b;
    assert forall i :: 0 <= i < |b| ==> b[i] == ab[|a| + i];
    j := ColumnAtMaximum(defaults, ab, x, c);
    var l := ColumnAtMaximum(defaults, b, x, c);
    if 0 <= l {
      assert ab[|a| + l] == b[l];
      j := -1;
    }
  }

  /** One column of RedeliverMore. */
  lemma RedeliverColumn<C, V>(defaults: map<C, V>, r: Option<Reg<C, V>>, p: seq<Msg<C, V>>, a: seq<Msg<C, V>>,
                              b: seq<Msg<C, V>>, x: Reg<C, V>, c: C)
    requires Fold(defaults, r, p + (a + b)).Some? && x.time == Fold(defaults, r, p + (a + b)).value.time
    requires Fold(defaults, Some(x), b) == Fold(defaults, r, p + (a + b))
    ensures Get(Fold(defaults, Some(x), a + b).value.cols, c) == Get(Fold(defaults, Some(x), b).value.cols, c)
  {
    var all, ab := p + (a + b), a + b;
    TimeIsMaximum(defaults, r, all);
    assert forall i :: 0 <= i < |ab| ==> ab[i] == all[|p| + i];
    var j := LaterPartDecides(defaults, a, b, x, c);
    if 0 <= j {
      assert all[|p| + j] == a[j];
      forall i | |p| + j < i < |all| && all[i].time == x.time
        ensures c !in all[i].cols
      {
        assert all[i] == ab[i - |p|];
      }
      LastOfMaximalTime(defaults, r, all, c, |p| + j);
    }
  }

  /** If message j has the maximal time and column c, and no later message of that time has c, the column
      comes from message j. */
  lemma LastOfMaximalTime<C, V>(defaults: map<C, V>, r: Option<Reg<C, V>>, ms: seq<Msg<C, V>>, c: C, j: int)
    requires 0 <= j < |ms| && c in ms[j].cols
    requires IsMaxTime(r, ms, ms[j].time)
    requires forall i :: j < i < |ms| && ms[i].time == ms[j].time ==> c !in ms[i].cols
    ensures Fold(defaults, r, ms).Some? && Get(Fold(defaults, r, ms).value.cols, c) == Some(ms[j].cols[c])
  {
    var l := ColumnMeaning(defaults, r, ms, c);
    assert Accepted(r, ms, j);
  }

  /** If re-reading `b` restores the row, so does re-reading from further back. The row x already carries
      the final time; its columns may have been moved backwards by a partial redelivery. */
  lemma RedeliverMore<C(!new), V>(defaults: map<C, V>, r: Option<Reg<C, V>>, p: seq<Msg<C, V>>, a: seq<Msg<C, V>>,
                                 b: seq<Msg<C, V>>, x: Reg<C, V>)
    requires Fold(defaults, r, p + (a + b)).Some? && x.time == Fold(defaults, r, p + (a + b)).value.time
    requires Fold(defaults, Some(x), b) == Fold(defaults, r, p + (a + b))
    ensures Fold(defaults, Some(x), a + b) == Fold(defaults, r, p + (a + b))
  {
    var all, ab := p + (a + b), a + b;
    TimeIsMaximum(defaults, r, all);
    TimeIsMaximum(defaults, Some(x), ab);
    assert forall i :: 0 <= i < |ab| ==> ab[i] == all[|p| + i];
    forall c
      ensures Get(Fold(defaults, Some(x), ab).value.cols, c) == Get(Fold(defaults, r, all).value.cols, c)
    {
      RedeliverColumn(defaults, r, p, a, b, x, c);
    }
    RegsEqual(Fold(defaults, Some(x), ab).value, Fold(defaults, r, all).value);
  }

  /** Redelivering any suffix of what a row has already seen leaves the row exactly as it was. */
  lemma RedeliveryIsNoOp<C(!new), V>(defaults: map<C, V>, r: Option<Reg<C, V>>, ms: seq<Msg<C, V>>, from: nat)
    requires from <= |ms|
    ensures Fold(defaults, Fold(defaults, r, ms), ms[from..]) == Fold(defaults, r, ms)
  {
    var done := Fold(defaults, r, ms);
    TimeIsMaximum(defaults, r, ms);
    if done.Some? {
      assert ms[..from] + (ms[from..] + []) == ms;
      assert ms[from..] + [] == ms[from..];
      RedeliverMore(defaults, r, ms[..from], ms[from..], [], done.value);
    }
  }
}
