/** Exactly which collections of messages for one key give the same row in every arrival order. */
module OrderFreedom {
  import opened Options
  import opened Register

  ghost predicate IsNewest<C, V>(ms: seq<Msg<C, V>>, m: Msg<C, V>) {
    m in ms && forall x :: x in ms ==> x.time <= m.time
  }

  ghost predicate OrderFree<C(!new), V(!new)>(defaults: map<C, V>, ms: seq<Msg<C, V>>) {
    forall p: seq<Msg<C, V>> :: multiset(p) == multiset(ms) ==> Fold(defaults, None, p) == Fold(defaults, None, ms)
  }

  /** The newest messages agree where they overlap, and every column of an older message is either carried
      by a newest message too or says what the insert default says. */
  ghost predicate Reconciled<C(!new), V(!new)>(defaults: map<C, V>, ms: seq<Msg<C, V>>) {
    && (forall a, b, c :: IsNewest(ms, a) && IsNewest(ms, b) && c in a.cols && c in b.cols ==> a.cols[c] == b.cols[c])
    && (forall m, c :: m in ms && c in m.cols ==> CarriedByNewest(ms, c) || Get(defaults, c) == Some(m.cols[c]))
  }

  ghost predicate CarriedByNewest<C(!new), V(!new)>(ms: seq<Msg<C, V>>, c: C) {
    exists n :: IsNewest(ms, n) && c in n.cols
  }

  lemma NewestOf<C, V>(defaults: map<C, V>, ms: seq<Msg<C, V>>) returns (n: Msg<C, V>)
    requires ms != []
    ensures IsNewest(ms, n) && Fold(defaults, None, ms).Some? && Fold(defaults, None, ms).value.time == n.time
  {
    TimeIsMaximum(defaults, None, ms);
    var t := Fold(defaults, None, ms).value.time;
    var i :| 0 <= i < |ms| && ms[i].time == t;
    n := ms[i];
  }

  lemma NewestIsAccepted<C, V>(ms: seq<Msg<C, V>>, i: int)
    requires 0 <= i < |ms| && IsNewest(ms, ms[i])
    ensures Accepted(None, ms, i)
    ensures forall j :: i < j && Accepted(None, ms, j) ==> IsNewest(ms, ms[j])
  {
  }

  /** What a reconciled collection leaves in a column, in whatever order it arrived. */
  lemma ReconciledColumn<C(!new), V(!new)>(defaults: map<C, V>, ms: seq<Msg<C, V>>, c: C)
    requires ms != [] && Reconciled(defaults, ms)
    ensures Fold(defaults, None, ms).Some?
    ensures forall n :: IsNewest(ms, n) && c in n.cols ==> Get(Fold(defaults, None, ms).value.cols, c) == Some(n.cols[c])
    ensures !CarriedByNewest(ms, c) ==> Get(Fold(defaults, None, ms).value.cols, c) == Get(defaults, c)
  {
    var j := ColumnMeaning(defaults, None, ms, c);
    forall n | IsNewest(ms, n) && c in n.cols
      ensures Get(Fold(defaults, None, ms).value.cols, c) == Some(n.cols[c])
    {
      var i :| 0 <= i < |ms| && ms[i] == n;
      NewestIsAccepted(ms, i);
      assert IsNewest(ms, ms[j]);
    }
    if 0 <= j {
      assert ms[j] in ms;
    }
  }

  lemma SameMembers<C(!new), V(!new)>(p: seq<Msg<C, V>>, ms: seq<Msg<C, V>>)
    requires multiset(p) == multiset(ms)
    ensures forall m :: m in p <==> m in ms
    ensures forall m :: IsNewest(p, m) <==> IsNewest(ms, m)
  {
    forall m
      ensures m in p <==> m in ms
    {
      assert m in p <==> m in multiset(p);
      assert m in ms <==> m in multiset(ms);
    }
  }

  lemma SufficientForOrderFreedom<C(!new), V(!new)>(defaults: map<C, V>, ms: seq<Msg<C, V>>, p: seq<Msg<C, V>>)
    requires ms != [] && Reconciled(defaults, ms) && multiset(p) == multiset(ms)
    ensures Fold(defaults, None, p) == Fold(defaults, None, ms)
  {
    SameMembers(p, ms);
    assert ms[0] in p;
    var n := NewestOf(defaults, ms);
    var n' := NewestOf(defaults, p);
    assert n' in ms && n in p;
    assert Reconciled(defaults, p) by {
      forall c
        ensures CarriedByNewest(p, c) <==> CarriedByNewest(ms, c)
      {
      }
    }
    forall c
      ensures Get(Fold(defaults, None, p).value.cols, c) == Get(Fold(defaults, None, ms).value.cols, c)
    {
      ReconciledColumn(defaults, ms, c);
      ReconciledColumn(defaults, p, c);
      if CarriedByNewest(ms, c) {
        var x :| IsNewest(ms, x) && c in x.cols;
        assert IsNewest(p, x);
      }
    }
    RegsEqual(Fold(defaults, None, p).value, Fold(defaults, None, ms).value);
  }

  function ToFront<T>(s: seq<T>, i: nat): (p: seq<T>)
    requires i < |s|
    ensures multiset(p) == multiset(s)
  {
    assert s == s[..i] + [s[i]] + s[i + 1..];
    [s[i]] + s[..i] + s[i + 1..]
  }

  function ToBack<T>(s: seq<T>, i: nat): (p: seq<T>)
    requires i < |s|
    ensures multiset(p) == multiset(s)
  {
    assert s == s[..i] + [s[i]] + s[i + 1..];
    s[..i] + s[i + 1..] + [s[i]]
  }

  /** Arriving last, a newest message decides all its columns. */
  lemma LastNewestDecides<C(!new), V(!new)>(defaults: map<C, V>, p: seq<Msg<C, V>>, c: C)
    requires p != [] && IsNewest(p, p[|p| - 1]) && c in p[|p| - 1].cols
    ensures Fold(defaults, None, p).Some?
    ensures Get(Fold(defaults, None, p).value.cols, c) == Some(p[|p| - 1].cols[c])
  {
    NewestIsAccepted(p, |p| - 1);
    var j := ColumnMeaning(defaults, None, p, c);
  }

  lemma NewestMustAgree<C(!new), V(!new)>(defaults: map<C, V>, ms: seq<Msg<C, V>>, a: Msg<C, V>, b: Msg<C, V>, c: C)
    requires OrderFree(defaults, ms)
    requires IsNewest(ms, a) && IsNewest(ms, b) && c in a.cols && c in b.cols
    ensures a.cols[c] == b.cols[c]
  {
    var i: nat :| i < |ms| && ms[i] == a;
    var j: nat :| j < |ms| && ms[j] == b;
    var p, q := ToBack(ms, i), ToBack(ms, j);
    SameMembers(p, ms);
    SameMembers(q, ms);
    LastNewestDecides(defaults, p, c);
    LastNewestDecides(defaults, q, c);
  }

  /** Arriving first, a newest message shuts out every column that no newest message carries. */
  lemma NewestFirstShutsOut<C(!new), V(!new)>(defaults: map<C, V>, p: seq<Msg<C, V>>, c: C)
    requires p != [] && IsNewest(p, p[0]) && !CarriedByNewest(p, c)
    ensures Fold(defaults, None, p).Some?
    ensures Get(Fold(defaults, None, p).value.cols, c) == Get(defaults, c)
  {
    NewestIsAccepted(p, 0);
    var j := ColumnMeaning(defaults, None, p, c);
  }

  /** Arriving first, with a newest message right behind it, an older message keeps such a column. */
  lemma OlderFirstKeeps<C(!new), V(!new)>(defaults: map<C, V>, p: seq<Msg<C, V>>, c: C)
    requires |p| > 1 && IsNewest(p, p[1]) && !CarriedByNewest(p, c) && c in p[0].cols
    ensures Fold(defaults, None, p).Some?
    ensures Get(Fold(defaults, None, p).value.cols, c) == Some(p[0].cols[c])
  {
    NewestIsAccepted(p, 1);
    var j := ColumnMeaning(defaults, None, p, c);
    assert Accepted(None, p, 0);
  }

  lemma SomeNewestFirst<C(!new), V(!new)>(defaults: map<C, V>, ms: seq<Msg<C, V>>) returns (p: seq<Msg<C, V>>)
    requires ms != []
    ensures multiset(p) == multiset(ms) && |p| == |ms| && IsNewest(p, p[0])
    ensures forall m :: IsNewest(p, m) <==> IsNewest(ms, m)
  {
    var n := NewestOf(defaults, ms);
    var i: nat :| i < |ms| && ms[i] == n;
    p := ToFront(ms, i);
    SameMembers(p, ms);
  }

  lemma OlderMustMatchDefault<C(!new), V(!new)>(defaults: map<C, V>, ms: seq<Msg<C, V>>, m: Msg<C, V>, c: C)
    requires OrderFree(defaults, ms)
    requires m in ms && c in m.cols && !CarriedByNewest(ms, c)
    ensures Get(defaults, c) == Some(m.cols[c])
  {
    var p := SomeNewestFirst(defaults, ms);
    NewestFirstShutsOut(defaults, p, c);
    SameMembers(p, ms);
    var l: nat :| l < |p| && p[l] == m;
    assert l > 0;
    var q := ToFront(p, l);
    assert q[0] == m && q[1] == p[0];
    SameMembers(q, p);
    OlderFirstKeeps(defaults, q, c);
  }

  /** Arrival order does not matter exactly when the messages are reconciled. */
  lemma OrderFreeIffReconciled<C(!new), V(!new)>(defaults: map<C, V>, ms: seq<Msg<C, V>>)
    requires ms != []
    ensures OrderFree(defaults, ms) <==> Reconciled(defaults, ms)
  {
    if Reconciled(defaults, ms) {
      forall p: seq<Msg<C, V>> | multiset(p) == multiset(ms)
        ensures Fold(defaults, None, p) == Fold(defaults, None, ms)
      {
        SufficientForOrderFreedom(defaults, ms, p);
      }
    }
    if OrderFree(defaults, ms) {
      forall a, b, c | IsNewest(ms, a) && IsNewest(ms, b) && c in a.cols && c in b.cols
        ensures a.cols[c] == b.cols[c]
      {
        NewestMustAgree(defaults, ms, a, b, c);
      }
      forall m, c | m in ms && c in m.cols && !CarriedByNewest(ms, c)
        ensures Get(defaults, c) == Some(m.cols[c])
      {
        OlderMustMatchDefault(defaults, ms, m, c);
      }
    }
  }

  /** Full snapshots: every message carries every column, and different messages have different times. */
  ghost predicate Snapshots<C, V>(ms: seq<Msg<C, V>>, columns: set<C>) {
    && (forall m :: m in ms ==> m.cols.Keys == columns)
    && (forall a, b :: a in ms && b in ms && a.time == b.time ==> a == b)
  }

  /** Snapshots converge: every arrival order ends with exactly the newest message. */
  lemma SnapshotsConverge<C(!new), V(!new)>(defaults: map<C, V>, ms: seq<Msg<C, V>>, columns: set<C>,
                                           newest: Msg<C, V>, p: seq<Msg<C, V>>)
    requires Snapshots(ms, columns) && defaults.Keys <= columns
    requires IsNewest(ms, newest) && multiset(p) == multiset(ms)
    ensures Fold(defaults, None, p) == Some(Reg(newest.time, newest.cols))
  {
    assert Reconciled(defaults, ms);
    SufficientForOrderFreedom(defaults, ms, p);
    var n := NewestOf(defaults, ms);
    assert n == newest;
    forall c
      ensures Get(Fold(defaults, None, ms).value.cols, c) == Get(newest.cols, c)
    {
      ReconciledColumn(defaults, ms, c);
    }
    RegsEqual(Fold(defaults, None, ms).value, Reg(newest.time, newest.cols));
  }
}
