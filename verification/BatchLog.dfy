/** The log that consumeMACBatch and consumeARPBatch read, and the two ways of folding it that are
    compared: what a batch keeps of a key, and what a row-at-a-time upsert leaves of it. */
module BatchLog {
  import opened Options

  /** One element of a message: a key, the columns to store under it, and its timestamp. */
  datatype Entry<K, V> = Entry(key: K, body: V, time: int)

  /** A message either decodes into entries, possibly none, or does not decode at all. */
  datatype Message<K, V> = Good(entries: seq<Entry<K, V>>) | Malformed

  datatype Row<V> = Row(body: V, time: int)

  function RowOf<K, V>(e: Entry<K, V>): Row<V> {
    Row(e.body, e.time)
  }

  function EntriesOf<K, V>(m: Message<K, V>): seq<Entry<K, V>> {
    if m.Good? then m.entries else []
  }

  /** The entries of messages lo, .., hi - 1 in order. */
  function LogEntries<K, V>(log: seq<Message<K, V>>, lo: nat, hi: nat): seq<Entry<K, V>>
    requires lo <= hi <= |log|
    decreases hi
  {
    if lo == hi then [] else LogEntries(log, lo, hi - 1) + EntriesOf(log[hi - 1])
  }

  // ---- What a batch keeps -----------------------------------------------------------------------

  /** The loop body of the receive branch: a tie keeps the entry already there. */
  function Absorb<K, V>(batch: map<K, Entry<K, V>>, e: Entry<K, V>): map<K, Entry<K, V>> {
    if e.key !in batch || e.time > batch[e.key].time then batch[e.key := e] else batch
  }

  function AbsorbAll<K, V>(batch: map<K, Entry<K, V>>, es: seq<Entry<K, V>>): map<K, Entry<K, V>> {
    if es == [] then batch else Absorb(AbsorbAll(batch, es[..|es| - 1]), es[|es| - 1])
  }

  /** What absorbing `es` into an empty batch leaves under `k`. */
  function Newest<K(==), V>(es: seq<Entry<K, V>>, k: K): Option<Entry<K, V>> {
    if es == [] then None
    else
      var before := Newest(es[..|es| - 1], k);
      var e := es[|es| - 1];
      if e.key == k && (before.None? || e.time > before.value.time) then Some(e) else before
  }

  /** es[i] is the first entry of maximal timestamp among the entries with its key. */
  ghost predicate FirstMaximal<K, V>(es: seq<Entry<K, V>>, i: int) {
    && 0 <= i < |es|
    && (forall j :: 0 <= j < |es| && es[j].key == es[i].key ==> es[j].time <= es[i].time)
    && (forall j :: 0 <= j < i && es[j].key == es[i].key ==> es[j].time < es[i].time)
  }

  /** Newest, without recursion: the first entry of maximal timestamp with that key. */
  lemma {:induction false} NewestIsFirstMaximal<K, V>(es: seq<Entry<K, V>>, k: K) returns (at: int)
    ensures Newest(es, k).None? <==> forall i :: 0 <= i < |es| ==> es[i].key != k
    ensures Newest(es, k).Some? ==> FirstMaximal(es, at) && es[at].key == k && es[at] == Newest(es, k).value
  {
    at := 0;
    if es != [] {
      var n := |es| - 1;
      var init, e := es[..n], es[n];
      at := NewestIsFirstMaximal(init, k);
      if e.key == k && (Newest(init, k).None? || e.time > init[at].time) {
        at := n;
        assert forall j :: 0 <= j < n ==> es[j] == init[j];
      } else {
        assert forall j :: 0 <= j < n ==> es[j] == init[j];
      }
    }
  }

  function Newer<K, V>(x: Option<Entry<K, V>>, y: Option<Entry<K, V>>): Option<Entry<K, V>> {
    if y.None? then x else if x.None? || y.value.time > x.value.time then y else x
  }

  lemma {:induction false} NewestAppend<K, V>(a: seq<Entry<K, V>>, b: seq<Entry<K, V>>, k: K)
    ensures Newest(a + b, k) == Newer(Newest(a, k), Newest(b, k))
  {
    if b == [] {
      assert a + b == a;
    } else {
      assert (a + b)[..|a + b| - 1] == a + b[..|b| - 1];
      NewestAppend(a, b[..|b| - 1], k);
    }
  }

  /** The batch is exactly the newest entry of every key, under that key. */
  ghost predicate HoldsNewest<K(!new), V>(batch: map<K, Entry<K, V>>, es: seq<Entry<K, V>>) {
    forall k :: Get(batch, k) == Newest(es, k)
  }

  lemma {:induction false} AbsorbAllHoldsNewest<K(!new), V>(batch: map<K, Entry<K, V>>,
                                                            seen: seq<Entry<K, V>>, es: seq<Entry<K, V>>)
    requires HoldsNewest(batch, seen)
    ensures HoldsNewest(AbsorbAll(batch, es), seen + es)
  {
    if es == [] {
      assert seen + es == seen;
    } else {
      var init := es[..|es| - 1];
      AbsorbAllHoldsNewest(batch, seen, init);
      assert (seen + es)[..|seen + es| - 1] == seen + init;
      forall k
        ensures Get(AbsorbAll(batch, es), k) == Newest(seen + es, k)
      {
        assert Get(AbsorbAll(batch, init), k) == Newest(seen + init, k);
        var last := es[|es| - 1].key;
        assert Get(AbsorbAll(batch, init), last) == Newest(seen + init, last);
      }
    }
  }

  lemma {:induction false} NewestKey<K, V>(es: seq<Entry<K, V>>, k: K)
    ensures Newest(es, k).Some? ==> Newest(es, k).value.key == k
  {
    if es != [] {
      NewestKey(es[..|es| - 1], k);
    }
  }

  // ---- What a row-at-a-time upsert leaves ---------------------------------------------------------

  /** The reference: every entry overwrites its row, in log order, without batching. */
  function PlainUpsert<K, V>(db: map<K, Row<V>>, es: seq<Entry<K, V>>): map<K, Row<V>> {
    if es == [] then db
    else
      var e := es[|es| - 1];
      PlainUpsert(db, es[..|es| - 1])[e.key := RowOf(e)]
  }

  /** The last entry with key `k`. */
  function Latest<K(==), V>(es: seq<Entry<K, V>>, k: K): Option<Entry<K, V>> {
    if es == [] then None
    else if es[|es| - 1].key == k then Some(es[|es| - 1])
    else Latest(es[..|es| - 1], k)
  }

  lemma {:induction false} LatestAppend<K, V>(a: seq<Entry<K, V>>, b: seq<Entry<K, V>>, k: K)
    ensures Latest(a + b, k) == if Latest(b, k).Some? then Latest(b, k) else Latest(a, k)
  {
    if b == [] {
      assert a + b == a;
    } else {
      assert (a + b)[..|a + b| - 1] == a + b[..|b| - 1];
      LatestAppend(a, b[..|b| - 1], k);
    }
  }

  lemma {:induction false} PlainUpsertKeepsLatest<K, V>(db: map<K, Row<V>>, es: seq<Entry<K, V>>, k: K)
    ensures Get(PlainUpsert(db, es), k) ==
            if Latest(es, k).Some? then Some(RowOf(Latest(es, k).value)) else Get(db, k)
  {
    if es != [] {
      PlainUpsertKeepsLatest(db, es[..|es| - 1], k);
    }
  }

  lemma {:induction false} OccursInBoth<K, V>(es: seq<Entry<K, V>>, k: K)
    ensures Newest(es, k).Some? <==> Latest(es, k).Some?
  {
    if es != [] {
      OccursInBoth(es[..|es| - 1], k);
    }
  }

  // ---- Windows of the log ---------------------------------------------------------------------------

  lemma {:induction false} LogSplit<K, V>(log: seq<Message<K, V>>, lo: nat, mid: nat, hi: nat)
    requires lo <= mid <= hi <= |log|
    ensures LogEntries(log, lo, hi) == LogEntries(log, lo, mid) + LogEntries(log, mid, hi)
    decreases hi
  {
    if mid < hi {
      LogSplit(log, lo, mid, hi - 1);
    }
  }

  /** Some message lo, .., hi - 1 carries key `k`. */
  ghost predicate Occurs<K, V>(log: seq<Message<K, V>>, lo: nat, hi: nat, k: K)
    requires lo <= hi <= |log|
  {
    Latest(LogEntries(log, lo, hi), k).Some?
  }

  lemma OccursSplit<K, V>(log: seq<Message<K, V>>, lo: nat, mid: nat, hi: nat, k: K)
    requires lo <= mid <= hi <= |log|
    ensures Occurs(log, lo, hi, k) <==> Occurs(log, lo, mid, k) || Occurs(log, mid, hi, k)
  {
    LogSplit(log, lo, mid, hi);
    LatestAppend(LogEntries(log, lo, mid), LogEntries(log, mid, hi), k);
  }

  /** The row-at-a-time table after the first q messages. */
  function Reference<K, V>(log: seq<Message<K, V>>, db: map<K, Row<V>>, q: nat): map<K, Row<V>>
    requires q <= |log|
  {
    PlainUpsert(db, LogEntries(log, 0, q))
  }

  lemma ReferenceAt<K, V>(log: seq<Message<K, V>>, db: map<K, Row<V>>, lo: nat, hi: nat, k: K)
    requires lo <= hi <= |log|
    ensures Get(Reference(log, db, hi), k) ==
            if Occurs(log, lo, hi, k) then Some(RowOf(Latest(LogEntries(log, lo, hi), k).value))
            else Get(Reference(log, db, lo), k)
  {
    LogSplit(log, 0, lo, hi);
    LatestAppend(LogEntries(log, 0, lo), LogEntries(log, lo, hi), k);
    PlainUpsertKeepsLatest(db, LogEntries(log, 0, hi), k);
    PlainUpsertKeepsLatest(db, LogEntries(log, 0, lo), k);
  }

  // ---- When batching and row-at-a-time agree ----------------------------------------------------------

  /** Within a message the batch's choice for a key is the last entry with that key, and of two messages
      with the same key the later one carries a strictly newer choice or the very same one. */
  ghost predicate InOrder<K(!new), V>(log: seq<Message<K, V>>) {
    && (forall j, k :: 0 <= j < |log| ==> Newest(EntriesOf(log[j]), k) == Latest(EntriesOf(log[j]), k))
    && (forall i, j, k :: 0 <= i < j < |log| ==>
          InOrderPair(Newest(EntriesOf(log[i]), k), Newest(EntriesOf(log[j]), k)))
  }

  predicate InOrderPair<K(==), V(==)>(x: Option<Entry<K, V>>, y: Option<Entry<K, V>>) {
    x.Some? && y.Some? ==> x.value.time < y.value.time || x == y
  }

  /** The newest entry of a window comes from one of its messages. */
  lemma {:induction false} WindowNewestSource<K, V>(log: seq<Message<K, V>>, lo: nat, hi: nat, k: K) returns (i: nat)
    requires lo <= hi <= |log|
    requires Newest(LogEntries(log, lo, hi), k).Some?
    ensures lo <= i < hi
    ensures Newest(EntriesOf(log[i]), k) == Newest(LogEntries(log, lo, hi), k)
    decreases hi
  {
    NewestAppend(LogEntries(log, lo, hi - 1), EntriesOf(log[hi - 1]), k);
    if Newest(LogEntries(log, lo, hi), k) == Newest(EntriesOf(log[hi - 1]), k) {
      i := hi - 1;
    } else {
      i := WindowNewestSource(log, lo, hi - 1, k);
    }
  }

  lemma AppendAgrees<K, V>(a: seq<Entry<K, V>>, b: seq<Entry<K, V>>, k: K)
    requires Newest(a, k) == Latest(a, k) && Newest(b, k) == Latest(b, k)
    requires InOrderPair(Newest(a, k), Newest(b, k))
    ensures Newest(a + b, k) == Latest(a + b, k)
  {
    NewestAppend(a, b, k);
    LatestAppend(a, b, k);
  }

  /** On an ordered log every window's newest entry is its last entry. */
  lemma {:induction false} WindowAgrees<K(!new), V>(log: seq<Message<K, V>>, lo: nat, hi: nat, k: K)
    requires InOrder(log)
    requires lo <= hi <= |log|
    ensures Newest(LogEntries(log, lo, hi), k) == Latest(LogEntries(log, lo, hi), k)
    decreases hi
  {
    if lo < hi {
      var before, last := LogEntries(log, lo, hi - 1), EntriesOf(log[hi - 1]);
      WindowAgrees(log, lo, hi - 1, k);
      if Newest(before, k).Some? {
        var i := WindowNewestSource(log, lo, hi - 1, k);
        assert InOrderPair(Newest(EntriesOf(log[i]), k), Newest(last, k));
      }
      AppendAgrees(before, last, k);
    }
  }

  ghost predicate WindowsAgree<K(!new), V>(log: seq<Message<K, V>>) {
    forall lo: nat, hi: nat, k :: lo <= hi <= |log| ==> WindowAgreesAt(log, lo, hi, k)
  }

  ghost predicate WindowAgreesAt<K, V>(log: seq<Message<K, V>>, lo: nat, hi: nat, k: K)
    requires lo <= hi <= |log|
  {
    Newest(LogEntries(log, lo, hi), k) == Latest(LogEntries(log, lo, hi), k)
  }

  lemma SingleMessage<K, V>(log: seq<Message<K, V>>, j: nat)
    requires j < |log|
    ensures LogEntries(log, j, j + 1) == EntriesOf(log[j])
  {
    assert LogEntries(log, j, j + 1) == LogEntries(log, j, j) + EntriesOf(log[j]);
  }

  lemma AgreeingPair<K, V>(log: seq<Message<K, V>>, i: nat, j: nat, k: K)
    requires i < j < |log|
    requires WindowAgreesAt(log, i, j + 1, k) && WindowAgreesAt(log, j, j + 1, k)
    ensures InOrderPair(Newest(EntriesOf(log[i]), k), Newest(EntriesOf(log[j]), k))
  {
    var first, last := EntriesOf(log[i]), EntriesOf(log[j]);
    SingleMessage(log, i);
    SingleMessage(log, j);
    LogSplit(log, i, i + 1, j + 1);
    NewestAppend(first, LogEntries(log, i + 1, j + 1), k);
    NewestAppend(LogEntries(log, i + 1, j), last, k);
    LatestAppend(LogEntries(log, i, j), last, k);
    OccursInBoth(last, k);
  }

  /** Conversely, if every window agrees then the log is ordered. */
  lemma AgreeingWindowsAreInOrder<K(!new), V>(log: seq<Message<K, V>>)
    requires WindowsAgree(log)
    ensures InOrder(log)
  {
    forall j: nat, k | j < |log|
      ensures Newest(EntriesOf(log[j]), k) == Latest(EntriesOf(log[j]), k)
    {
      assert WindowAgreesAt(log, j, j + 1, k);
      SingleMessage(log, j);
    }
    forall i: nat, j: nat, k | i < j < |log|
      ensures InOrderPair(Newest(EntriesOf(log[i]), k), Newest(EntriesOf(log[j]), k))
    {
      assert WindowAgreesAt(log, i, j + 1, k) && WindowAgreesAt(log, j, j + 1, k);
      AgreeingPair(log, i, j, k);
    }
  }

  /** Timestamps that strictly increase per key along the whole log. */
  ghost predicate StrictlyIncreasing<K, V>(es: seq<Entry<K, V>>) {
    forall i, j :: 0 <= i < j < |es| && es[i].key == es[j].key ==> es[i].time < es[j].time
  }

  lemma {:induction false} StrictNewestIsLatest<K, V>(es: seq<Entry<K, V>>, k: K)
    requires StrictlyIncreasing(es)
    ensures Newest(es, k) == Latest(es, k)
  {
    if es != [] {
      var init := es[..|es| - 1];
      StrictNewestIsLatest(init, k);
      var at := NewestIsFirstMaximal(init, k);
      assert Newest(init, k).Some? ==> es[at] == init[at];
    }
  }

  lemma StrictWindow<K, V>(log: seq<Message<K, V>>, lo: nat, hi: nat)
    requires lo <= hi <= |log|
    requires StrictlyIncreasing(LogEntries(log, 0, |log|))
    ensures StrictlyIncreasing(LogEntries(log, lo, hi))
  {
    var head, w, tail := LogEntries(log, 0, lo), LogEntries(log, lo, hi), LogEntries(log, hi, |log|);
    LogSplit(log, 0, lo, |log|);
    LogSplit(log, lo, hi, |log|);
    var all := head + (w + tail);
    assert forall i :: 0 <= i < |w| ==> w[i] == all[|head| + i];
  }

  /** Strictly increasing timestamps per key are enough. */
  lemma StrictIsInOrder<K(!new), V>(log: seq<Message<K, V>>)
    requires StrictlyIncreasing(LogEntries(log, 0, |log|))
    ensures InOrder(log)
  {
    forall lo: nat, hi: nat, k | lo <= hi <= |log|
      ensures WindowAgreesAt(log, lo, hi, k)
    {
      StrictWindow(log, lo, hi);
      StrictNewestIsLatest(LogEntries(log, lo, hi), k);
    }
    AgreeingWindowsAreInOrder(log);
  }
}
