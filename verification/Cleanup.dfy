/** Guarded tables under the minute-by-minute cleanup, with messages that arrive late. */
module Cleanup {
  import opened Options
  import opened Register
  import opened GuardedLog

  /** The table's life: a message is handled, or the cleanup ticks at some wall-clock time. */
  datatype Event<K, C, V> = Handled(key: K, msg: Msg<C, V>) | Tick(now: int)

  /** DELETE .. WHERE collected_at < now - ttl. */
  function DeleteStale<K, C, V>(t: Table<K, C, V>, cutoff: int): Table<K, C, V> {
    map k | k in t && !(t[k].time < cutoff) :: t[k]
  }

  function After<K, C, V>(defaults: map<C, V>, ttl: int, t: Table<K, C, V>, events: seq<Event<K, C, V>>): Table<K, C, V> {
    if events == [] then t
    else
      var before := After(defaults, ttl, t, events[..|events| - 1]);
      match events[|events| - 1]
      case Handled(k, m) => Apply(defaults, before, Item(k, m))
      case Tick(now) => DeleteStale(before, now - ttl)
  }

  ghost predicate ClockNeverGoesBack<K, C, V>(events: seq<Event<K, C, V>>) {
    forall i, j :: 0 <= i < j < |events| && events[i].Tick? && events[j].Tick? ==> events[i].now <= events[j].now
  }

  /** Time `at` was on the key's row at the start or on a message handled for the key. */
  ghost predicate Seen<K, C, V>(t: Table<K, C, V>, events: seq<Event<K, C, V>>, k: K, at: int) {
    || (k in t && t[k].time == at)
    || (exists i :: 0 <= i < |events| && events[i].Handled? && events[i].key == k && events[i].msg.time == at)
  }

  /** Not below any cutoff so far. */
  ghost predicate Fresh<K, C, V>(ttl: int, events: seq<Event<K, C, V>>, at: int) {
    forall i :: 0 <= i < |events| && events[i].Tick? ==> events[i].now - ttl <= at
  }

  lemma SeenPrefix<K, C, V>(t: Table<K, C, V>, events: seq<Event<K, C, V>>, k: K, at: int)
    requires events != []
    ensures var last := events[|events| - 1];
            Seen(t, events, k, at) <==>
            Seen(t, events[..|events| - 1], k, at) || (last.Handled? && last.key == k && last.msg.time == at)
  {
    var init := events[..|events| - 1];
    assert forall i :: 0 <= i < |init| ==> init[i] == events[i];
    if Seen(t, init, k, at) && !(k in t && t[k].time == at) {
      var i :| 0 <= i < |init| && init[i].Handled? && init[i].key == k && init[i].msg.time == at;
      assert events[i].msg.time == at;
    }
  }

  /** A row's time was seen, and a time that no tick has cut off is still on record or beaten. */
  ghost predicate RowTracksSeen<K, C, V>(defaults: map<C, V>, ttl: int, t: Table<K, C, V>, events: seq<Event<K, C, V>>, k: K) {
    var table := After(defaults, ttl, t, events);
    && (k in table ==> Seen(t, events, k, table[k].time))
    && (forall at :: Seen(t, events, k, at) && Fresh(ttl, events, at) ==> k in table && at <= table[k].time)
  }

  lemma {:induction false} RowTracksSeenHolds<K, C, V>(defaults: map<C, V>, ttl: int, t: Table<K, C, V>,
                                                      events: seq<Event<K, C, V>>, k: K)
    ensures RowTracksSeen(defaults, ttl, t, events, k)
  {
    if events != [] {
      var n := |events| - 1;
      var init, last := events[..n], events[n];
      RowTracksSeenHolds(defaults, ttl, t, init, k);
      assert forall i :: 0 <= i < n ==> init[i] == events[i];
      var before, table := After(defaults, ttl, t, init), After(defaults, ttl, t, events);
      if k in table {
        SeenPrefix(t, events, k, table[k].time);
      }
      forall at | Seen(t, events, k, at) && Fresh(ttl, events, at)
        ensures k in table && at <= table[k].time
      {
        SeenPrefix(t, events, k, at);
      }
    }
  }

  lemma FreshAtLastTick<K, C, V>(ttl: int, events: seq<Event<K, C, V>>, at: int)
    requires events != [] && events[|events| - 1].Tick? && ClockNeverGoesBack(events)
    ensures Fresh(ttl, events, at) <==> events[|events| - 1].now - ttl <= at
  {
  }

  /** Right after a tick a key is present exactly when some message handled for it, at whatever point of the
      history, is at or above the tick's cutoff; the row then carries the newest time handled. So nothing
      refreshed within its TTL is removed, nothing stale survives, and a late message cannot keep a
      deleted row alive past the next tick. */
  lemma PresentAfterTickIff<K, C, V>(defaults: map<C, V>, ttl: int, t: Table<K, C, V>, events: seq<Event<K, C, V>>, k: K)
    requires events != [] && events[|events| - 1].Tick? && ClockNeverGoesBack(events)
    ensures var table := After(defaults, ttl, t, events);
            var cutoff := events[|events| - 1].now - ttl;
            && (k in table <==> exists at :: Seen(t, events, k, at) && cutoff <= at)
            && (k in table ==> cutoff <= table[k].time && Seen(t, events, k, table[k].time))
            && (k in table ==> forall at :: Seen(t, events, k, at) ==> at <= table[k].time)
  {
    RowTracksSeenHolds(defaults, ttl, t, events, k);
    var table := After(defaults, ttl, t, events);
    var cutoff := events[|events| - 1].now - ttl;
    forall at
      ensures Fresh(ttl, events, at) <==> cutoff <= at
    {
      FreshAtLastTick(ttl, events, at);
    }
  }

  /** A key whose row a tick has just removed, and which then only receives messages below the next tick's
      cutoff, is absent after that next tick; one message at or above the cutoff keeps it. */
  lemma LateMessagesDoNotRevive<K, C, V>(defaults: map<C, V>, ttl: int, t: Table<K, C, V>,
                                        before: seq<Event<K, C, V>>, between: seq<Event<K, C, V>>, tick: Event<K, C, V>, k: K)
    requires before != [] && before[|before| - 1].Tick? && tick.Tick?
    requires ClockNeverGoesBack(before + between + [tick])
    requires k !in After(defaults, ttl, t, before)
    ensures k in After(defaults, ttl, t, before + between + [tick]) <==>
            exists i :: 0 <= i < |between| && between[i].Handled? && between[i].key == k && tick.now - ttl <= between[i].msg.time
  {
    var all := before + between + [tick];
    assert all[|before| - 1] == before[|before| - 1];
    assert forall i :: 0 <= i < |before| ==> all[i] == before[i];
    assert forall i :: 0 <= i < |between| ==> all[|before| + i] == between[i];
    PresentAfterTickIff(defaults, ttl, t, before, k);
    PresentAfterTickIff(defaults, ttl, t, all, k);
    var cutoff := tick.now - ttl;
    if k in After(defaults, ttl, t, all) {
      var at :| Seen(t, all, k, at) && cutoff <= at;
      assert !Seen(t, before, k, at);
      var i :| 0 <= i < |all| && all[i].Handled? && all[i].key == k && all[i].msg.time == at;
      assert i >= |before|;
      assert all[i] == between[i - |before|];
    }
    if i :| 0 <= i < |between| && between[i].Handled? && between[i].key == k && cutoff <= between[i].msg.time {
      assert all[|before| + i] == between[i];
      assert Seen(t, all, k, between[i].msg.time);
    }
  }

  /** The messages handled for a key. */
  function HandledFor<K(==), C, V>(k: K, events: seq<Event<K, C, V>>): seq<Msg<C, V>> {
    if events == [] then []
    else
      var e := events[|events| - 1];
      HandledFor(k, events[..|events| - 1]) + if e.Handled? && e.key == k then [e.msg] else []
  }

  /** No tick in the history removes the key's row. */
  ghost predicate NeverDeleted<K, C, V>(defaults: map<C, V>, ttl: int, t: Table<K, C, V>, events: seq<Event<K, C, V>>, k: K) {
    forall i :: 0 <= i < |events| && events[i].Tick? && k in After(defaults, ttl, t, events[..i]) ==>
                  events[i].now - ttl <= After(defaults, ttl, t, events[..i])[k].time
  }

  /** Between deletions a row is the fold of its messages, so what Register says of folds holds of it. */
  lemma {:induction false} RowBetweenDeletions<K, C, V>(defaults: map<C, V>, ttl: int, t: Table<K, C, V>,
                                                       events: seq<Event<K, C, V>>, k: K)
    requires NeverDeleted(defaults, ttl, t, events, k)
    ensures Get(After(defaults, ttl, t, events), k) == Fold(defaults, Get(t, k), HandledFor(k, events))
  {
    if events != [] {
      var n := |events| - 1;
      var init, last := events[..n], events[n];
      forall i | 0 <= i < n && init[i].Tick? && k in After(defaults, ttl, t, init[..i])
        ensures init[i].now - ttl <= After(defaults, ttl, t, init[..i])[k].time
      {
        assert init[..i] == events[..i];
        assert init[i] == events[i];
      }
      RowBetweenDeletions(defaults, ttl, t, init, k);
      var ms := HandledFor(k, events);
      if last.Handled? && last.key == k {
        assert ms[..|ms| - 1] == HandledFor(k, init);
      } else {
        assert ms == HandledFor(k, init);
        assert events[n] == last;
      }
    }
  }
}
