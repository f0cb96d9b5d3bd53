/** How mac-table and arp-table entries fill the batch: which fields form the key, and which columns the
    flush writes. Both loops of the consumer are instances of one batching consumer. */
module MacArp {
  import opened Options
  import opened BatchLog
  import opened BatchRuns

  type UInt32 = n: int | 0 <= n < 0x1_0000_0000
  type Int32 = n: int | -0x8000_0000 <= n < 0x8000_0000

  datatype MacEntry = MacEntry(time: int, nodeId: string, mac: string, iface: string, vlan: UInt32, macType: string)
  datatype ArpEntry = ArpEntry(time: int, nodeId: string, ip: string, mac: string, iface: string, age: UInt32)

  datatype MacColumns = MacColumns(iface: string, vlan: Int32, macType: string)
  datatype ArpColumns = ArpColumns(mac: string, iface: string, age: Int32)

  /** Go's conversion of a uint32 to an int32: the same 32 bits read as two's complement. */
  function ToInt32(n: UInt32): (r: Int32)
    ensures (r - n) % 0x1_0000_0000 == 0
  {
    if n < 0x8000_0000 then n else n - 0x1_0000_0000
  }

  function MacBatchEntry(e: MacEntry): Entry<(string, string), MacColumns> {
    Entry((e.nodeId, e.mac), MacColumns(e.iface, ToInt32(e.vlan), e.macType), e.time)
  }

  function ArpBatchEntry(e: ArpEntry): Entry<(string, string), ArpColumns> {
    Entry((e.nodeId, e.ip), ArpColumns(e.mac, e.iface, ToInt32(e.age)), e.time)
  }

  /** What the collector produces from clean devices: one timestamp for all entries of a message, no two
      different entries for one key in it, and later messages about a key stamped strictly later. */
  ghost predicate Stamped<K(!new), V(!new)>(log: seq<Message<K, V>>) {
    && (forall j, e, f :: 0 <= j < |log| && e in EntriesOf(log[j]) && f in EntriesOf(log[j]) && e.key == f.key ==> e == f)
    && (forall i, j, e, f :: 0 <= i < j < |log| && e in EntriesOf(log[i]) && f in EntriesOf(log[j]) && e.key == f.key ==>
          e.time < f.time)
  }

  lemma {:induction false} NewestIsMember<K, V>(es: seq<Entry<K, V>>, k: K)
    ensures Newest(es, k).Some? ==> Newest(es, k).value in es && Newest(es, k).value.key == k
  {
    if es != [] {
      NewestIsMember(es[..|es| - 1], k);
    }
  }

  lemma {:induction false} LatestIsMember<K, V>(es: seq<Entry<K, V>>, k: K)
    ensures Latest(es, k).Some? ==> Latest(es, k).value in es && Latest(es, k).value.key == k
  {
    if es != [] {
      LatestIsMember(es[..|es| - 1], k);
    }
  }

  /** Such logs are in order, although timestamps within a message all tie. */
  lemma StampedIsInOrder<K(!new), V(!new)>(log: seq<Message<K, V>>)
    requires Stamped(log)
    ensures InOrder(log)
  {
    forall j, k | 0 <= j < |log|
      ensures Newest(EntriesOf(log[j]), k) == Latest(EntriesOf(log[j]), k)
    {
      NewestIsMember(EntriesOf(log[j]), k);
      LatestIsMember(EntriesOf(log[j]), k);
      OccursInBoth(EntriesOf(log[j]), k);
    }
    forall i, j, k | 0 <= i < j < |log|
      ensures InOrderPair(Newest(EntriesOf(log[i]), k), Newest(EntriesOf(log[j]), k))
    {
      NewestIsMember(EntriesOf(log[i]), k);
      NewestIsMember(EntriesOf(log[j]), k);
    }
  }

  // ---- The tables, column by column --------------------------------------------------------------------------------

  /** Entry number j of message i, with no later entry behind it that `same` takes for the same row. */
  ghost predicate IsLastOf<E>(bodies: seq<seq<E>>, i: int, j: int, same: (E, E) -> bool) {
    && 0 <= i < |bodies| && 0 <= j < |bodies[i]|
    && (forall m :: j < m < |bodies[i]| ==> !same(bodies[i][j], bodies[i][m]))
    && (forall l, m :: i < l < |bodies| && 0 <= m < |bodies[l]| ==> !same(bodies[i][j], bodies[l][m]))
  }

  /** A log of decodable messages whose entries `conv` turns into batch entries. */
  function LogOf<E, K, V>(bodies: seq<seq<E>>, conv: E -> Entry<K, V>): seq<Message<K, V>> {
    seq(|bodies|, i requires 0 <= i < |bodies| =>
      Good(seq(|bodies[i]|, j requires 0 <= j < |bodies[i]| => conv(bodies[i][j]))))
  }

  lemma {:induction false} NoLatest<K, V>(es: seq<Entry<K, V>>, k: K)
    requires forall m :: 0 <= m < |es| ==> es[m].key != k
    ensures Latest(es, k).None?
  {
    if es != [] {
      NoLatest(es[..|es| - 1], k);
    }
  }

  lemma {:induction false} LatestAt<K, V>(es: seq<Entry<K, V>>, j: nat)
    requires j < |es| && forall m :: j < m < |es| ==> es[m].key != es[j].key
    ensures Latest(es, es[j].key) == Some(es[j])
  {
    if j < |es| - 1 {
      LatestAt(es[..|es| - 1], j);
    }
  }

  lemma {:induction false} NoneFrom<K, V>(log: seq<Message<K, V>>, lo: nat, hi: nat, k: K)
    requires lo <= hi <= |log|
    requires forall l, m :: lo <= l < hi && 0 <= m < |EntriesOf(log[l])| ==> EntriesOf(log[l])[m].key != k
    ensures Latest(LogEntries(log, lo, hi), k).None?
    decreases hi
  {
    if lo < hi {
      NoneFrom(log, lo, hi - 1, k);
      NoLatest(EntriesOf(log[hi - 1]), k);
      LatestAppend(LogEntries(log, lo, hi - 1), EntriesOf(log[hi - 1]), k);
    }
  }

  /** The last entry of a key is the key's row. */
  lemma LastEntryIsRow<K, V>(log: seq<Message<K, V>>, db: map<K, Row<V>>, i: nat, j: nat)
    requires i < |log| && j < |EntriesOf(log[i])|
    requires var k := EntriesOf(log[i])[j].key;
             && (forall m :: j < m < |EntriesOf(log[i])| ==> EntriesOf(log[i])[m].key != k)
             && (forall l, m :: i < l < |log| && 0 <= m < |EntriesOf(log[l])| ==> EntriesOf(log[l])[m].key != k)
    ensures Get(Reference(log, db, |log|), EntriesOf(log[i])[j].key) == Some(RowOf(EntriesOf(log[i])[j]))
  {
    var k := EntriesOf(log[i])[j].key;
    LatestAt(EntriesOf(log[i]), j);
    SingleMessage(log, i);
    LogSplit(log, i, i + 1, |log|);
    NoneFrom(log, i + 1, |log|, k);
    LatestAppend(LogEntries(log, i, i + 1), LogEntries(log, i + 1, |log|), k);
    ReferenceAt(log, db, i, |log|, k);
  }

  /** What mac_table holds under a node and an address after the last message about them: the columns of that very
      entry, its number as the int32 with the same bits, and its timestamp. */
  ghost predicate IsMacRow(row: Row<MacColumns>, e: MacEntry) {
    && row.time == e.time
    && row.body.iface == e.iface
    && row.body.macType == e.macType
    && (row.body.vlan - e.vlan) % 0x1_0000_0000 == 0
  }

  predicate SameMac(d: MacEntry, e: MacEntry) {
    d.nodeId == e.nodeId && d.mac == e.mac
  }

  /** mac_table recovers from every crash: on a log of stamped, decodable messages, in every run, a consumer that has
      re-read the whole log shows the row-at-a-time table, and under every node and address the columns of the
      last entry about them. */
  lemma MacTableRecovers(bodies: seq<seq<MacEntry>>, db: map<(string, string), Row<MacColumns>>,
                         states: seq<State<(string, string), MacColumns>>, steps: seq<Step>)
    requires var log := LogOf(bodies, MacBatchEntry);
             Stamped(log) && IsRunFrom(log, Start(db), states, steps)
    requires states[|steps|].pos == states[|steps|].high
    ensures ShowsPlainUpsert(LogOf(bodies, MacBatchEntry), db, states[|steps|])
    ensures states[|steps|].high == |bodies| ==>
              forall i, j :: IsLastOf(bodies, i, j, SameMac) ==>
                               var e, view := bodies[i][j], View(states[|steps|]);
                               (e.nodeId, e.mac) in view && IsMacRow(view[(e.nodeId, e.mac)], e)
  {
    var log := LogOf(bodies, MacBatchEntry);
    StampedLogRecovers(log, db, states, steps);
    if states[|steps|].high == |bodies| {
      forall i, j | IsLastOf(bodies, i, j, SameMac)
        ensures var e, view := bodies[i][j], View(states[|steps|]);
                (e.nodeId, e.mac) in view && IsMacRow(view[(e.nodeId, e.mac)], e)
      {
        LastMacEntryIsRow(bodies, db, i, j);
      }
    }
  }

  lemma LastMacEntryIsRow(bodies: seq<seq<MacEntry>>, db: map<(string, string), Row<MacColumns>>, i: nat, j: nat)
    requires IsLastOf(bodies, i, j, SameMac)
    ensures var e, table := bodies[i][j], Reference(LogOf(bodies, MacBatchEntry), db, |bodies|);
            (e.nodeId, e.mac) in table && IsMacRow(table[(e.nodeId, e.mac)], e)
  {
    var log, k := LogOf(bodies, MacBatchEntry), (bodies[i][j].nodeId, bodies[i][j].mac);
    forall l, m | 0 <= l < |bodies| && 0 <= m < |bodies[l]|
      ensures |EntriesOf(log[l])| == |bodies[l]|
      ensures EntriesOf(log[l])[m].key == k <==> SameMac(bodies[i][j], bodies[l][m])
    {
    }
    assert forall l :: 0 <= l < |bodies| ==> |EntriesOf(log[l])| == |bodies[l]|;
    LastEntryIsRow(log, db, i, j);
  }

  /** What arp_table holds under a node and an address after the last message about them: the columns of that very
      entry, its number as the int32 with the same bits, and its timestamp. */
  ghost predicate IsArpRow(row: Row<ArpColumns>, e: ArpEntry) {
    && row.time == e.time
    && row.body.mac == e.mac
    && row.body.iface == e.iface
    && (row.body.age - e.age) % 0x1_0000_0000 == 0
  }

  predicate SameArp(d: ArpEntry, e: ArpEntry) {
    d.nodeId == e.nodeId && d.ip == e.ip
  }

  /** arp_table recovers from every crash: on a log of stamped, decodable messages, in every run, a consumer that has
      re-read the whole log shows the row-at-a-time table, and under every node and address the columns of the
      last entry about them. */
  lemma ArpTableRecovers(bodies: seq<seq<ArpEntry>>, db: map<(string, string), Row<ArpColumns>>,
                         states: seq<State<(string, string), ArpColumns>>, steps: seq<Step>)
    requires var log := LogOf(bodies, ArpBatchEntry);
             Stamped(log) && IsRunFrom(log, Start(db), states, steps)
    requires states[|steps|].pos == states[|steps|].high
    ensures ShowsPlainUpsert(LogOf(bodies, ArpBatchEntry), db, states[|steps|])
    ensures states[|steps|].high == |bodies| ==>
              forall i, j :: IsLastOf(bodies, i, j, SameArp) ==>
                               var e, view := bodies[i][j], View(states[|steps|]);
                               (e.nodeId, e.ip) in view && IsArpRow(view[(e.nodeId, e.ip)], e)
  {
    var log := LogOf(bodies, ArpBatchEntry);
    StampedLogRecovers(log, db, states, steps);
    if states[|steps|].high == |bodies| {
      forall i, j | IsLastOf(bodies, i, j, SameArp)
        ensures var e, view := bodies[i][j], View(states[|steps|]);
                (e.nodeId, e.ip) in view && IsArpRow(view[(e.nodeId, e.ip)], e)
      {
        LastArpEntryIsRow(bodies, db, i, j);
      }
    }
  }

  lemma LastArpEntryIsRow(bodies: seq<seq<ArpEntry>>, db: map<(string, string), Row<ArpColumns>>, i: nat, j: nat)
    requires IsLastOf(bodies, i, j, SameArp)
    ensures var e, table := bodies[i][j], Reference(LogOf(bodies, ArpBatchEntry), db, |bodies|);
            (e.nodeId, e.ip) in table && IsArpRow(table[(e.nodeId, e.ip)], e)
  {
    var log, k := LogOf(bodies, ArpBatchEntry), (bodies[i][j].nodeId, bodies[i][j].ip);
    forall l, m | 0 <= l < |bodies| && 0 <= m < |bodies[l]|
      ensures |EntriesOf(log[l])| == |bodies[l]|
      ensures EntriesOf(log[l])[m].key == k <==> SameArp(bodies[i][j], bodies[l][m])
    {
    }
    assert forall l :: 0 <= l < |bodies| ==> |EntriesOf(log[l])| == |bodies[l]|;
    LastEntryIsRow(log, db, i, j);
  }

  lemma StampedLogRecovers<K(!new), V(!new)>(log: seq<Message<K, V>>, db: map<K, Row<V>>,
                                            states: seq<State<K, V>>, steps: seq<Step>)
    requires Stamped(log) && MalformedFree(log)
    requires IsRunFrom(log, Start(db), states, steps) && states[|steps|].pos == states[|steps|].high
    ensures ShowsPlainUpsert(log, db, states[|steps|])
  {
    StampedIsInOrder(log);
    MalformedFreeIsLossless(log, db, states, steps);
    CrashRecoveryRefinesPlainUpsert(log, db, states, steps);
  }
}
